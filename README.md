# Token vocabulary (vocab.Dict) in Dafny

This project models the word-token vocabulary of the `vocab` Go package. A
vocabulary is a dictionary from token strings to 32-bit indices. It is built
in one of two ways:

- **Positionally.** `New` gives token `i` of a slice the index `i`. A later
  duplicate overwrites an earlier one.
- **By addition.** `Add` gives a new token the current size as its index and
  rejects a token that is already present. `FromFile` uses `Add` for each line.

The dictionary is queried by token (`Index`, `HasToken`), by index (`Token`,
`HasIdx`, both scans over the map) and for its size (`Size`).

The project has two files:

- `tokens.dfy` (module `TokenMap`) is the pure specification over
  `map<string, Idx>`. It holds:
  - positional construction (`FromSeq`), addition (`AddTo`) and line loading
    (`FoldAdd`);
  - the invariants `Injective` (no two tokens share an index) and `Dense` (the
    stored indices are exactly `0..size-1`);
  - the lemmas that connect them.
- `vocab.dfy` (module `Vocab`) is the dictionary object: class `Dict` with its
  `tokens` map, a constructor for `New`, a state-changing `Add`, the queries,
  and `FromLines`, which is the loading loop of `FromFile`.

The dictionary's invariant `Dict.Valid()` (dense and injective indices) is
proved for two kinds of dictionary: one built by `New` from distinct tokens,
and one built from the empty dictionary by any sequence of `Add` calls. It is
not a general invariant of the code. `New(["a","b","a"])` gives `a=2, b=1` and
size 2, so a following `Add("c")` gives `c` the index 2, which `a` already
has. `DuplicatesThenAddCollide` proves this. For a dictionary in that state,
`Token` may return either of the two tokens that share an index.

Two consequences of the code are easy to miss:

- Indices are not unique after `New` receives duplicates and `Add` is then
  called.
- `New` stores each token's position as its index, so a duplicate leaves a
  gap in the indices. For example, `New(["cat","dog","cat","bird"])` gives
  `bird` the index 3 with size 3, and no token has index 0 (`NewScenario`).

## Model

| member | source | states |
|---|---|---|
| TokenMap.FromSeq | vocab/vocab.go:27-33 | the tokens stored by positional construction are exactly those of the input, and there are at most as many as input positions |
| TokenMap.FromSeqLastOccurrence | vocab/vocab.go:29-31 | each stored token's index is a position where it occurs, and no later position holds it (last write wins) |
| TokenMap.FromSeqSize | vocab/vocab.go:29-31 | the size after positional construction is the number of distinct input tokens |
| TokenMap.FromSeqDistinct | vocab/vocab.go:27-33 | over distinct tokens, token i has index i, the size is the input length, and indices are dense and unique |
| TokenMap.AddTo | vocab/vocab.go:53-62 | a present token yields the duplicate error and the same map; an absent token yields no error, is stored with the old size as index, the size grows by one, and every other token keeps its index |
| TokenMap.AddPreservesWellFormed | vocab/vocab.go:60 | adding to a map with dense, unique indices keeps them dense and unique |
| TokenMap.FoldAdd | vocab/vocab.go:44-47 | loading lines grows the map by at most one entry per line, keeps every token already present and keeps its index |
| TokenMap.FoldAddPreservesWellFormed | vocab/vocab.go:44-47 | any sequence of additions keeps indices dense and unique |
| TokenMap.Dedup | vocab/vocab.go:44-47 | the first occurrences of the lines are distinct and are exactly the tokens of the lines |
| TokenMap.DedupOrder | vocab/vocab.go:44-47 | the first occurrences are kept in the order in which they first appear in the lines |
| TokenMap.FoldAddIsFromSeqOfDedup | vocab/vocab.go:44-47 | loading lines into an empty map equals positional construction over their first occurrences, so repeated lines are skipped and never overwrite |
| TokenMap.FoldAddRanks | vocab/vocab.go:44-47 | after loading, the i-th distinct line has index i, the size is the number of distinct lines, and indices are dense and unique |
| TokenMap.DuplicatesThenAddCollide | vocab/vocab.go:27-62 | after New(["a","b","a"]) and then Add("c"), tokens a and c share index 2, so indices are not unique |
| TokenMap.NewScenario | vocab/vocab.go:27-33 | New(["cat","dog","cat","bird"]) gives cat=2, dog=1, bird=3 |
| TokenMap.FileScenario | vocab/vocab.go:44-47 | loading the lines apple, banana, apple, cherry gives apple=0, banana=1, cherry=2 |
| Vocab.Dict.New | vocab/vocab.go:27-33 | the filling loop stores exactly the positional construction of the input, and the dictionary is valid when the input tokens are distinct |
| Vocab.Dict.Add | vocab/vocab.go:53-62 | the new map and error are those of AddTo; there is no error exactly when the token was absent; on success the token is present with the old size as index and the size grows by one; validity is preserved |
| Vocab.Dict.Index | vocab/vocab.go:66-73 | no error exactly when the token is present, and then the stored index is returned; otherwise -1 with the not-found error; in a valid dictionary a found index is below the size |
| Vocab.Dict.HasToken | vocab/vocab.go:101-107 | a token is present exactly when Index reports no error for it |
| Vocab.Dict.Size | vocab/vocab.go:110-112 | the size is the number of stored tokens; in a valid dictionary the stored indices are exactly 0..Size()-1 |
| Vocab.Dict.Token | vocab/vocab.go:76-85 | when some token has the index, the scan returns a token stored with that index (the only one, in a valid dictionary); otherwise the empty string |
| Vocab.Dict.HasIdx | vocab/vocab.go:88-98 | true exactly when some token has the index; in a valid dictionary, exactly when 0 <= idx < Size() |
| Vocab.FromLines | vocab/vocab.go:44-49 | the loading loop yields a fresh dictionary equal to folding Add over the lines from empty, and the result is valid |
| Vocab.IndexThenToken | vocab/vocab.go:66-85 | in a valid dictionary, Token(Index(t)) returns t for every present token t |

## Left out

- File I/O in `FromFile` is not modelled. This covers opening the file, closing it, `bufio.Scanner` line splitting with its line-length limit and `\r` stripping, and the ignored scanner error. `Vocab.FromLines` takes the lines already split as a `seq<string>`. `FromFile` returns its I/O error only before any line is read.
- `fmt.Sprintf(token)` in `Token` is not modelled. It would reinterpret `%` verbs inside a token. The model returns the stored token itself.
- Map iteration order is not modelled. `Token` and `HasIdx` visit the keys in an unspecified order, and the model picks each next key with `:|`. When two tokens share an index, `Vocab.Dict.Token` promises only some token with that index, because the source does not fix which one.
- Vocab.Dict.Add: does not model the wrap-around of the 32-bit `Idx(v.Size())`. It requires the new index to fit (`Size() < 2^31`) whenever the token is new. A duplicate never computes an index, so it is accepted at any size.
- Vocab.Dict.New: does not model the wrap-around of `Idx(i)` for inputs longer than 2^31. It requires the input to be at most that long.
- Vocab.FromLines: requires at most 2^31 lines, which is stronger than the source needs. The source wraps only once the number of distinct lines passes 2^31, because only a new line computes `Idx(v.Size())`.
- Vocab.Dict: the zero `Dict` with a nil map is not modelled. `FromFile` returns it on an open error, and `var d vocab.Dict` or `vocab.Dict{}` creates it. Every query answers on it as on an empty dictionary, but `Add` on it panics, because it assigns to a nil map. Every dictionary in the model holds a map.
- `Idx.Int32()` is not modelled because it is the identity conversion. `Idx` is a subset type of `int` holding the 32-bit signed range.
- Error values are not modelled as Go `error` strings. They are the constructors `DuplicateToken` and `TokenNotFound`, and `None` stands for a nil error.
- Go value semantics of `Dict` are not modelled. A copied `Dict` struct shares its map with the original. The model has one object per dictionary.
