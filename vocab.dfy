/** The token vocabulary: a dictionary object whose only state is its map
    from token to index. Construction, addition and lookups follow the
    operations of the vocab package; the pure specification they are proved
    against lives in TokenMap. */
module Vocab {
  import opened TokenMap

  class Dict {
    var tokens: Tokens

    /** Indices are dense in 0..Size()-1 and unique. Holds for dictionaries
        built from distinct tokens or from the empty one by additions. */
    ghost predicate Valid()
      reads this
    {
      WellFormed(tokens)
    }

    /** Positional construction: token i of the input gets index i. */
    constructor New(ts: seq<string>)
      requires |ts| <= IDX_LIMIT
      ensures tokens == FromSeq(ts)
      ensures Distinct(ts) ==> Valid()
    {
      var v: Tokens := map[];
      var i := 0;
      while i < |ts|
        invariant 0 <= i <= |ts|
        invariant v == FromSeq(ts[..i])
      {
        assert ts[..i + 1][..i] == ts[..i];
        v := v[ts[i] := i];
        i := i + 1;
      }
      assert ts[..|ts|] == ts;
      tokens := v;
      if Distinct(ts) {
        FromSeqDistinct(ts);
      }
    }

    /** Adds a token with the current size as index, or reports a duplicate
        and changes nothing. */
    method Add(t: string) returns (err: Option<Error>)
      requires HasToken(t) || Size() < IDX_LIMIT
      modifies this
      ensures (tokens, err) == AddTo(old(tokens), t)
      ensures err == None <==> !old(HasToken(t))
      ensures err == None ==> HasToken(t) && Index(t) == (old(Size()), None) && Size() == old(Size()) + 1
      ensures old(Valid()) ==> Valid()
    {
      if HasToken(t) {
        err := Some(DuplicateToken);
        return;
      }
      ghost var before := tokens;
      tokens := tokens[t := Size()];
      err := None;
      if WellFormed(before) {
        AddPreservesWellFormed(before, t);
      }
    }

    /** The index of t, or the sentinel -1 with an error when t is absent. */
    function Index(t: string): (r: (Idx, Option<Error>))
      reads this
      ensures r.1 == None <==> t in tokens
      ensures r.1 == None ==> r.0 == tokens[t]
      ensures r.1 != None ==> r == (-1, Some(TokenNotFound))
      ensures Valid() && r.1 == None ==> 0 <= r.0 < Size()
    {
      if t in tokens then
        assert IdxPresent(tokens, tokens[t]);
        (tokens[t], None)
      else (-1, Some(TokenNotFound))
    }

    /** Whether t is stored; agrees with Index reporting no error. */
    predicate HasToken(t: string)
      reads this
      ensures HasToken(t) <==> Index(t).1 == None
    {
      t in tokens
    }

    /** The number of stored tokens. */
    function Size(): (n: nat)
      reads this
      ensures n == |tokens.Keys|
      ensures Valid() ==> forall i :: IdxPresent(tokens, i) <==> 0 <= i < n
    {
      |tokens|
    }

    /** Scans the stored tokens, in no particular order, for one with index
        idx; the empty string when there is none. */
    method Token(idx: Idx) returns (token: string)
      ensures IdxPresent(tokens, idx) ==> token in tokens && tokens[token] == idx
      ensures !IdxPresent(tokens, idx) ==> token == ""
      ensures Valid() && IdxPresent(tokens, idx) ==>
                forall k :: k in tokens && tokens[k] == idx ==> token == k
    {
      token := "";
      var rest := tokens.Keys;
      while rest != {}
        invariant rest <= tokens.Keys
        invariant token == ""
        invariant forall k :: k in tokens && k !in rest ==> tokens[k] != idx
        decreases rest
      {
        var k :| k in rest;
        if tokens[k] == idx {
          token := k;
          break;
        }
        rest := rest - {k};
      }
    }

    /** Scans the stored tokens for one with index idx. */
    method HasIdx(idx: Idx) returns (found: bool)
      ensures found <==> IdxPresent(tokens, idx)
      ensures Valid() ==> (found <==> 0 <= idx < Size())
    {
      found := false;
      var rest := tokens.Keys;
      while rest != {}
        invariant rest <= tokens.Keys
        invariant !found
        invariant forall k :: k in tokens && k !in rest ==> tokens[k] != idx
        decreases rest
      {
        var k :| k in rest;
        if tokens[k] == idx {
          found := true;
          break;
        }
        rest := rest - {k};
      }
    }
  }

  /** The loading loop of FromFile over lines already split: each line is
      added in order and duplicate errors are dropped. */
  method FromLines(lines: seq<string>) returns (d: Dict)
    requires |lines| <= IDX_LIMIT
    ensures fresh(d)
    ensures d.tokens == FoldAdd(map[], lines)
    ensures d.Valid()
  {
    d := new Dict.New([]);
    assert d.tokens == map[];
    var i := 0;
    while i < |lines|
      invariant 0 <= i <= |lines|
      invariant d.tokens == FoldAdd(map[], lines[..i])
    {
      FoldAddStep(map[], lines, i);
      var _ := d.Add(lines[i]);
      i := i + 1;
    }
    assert lines[..|lines|] == lines;
    FoldAddRanks(lines);
  }

  /** Looking up the token at the index of a present token gives it back,
      in a dictionary whose indices are unique. */
  method IndexThenToken(d: Dict, t: string) returns (back: string)
    requires d.Valid()
    requires d.HasToken(t)
    ensures back == t
  {
    var (i, _) := d.Index(t);
    back := d.Token(i);
  }
}
