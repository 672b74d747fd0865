/** The abstract state of a token vocabulary: a finite map from token strings
    to 32-bit indices, the two ways of building one (positional assignment
    and repeated addition), and the invariants the vocabulary is meant to
    keep (indices dense in 0..size-1 and unique). */
module TokenMap {

  /** Number of non-negative values of a 32-bit signed integer. */
  const IDX_LIMIT: int := 0x8000_0000

  /** An index is a 32-bit signed integer. */
  type Idx = x: int | -0x8000_0000 <= x < 0x8000_0000

  type Tokens = map<string, Idx>

  datatype Option<T> = None | Some(value: T)

  /** The two errors the vocabulary reports. */
  datatype Error = DuplicateToken | TokenNotFound

  /** Some token is stored with index i. */
  ghost predicate IdxPresent(m: Tokens, i: int)
  {
    exists k :: k in m && m[k] == i
  }

  /** No two tokens share an index. */
  ghost predicate Injective(m: Tokens)
  {
    forall a, b :: a in m && b in m && m[a] == m[b] ==> a == b
  }

  /** The set of stored indices is exactly 0..|m|-1. */
  ghost predicate Dense(m: Tokens)
  {
    forall i :: IdxPresent(m, i) <==> 0 <= i < |m|
  }

  ghost predicate WellFormed(m: Tokens)
  {
    Injective(m) && Dense(m)
  }

  ghost predicate Distinct(s: seq<string>)
  {
    forall i, j :: 0 <= i < j < |s| ==> s[i] != s[j]
  }

  // ---------------------------------------------------------------------
  // Positional construction: position i of the input is stored as index i,
  // a later duplicate overwriting an earlier one.
  // ---------------------------------------------------------------------

  function FromSeq(ts: seq<string>): (m: Tokens)
    requires |ts| <= IDX_LIMIT
    ensures forall t :: t in m <==> t in ts
    ensures |m| <= |ts|
  {
    if ts == [] then map[]
    else
      var n := |ts| - 1;
      FromSeq(ts[..n])[ts[n] := n]
  }

  /** Every stored token sits at the position of its last occurrence. */
  lemma {:induction false} FromSeqLastOccurrence(ts: seq<string>, t: string)
    requires |ts| <= IDX_LIMIT
    requires t in FromSeq(ts)
    ensures var i := FromSeq(ts)[t];
            0 <= i < |ts| && ts[i] == t && forall j :: i < j < |ts| ==> ts[j] != t
  {
    assert ts != [];
    var n := |ts| - 1;
    if ts[n] != t {
      var p := ts[..n];
      assert FromSeq(ts) == FromSeq(p)[ts[n] := n];
      assert t in FromSeq(p) && FromSeq(ts)[t] == FromSeq(p)[t];
      FromSeqLastOccurrence(p, t);
      var i := FromSeq(p)[t];
      assert forall j :: i < j < n ==> p[j] == ts[j];
    }
  }

  /** The size is the number of distinct tokens of the input. */
  lemma FromSeqSize(ts: seq<string>)
    requires |ts| <= IDX_LIMIT
    ensures |FromSeq(ts)| == |set t | t in ts|
  {
    assert FromSeq(ts).Keys == set t | t in ts;
  }

  lemma {:induction false} DistinctCount(s: seq<string>)
    requires Distinct(s)
    ensures |set t | t in s| == |s|
  {
    if s != [] {
      var n := |s| - 1;
      DistinctCount(s[..n]);
      assert (set t | t in s) == (set t | t in s[..n]) + {s[n]};
      assert s[n] !in s[..n];
    }
  }

  /** Over distinct tokens, position i gives index i, the size is the input
      length, and the result keeps both invariants. */
  lemma FromSeqDistinct(ts: seq<string>)
    requires |ts| <= IDX_LIMIT
    requires Distinct(ts)
    ensures |FromSeq(ts)| == |ts|
    ensures forall i :: 0 <= i < |ts| ==> FromSeq(ts)[ts[i]] == i
    ensures WellFormed(FromSeq(ts))
  {
    var m := FromSeq(ts);
    FromSeqSize(ts);
    DistinctCount(ts);
    forall i | 0 <= i < |ts|
      ensures m[ts[i]] == i
    {
      FromSeqLastOccurrence(ts, ts[i]);
    }
    forall a, b | a in m && b in m && m[a] == m[b]
      ensures a == b
    {
      FromSeqLastOccurrence(ts, a);
      FromSeqLastOccurrence(ts, b);
    }
    forall i
      ensures IdxPresent(m, i) <==> 0 <= i < |m|
    {
      if IdxPresent(m, i) {
        var k :| k in m && m[k] == i;
        FromSeqLastOccurrence(ts, k);
      }
      if 0 <= i < |m| {
        assert ts[i] in m && m[ts[i]] == i;
      }
    }
  }

  // ---------------------------------------------------------------------
  // Incremental construction: a new token gets the current size as index.
  // ---------------------------------------------------------------------

  /** The new map and the error of adding t to m. */
  function AddTo(m: Tokens, t: string): (r: (Tokens, Option<Error>))
    requires t in m || |m| < IDX_LIMIT
    ensures t in m ==> r.1 == Some(DuplicateToken) && r.0 == m
    ensures t !in m ==> && r.1 == None
                        && r.0.Keys == m.Keys + {t}
                        && r.0[t] == |m|
                        && |r.0| == |m| + 1
                        && forall k :: k in m ==> r.0[k] == m[k]
  {
    if t in m then (m, Some(DuplicateToken)) else (m[t := |m|], None)
  }

  /** Adding keeps indices dense and unique. */
  lemma AddPreservesWellFormed(m: Tokens, t: string)
    requires |m| < IDX_LIMIT
    requires WellFormed(m)
    ensures WellFormed(AddTo(m, t).0)
  {
    var r := AddTo(m, t).0;
    if t !in m {
      forall i
        ensures IdxPresent(r, i) <==> 0 <= i < |r|
      {
        if IdxPresent(r, i) {
          var k :| k in r && r[k] == i;
          if k != t {
            assert IdxPresent(m, i);
          }
        }
        if 0 <= i < |m| {
          assert IdxPresent(m, i);
          var k :| k in m && m[k] == i;
          assert r[k] == i;
        } else if i == |m| {
          assert r[t] == i;
        }
      }
      forall a, b | a in r && b in r && r[a] == r[b]
        ensures a == b
      {
        if a != t && b != t {
        } else if a != t {
          assert IdxPresent(m, m[a]);
        } else if b != t {
          assert IdxPresent(m, m[b]);
        }
      }
    }
  }

  /** Adds each line in order, ignoring the duplicate errors. */
  function FoldAdd(m: Tokens, lines: seq<string>): (r: Tokens)
    requires |m| + |lines| <= IDX_LIMIT
    ensures |r| <= |m| + |lines|
    ensures m.Keys <= r.Keys
    ensures forall k :: k in m ==> r[k] == m[k]
  {
    if lines == [] then m
    else
      var n := |lines| - 1;
      AddTo(FoldAdd(m, lines[..n]), lines[n]).0
  }

  /** One more line of input is one more addition. */
  lemma FoldAddStep(m: Tokens, lines: seq<string>, i: nat)
    requires |m| + |lines| <= IDX_LIMIT
    requires i < |lines|
    ensures |FoldAdd(m, lines[..i])| < IDX_LIMIT
    ensures FoldAdd(m, lines[..i + 1]) == AddTo(FoldAdd(m, lines[..i]), lines[i]).0
  {
    assert lines[..i + 1][..i] == lines[..i];
  }

  /** Any sequence of additions keeps indices dense and unique. */
  lemma {:induction false} FoldAddPreservesWellFormed(m: Tokens, lines: seq<string>)
    requires |m| + |lines| <= IDX_LIMIT
    requires WellFormed(m)
    ensures WellFormed(FoldAdd(m, lines))
  {
    if lines != [] {
      var n := |lines| - 1;
      FoldAddPreservesWellFormed(m, lines[..n]);
      AddPreservesWellFormed(FoldAdd(m, lines[..n]), lines[n]);
    }
  }

  /** Position of the first occurrence of x in s. */
  function FirstPos(s: seq<string>, x: string): (p: nat)
    requires x in s
    ensures p < |s| && s[p] == x
    ensures forall q :: 0 <= q < p ==> s[q] != x
  {
    var n := |s| - 1;
    if x in s[..n] then FirstPos(s[..n], x) else n
  }

  /** The first occurrences of s, in order. */
  function Dedup(s: seq<string>): (d: seq<string>)
    ensures |d| <= |s|
    ensures Distinct(d)
    ensures forall x :: x in d <==> x in s
  {
    if s == [] then []
    else
      var n := |s| - 1;
      var d := Dedup(s[..n]);
      assert forall x :: x in s <==> x in s[..n] || x == s[n];
      if s[n] in s[..n] then d else d + [s[n]]
  }

  /** Dedup keeps tokens in the order of their first occurrence. */
  lemma {:induction false} DedupOrder(s: seq<string>, i: int, j: int)
    requires 0 <= i < j < |Dedup(s)|
    ensures Dedup(s)[i] in s && Dedup(s)[j] in s
    ensures FirstPos(s, Dedup(s)[i]) < FirstPos(s, Dedup(s)[j])
  {
    var d := Dedup(s);
    assert d[i] in d && d[j] in d;
    var n := |s| - 1;
    var p := s[..n];
    var dp := Dedup(p);
    if s[n] in p || j < |dp| {
      assert d[i] == dp[i] && d[j] == dp[j];
      assert dp[i] in dp && dp[j] in dp;
      DedupOrder(p, i, j);
    } else {
      assert d[j] == s[n] && d[i] == dp[i];
      assert d[i] in p;
      assert FirstPos(s, d[i]) == FirstPos(p, d[i]) < n;
      assert FirstPos(s, d[j]) == n;
    }
  }

  /** Folding Add from the empty map equals positional construction over the
      first occurrences. */
  lemma {:induction false} FoldAddIsFromSeqOfDedup(lines: seq<string>)
    requires |lines| <= IDX_LIMIT
    ensures FoldAdd(map[], lines) == FromSeq(Dedup(lines))
  {
    if lines != [] {
      var n := |lines| - 1;
      var p := lines[..n];
      FoldAddIsFromSeqOfDedup(p);
      FromSeqDistinct(Dedup(p));
      if lines[n] !in p {
        var d := Dedup(p) + [lines[n]];
        assert d[..|d| - 1] == Dedup(p);
      }
    }
  }

  /** Loading lines gives each distinct line its rank among first occurrences:
      the i-th first occurrence gets index i, and the size is the number of
      distinct lines. Repeats are skipped, not overwritten. */
  lemma FoldAddRanks(lines: seq<string>)
    requires |lines| <= IDX_LIMIT
    ensures |FoldAdd(map[], lines)| == |Dedup(lines)| == |set l | l in lines|
    ensures forall i :: 0 <= i < |Dedup(lines)| ==>
              Dedup(lines)[i] in FoldAdd(map[], lines) && FoldAdd(map[], lines)[Dedup(lines)[i]] == i
    ensures WellFormed(FoldAdd(map[], lines))
  {
    var d := Dedup(lines);
    var m := FoldAdd(map[], lines);
    FoldAddIsFromSeqOfDedup(lines);
    assert m == FromSeq(d);
    FromSeqDistinct(d);
    DedupCount(lines);
    forall i | 0 <= i < |d|
      ensures d[i] in m && m[d[i]] == i
    {
      assert d[i] in d;
    }
  }

  /** The number of first occurrences is the number of distinct tokens. */
  lemma DedupCount(s: seq<string>)
    ensures |Dedup(s)| == |set l | l in s|
  {
    var d := Dedup(s);
    DistinctCount(d);
    assert (set l | l in d) == (set l | l in s);
  }

  // ---------------------------------------------------------------------
  // The combination of the two constructions, and worked examples.
  // ---------------------------------------------------------------------

  /** Positional construction with a duplicate followed by an addition breaks
      uniqueness: "a" and "c" both get index 2. */
  lemma DuplicatesThenAddCollide()
    ensures var m := AddTo(FromSeq(["a", "b", "a"]), "c").0;
            "a" in m && "c" in m && m["a"] == 2 && m["c"] == 2 && !Injective(m)
  {
    var s := ["a", "b", "a"];
    assert s[..2] == ["a", "b"] && s[..2][..1] == ["a"] && s[..2][..1][..0] == [];
    var f := FromSeq(s);
    assert f == map["a" := 2, "b" := 1];
    assert |f| == 2;
  }

  /** Positional construction with a duplicate keeps the position of the last
      occurrence and the positions of the others. */
  lemma NewScenario()
    ensures FromSeq(["cat", "dog", "cat", "bird"]) == map["cat" := 2, "dog" := 1, "bird" := 3]
  {
    var s := ["cat", "dog", "cat", "bird"];
    assert s[..3] == ["cat", "dog", "cat"];
    assert s[..3][..2] == ["cat", "dog"];
    assert s[..3][..2][..1] == ["cat"];
    assert s[..3][..2][..1][..0] == [];
  }

  /** Loading lines with a repeat skips the repeat. */
  lemma FileScenario()
    ensures FoldAdd(map[], ["apple", "banana", "apple", "cherry"]) == map["apple" := 0, "banana" := 1, "cherry" := 2]
  {
    var s := ["apple", "banana", "apple", "cherry"];
    assert s[..3] == ["apple", "banana", "apple"];
    assert s[..3][..2] == ["apple", "banana"];
    assert s[..3][..2][..1] == ["apple"];
    assert s[..3][..2][..1][..0] == [];
    var m1 := FoldAdd(map[], s[..3][..2][..1]);
    assert m1 == map["apple" := 0];
    var m2 := FoldAdd(map[], s[..3][..2]);
    assert m2 == map["apple" := 0, "banana" := 1];
    assert |m2| == 2;
  }
}
