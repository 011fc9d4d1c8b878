/** `drop_duplicates()` with its default `keep='first'`: of every group of
    identical rows only the earliest survives, in the original order. */
module Duplicates {

  ghost predicate Distinct<T>(s: seq<T>) {
    forall i, j :: 0 <= i < j < |s| ==> s[i] != s[j]
  }

  /** The reference definition: walk the rows in order and keep a row only
      when no earlier row equals it. */
  function Dedup<T(==)>(s: seq<T>): (r: seq<T>)
    ensures |r| <= |s|
    ensures forall i :: 0 <= i < |s| ==> s[i] in r
    ensures forall i :: 0 <= i < |r| ==> r[i] in s
    ensures Distinct(r)
  {
    if |s| == 0 then []
    else
      var d := Dedup(s[..|s| - 1]);
      if s[|s| - 1] in s[..|s| - 1] then d else d + [s[|s| - 1]]
  }

  /** Row `i` has no equal among the rows before it. */
  ghost predicate IsFirst<T>(s: seq<T>, i: nat)
    requires i < |s|
  {
    s[i] !in s[..i]
  }

  /** The positions of the first occurrences, in increasing order: position
      `i` is kept exactly when no earlier row equals row `i`. */
  function FirstIndices<T(==)>(s: seq<T>): (r: seq<nat>)
    ensures forall m :: 0 <= m < |r| ==> r[m] < |s|
    ensures forall m, n :: 0 <= m < n < |r| ==> r[m] < r[n]
    ensures forall i :: 0 <= i < |s| ==> (i in r <==> IsFirst(s, i))
  {
    if |s| == 0 then []
    else
      var p := FirstIndices(s[..|s| - 1]);
      assert forall i :: 0 <= i < |s| - 1 ==> (IsFirst(s[..|s| - 1], i) <==> IsFirst(s, i)) by {
        forall i | 0 <= i < |s| - 1 ensures IsFirst(s[..|s| - 1], i) <==> IsFirst(s, i) {
          assert s[..|s| - 1][..i] == s[..i];
        }
      }
      if s[|s| - 1] in s[..|s| - 1] then p else p + [|s| - 1]
  }

  function Pick<T>(s: seq<T>, idx: seq<nat>): (r: seq<T>)
    requires forall m :: 0 <= m < |idx| ==> idx[m] < |s|
    ensures |r| == |idx| && forall m :: 0 <= m < |idx| ==> r[m] == s[idx[m]]
  {
    seq(|idx|, m requires 0 <= m < |idx| => s[idx[m]])
  }

  /** Picking the first occurrences gives the reference de-duplication. */
  lemma {:induction false} PickFirstIndices<T>(s: seq<T>)
    ensures Pick(s, FirstIndices(s)) == Dedup(s)
  {
    if |s| > 0 {
      var init := s[..|s| - 1];
      PickFirstIndices(init);
      var p := FirstIndices(init);
      assert Pick(s, p) == Pick(init, p);
      if s[|s| - 1] !in init {
        assert Pick(s, p + [|s| - 1]) == Pick(s, p) + [s[|s| - 1]];
      }
    }
  }

  /** A sequence without repeats is its own de-duplication. */
  lemma {:induction false} DedupOfDistinct<T>(s: seq<T>)
    requires Distinct(s)
    ensures Dedup(s) == s
  {
    if |s| > 0 {
      var init := s[..|s| - 1];
      DedupOfDistinct(init);
      forall i | 0 <= i < |init| ensures init[i] != s[|s| - 1] {
        assert init[i] == s[i];
      }
      assert s == init + [s[|s| - 1]];
    }
  }

  /** De-duplicating twice is the same as de-duplicating once. */
  lemma DedupIdempotent<T>(s: seq<T>)
    ensures Dedup(Dedup(s)) == Dedup(s)
  {
    DedupOfDistinct(Dedup(s));
  }

  /** Two identical rows collapse to one. */
  lemma DedupCollapsesPair<T>(x: T)
    ensures Dedup([x, x]) == [x]
  {
    assert [x, x][..1] == [x];
    assert [x][..0] == [];
  }

  /** One more row extends the first-occurrence positions by at most that row. */
  lemma FirstIndicesSnoc<T>(s: seq<T>, i: nat)
    requires i < |s|
    ensures FirstIndices(s[..i + 1]) ==
            FirstIndices(s[..i]) + (if s[i] in s[..i] then [] else [i])
  {
    assert s[..i + 1][..i] == s[..i];
  }

  /** The hashing pass pandas makes: one scan with a set of rows seen so far. */
  method KeepFirst<T(==)>(s: seq<T>) returns (kept: seq<nat>)
    ensures kept == FirstIndices(s)
  {
    kept := [];
    var seen: set<T> := {};
    var i := 0;
    while i < |s|
      invariant 0 <= i <= |s|
      invariant kept == FirstIndices(s[..i])
      invariant forall k :: 0 <= k < i ==> s[k] in seen
      invariant forall x :: x in seen ==> x in s[..i]
    {
      FirstIndicesSnoc(s, i);
      ghost var prefix := s[..i];
      assert s[i] in seen <==> s[i] in prefix;
      if s[i] !in seen {
        kept := kept + [i];
        seen := seen + {s[i]};
      }
      assert s[..i + 1] == prefix + [s[i]];
      i := i + 1;
    }
    assert s[..|s|] == s;
  }
}
