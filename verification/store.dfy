/**
 The index store: a sequence of entries kept strictly sorted by
 (path, stage), and the add operation that maintains it.
 Sortedness is what write-tree, read-index and the on-disk layout all
 rely on, so every operation here proves it is preserved.
 */
module IndexStore {
  import opened Types
  import opened Paths

  // ---------------------------------------------------------------------
  // Key order

  predicate SameKey(a: Entry, b: Entry)
  {
    a.path == b.path && a.stage == b.stage
  }

  /** The index order: path bytewise, then stage. */
  predicate KeyLess(a: Entry, b: Entry)
  {
    StrLess(a.path, b.path) || (a.path == b.path && a.stage < b.stage)
  }

  /** Sign of the key comparison, as the two-pointer merge consumes it. */
  function KeyCompare(a: Entry, b: Entry): (r: int)
    ensures -1 <= r <= 1
    ensures r == -1 <==> KeyLess(a, b)
    ensures r == 0 <==> SameKey(a, b)
    ensures r == 1 <==> KeyLess(b, a)
  {
    var c := StrCompare(a.path, b.path);
    StrLessIrreflexive(a.path);
    if c != 0 then c
    else if a.stage < b.stage then -1
    else if a.stage > b.stage then 1
    else 0
  }

  lemma KeyLessTransitive(a: Entry, b: Entry, c: Entry)
    requires KeyLess(a, b) && KeyLess(b, c)
    ensures KeyLess(a, c)
  {
    if StrLess(a.path, b.path) && StrLess(b.path, c.path) {
      StrLessTransitive(a.path, b.path, c.path);
    }
  }

  lemma KeyLessDistinct(a: Entry, b: Entry)
    requires KeyLess(a, b)
    ensures !SameKey(a, b)
  {
    StrLessIrreflexive(a.path);
  }

  lemma KeyLessIrreflexive(a: Entry, b: Entry)
    requires SameKey(a, b)
    ensures !KeyLess(a, b) && !KeyLess(b, a)
  {
    StrLessIrreflexive(a.path);
  }

  // ---------------------------------------------------------------------
  // Store invariant

  /** Strictly increasing keys: at most one entry per (path, stage). */
  predicate Sorted(idx: seq<Entry>)
  {
    forall i, j :: 0 <= i < j < |idx| ==> KeyLess(idx[i], idx[j])
  }

  /** Each entry's key below its successor's: the order check that costs one comparison per entry. */
  predicate Chained(idx: seq<Entry>)
  {
    forall k :: 0 <= k < |idx| - 1 ==> KeyLess(idx[k], idx[k + 1])
  }

  /** Checking neighbours is enough: the key order is transitive. */
  lemma ChainedSorted(idx: seq<Entry>)
    ensures Chained(idx) <==> Sorted(idx)
  {
    if Chained(idx) {
      forall i, j | 0 <= i < j < |idx| ensures KeyLess(idx[i], idx[j]) {
        ChainStep(idx, i, j);
      }
    }
  }

  lemma {:induction false} ChainStep(idx: seq<Entry>, i: int, j: int)
    requires Chained(idx) && 0 <= i < j < |idx|
    ensures KeyLess(idx[i], idx[j])
    decreases j - i
  {
    if j > i + 1 {
      ChainStep(idx, i, j - 1);
      KeyLessTransitive(idx[i], idx[j - 1], idx[j]);
    }
  }

  predicate ValidPaths(idx: seq<Entry>)
  {
    forall i :: 0 <= i < |idx| ==> ValidPath(idx[i].path)
  }

  /** A path is either resolved (stage 0) or in conflict (stages 1-3), never both. */
  predicate StagesExclusive(idx: seq<Entry>)
  {
    forall i, j :: 0 <= i < |idx| && 0 <= j < |idx| && idx[i].path == idx[j].path ==>
      (idx[i].stage == 0 <==> idx[j].stage == 0)
  }

  predicate Wf(idx: seq<Entry>)
  {
    Sorted(idx) && ValidPaths(idx) && StagesExclusive(idx)
  }

  predicate HasKey(idx: seq<Entry>, path: string, stage: Stage)
  {
    exists i :: 0 <= i < |idx| && idx[i].path == path && idx[i].stage == stage
  }

  lemma SortedCons(a: Entry, s: seq<Entry>)
    requires Sorted(s)
    requires forall x :: x in s ==> KeyLess(a, x)
    ensures Sorted([a] + s)
  {
    var r := [a] + s;
    forall i, j | 0 <= i < j < |r| ensures KeyLess(r[i], r[j]) {
      assert r[j] == s[j - 1];
      if i > 0 { assert r[i] == s[i - 1]; }
    }
  }

  lemma SortedTail(idx: seq<Entry>)
    requires Sorted(idx) && |idx| > 0
    ensures Sorted(idx[1..])
    ensures forall x :: x in idx[1..] ==> KeyLess(idx[0], x)
  {
  }

  // ---------------------------------------------------------------------
  // Operations

  /**
   Places `e` at its sorted position, replacing the entry with the same
   (path, stage) if there is one.
   */
  function Insert(idx: seq<Entry>, e: Entry): (r: seq<Entry>)
    requires Sorted(idx)
    ensures Sorted(r)
    ensures e in r
    ensures forall x :: x in r ==> x == e || (x in idx && !SameKey(x, e))
    ensures forall x :: x in idx && !SameKey(x, e) ==> x in r
    ensures |r| == if HasKey(idx, e.path, e.stage) then |idx| else |idx| + 1
  {
    if idx == [] then [e]
    else
      var c := KeyCompare(e, idx[0]);
      if c < 0 then
        forall i | 0 <= i < |idx| ensures KeyLess(e, idx[i]) {
          if i > 0 { KeyLessTransitive(e, idx[0], idx[i]); }
        }
        SortedCons(e, idx);
        [e] + idx
      else if c == 0 then
        SortedTail(idx);
        forall x | x in idx[1..] ensures !SameKey(x, e) && KeyLess(e, x) {
          KeyLessDistinct(idx[0], x);
        }
        SortedCons(e, idx[1..]);
        [e] + idx[1..]
      else
        SortedTail(idx);
        var rest := Insert(idx[1..], e);
        assert HasKey(idx, e.path, e.stage) <==> HasKey(idx[1..], e.path, e.stage) by {
          if HasKey(idx, e.path, e.stage) {
            var i :| 0 <= i < |idx| && idx[i].path == e.path && idx[i].stage == e.stage;
            assert i != 0;
            assert idx[1..][i - 1] == idx[i];
          }
          if HasKey(idx[1..], e.path, e.stage) {
            var i :| 0 <= i < |idx[1..]| && idx[1..][i].path == e.path && idx[1..][i].stage == e.stage;
            assert idx[i + 1] == idx[1..][i];
          }
        }
        forall x | x in rest ensures KeyLess(idx[0], x) { }
        SortedCons(idx[0], rest);
        [idx[0]] + rest
  }

  /** Whether `x` must go when `e` is added: same path, other side of the resolved/conflict divide. */
  predicate OtherClass(x: Entry, e: Entry)
  {
    x.path == e.path && (x.stage == 0) != (e.stage == 0)
  }

  /** The store without the entries `e` displaces by stage class. */
  function DropOtherClass(idx: seq<Entry>, e: Entry): (r: seq<Entry>)
    requires Sorted(idx)
    ensures Sorted(r)
    ensures forall x :: x in r <==> x in idx && !OtherClass(x, e)
    ensures |r| <= |idx|
  {
    if idx == [] then []
    else
      SortedTail(idx);
      var rest := DropOtherClass(idx[1..], e);
      if OtherClass(idx[0], e) then rest
      else
        forall x | x in rest ensures KeyLess(idx[0], x) { }
        SortedCons(idx[0], rest);
        [idx[0]] + rest
  }

  /**
   add: rejects a path that is empty, absolute, has an empty or ".."
   segment; otherwise inserts or replaces the entry at (path, stage) and
   drops the entries of the same path on the other side of the
   resolved/conflict divide.
   */
  function Add(idx: seq<Entry>, e: Entry): (r: Result<seq<Entry>>)
    requires Wf(idx)
    ensures r.Failure? <==> !ValidPath(e.path)
    ensures r.Failure? ==> r.error == InvalidPath
    ensures r.Success? ==> Wf(r.value) && e in r.value
    ensures r.Success? ==> forall x :: x in r.value ==> x == e || (x in idx && !SameKey(x, e))
    ensures r.Success? ==> forall x :: x in idx && x.path != e.path ==> x in r.value
    ensures r.Success? ==> forall x :: x in idx && !SameKey(x, e) && !OtherClass(x, e) ==> x in r.value
    ensures r.Success? && !HasPath(idx, e.path) ==> |r.value| == |idx| + 1
  {
    if !ValidPath(e.path) then Failure(InvalidPath)
    else
      var kept := DropOtherClass(idx, e);
      var r := Insert(kept, e);
      assert ValidPaths(r) by {
        forall i | 0 <= i < |r| ensures ValidPath(r[i].path) {
          assert r[i] in r;
          if r[i] != e {
            var a :| 0 <= a < |idx| && idx[a] == r[i];
          }
        }
      }
      assert StagesExclusive(r) by {
        forall i, j | 0 <= i < |r| && 0 <= j < |r| && r[i].path == r[j].path
          ensures (r[i].stage == 0 <==> r[j].stage == 0)
        {
          assert r[i] in r && r[j] in r;
          if r[i] != e && r[j] != e {
            var a :| 0 <= a < |idx| && idx[a] == r[i];
            var b :| 0 <= b < |idx| && idx[b] == r[j];
          }
        }
      }
      assert !HasPath(idx, e.path) ==> |r| == |idx| + 1 by {
        if !HasPath(idx, e.path) {
          DropNothing(idx, e);
          assert !HasKey(kept, e.path, e.stage);
          assert !HasKey(idx, e.path, e.stage);
        }
      }
      Success(r)
  }

  predicate HasPath(idx: seq<Entry>, path: string)
  {
    exists i :: 0 <= i < |idx| && idx[i].path == path
  }

  lemma {:induction false} DropNothing(idx: seq<Entry>, e: Entry)
    requires Sorted(idx) && forall i :: 0 <= i < |idx| ==> idx[i].path != e.path
    ensures DropOtherClass(idx, e) == idx
  {
    if idx != [] {
      SortedTail(idx);
      DropNothing(idx[1..], e);
      assert idx[0].path != e.path;
      assert idx == [idx[0]] + idx[1..];
    }
  }
}
