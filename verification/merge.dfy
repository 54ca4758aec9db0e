/**
 read-index: replace the destination index's entries with the source's,
 keeping the destination's stat cache wherever the destination already
 held the same (path, stage, id, mode). The algorithm walks both sorted
 sequences in step; the reference it is proved against is the naive one,
 a search of the whole destination for each source entry (`PriorStat`).
 */
module Merger {
  import opened Types
  import opened IndexStore

  /** `prior` describes the same content as `e`: same path, stage, id and mode. */
  predicate Matches(prior: Entry, e: Entry)
  {
    SameKey(prior, e) && prior.id == e.id && prior.mode == e.mode
  }

  /**
   Reference definition: the stat cache `e` should end up with — that of
   the first destination entry it matches, or its own if there is none.
   */
  function PriorStat(dst: seq<Entry>, e: Entry): StatCache
  {
    if dst == [] then e.stat
    else if Matches(dst[0], e) then dst[0].stat
    else PriorStat(dst[1..], e)
  }

  /** Equal keys: keep `prior`'s stat cache if the content is unchanged. */
  function Reconcile(prior: Entry, e: Entry): Entry
  {
    if prior.id == e.id && prior.mode == e.mode then e.(stat := prior.stat) else e
  }

  lemma {:induction false} PriorStatAbsent(dst: seq<Entry>, e: Entry)
    requires forall x :: x in dst ==> !SameKey(x, e)
    ensures PriorStat(dst, e) == e.stat
  {
    if dst != [] {
      assert dst[0] in dst;
      assert forall x :: x in dst[1..] ==> x in dst;
      PriorStatAbsent(dst[1..], e);
    }
  }

  /** Entries of a sorted destination below `e`'s key never match it. */
  lemma PriorStatSkip(dst: seq<Entry>, e: Entry)
    requires dst != [] && KeyLess(dst[0], e)
    ensures PriorStat(dst, e) == PriorStat(dst[1..], e)
  {
    KeyLessDistinct(dst[0], e);
  }

  lemma BelowAll(dst: seq<Entry>, e: Entry)
    requires Sorted(dst) && dst != [] && KeyLess(e, dst[0])
    ensures forall x :: x in dst ==> !SameKey(x, e)
  {
    forall x | x in dst ensures !SameKey(x, e) {
      var i :| 0 <= i < |dst| && dst[i] == x;
      if i > 0 { KeyLessTransitive(e, dst[0], x); }
      KeyLessDistinct(e, x);
    }
  }

  /**
   The two-pointer merge over sorted sequences. A destination entry with
   a smaller key has no counterpart and is dropped; a source entry with a
   smaller key is new and is taken as is; equal keys are reconciled.
   */
  function MergeSorted(dst: seq<Entry>, src: seq<Entry>): (r: seq<Entry>)
    requires Sorted(dst) && Sorted(src)
    ensures |r| == |src|
    ensures forall k :: 0 <= k < |src| ==> r[k] == src[k].(stat := PriorStat(dst, src[k]))
    decreases |dst| + |src|
  {
    if src == [] then []
    else if dst == [] then src
    else
      SortedTail(dst);
      SortedTail(src);
      var c := KeyCompare(dst[0], src[0]);
      if c < 0 then
        var r := MergeSorted(dst[1..], src);
        forall k | 0 <= k < |src| ensures PriorStat(dst, src[k]) == PriorStat(dst[1..], src[k]) {
          if k > 0 { KeyLessTransitive(dst[0], src[0], src[k]); }
          PriorStatSkip(dst, src[k]);
        }
        r
      else if c > 0 then
        var r := [src[0]] + MergeSorted(dst, src[1..]);
        BelowAll(dst, src[0]);
        PriorStatAbsent(dst, src[0]);
        r
      else
        var r := [Reconcile(dst[0], src[0])] + MergeSorted(dst[1..], src[1..]);
        forall k | 0 < k < |src| ensures PriorStat(dst, src[k]) == PriorStat(dst[1..], src[k]) {
          KeyLessDistinct(src[0], src[k]);
        }
        assert PriorStat(dst[1..], src[0]) == src[0].stat by {
          forall x | x in dst[1..] ensures !SameKey(x, src[0]) {
            KeyLessDistinct(dst[0], x);
          }
          PriorStatAbsent(dst[1..], src[0]);
        }
        r
  }

  /**
   read-index. Refuses unsorted input; otherwise the result holds exactly
   the source's entries, in order, each with the stat cache the reference
   search of the destination assigns it.
   */
  function Merge(dst: seq<Entry>, src: seq<Entry>): (r: Result<seq<Entry>>)
    ensures r.Failure? <==> !Sorted(dst) || !Sorted(src)
    ensures r.Failure? ==> r.error == InvariantViolation
    ensures r.Success? ==> |r.value| == |src|
    ensures r.Success? ==> Identities(r.value) == Identities(src)
    ensures r.Success? ==> forall k :: 0 <= k < |src| ==> r.value[k].stat == PriorStat(dst, src[k])
  {
    if !Sorted(dst) || !Sorted(src) then Failure(InvariantViolation)
    else Success(MergeSorted(dst, src))
  }

  // ---------------------------------------------------------------------
  // Laws

  /** A sorted destination has at most one entry matching `e`, so the search finds that one. */
  lemma {:induction false} PriorStatFound(dst: seq<Entry>, e: Entry, j: int)
    requires Sorted(dst) && 0 <= j < |dst| && Matches(dst[j], e)
    ensures PriorStat(dst, e) == dst[j].stat
  {
    if j > 0 {
      KeyLessDistinct(dst[0], dst[j]);
      SortedTail(dst);
      PriorStatFound(dst[1..], e, j - 1);
    }
  }

  /** Entries whose (path, stage, id, mode) the destination already held keep its stat cache. */
  lemma MergeKeepsStatCache(dst: seq<Entry>, src: seq<Entry>, r: seq<Entry>, k: int, j: int)
    requires Merge(dst, src) == Success(r)
    requires 0 <= k < |src| && 0 <= j < |dst| && Matches(dst[j], src[k])
    ensures r[k].stat == dst[j].stat
    ensures IdentityOf(r[k]) == IdentityOf(src[k])
  {
    PriorStatFound(dst, src[k], j);
  }

  /** An entry with no matching predecessor comes through unchanged, zero stat cache included. */
  lemma MergeTakesNewEntries(dst: seq<Entry>, src: seq<Entry>, r: seq<Entry>, k: int)
    requires Merge(dst, src) == Success(r)
    requires 0 <= k < |src| && forall j :: 0 <= j < |dst| ==> !Matches(dst[j], src[k])
    ensures r[k] == src[k]
  {
    NoMatchNoStat(dst, src[k]);
  }

  lemma {:induction false} NoMatchNoStat(dst: seq<Entry>, e: Entry)
    requires forall j :: 0 <= j < |dst| ==> !Matches(dst[j], e)
    ensures PriorStat(dst, e) == e.stat
  {
    if dst != [] {
      assert !Matches(dst[0], e);
      assert forall j :: 0 <= j < |dst[1..]| ==> dst[1..][j] == dst[j + 1];
      NoMatchNoStat(dst[1..], e);
    }
  }

  /** Whatever the destination held, the result's identity fields are the source's. */
  lemma MergeIgnoresDestination(d1: seq<Entry>, d2: seq<Entry>, src: seq<Entry>, r1: seq<Entry>, r2: seq<Entry>)
    requires Merge(d1, src) == Success(r1) && Merge(d2, src) == Success(r2)
    ensures Identities(r1) == Identities(r2) == Identities(src)
  {
  }

  /** The result satisfies the store invariant whenever the source does. */
  lemma MergeWf(dst: seq<Entry>, src: seq<Entry>, r: seq<Entry>)
    requires Wf(src) && Merge(dst, src) == Success(r)
    ensures Wf(r)
  {
    assert forall k :: 0 <= k < |r| ==> r[k].path == src[k].path && r[k].stage == src[k].stage by {
      forall k | 0 <= k < |r| ensures r[k].path == src[k].path && r[k].stage == src[k].stage {
        assert Identities(r)[k] == Identities(src)[k];
      }
    }
  }

  /** Merging an index into itself changes nothing. */
  lemma MergeIdempotent(d: seq<Entry>)
    requires Sorted(d)
    ensures Merge(d, d) == Success(d)
  {
    var r := MergeSorted(d, d);
    forall k | 0 <= k < |d| ensures r[k] == d[k] {
      PriorStatFound(d, d[k], k);
    }
    assert r == d;
  }

  // ---------------------------------------------------------------------
  // The imperative two-pointer loop

  /** The merge's steps, unfolded one case at a time for the loop. */
  lemma StepNoDestination(d: seq<Entry>, s: seq<Entry>)
    requires d == [] && Sorted(s) && s != []
    ensures Sorted(s[1..])
    ensures MergeSorted(d, s) == [s[0]] + MergeSorted(d, s[1..])
  {
    SortedTail(s);
    assert s == [s[0]] + s[1..];
  }

  lemma StepDrop(d: seq<Entry>, s: seq<Entry>)
    requires Sorted(d) && Sorted(s) && d != [] && s != [] && KeyLess(d[0], s[0])
    ensures Sorted(d[1..])
    ensures MergeSorted(d, s) == MergeSorted(d[1..], s)
  {
    SortedTail(d);
  }

  lemma StepNew(d: seq<Entry>, s: seq<Entry>)
    requires Sorted(d) && Sorted(s) && d != [] && s != [] && KeyLess(s[0], d[0])
    ensures Sorted(s[1..])
    ensures MergeSorted(d, s) == [s[0]] + MergeSorted(d, s[1..])
  {
    SortedTail(s);
  }

  lemma StepMatch(d: seq<Entry>, s: seq<Entry>)
    requires Sorted(d) && Sorted(s) && d != [] && s != [] && SameKey(d[0], s[0])
    ensures Sorted(d[1..]) && Sorted(s[1..])
    ensures MergeSorted(d, s) == [Reconcile(d[0], s[0])] + MergeSorted(d[1..], s[1..])
  {
    SortedTail(d);
    SortedTail(s);
  }

  /**
   Loop state of the linear pass: `out` followed by the merge of what is
   left of both inputs is the merge of the whole inputs.
   */
  ghost predicate Progress(dst: seq<Entry>, src: seq<Entry>, out: seq<Entry>, i: int, j: int)
  {
    && Sorted(dst) && Sorted(src)
    && 0 <= i <= |dst| && 0 <= j <= |src|
    && Sorted(dst[i..]) && Sorted(src[j..])
    && out + MergeSorted(dst[i..], src[j..]) == MergeSorted(dst, src)
  }

  lemma Emit(out: seq<Entry>, e: Entry, whole: seq<Entry>, rest: seq<Entry>)
    requires whole == [e] + rest
    ensures out + whole == (out + [e]) + rest
  {
  }

  /** A source entry below every remaining destination key is new and is emitted. */
  lemma AdvanceNew(dst: seq<Entry>, src: seq<Entry>, out: seq<Entry>, i: int, j: int)
    requires Progress(dst, src, out, i, j) && j < |src|
    requires i == |dst| || KeyLess(src[j], dst[i])
    ensures Progress(dst, src, out + [src[j]], i, j + 1)
  {
    var d, s := dst[i..], src[j..];
    assert s[1..] == src[j + 1..];
    if i == |dst| {
      StepNoDestination(d, s);
    } else {
      StepNew(d, s);
    }
    Emit(out, src[j], MergeSorted(d, s), MergeSorted(d, src[j + 1..]));
  }

  /** A destination key below the current source entry has no counterpart and is skipped. */
  lemma AdvanceDrop(dst: seq<Entry>, src: seq<Entry>, out: seq<Entry>, i: int, j: int)
    requires Progress(dst, src, out, i, j) && i < |dst| && j < |src|
    requires KeyLess(dst[i], src[j])
    ensures Progress(dst, src, out, i + 1, j)
  {
    var d, s := dst[i..], src[j..];
    assert d[1..] == dst[i + 1..];
    StepDrop(d, s);
  }

  /** Equal keys: the reconciled entry is emitted and both sides advance. */
  lemma AdvanceMatch(dst: seq<Entry>, src: seq<Entry>, out: seq<Entry>, i: int, j: int)
    requires Progress(dst, src, out, i, j) && i < |dst| && j < |src|
    requires SameKey(dst[i], src[j])
    ensures Progress(dst, src, out + [Reconcile(dst[i], src[j])], i + 1, j + 1)
  {
    var d, s := dst[i..], src[j..];
    assert d[1..] == dst[i + 1..];
    assert s[1..] == src[j + 1..];
    StepMatch(d, s);
    Emit(out, Reconcile(dst[i], src[j]), MergeSorted(d, s), MergeSorted(dst[i + 1..], src[j + 1..]));
  }

  /** Once the source is used up, what has been emitted is the whole merge. */
  lemma Finished(dst: seq<Entry>, src: seq<Entry>, out: seq<Entry>, i: int)
    requires Progress(dst, src, out, i, |src|)
    ensures out == MergeSorted(dst, src)
  {
    assert src[|src|..] == [];
    assert MergeSorted(dst[i..], []) == [];
  }

  /**
   read-index as a linear pass: the order check compares neighbours only;
   then `i` walks the destination, `j` the source, and every step emits at
   most one entry; no entry is ever looked up in the other sequence.
   */
  method ReadIndex(dst: seq<Entry>, src: seq<Entry>) returns (r: Result<seq<Entry>>)
    ensures r == Merge(dst, src)
  {
    ChainedSorted(dst);
    ChainedSorted(src);
    if !Chained(dst) || !Chained(src) {
      return Failure(InvariantViolation);
    }
    var out: seq<Entry> := [];
    var i, j := 0, 0;
    while j < |src|
      invariant Progress(dst, src, out, i, j)
      decreases |dst| - i + |src| - j
    {
      if i == |dst| {
        AdvanceNew(dst, src, out, i, j);
        out := out + [src[j]];
        j := j + 1;
      } else {
        var c := KeyCompare(dst[i], src[j]);
        if c < 0 {
          AdvanceDrop(dst, src, out, i, j);
          i := i + 1;
        } else if c > 0 {
          AdvanceNew(dst, src, out, i, j);
          out := out + [src[j]];
          j := j + 1;
        } else {
          AdvanceMatch(dst, src, out, i, j);
          out := out + [Reconcile(dst[i], src[j])];
          i, j := i + 1, j + 1;
        }
      }
    }
    Finished(dst, src, out, i);
    return Success(out);
  }
}
