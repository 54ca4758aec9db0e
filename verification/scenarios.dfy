/**
 The end-to-end behaviours the read-index tests exercise, stated for all
 indexes and trees rather than for one repository: the stat cache
 survives a write-tree / read-tree / add / read-index cycle, read-index
 of a tree's index always writes that tree back, and so does the index
 after it has been written out and read in again.
 */
module Scenarios {
  import opened Types
  import opened Paths
  import opened IndexStore
  import opened Trees
  import opened TreeIndex
  import opened Merger
  import opened Persistence

  /** An entry whose ctime and mtime were both recorded from the filesystem. */
  predicate Stamped(e: Entry)
  {
    e.stat.ctime.seconds != 0 && e.stat.mtime.seconds != 0
  }

  /** Entries agreeing on path, id and mode file the same leaves. */
  lemma {:induction false} IndexLeavesOfIdentities(a: seq<Entry>, b: seq<Entry>)
    requires Identities(a) == Identities(b)
    ensures IndexLeaves(a) == IndexLeaves(b)
  {
    if a != [] {
      assert IdentityOf(a[0]) == Identities(a)[0];
      assert Identities(a[1..]) == Identities(b[1..]) by {
        forall k | 0 <= k < |a| - 1 ensures Identities(a[1..])[k] == Identities(b[1..])[k] {
          assert Identities(a)[k + 1] == Identities(b)[k + 1];
        }
      }
      IndexLeavesOfIdentities(a[1..], b[1..]);
    }
  }

  /** The result of read-index keeps the source's stages. */
  lemma MergeResolved(dst: seq<Entry>, src: seq<Entry>, r: seq<Entry>)
    requires AllResolved(src) && Merge(dst, src) == Success(r)
    ensures AllResolved(r)
  {
    forall k | 0 <= k < |r| ensures r[k].stage == 0 {
      assert Identities(r)[k] == Identities(src)[k];
    }
  }

  /**
   After read-index, write-tree of the destination gives what write-tree
   of the source gives — the same tree, or the same refusal — whatever the
   destination held before.
   */
  lemma MergeWriteTree(dst: seq<Entry>, src: seq<Entry>, r: seq<Entry>)
    requires Wf(src) && Merge(dst, src) == Success(r)
    ensures Wf(r) && WriteTree(r) == WriteTree(src)
  {
    MergeWf(dst, src, r);
    SameKeysSameOutcome(r, src);
    if WriteTree(src).Success? {
      var t1, t2 := WriteTree(r).value, WriteTree(src).value;
      IndexLeavesOfIdentities(r, src);
      WriteTreeLeaves(r, t1);
      WriteTreeLeaves(src, t2);
      Extensionality(t1, t2);
    }
  }

  /** Whether write-tree refuses depends only on the entries' paths and stages. */
  lemma SameKeysSameOutcome(a: seq<Entry>, b: seq<Entry>)
    requires Identities(a) == Identities(b)
    ensures AllResolved(a) == AllResolved(b) && Collides(a) == Collides(b)
  {
    forall k | 0 <= k < |a| ensures a[k].path == b[k].path && a[k].stage == b[k].stage {
      assert Identities(a)[k] == Identities(b)[k];
    }
  }

  /**
   read-index of the index read from `t` into any index, then write-tree,
   gives `t` back: the destination's entries contribute stat data only.
   */
  lemma RoundTripWithReadIndex(t: Node, dst: seq<Entry>, idx: seq<Entry>, r: seq<Entry>)
    requires WfTree(t) && ReadsAs(t, idx)
    requires Merge(dst, idx) == Success(r)
    ensures Wf(r) && WriteTree(r) == Success(t)
  {
    MergeWf(dst, idx, r);
    MergeResolved(dst, idx, r);
    IndexLeavesOfIdentities(r, idx);
    WriteTreeOfLeaves(t, r);
  }

  /**
   As above with the merged index written out and read back in between:
   reopening succeeds, gives back exactly what was written, and so still
   writes the original tree.
   */
  lemma ReadAndWrites(t: Node, dst: seq<Entry>, idx: seq<Entry>, r: seq<Entry>,
                      extensions: seq<Extension>)
    requires WfTree(t) && ReadsAs(t, idx)
    requires Merge(dst, idx) == Success(r)
    ensures Decode(Encode(IndexFile(r, extensions))) == Success(IndexFile(r, extensions))
    ensures Wf(r) && WriteTree(r) == Success(t)
  {
    RoundTripWithReadIndex(t, dst, idx, r);
    DecodeEncode(IndexFile(r, extensions));
  }

  /**
   An index read from the tree that `dst` writes has, for each of its
   entries, a destination entry with the same path, stage, id and mode.
   */
  lemma ReadBackMatches(dst: seq<Entry>, t: Node, idx: seq<Entry>, x: Entry)
    requires Wf(dst) && WriteTree(dst) == Success(t) && ReadsAs(t, idx)
    requires x in idx
    ensures exists j :: 0 <= j < |dst| && Matches(dst[j], x)
  {
    WriteTreeLeaves(dst, t);
    IndexLeavesValues(idx);
    var c := Split(x.path);
    assert c in IndexLeaves(dst) && IndexLeaves(dst)[c] == LeafOf(x);
    IndexLeavesKeys(dst);
    var y :| y in dst && Split(y.path) == c;
    IndexLeavesValues(dst);
    SplitInjective(y.path, x.path);
    var j :| 0 <= j < |dst| && dst[j] == y;
    var i :| 0 <= i < |idx| && idx[i] == x;
    assert Matches(dst[j], x);
  }

  /** The index read from the tree `dst` writes has `dst`'s paths and as many entries. */
  lemma ReadBackPaths(dst: seq<Entry>, t: Node, idx: seq<Entry>)
    requires Wf(dst) && WriteTree(dst) == Success(t) && ReadsAs(t, idx)
    ensures |idx| == |dst|
    ensures forall x :: x in idx ==> exists y :: y in dst && y.path == x.path
  {
    WriteTreeLeaves(dst, t);
    IndexLeavesSize(dst);
    IndexLeavesSize(idx);
    forall x | x in idx ensures exists y :: y in dst && y.path == x.path {
      ReadBackMatches(dst, t, idx, x);
      var j :| 0 <= j < |dst| && Matches(dst[j], x);
      assert dst[j] in dst;
    }
  }

  /**
   The stat-cache scenario: write-tree of a resolved, stat'ed index `dst`,
   read-tree of that tree into a fresh index, add a new file "Hello" with
   no stat data, then read-index the fresh index into `dst`. The fresh
   index and the result have one entry more than `dst`; "Hello" is there
   and still has no timestamps, and every other entry has kept the
   timestamps `dst` recorded for it.
   */
  lemma MaintainsStatCache(dst: seq<Entry>, t: Node, idx: seq<Entry>, hello: Entry,
                           src: seq<Entry>, r: seq<Entry>)
    requires Wf(dst) && WriteTree(dst) == Success(t)
    requires forall x :: x in dst ==> Stamped(x) && x.path != hello.path
    requires ReadsAs(t, idx)
    requires hello.path == "Hello" && hello.stage == 0 && hello.stat == ZeroStat
    requires Add(idx, hello) == Success(src)
    requires Merge(dst, src) == Success(r)
    ensures |src| == |r| == |dst| + 1
    ensures exists x :: x in r && x.path == hello.path
    ensures forall x :: x in r && x.path == hello.path ==> ZeroTimes(x)
    ensures forall x :: x in r && x.path != hello.path ==> Stamped(x)
  {
    FreshIndexGrows(dst, t, idx, hello, src);
    var h :| 0 <= h < |src| && src[h] == hello;
    MergedEntry(dst, t, idx, hello, src, r, h);
    assert r[h] in r;
    forall x | x in r ensures x.path == hello.path ==> ZeroTimes(x)
                      ensures x.path != hello.path ==> Stamped(x) {
      var k :| 0 <= k < |r| && r[k] == x;
      MergedEntry(dst, t, idx, hello, src, r, k);
    }
  }

  /**
   Adding a file under a new path to the index read from `dst`'s tree gives
   one entry more than `dst` has, the new one among them.
   */
  lemma FreshIndexGrows(dst: seq<Entry>, t: Node, idx: seq<Entry>, hello: Entry, src: seq<Entry>)
    requires Wf(dst) && WriteTree(dst) == Success(t)
    requires forall x :: x in dst ==> x.path != hello.path
    requires ReadsAs(t, idx)
    requires Add(idx, hello) == Success(src)
    ensures |src| == |dst| + 1 && hello in src
  {
    ReadBackPaths(dst, t, idx);
    assert !HasPath(idx, hello.path);
  }

  /** One entry of the stat-cache scenario's result. */
  lemma MergedEntry(dst: seq<Entry>, t: Node, idx: seq<Entry>, hello: Entry,
                    src: seq<Entry>, r: seq<Entry>, k: int)
    requires Wf(dst) && WriteTree(dst) == Success(t)
    requires forall x :: x in dst ==> Stamped(x) && x.path != hello.path
    requires ReadsAs(t, idx)
    requires hello.stage == 0 && hello.stat == ZeroStat
    requires Add(idx, hello) == Success(src)
    requires Merge(dst, src) == Success(r)
    requires 0 <= k < |r|
    ensures r[k].path == src[k].path
    ensures r[k].path == hello.path ==> r[k].stat == ZeroStat
    ensures r[k].path != hello.path ==> Stamped(r[k])
    ensures r[k].path != hello.path ==>
      exists j :: 0 <= j < |dst| && dst[j].path == r[k].path && r[k].stat == dst[j].stat
  {
    assert Identities(r)[k] == Identities(src)[k];
    assert src[k] in src;
    if src[k] == hello {
      forall y | y in dst ensures !SameKey(y, hello) { }
      PriorStatAbsent(dst, hello);
    } else {
      ReadBackPaths(dst, t, idx);
      ReadBackMatches(dst, t, idx, src[k]);
      var j :| 0 <= j < |dst| && Matches(dst[j], src[k]);
      PriorStatFound(dst, src[k], j);
      assert dst[j] in dst;
    }
  }
}
