/**
 write-tree and read-tree: the two conversions between an index and a
 tree. write-tree folds the resolved entries into nested directories;
 read-tree flattens a tree into a fresh index of stage-0 entries whose
 stat cache is zero (nothing has been stat'ed yet).
 */
module TreeIndex {
  import opened Types
  import opened Paths
  import opened IndexStore
  import opened Trees

  function LeafOf(e: Entry): Leaf
  {
    Leaf(e.id, e.mode)
  }

  predicate AllResolved(idx: seq<Entry>)
  {
    forall i :: 0 <= i < |idx| ==> idx[i].stage == 0
  }

  /** The files the index stages, keyed by component path. */
  function IndexLeaves(idx: seq<Entry>): LeafMap
  {
    if idx == [] then map[]
    else IndexLeaves(idx[1..])[Split(idx[0].path) := LeafOf(idx[0])]
  }

  /** In a resolved index, each entry owns its own key of the leaf map and nothing else does. */
  lemma IndexLeavesExact(idx: seq<Entry>)
    requires Sorted(idx) && AllResolved(idx)
    ensures forall c :: c in IndexLeaves(idx) <==> exists x :: x in idx && Split(x.path) == c
    ensures forall x :: x in idx ==> IndexLeaves(idx)[Split(x.path)] == LeafOf(x)
    ensures |IndexLeaves(idx)| == |idx|
  {
    IndexLeavesKeys(idx);
    IndexLeavesValues(idx);
    IndexLeavesSize(idx);
  }

  lemma {:induction false} IndexLeavesKeys(idx: seq<Entry>)
    ensures forall c :: c in IndexLeaves(idx) <==> exists x :: x in idx && Split(x.path) == c
  {
    if idx != [] {
      var tail := idx[1..];
      IndexLeavesKeys(tail);
      assert idx == [idx[0]] + tail;
      forall c | c in IndexLeaves(tail) ensures exists x :: x in idx && Split(x.path) == c {
        var x :| x in tail && Split(x.path) == c;
        assert x in idx;
      }
    }
  }

  /** The first entry's key occurs nowhere later in a sorted resolved index. */
  lemma HeadKeyFresh(idx: seq<Entry>)
    requires Sorted(idx) && AllResolved(idx) && idx != []
    ensures forall x :: x in idx[1..] ==> Split(x.path) != Split(idx[0].path)
  {
    SortedTail(idx);
    forall x | x in idx[1..] ensures Split(x.path) != Split(idx[0].path) {
      if Split(x.path) == Split(idx[0].path) {
        SplitInjective(x.path, idx[0].path);
        KeyLessDistinct(idx[0], x);
      }
    }
  }

  lemma {:induction false} IndexLeavesValues(idx: seq<Entry>)
    requires Sorted(idx) && AllResolved(idx)
    ensures forall x :: x in idx ==>
      Split(x.path) in IndexLeaves(idx) && IndexLeaves(idx)[Split(x.path)] == LeafOf(x)
  {
    IndexLeavesKeys(idx);
    if idx != [] {
      var tail := idx[1..];
      SortedTail(idx);
      IndexLeavesValues(tail);
      HeadKeyFresh(idx);
      forall x | x in idx ensures Split(x.path) in IndexLeaves(idx) && IndexLeaves(idx)[Split(x.path)] == LeafOf(x) {
        if x != idx[0] {
          assert idx == [idx[0]] + tail;
          assert x in tail;
        }
      }
    }
  }

  lemma {:induction false} IndexLeavesSize(idx: seq<Entry>)
    requires Sorted(idx) && AllResolved(idx)
    ensures |IndexLeaves(idx)| == |idx|
  {
    if idx != [] {
      var tail := idx[1..];
      SortedTail(idx);
      IndexLeavesSize(tail);
      IndexLeavesKeys(tail);
      HeadKeyFresh(idx);
      assert Split(idx[0].path) !in IndexLeaves(tail);
    }
  }

  /** Some staged file path is a proper prefix of another: a name used as both file and directory. */
  predicate Collides(idx: seq<Entry>)
  {
    exists i, j :: 0 <= i < |idx| && 0 <= j < |idx| && ProperPrefix(Split(idx[i].path), Split(idx[j].path))
  }

  /** The deepest path in the index, in components. */
  function MaxDepth(idx: seq<Entry>): (d: nat)
    ensures forall i :: 0 <= i < |idx| ==> |Split(idx[i].path)| <= d
  {
    if idx == [] then 0
    else
      var d := MaxDepth(idx[1..]);
      var h := |Split(idx[0].path)|;
      assert forall i :: 0 < i < |idx| ==> idx[i] == idx[1..][i - 1];
      if h < d then d else h
  }

  /** write-tree's input map is legal: bounded, prefix-free, keyed by valid paths. */
  lemma IndexLeavesShape(idx: seq<Entry>)
    requires Wf(idx) && AllResolved(idx) && !Collides(idx)
    ensures Bounded(IndexLeaves(idx), MaxDepth(idx))
    ensures PrefixFree(IndexLeaves(idx)) && ValidKeys(IndexLeaves(idx)) && [] !in IndexLeaves(idx)
  {
    IndexLeavesExact(idx);
    var m := IndexLeaves(idx);
    forall c | c in m ensures |c| <= MaxDepth(idx) && ValidComponents(c) {
      var x :| x in idx && Split(x.path) == c;
      var i :| 0 <= i < |idx| && idx[i] == x;
    }
    forall c, d | c in m && d in m ensures !ProperPrefix(c, d) {
      var x :| x in idx && Split(x.path) == c;
      var y :| y in idx && Split(y.path) == d;
      var i :| 0 <= i < |idx| && idx[i] == x;
      var j :| 0 <= j < |idx| && idx[j] == y;
    }
  }

  /**
   write-tree: refuses an index with unresolved conflicts, and one where a
   name is both a file and a directory; otherwise the tree whose files are
   exactly the index's entries.
   */
  function WriteTree(idx: seq<Entry>): (r: Result<Node>)
    requires Wf(idx)
    ensures !AllResolved(idx) ==> r == Failure(UnmergedConflict)
    ensures AllResolved(idx) && Collides(idx) ==> r == Failure(InvalidPath)
    ensures r.Success? <==> AllResolved(idx) && !Collides(idx)
    ensures r.Success? ==> WfTree(r.value)
    ensures r.Success? ==> forall x :: x in idx ==> Lookup(r.value, Split(x.path)) == Some(LeafOf(x))
    ensures r.Success? ==> forall c :: Lookup(r.value, c).Some? ==>
      exists x :: x in idx && Split(x.path) == c
  {
    if !AllResolved(idx) then Failure(UnmergedConflict)
    else if Collides(idx) then Failure(InvalidPath)
    else
      var m := IndexLeaves(idx);
      IndexLeavesShape(idx);
      IndexLeavesExact(idx);
      var t := Build(m, MaxDepth(idx));
      BuildWf(m, MaxDepth(idx));
      LeavesBuild(m, MaxDepth(idx));
      Success(t)
  }

  /**
   What read-tree of `t` must produce: a sorted, resolved index with no
   stat data and no cached size, whose files are exactly the tree's.
   */
  predicate ReadsAs(t: Node, idx: seq<Entry>)
  {
    && Wf(idx)
    && AllResolved(idx)
    && (forall i :: 0 <= i < |idx| ==> idx[i].stat == ZeroStat && idx[i].fileSize == 0)
    && IndexLeaves(idx) == Leaves(t)
  }

  function EntryFor(c: seq<string>, l: Leaf): Entry
    requires |c| >= 1
  {
    Entry(Join(c), 0, l.id, l.mode, 0, ZeroStat)
  }

  /**
   read-tree into a fresh index: one stage-0 entry per file of the tree,
   path joined from its directory names, id and mode from the tree, stat
   cache zero. A sub-directory holding no file contributes nothing. A tree
   that is a lone file, or that names a child "", ".." or with a '/', is
   malformed and refused as Corrupt. The files are visited in no
   particular order; insertion keeps the index sorted regardless.
   */
  method ReadTree(t: Node) returns (r: Result<seq<Entry>>)
    ensures r.Failure? <==> !ReadableTree(t)
    ensures r.Failure? ==> r.error == Corrupt
    ensures r.Success? ==> ReadsAs(t, r.value) && |r.value| == |Leaves(t)|
  {
    if !ReadableTree(t) {
      return Failure(Corrupt);
    }
    var leaves := Leaves(t);
    LeavesShape(t);
    var rest := leaves.Keys;
    var idx := [];
    while rest != {}
      invariant rest <= leaves.Keys
      invariant Loaded(idx, leaves, rest)
      decreases rest
    {
      var c :| c in rest;
      LoadOne(idx, leaves, rest, c);
      idx := Insert(idx, EntryFor(c, leaves[c]));
      rest := rest - {c};
    }
    assert IndexLeaves(idx) == leaves;
    IndexLeavesExact(idx);
    return Success(idx);
  }

  /** Loop state of read-tree: the files not in `rest` are loaded, with zero stat data. */
  ghost predicate Loaded(idx: seq<Entry>, leaves: LeafMap, rest: set<seq<string>>)
  {
    && Wf(idx) && AllResolved(idx)
    && (forall i :: 0 <= i < |idx| ==> idx[i].stat == ZeroStat && idx[i].fileSize == 0)
    && (forall c :: c in IndexLeaves(idx) <==> c in leaves && c !in rest)
    && (forall c :: c in IndexLeaves(idx) ==> IndexLeaves(idx)[c] == leaves[c])
  }

  lemma LoadOne(idx: seq<Entry>, leaves: LeafMap, rest: set<seq<string>>, c: seq<string>)
    requires Loaded(idx, leaves, rest) && c in rest && rest <= leaves.Keys && ValidKeys(leaves)
    ensures Loaded(Insert(idx, EntryFor(c, leaves[c])), leaves, rest - {c})
  {
    var e := EntryFor(c, leaves[c]);
    JoinValid(c);
    IndexLeavesExact(idx);
    assert !HasKey(idx, e.path, 0);
    var next := Insert(idx, e);
    LoadedEntries(idx, e, next);
    IndexLeavesExact(next);
    LoadedKeys(idx, next, e, leaves, rest, c);
  }

  lemma LoadedKeys(idx: seq<Entry>, next: seq<Entry>, e: Entry, leaves: LeafMap, rest: set<seq<string>>, c: seq<string>)
    requires c in leaves && Split(e.path) == c && LeafOf(e) == leaves[c]
    requires forall x :: x in next ==> x == e || x in idx
    requires forall x :: x in idx && x.path != e.path ==> x in next
    requires e in next
    requires forall d :: d in IndexLeaves(idx) <==> d in leaves && d !in rest
    requires forall d :: d in IndexLeaves(idx) ==> IndexLeaves(idx)[d] == leaves[d]
    requires forall d :: d in IndexLeaves(idx) <==> exists x :: x in idx && Split(x.path) == d
    requires forall x :: x in idx ==> IndexLeaves(idx)[Split(x.path)] == LeafOf(x)
    requires forall d :: d in IndexLeaves(next) <==> exists x :: x in next && Split(x.path) == d
    requires forall x :: x in next ==> IndexLeaves(next)[Split(x.path)] == LeafOf(x)
    ensures forall d :: d in IndexLeaves(next) <==> d in leaves && d !in rest - {c}
    ensures forall d :: d in IndexLeaves(next) ==> IndexLeaves(next)[d] == leaves[d]
  {
    forall d ensures d in IndexLeaves(next) <==> d in leaves && d !in rest - {c} {
      if d in leaves && d !in rest - {c} && d != c {
        var x :| x in idx && Split(x.path) == d;
        assert x in next;
      }
    }
    forall d | d in IndexLeaves(next) ensures IndexLeaves(next)[d] == leaves[d] {
      var x :| x in next && Split(x.path) == d;
    }
  }

  lemma LoadedEntries(idx: seq<Entry>, e: Entry, next: seq<Entry>)
    requires Wf(idx) && AllResolved(idx) && ValidPath(e.path) && e.stage == 0
    requires forall i :: 0 <= i < |idx| ==> idx[i].stat == ZeroStat && idx[i].fileSize == 0
    requires e.stat == ZeroStat && e.fileSize == 0
    requires Sorted(next) && forall x :: x in next ==> x == e || x in idx
    ensures Wf(next) && AllResolved(next)
    ensures forall i :: 0 <= i < |next| ==> next[i].stat == ZeroStat && next[i].fileSize == 0
  {
    forall i | 0 <= i < |next|
      ensures next[i].stage == 0 && ValidPath(next[i].path)
      ensures next[i].stat == ZeroStat && next[i].fileSize == 0
    {
      assert next[i] in next;
    }
  }

  // ---------------------------------------------------------------------
  // Round trips

  /** write-tree of any resolved index holding exactly the files of `t` is `t`, whatever its stat data. */
  lemma WriteTreeOfLeaves(t: Node, idx: seq<Entry>)
    requires WfTree(t) && Wf(idx) && AllResolved(idx) && IndexLeaves(idx) == Leaves(t)
    ensures WriteTree(idx) == Success(t)
  {
    WfNodeNames(t);
    LeavesShape(t);
    IndexLeavesExact(idx);
    assert !Collides(idx);
    IndexLeavesShape(idx);
    BuildLeaves(t, MaxDepth(idx));
  }

  /** write-tree of any index read-tree produced from `t` is `t` again. */
  lemma WriteTreeOfReadTree(t: Node, idx: seq<Entry>)
    requires WfTree(t) && ReadsAs(t, idx)
    ensures WriteTree(idx) == Success(t)
  {
    WriteTreeOfLeaves(t, idx);
  }

  /**
   Why the tree round trips need a tree without empty sub-directories:
   read-tree of a root holding only an empty directory "a" loads nothing,
   and write-tree of the empty index is the empty root, not that tree.
   */
  lemma EmptyDirectoryLost()
    ensures var t := Dir(map["a" := Dir(map[])]);
      ReadableTree(t) && ReadsAs(t, []) && WriteTree([]) == Success(Dir(map[])) && Dir(map[]) != t
  {
    var t := Dir(map["a" := Dir(map[])]);
    forall p ensures Lookup(t, p).None? {
      if p != [] && p[0] == "a" && |p| > 1 {
        assert Lookup(t, p) == Lookup(Dir(map[]), p[1..]);
      }
    }
    assert Leaves(t) == map[];
    assert "a" in t.children;
  }

  /** The tree write-tree returns has exactly the index's files. */
  lemma WriteTreeLeaves(idx: seq<Entry>, t: Node)
    requires Wf(idx) && WriteTree(idx) == Success(t)
    ensures Leaves(t) == IndexLeaves(idx)
  {
    IndexLeavesShape(idx);
    LeavesBuild(IndexLeaves(idx), MaxDepth(idx));
  }

  /**
   read-tree of write-tree gives back the same files, so the same number of
   entries, each with the same path, id and mode.
   */
  lemma ReadTreeOfWriteTree(idx: seq<Entry>, t: Node, reread: seq<Entry>)
    requires Wf(idx) && WriteTree(idx) == Success(t) && ReadsAs(t, reread)
    ensures |reread| == |idx|
    ensures forall x :: x in idx ==>
      exists y :: y in reread && y.path == x.path && LeafOf(y) == LeafOf(x)
  {
    WriteTreeLeaves(idx, t);
    SameLeaves(idx, reread);
  }

  lemma SameLeaves(idx: seq<Entry>, other: seq<Entry>)
    requires Sorted(idx) && AllResolved(idx) && Sorted(other) && AllResolved(other)
    requires IndexLeaves(other) == IndexLeaves(idx)
    ensures |other| == |idx|
    ensures forall x :: x in idx ==>
      exists y :: y in other && y.path == x.path && LeafOf(y) == LeafOf(x)
  {
    IndexLeavesSize(idx);
    IndexLeavesSize(other);
    forall x | x in idx ensures exists y :: y in other && y.path == x.path && LeafOf(y) == LeafOf(x) {
      SameLeavesEntry(idx, other, x);
    }
  }

  /** One entry's counterpart in an index filing the same files. */
  lemma SameLeavesEntry(idx: seq<Entry>, other: seq<Entry>, x: Entry)
    requires Sorted(idx) && AllResolved(idx) && Sorted(other) && AllResolved(other)
    requires IndexLeaves(other) == IndexLeaves(idx) && x in idx
    ensures exists y :: y in other && y.path == x.path && LeafOf(y) == LeafOf(x)
  {
    IndexLeavesValues(idx);
    IndexLeavesKeys(other);
    IndexLeavesValues(other);
    var c := Split(x.path);
    assert c in IndexLeaves(other);
    var y :| y in other && Split(y.path) == c;
    SplitInjective(y.path, x.path);
  }
}
