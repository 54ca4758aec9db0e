/**
 Tree objects, abstracted. A tree is a directory whose children are named
 files (a content id and a mode) or further directories. The content
 store's hash is assumed injective, so a tree value stands for its own id:
 two trees have the same id exactly when they are equal. Children are kept
 in a map, so the canonical child order of the wire format plays no part.

 A tree denotes a finite map from component paths to leaves (`Leaves`);
 `Build` goes the other way, grouping a leaf map by first component the way
 write-tree groups index entries by directory.
 */
module Trees {
  import opened Types
  import opened Paths

  datatype Leaf = Leaf(id: Oid, mode: Mode)

  datatype Node = File(leaf: Leaf) | Dir(children: map<string, Node>)

  /** Valid names everywhere, and no empty sub-directory (the index cannot express one). */
  predicate WfNode(t: Node)
  {
    match t
    case File(_) => true
    case Dir(ch) =>
      forall n :: n in ch ==>
        ValidName(n) && WfNode(ch[n]) && (ch[n].Dir? ==> ch[n].children != map[])
  }

  /** A root tree: a directory, possibly empty. */
  predicate WfTree(t: Node)
  {
    t.Dir? && WfNode(t)
  }

  /** Valid names everywhere; empty sub-directories allowed. */
  predicate NamesValid(t: Node)
  {
    match t
    case File(_) => true
    case Dir(ch) => forall n :: n in ch ==> ValidName(n) && NamesValid(ch[n])
  }

  /** Any tree read-tree accepts: a root directory with valid names throughout. */
  predicate ReadableTree(t: Node)
  {
    t.Dir? && NamesValid(t)
  }

  lemma {:induction false} WfNodeNames(t: Node)
    requires WfNode(t)
    ensures NamesValid(t)
  {
    match t
    case File(_) =>
    case Dir(ch) =>
      forall n | n in ch ensures NamesValid(ch[n]) {
        WfNodeNames(ch[n]);
      }
  }

  /** The leaf at a component path, if the path names a file. */
  function Lookup(t: Node, p: seq<string>): Option<Leaf>
    decreases |p|
  {
    match t
    case File(l) => if p == [] then Some(l) else None
    case Dir(ch) => if p == [] || p[0] !in ch then None else Lookup(ch[p[0]], p[1..])
  }

  function LeafPaths(t: Node): set<seq<string>>
  {
    match t
    case File(_) => {[]}
    case Dir(ch) => set n, q | n in ch && q in LeafPaths(ch[n]) :: [n] + q
  }

  lemma {:induction false} LeafPathsExact(t: Node, p: seq<string>)
    ensures p in LeafPaths(t) <==> Lookup(t, p).Some?
    decreases |p|
  {
    match t
    case File(_) =>
    case Dir(ch) =>
      if p != [] && p[0] in ch {
        LeafPathsExact(ch[p[0]], p[1..]);
        assert p == [p[0]] + p[1..];
      }
      if p in LeafPaths(t) {
        var n, q :| n in ch && q in LeafPaths(ch[n]) && p == [n] + q;
        assert p[0] == n && p[1..] == q;
      }
  }

  /** The tree's flattened content: every file, keyed by its component path. */
  function Leaves(t: Node): (m: map<seq<string>, Leaf>)
    ensures forall p :: p in m <==> Lookup(t, p).Some?
    ensures forall p :: p in m ==> Lookup(t, p) == Some(m[p])
  {
    forall p ensures p in LeafPaths(t) <==> Lookup(t, p).Some? {
      LeafPathsExact(t, p);
    }
    map p | p in LeafPaths(t) :: Lookup(t, p).value
  }

  // ---------------------------------------------------------------------
  // Leaf maps and the write-tree construction

  type LeafMap = map<seq<string>, Leaf>

  /** No file path is a proper prefix of another: nothing is both a file and a directory. */
  predicate PrefixFree(m: LeafMap)
  {
    forall p, q {:trigger ProperPrefix(p, q)} :: p in m && q in m ==> !ProperPrefix(p, q)
  }

  /** `p` names a directory on the way to `q`. */
  predicate ProperPrefix(p: seq<string>, q: seq<string>)
  {
    p < q
  }

  /** Every key is a non-empty path of valid names. */
  predicate ValidKeys(m: LeafMap)
  {
    forall p :: p in m ==> ValidComponents(p)
  }

  predicate Bounded(m: LeafMap, b: nat)
  {
    forall p :: p in m ==> |p| <= b
  }

  /** First components: the names of the top-level tree. */
  function Heads(m: LeafMap): set<string>
  {
    set p | p in m && |p| > 0 :: p[0]
  }

  function Tails(m: LeafMap, n: string): set<seq<string>>
  {
    set p | p in m && |p| > 0 && p[0] == n :: p[1..]
  }

  lemma TailsExact(m: LeafMap, n: string)
    ensures forall q :: q in Tails(m, n) <==> [n] + q in m
  {
    forall q ensures q in Tails(m, n) <==> [n] + q in m {
      if q in Tails(m, n) {
        var p :| p in m && |p| > 0 && p[0] == n && q == p[1..];
        assert p == [n] + q;
      }
      if [n] + q in m {
        var p := [n] + q;
        assert p[0] == n && p[1..] == q;
      }
    }
  }

  /** The leaves below directory `n`, with `n/` stripped off. */
  function Under(m: LeafMap, n: string): (u: LeafMap)
    ensures forall q :: q in u <==> [n] + q in m
    ensures forall q :: q in u ==> u[q] == m[[n] + q]
  {
    TailsExact(m, n);
    map q | q in Tails(m, n) :: m[[n] + q]
  }

  lemma UnderBounded(m: LeafMap, n: string, b: nat)
    requires Bounded(m, b) && n in Heads(m)
    ensures b >= 1 && Bounded(Under(m, n), b - 1)
  {
    var p :| p in m && |p| > 0 && p[0] == n;
    forall q | q in Under(m, n) ensures |q| <= b - 1 {
      assert [n] + q in m;
    }
  }

  /**
   write-tree on a leaf map: one tree level per directory, a file where a
   first component is itself a key, a sub-tree built from the keys below
   it otherwise. `b` bounds the path depth and makes the recursion finite.
   */
  function Build(m: LeafMap, b: nat): Node
    requires Bounded(m, b)
    decreases b, 1
  {
    Dir(map n | n in Heads(m) :: Child(m, b, n))
  }

  /** The entry `Build` makes for top-level name `n`. */
  function Child(m: LeafMap, b: nat, n: string): Node
    requires Bounded(m, b) && n in Heads(m)
    decreases b, 0
  {
    if [n] in m then File(m[[n]])
    else
      UnderBounded(m, n, b);
      Build(Under(m, n), b - 1)
  }

  /** One level of `Build`: which names it creates and what sits under each. */
  lemma BuildChild(m: LeafMap, b: nat, n: string)
    requires Bounded(m, b)
    ensures n in Build(m, b).children <==> n in Heads(m)
    ensures n in Heads(m) && [n] in m ==> Build(m, b).children[n] == File(m[[n]])
    ensures n in Heads(m) && [n] !in m ==>
      b >= 1 && Bounded(Under(m, n), b - 1) && Build(m, b).children[n] == Build(Under(m, n), b - 1)
  {
    if n in Heads(m) { UnderBounded(m, n, b); }
  }

  lemma UnderPrefixFree(m: LeafMap, n: string)
    requires PrefixFree(m)
    ensures PrefixFree(Under(m, n))
  {
    var u := Under(m, n);
    forall q1, q2 | q1 in u && q2 in u ensures !ProperPrefix(q1, q2) {
      assert [n] + q1 in m && [n] + q2 in m;
      assert ProperPrefix(q1, q2) ==> ProperPrefix([n] + q1, [n] + q2);
    }
  }

  /** Looking a path up in the built tree finds exactly the leaf the map gives it. */
  lemma {:induction false} LookupBuild(m: LeafMap, b: nat, p: seq<string>)
    requires Bounded(m, b) && PrefixFree(m) && [] !in m
    ensures Lookup(Build(m, b), p) == if p in m then Some(m[p]) else None
    decreases b, 2
  {
    if p != [] {
      if p[0] !in Heads(m) {
        LookupOutside(m, b, p);
      } else if [p[0]] in m {
        LookupFile(m, b, p);
      } else {
        LookupDir(m, b, p[0], p[1..]);
        assert p == [p[0]] + p[1..];
      }
    }
  }

  /** `LookupBuild` for a path `[n] + q` below sub-directory `n`. */
  lemma LookupDir(m: LeafMap, b: nat, n: string, q: seq<string>)
    requires Bounded(m, b) && PrefixFree(m) && [] !in m
    requires n in Heads(m) && [n] !in m
    ensures Lookup(Build(m, b), [n] + q) == if [n] + q in m then Some(m[[n] + q]) else None
    decreases b, 1
  {
    LookupDirStep(m, b, n, q);
    LookupUnder(m, b, n, q);
  }

  /** The induction step proper: the sub-tree for `n` is built from the leaves under `n`. */
  lemma {:induction false} LookupUnder(m: LeafMap, b: nat, n: string, q: seq<string>)
    requires Bounded(m, b) && PrefixFree(m) && n in Heads(m) && [n] !in m
    ensures b >= 1 && Bounded(Under(m, n), b - 1)
    ensures Lookup(Build(Under(m, n), b - 1), q) == if q in Under(m, n) then Some(Under(m, n)[q]) else None
    decreases b, 0
  {
    UnderBounded(m, n, b);
    UnderFree(m, n);
    LookupBuild(Under(m, n), b - 1, q);
  }

  lemma LookupDirStep(m: LeafMap, b: nat, n: string, q: seq<string>)
    requires Bounded(m, b) && n in Heads(m) && [n] !in m
    ensures b >= 1 && Bounded(Under(m, n), b - 1)
    ensures Lookup(Build(m, b), [n] + q) == Lookup(Build(Under(m, n), b - 1), q)
  {
    UnderBounded(m, n, b);
    var p := [n] + q;
    assert p[0] == n && p[1..] == q;
    LookupStep(m, b, p);
  }

  lemma UnderFree(m: LeafMap, n: string)
    requires PrefixFree(m) && [n] !in m
    ensures PrefixFree(Under(m, n)) && [] !in Under(m, n)
  {
    UnderPrefixFree(m, n);
    assert [n] + [] == [n];
  }

  lemma LookupStep(m: LeafMap, b: nat, p: seq<string>)
    requires Bounded(m, b) && p != [] && p[0] in Heads(m)
    ensures Lookup(Build(m, b), p) == Lookup(Child(m, b, p[0]), p[1..])
  {
    BuildChild(m, b, p[0]);
  }

  lemma LookupOutside(m: LeafMap, b: nat, p: seq<string>)
    requires Bounded(m, b) && p != [] && p[0] !in Heads(m)
    ensures Lookup(Build(m, b), p) == None && p !in m
  {
    BuildChild(m, b, p[0]);
  }

  lemma LookupFile(m: LeafMap, b: nat, p: seq<string>)
    requires Bounded(m, b) && PrefixFree(m) && p != [] && [p[0]] in m
    ensures Lookup(Build(m, b), p) == if p in m then Some(m[p]) else None
  {
    var n, rest := p[0], p[1..];
    assert n in Heads(m) by { assert [n][0] == n; }
    LookupStep(m, b, p);
    assert Child(m, b, n) == File(m[[n]]);
    if rest == [] {
      assert p == [n];
    } else {
      assert ProperPrefix([n], p);
    }
  }

  lemma UnderValid(m: LeafMap, n: string)
    requires ValidKeys(m) && [n] !in m
    ensures ValidKeys(Under(m, n))
  {
    var u := Under(m, n);
    forall q | q in u ensures ValidComponents(q) {
      var pq := [n] + q;
      assert pq in m;
      assert q != [] by { assert pq != [n]; }
      forall k | 0 <= k < |q| ensures ValidName(q[k]) {
        assert q[k] == pq[k + 1];
      }
    }
  }

  /** What write-tree produces is a well-formed tree. */
  lemma {:induction false} BuildWf(m: LeafMap, b: nat)
    requires Bounded(m, b) && ValidKeys(m)
    ensures WfTree(Build(m, b))
    decreases b, 1
  {
    var ch := Build(m, b).children;
    forall n | n in ch
      ensures ValidName(n) && WfNode(ch[n]) && (ch[n].Dir? ==> ch[n].children != map[])
    {
      BuildChild(m, b, n);
      ChildWf(m, b, n);
    }
  }

  lemma {:induction false} ChildWf(m: LeafMap, b: nat, n: string)
    requires Bounded(m, b) && ValidKeys(m) && n in Heads(m)
    ensures ValidName(n) && WfNode(Child(m, b, n))
    ensures Child(m, b, n).Dir? ==> Child(m, b, n).children != map[]
    decreases b, 0
  {
    var p :| p in m && |p| > 0 && p[0] == n;
    assert ValidName(p[0]);
    if [n] !in m {
      SubdirNonEmpty(m, b, n, p);
      UnderValid(m, n);
      BuildWf(Under(m, n), b - 1);
    }
  }

  /** A sub-directory write-tree builds holds at least the entry for the file `p` lies under. */
  lemma SubdirNonEmpty(m: LeafMap, b: nat, n: string, p: seq<string>)
    requires Bounded(m, b) && n in Heads(m) && [n] !in m
    requires p in m && |p| > 0 && p[0] == n
    ensures b >= 1 && Bounded(Under(m, n), b - 1)
    ensures Build(Under(m, n), b - 1).children != map[]
  {
    UnderBounded(m, n, b);
    var q := p[1..];
    assert [n] + q == p;
    assert q != [] by { assert p != [n]; }
    assert q in Under(m, n);
    BuildChild(Under(m, n), b - 1, q[0]);
  }

  // ---------------------------------------------------------------------
  // Trees are determined by their leaves

  lemma {:induction false} HasLeaf(t: Node)
    requires WfNode(t) && (t.Dir? ==> t.children != map[])
    ensures exists p :: Lookup(t, p).Some?
  {
    match t
    case File(l) =>
      assert Lookup(t, []).Some?;
    case Dir(ch) =>
      var n :| n in ch;
      HasLeaf(ch[n]);
      var q :| Lookup(ch[n], q).Some?;
      var p := [n] + q;
      assert p[0] == n && p[1..] == q;
      assert Lookup(t, p).Some?;
  }

  /** Two well-formed nodes with the same lookups are the same node (hence the same id). */
  lemma {:induction false} Extensionality(t1: Node, t2: Node)
    requires WfNode(t1) && WfNode(t2)
    requires forall p :: Lookup(t1, p) == Lookup(t2, p)
    ensures t1 == t2
  {
    assert Lookup(t1, []) == Lookup(t2, []);
    match t1
    case File(l1) =>
    case Dir(ch1) =>
      var ch2 := t2.children;
      forall n | n in ch1 ensures n in ch2 {
        HasLeaf(ch1[n]);
        var q :| Lookup(ch1[n], q).Some?;
        var p := [n] + q;
        assert p[0] == n && p[1..] == q;
        assert Lookup(t1, p).Some?;
      }
      forall n | n in ch2 ensures n in ch1 {
        HasLeaf(ch2[n]);
        var q :| Lookup(ch2[n], q).Some?;
        var p := [n] + q;
        assert p[0] == n && p[1..] == q;
        assert Lookup(t2, p).Some?;
      }
      forall n | n in ch1 ensures ch1[n] == ch2[n] {
        forall q ensures Lookup(ch1[n], q) == Lookup(ch2[n], q) {
          var p := [n] + q;
          assert p[0] == n && p[1..] == q;
          assert Lookup(t1, p) == Lookup(t2, p);
        }
        Extensionality(ch1[n], ch2[n]);
      }
      assert ch1 == ch2;
  }

  lemma {:induction false} LookupShape(t: Node, p: seq<string>, q: seq<string>)
    requires NamesValid(t)
    requires Lookup(t, p).Some? && Lookup(t, q).Some?
    ensures !(p < q)
    ensures ValidComponents(p) || (p == [] && t.File?)
    decreases |p|
  {
    match t
    case File(_) =>
    case Dir(ch) =>
      var c := ch[p[0]];
      if p < q {
        assert q[0] == p[0];
        assert p[1..] < q[1..];
        LookupShape(c, p[1..], q[1..]);
      } else {
        LookupShape(c, p[1..], p[1..]);
      }
      if p[1..] != [] {
        assert ValidComponents(p[1..]);
        forall k | 0 <= k < |p| ensures ValidName(p[k]) {
          if k > 0 { assert p[k] == p[1..][k - 1]; }
        }
      }
  }

  /** A tree's leaf map is a legal input to write-tree. */
  lemma LeavesShape(t: Node)
    requires ReadableTree(t)
    ensures PrefixFree(Leaves(t)) && ValidKeys(Leaves(t)) && [] !in Leaves(t)
  {
    var m := Leaves(t);
    forall p, q | p in m && q in m ensures !ProperPrefix(p, q) && ValidComponents(p) {
      LookupShape(t, p, q);
    }
  }

  /** write-tree inverts read-tree at the level of trees: the leaves rebuild the tree. */
  lemma BuildLeaves(t: Node, b: nat)
    requires WfTree(t) && Bounded(Leaves(t), b)
    ensures Build(Leaves(t), b) == t
  {
    var m := Leaves(t);
    WfNodeNames(t);
    LeavesShape(t);
    BuildWf(m, b);
    forall p ensures Lookup(Build(m, b), p) == Lookup(t, p) {
      LookupBuild(m, b, p);
    }
    Extensionality(Build(m, b), t);
  }

  /** read-tree inverts write-tree: the built tree has exactly the map's leaves. */
  lemma LeavesBuild(m: LeafMap, b: nat)
    requires Bounded(m, b) && PrefixFree(m) && [] !in m
    ensures Leaves(Build(m, b)) == m
  {
    var t := Build(m, b);
    forall p ensures Lookup(t, p) == if p in m then Some(m[p]) else None {
      LookupBuild(m, b, p);
    }
  }
}
