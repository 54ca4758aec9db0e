/**
 Index paths: '/'-separated strings with no leading or trailing slash and
 no empty or ".." component. The index orders them bytewise (strcmp on the
 UTF-8 bytes, which is code-point order on characters); trees see the same
 path as its list of components.
 */
module Paths {

  /** One path component, as it appears as a name in a tree. */
  predicate ValidName(n: string)
  {
    |n| > 0 && '/' !in n && n != ".."
  }

  /** Position of the first '/' in `p`. */
  function FirstSlash(p: string): (i: nat)
    requires '/' in p
    ensures i < |p| && p[i] == '/' && '/' !in p[..i]
  {
    if p[0] == '/' then 0
    else
      assert p == [p[0]] + p[1..];
      var j := FirstSlash(p[1..]);
      assert p[..j + 1] == [p[0]] + p[1..][..j];
      j + 1
  }

  /** The components of a path, split at every '/'. */
  function Split(p: string): (c: seq<string>)
    ensures |c| >= 1
    ensures forall k :: 0 <= k < |c| ==> '/' !in c[k]
    decreases |p|
  {
    if '/' in p then
      var i := FirstSlash(p);
      [p[..i]] + Split(p[i + 1..])
    else
      [p]
  }

  /** Components glued back together with '/'. */
  function Join(c: seq<string>): string
    requires |c| >= 1
  {
    if |c| == 1 then c[0] else c[0] + "/" + Join(c[1..])
  }

  predicate ValidComponents(c: seq<string>)
  {
    |c| >= 1 && forall k :: 0 <= k < |c| ==> ValidName(c[k])
  }

  /** What `add` accepts: non-empty, relative, no empty or ".." segment. */
  predicate ValidPath(p: string)
  {
    ValidComponents(Split(p))
  }

  lemma {:induction false} JoinSplit(p: string)
    ensures Join(Split(p)) == p
    decreases |p|
  {
    if '/' in p {
      var i := FirstSlash(p);
      var c, tail := Split(p), Split(p[i + 1..]);
      assert c == [p[..i]] + tail;
      assert c[0] == p[..i] && c[1..] == tail;
      assert Join(c) == p[..i] + "/" + Join(tail);
      JoinSplit(p[i + 1..]);
      assert p == p[..i] + "/" + p[i + 1..];
    }
  }

  lemma {:induction false} SplitJoin(c: seq<string>)
    requires |c| >= 1
    requires forall k :: 0 <= k < |c| ==> '/' !in c[k]
    ensures Split(Join(c)) == c
  {
    if |c| > 1 {
      assert Join(c) == c[0] + "/" + Join(c[1..]);
      SplitAtFirstSlash(c[0], Join(c[1..]));
      SplitJoin(c[1..]);
      assert c == [c[0]] + c[1..];
    }
  }

  /** A slash after a slash-free prefix is the first one, so splitting starts there. */
  lemma SplitAtFirstSlash(a: string, rest: string)
    requires '/' !in a
    ensures Split(a + "/" + rest) == [a] + Split(rest)
  {
    var p := a + "/" + rest;
    assert p[|a|] == '/';
    assert p[..|a|] == a;
    var i := FirstSlash(p);
    assert i == |a|;
    assert p[i + 1..] == rest;
  }

  /** Splitting is injective: two strings with the same components are equal. */
  lemma SplitInjective(p: string, q: string)
    requires Split(p) == Split(q)
    ensures p == q
  {
    JoinSplit(p);
    JoinSplit(q);
  }

  lemma JoinValid(c: seq<string>)
    requires ValidComponents(c)
    ensures ValidPath(Join(c))
    ensures Split(Join(c)) == c
  {
    SplitJoin(c);
  }

  // ---------------------------------------------------------------------
  // Bytewise order

  /** Strict lexicographic order on code points (strcmp(a, b) < 0). */
  predicate StrLess(a: string, b: string)
  {
    if |a| == 0 then |b| > 0
    else if |b| == 0 then false
    else a[0] < b[0] || (a[0] == b[0] && StrLess(a[1..], b[1..]))
  }

  /** strcmp's sign: -1, 0 or 1. */
  function StrCompare(a: string, b: string): (r: int)
    ensures -1 <= r <= 1
    ensures r == -1 <==> StrLess(a, b)
    ensures r == 0 <==> a == b
    ensures r == 1 <==> StrLess(b, a)
  {
    if |a| == 0 && |b| == 0 then 0
    else if |a| == 0 then -1
    else if |b| == 0 then 1
    else if a[0] < b[0] then -1
    else if b[0] < a[0] then 1
    else
      var r := StrCompare(a[1..], b[1..]);
      assert a == [a[0]] + a[1..] && b == [b[0]] + b[1..];
      r
  }

  lemma StrLessIrreflexive(a: string)
    ensures !StrLess(a, a)
  {
    var _ := StrCompare(a, a);
  }

  lemma {:induction false} StrLessTransitive(a: string, b: string, c: string)
    requires StrLess(a, b) && StrLess(b, c)
    ensures StrLess(a, c)
    decreases |a|
  {
    if |a| > 0 && a[0] == b[0] && b[0] == c[0] {
      StrLessTransitive(a[1..], b[1..], c[1..]);
    }
  }
}
