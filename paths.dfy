/**
  Edges, walks and reachability over a set of directed edges, and the
  lexicographic order on walks that the depth-first search of the graph
  follows.  Everything here is a mathematical definition used to specify
  the graph operations; none of it is executed.
 */
module Paths {

  /** A directed edge `(source, destination)` between node indices. */
  type Edge = (nat, nat)

  /** The order of the graph's ordered edge set: by source, then by destination. */
  predicate EdgeLess(a: Edge, b: Edge) {
    a.0 < b.0 || (a.0 == b.0 && a.1 < b.1)
  }

  /** `c` is a walk over `edges` that leaves from node `a`. */
  ghost predicate Chain(edges: set<Edge>, a: nat, c: seq<Edge>) {
    && (forall i :: 0 <= i < |c| ==> c[i] in edges)
    && (|c| > 0 ==> c[0].0 == a)
    && (forall i :: 0 <= i < |c| - 1 ==> c[i].1 == c[i + 1].0)
  }

  /** The node where a walk from `a` arrives. */
  function End(a: nat, c: seq<Edge>): nat {
    if c == [] then a else c[|c| - 1].1
  }

  /** `b` is reachable from `a` by a walk of one or more edges. */
  ghost predicate Reaches(edges: set<Edge>, a: nat, b: nat) {
    exists c :: Chain(edges, a, c) && |c| > 0 && End(a, c) == b
  }

  /** `b` is `a` or is reachable from `a`. */
  ghost predicate ReachesEq(edges: set<Edge>, a: nat, b: nat) {
    a == b || Reaches(edges, a, b)
  }

  /** No node reaches itself. */
  ghost predicate Acyclic(edges: set<Edge>) {
    forall v :: !Reaches(edges, v, v)
  }

  /** `v` has no outgoing edge. */
  ghost predicate Leaf(edges: set<Edge>, v: nat) {
    forall e :: e in edges ==> e.0 != v
  }

  /** `v` has no incoming edge. */
  ghost predicate NoInto(edges: set<Edge>, v: nat) {
    forall e :: e in edges ==> e.1 != v
  }

  // ---------------------------------------------------------------------
  // Walks
  // ---------------------------------------------------------------------

  lemma ChainSource(edges: set<Edge>, a: nat, c: seq<Edge>, j: nat)
    requires Chain(edges, a, c) && j < |c|
    ensures c[j].0 == End(a, c[..j])
  {
    if j > 0 {
      assert c[..j][j - 1] == c[j - 1];
    }
  }

  lemma ChainSlice(edges: set<Edge>, a: nat, c: seq<Edge>, i: nat, j: nat)
    requires Chain(edges, a, c) && i <= j <= |c|
    ensures Chain(edges, End(a, c[..i]), c[i..j])
    ensures End(End(a, c[..i]), c[i..j]) == End(a, c[..j])
  {
    if i < j {
      ChainSource(edges, a, c, i);
      assert c[..j][j - 1] == c[j - 1] == c[i..j][j - i - 1];
    }
  }

  lemma ChainAppend(edges: set<Edge>, a: nat, c: seq<Edge>, e: Edge)
    requires Chain(edges, a, c) && e in edges && e.0 == End(a, c)
    ensures Chain(edges, a, c + [e]) && End(a, c + [e]) == e.1
  {
  }

  lemma ChainConcat(edges: set<Edge>, a: nat, c: seq<Edge>, d: seq<Edge>)
    requires Chain(edges, a, c) && Chain(edges, End(a, c), d)
    ensures Chain(edges, a, c + d) && End(a, c + d) == End(End(a, c), d)
  {
    var cd := c + d;
    forall i | 0 <= i < |cd| - 1 ensures cd[i].1 == cd[i + 1].0 {
      if i + 1 < |c| {
      } else if i + 1 == |c| {
      } else {
        assert cd[i] == d[i - |c|] && cd[i + 1] == d[i + 1 - |c|];
      }
    }
    if d != [] {
      assert cd[|cd| - 1] == d[|d| - 1];
    }
  }

  lemma ReachesEqStep(edges: set<Edge>, a: nat, x: nat, e: Edge)
    requires ReachesEq(edges, a, x) && e in edges && e.0 == x
    ensures Reaches(edges, a, e.1)
  {
    if a == x {
      assert Chain(edges, a, [e]) && End(a, [e]) == e.1;
    } else {
      var c :| Chain(edges, a, c) && |c| > 0 && End(a, c) == x;
      ChainAppend(edges, a, c, e);
      assert |c + [e]| > 0;
    }
  }

  lemma ReachesTrans(edges: set<Edge>, a: nat, b: nat, d: nat)
    requires Reaches(edges, a, b) && Reaches(edges, b, d)
    ensures Reaches(edges, a, d)
  {
    var c1 :| Chain(edges, a, c1) && |c1| > 0 && End(a, c1) == b;
    var c2 :| Chain(edges, b, c2) && |c2| > 0 && End(b, c2) == d;
    ChainConcat(edges, a, c1, c2);
    assert |c1 + c2| > 0;
  }

  lemma ReachesEqTrans(edges: set<Edge>, a: nat, b: nat, d: nat)
    requires ReachesEq(edges, a, b) && ReachesEq(edges, b, d)
    ensures ReachesEq(edges, a, d)
  {
    if a != b && b != d {
      ReachesTrans(edges, a, b, d);
    }
  }

  /** A walk that uses the extra edge `(s, d)` passes from `a` to `s` and from `d` on to its end. */
  lemma {:induction false} ChainAfterAdd(edges: set<Edge>, s: nat, d: nat, a: nat, c: seq<Edge>)
    requires Chain(edges + {(s, d)}, a, c)
    ensures Chain(edges, a, c) || (ReachesEq(edges, a, s) && ReachesEq(edges, d, End(a, c)))
    decreases |c|
  {
    if c != [] {
      var n := |c| - 1;
      var c' := c[..n];
      var e := c[n];
      assert Chain(edges + {(s, d)}, a, c');
      ChainAfterAdd(edges, s, d, a, c');
      ChainSource(edges + {(s, d)}, a, c, n);
      assert c == c' + [e];
      if e == (s, d) {
        if Chain(edges, a, c') {
          if c' != [] {
            assert Reaches(edges, a, End(a, c'));
          }
        }
      } else if Chain(edges, a, c') {
        ChainAppend(edges, a, c', e);
      } else {
        ReachesEqStep(edges, d, End(a, c'), e);
      }
    }
  }

  /** A cycle after adding `(s, d)` is an old cycle or closes a walk from `d` back to `s`. */
  lemma CycleAfterAdd(edges: set<Edge>, s: nat, d: nat, v: nat)
    ensures Reaches(edges + {(s, d)}, v, v) ==> Reaches(edges, v, v) || ReachesEq(edges, d, s)
  {
    if Reaches(edges + {(s, d)}, v, v) {
      var c :| Chain(edges + {(s, d)}, v, c) && |c| > 0 && End(v, c) == v;
      ChainAfterAdd(edges, s, d, v, c);
      if !Chain(edges, v, c) {
        ReachesEqTrans(edges, d, v, s);
      }
    }
  }

  /** Adding `(s, d)` keeps a graph acyclic when `s != d` and `d` does not reach `s`. */
  lemma AddEdgeAcyclic(edges: set<Edge>, s: nat, d: nat)
    requires Acyclic(edges) && s != d && !Reaches(edges, d, s)
    ensures Acyclic(edges + {(s, d)})
  {
    forall v ensures !Reaches(edges + {(s, d)}, v, v) {
      CycleAfterAdd(edges, s, d, v);
    }
  }

  /** A node without incoming edges is reachable from nowhere. */
  lemma NoIntoUnreachable(edges: set<Edge>, a: nat, v: nat)
    requires NoInto(edges, v)
    ensures !Reaches(edges, a, v)
  {
    forall c | Chain(edges, a, c) && |c| > 0 ensures End(a, c) != v {
      assert c[|c| - 1] in edges;
    }
  }

  lemma {:induction false} Pigeonhole(c: seq<Edge>, s: set<Edge>)
    requires forall i :: 0 <= i < |c| ==> c[i] in s
    requires |c| > |s|
    ensures exists i, j :: 0 <= i < j < |c| && c[i] == c[j]
  {
    if c[0] in c[1..] {
      var j :| 0 <= j < |c[1..]| && c[1..][j] == c[0];
      assert c[0] == c[j + 1];
    } else {
      var rest := c[1..];
      forall k | 0 <= k < |rest| ensures rest[k] in s - {c[0]} {
        assert rest[k] == c[k + 1];
      }
      Pigeonhole(rest, s - {c[0]});
      var i, j :| 0 <= i < j < |rest| && rest[i] == rest[j];
      assert c[i + 1] == c[j + 1];
    }
  }

  /** A walk that takes the same edge twice contains a cycle. */
  lemma RepeatIsCycle(edges: set<Edge>, a: nat, c: seq<Edge>, i: nat, j: nat)
    requires Chain(edges, a, c) && i < j < |c| && c[i] == c[j]
    ensures Reaches(edges, c[i].0, c[i].0)
  {
    ChainSlice(edges, a, c, i, j);
    ChainSource(edges, a, c, i);
    ChainSource(edges, a, c, j);
    var x := c[i].0;
    assert Chain(edges, x, c[i..j]) && |c[i..j]| > 0 && End(x, c[i..j]) == x;
  }

  /** In an acyclic graph a walk never repeats an edge, so it is no longer than the edge set. */
  lemma ChainBound(edges: set<Edge>, a: nat, c: seq<Edge>)
    requires Acyclic(edges) && Chain(edges, a, c)
    ensures |c| <= |edges|
  {
    if |c| > |edges| {
      Pigeonhole(c, edges);
      var i, j :| 0 <= i < j < |c| && c[i] == c[j];
      RepeatIsCycle(edges, a, c, i, j);
      assert false;
    }
  }

  /** Every walk from `a` of length at most `k`. */
  ghost function ChainsUpTo(edges: set<Edge>, a: nat, k: nat): set<seq<Edge>>
    decreases k
  {
    if k == 0 then {[]}
    else {[]} + set e, t | e in edges && e.0 == a && t in ChainsUpTo(edges, e.1, k - 1) :: [e] + t
  }

  lemma {:induction false} ChainsUpToComplete(edges: set<Edge>, a: nat, c: seq<Edge>, k: nat)
    requires Chain(edges, a, c) && |c| <= k
    ensures c in ChainsUpTo(edges, a, k)
    decreases k
  {
    if c != [] {
      var e, t := c[0], c[1..];
      assert Chain(edges, e.1, t);
      ChainsUpToComplete(edges, e.1, t, k - 1);
      assert c == [e] + t;
    }
  }

  // ---------------------------------------------------------------------
  // Lexicographic order on walks
  // ---------------------------------------------------------------------

  /** `a` comes before `b`, first differing at position `i` (or `a` is a proper prefix of `b`). */
  ghost predicate LexLessAt(a: seq<Edge>, b: seq<Edge>, i: nat) {
    && i <= |a| && i <= |b| && a[..i] == b[..i]
    && ((i == |a| && i < |b|) || (i < |a| && i < |b| && EdgeLess(a[i], b[i])))
  }

  ghost predicate LexLess(a: seq<Edge>, b: seq<Edge>) {
    exists i: nat :: LexLessAt(a, b, i)
  }

  ghost predicate LexLE(a: seq<Edge>, b: seq<Edge>) {
    a == b || LexLess(a, b)
  }

  lemma LexIrreflexive(a: seq<Edge>)
    ensures !LexLess(a, a)
  {
  }

  lemma LexTrans(a: seq<Edge>, b: seq<Edge>, c: seq<Edge>)
    requires LexLess(a, b) && LexLess(b, c)
    ensures LexLess(a, c)
  {
    var i: nat :| LexLessAt(a, b, i);
    var j: nat :| LexLessAt(b, c, j);
    if i < j {
      assert b[..i] == b[..j][..i] == c[..j][..i] == c[..i];
      if i < |a| {
        assert b[i] == b[..j][i] == c[..j][i] == c[i];
      }
      assert LexLessAt(a, c, i);
    } else if j < i {
      assert a[..j] == a[..i][..j] == b[..i][..j] == b[..j];
      assert a[j] == a[..i][j] == b[..i][j] == b[j];
      assert LexLessAt(a, c, j);
    } else {
      assert LexLessAt(a, c, i);
    }
  }

  lemma LexAsym(a: seq<Edge>, b: seq<Edge>)
    requires LexLess(a, b)
    ensures !LexLess(b, a) && a != b
  {
    if LexLess(b, a) {
      LexTrans(a, b, a);
      LexIrreflexive(a);
    }
  }

  lemma LexCons(a: seq<Edge>, b: seq<Edge>, i: nat)
    requires a != [] && b != [] && a[0] == b[0] && LexLessAt(a[1..], b[1..], i)
    ensures LexLessAt(a, b, i + 1)
  {
    assert a[..i + 1] == [a[0]] + a[1..][..i];
    assert b[..i + 1] == [b[0]] + b[1..][..i];
  }

  lemma {:induction false} LexTotal(a: seq<Edge>, b: seq<Edge>)
    ensures a == b || LexLess(a, b) || LexLess(b, a)
    decreases |a|
  {
    if a == [] || b == [] {
      if a != b {
        if a == [] {
          assert LexLessAt(a, b, 0);
        } else {
          assert LexLessAt(b, a, 0);
        }
      }
    } else if a[0] != b[0] {
      if EdgeLess(a[0], b[0]) {
        assert LexLessAt(a, b, 0);
      } else {
        assert LexLessAt(b, a, 0);
      }
    } else {
      LexTotal(a[1..], b[1..]);
      if a[1..] == b[1..] {
        assert a == [a[0]] + a[1..] && b == [b[0]] + b[1..];
      } else if LexLess(a[1..], b[1..]) {
        var i: nat :| LexLessAt(a[1..], b[1..], i);
        LexCons(a, b, i);
      } else {
        var i: nat :| LexLessAt(b[1..], a[1..], i);
        LexCons(b, a, i);
      }
    }
  }

  /** Two walks from the same node that agree before position `i` leave position `i` from the same node. */
  lemma SameSource(edges: set<Edge>, a: nat, s: seq<Edge>, c: seq<Edge>, i: nat)
    requires Chain(edges, a, s) && Chain(edges, a, c)
    requires i < |s| && i < |c| && s[..i] == c[..i]
    ensures s[i].0 == c[i].0
  {
    ChainSource(edges, a, s, i);
    ChainSource(edges, a, c, i);
  }

  // ---------------------------------------------------------------------
  // The depth-first search order: successors among walks from `start`
  // ---------------------------------------------------------------------

  /** `t` is the first walk from `start` that comes after `s`. */
  ghost predicate IsSuccessor(edges: set<Edge>, start: nat, s: seq<Edge>, t: seq<Edge>) {
    && Chain(edges, start, t)
    && LexLess(s, t)
    && forall c :: Chain(edges, start, c) && LexLess(s, c) ==> LexLE(t, c)
  }

  /** No walk from `start` comes after `s`. */
  ghost predicate IsLast(edges: set<Edge>, start: nat, s: seq<Edge>) {
    forall c :: Chain(edges, start, c) ==> !LexLess(s, c)
  }

  /**
    Replacing the tail of `s` from position `k` by the edge `e` gives a walk that is
    no later than any walk after `s`, provided nothing lies between: no edge leaves the
    end of `s` and no later sibling edge exists at positions after `k` (when `k < |s|`),
    and `e` is the least edge that may stand at position `k`.
   */
  lemma NextCandidate(edges: set<Edge>, start: nat, s: seq<Edge>, c: seq<Edge>, k: nat, e: Edge)
    requires Chain(edges, start, s) && Chain(edges, start, c) && LexLess(s, c)
    requires k <= |s|
    requires k < |s| ==> Leaf(edges, End(start, s))
    requires forall j, f :: k < j < |s| && f in edges && f.0 == s[j].0 ==> !EdgeLess(s[j], f)
    requires e.0 == End(start, s[..k])
    requires k < |s| ==> EdgeLess(s[k], e)
    requires forall f :: f in edges && f.0 == e.0 && (k < |s| ==> EdgeLess(s[k], f)) ==> !EdgeLess(f, e)
    ensures LexLE(s[..k] + [e], c)
  {
    var t := s[..k] + [e];
    var i: nat :| LexLessAt(s, c, i);
    if i == |s| {
      assert c[..|s|] == s;
      ChainSource(edges, start, c, |s|);
      if k == |s| {
        assert t == s + [e];
        if c[|s|] == e {
          if |c| == |s| + 1 {
            assert c == c[..|s|] + [c[|s|]];
          } else {
            assert c[..|s| + 1] == c[..|s|] + [c[|s|]];
            assert LexLessAt(t, c, |s| + 1);
          }
        } else {
          assert LexLessAt(t, c, |s|);
        }
      }
    } else {
      SameSource(edges, start, s, c, i);
      ChainSource(edges, start, s, i);
      if i < k {
        assert t[..i] == s[..i];
        assert t[i] == s[i];
        assert LexLessAt(t, c, i);
      } else if i == k {
        assert t[..k] == s[..k];
        if c[k] == e {
          if |c| == k + 1 {
            assert c == c[..k] + [c[k]];
          } else {
            assert c[..k + 1] == c[..k] + [c[k]];
            assert LexLessAt(t, c, k + 1);
          }
        } else {
          assert LexLessAt(t, c, k);
        }
      }
    }
  }

  /** Taking the least edge out of the end of `s` gives the walk right after `s`. */
  lemma ExtendIsSuccessor(edges: set<Edge>, start: nat, s: seq<Edge>, e: Edge)
    requires Chain(edges, start, s) && e in edges && e.0 == End(start, s)
    requires forall f :: f in edges && f.0 == e.0 ==> !EdgeLess(f, e)
    ensures IsSuccessor(edges, start, s, s + [e])
  {
    ChainAppend(edges, start, s, e);
    assert s[..|s|] == s;
    ExtendLess(s, |s|, e);
    forall c | Chain(edges, start, c) && LexLess(s, c) ensures LexLE(s + [e], c) {
      NextCandidate(edges, start, s, c, |s|, e);
    }
  }

  /**
    Backtracking: when the end of `s` is a leaf and positions after `k` have no later
    sibling, the least sibling `e` after `s[k]` gives the walk right after `s`.
   */
  lemma SiblingIsSuccessor(edges: set<Edge>, start: nat, s: seq<Edge>, k: nat, e: Edge)
    requires Chain(edges, start, s) && k < |s| && Leaf(edges, End(start, s))
    requires forall j, f :: k < j < |s| && f in edges && f.0 == s[j].0 ==> !EdgeLess(s[j], f)
    requires e in edges && e.0 == s[k].0 && EdgeLess(s[k], e)
    requires forall f :: f in edges && f.0 == e.0 && EdgeLess(s[k], f) ==> !EdgeLess(f, e)
    ensures IsSuccessor(edges, start, s, s[..k] + [e])
  {
    ChainSource(edges, start, s, k);
    assert Chain(edges, start, s[..k]);
    ChainAppend(edges, start, s[..k], e);
    ExtendLess(s, k, e);
    forall c | Chain(edges, start, c) && LexLess(s, c) ensures LexLE(s[..k] + [e], c) {
      NextCandidate(edges, start, s, c, k, e);
    }
  }

  lemma NotAfterAt(edges: set<Edge>, start: nat, s: seq<Edge>, c: seq<Edge>, i: nat)
    requires Chain(edges, start, s) && Chain(edges, start, c)
    requires Leaf(edges, End(start, s))
    requires forall j, f :: 0 <= j < |s| && f in edges && f.0 == s[j].0 ==> !EdgeLess(s[j], f)
    ensures !LexLessAt(s, c, i)
  {
    if i < |s| && i < |c| && s[..i] == c[..i] {
      SameSource(edges, start, s, c, i);
    }
    if i == |s| < |c| && s[..i] == c[..i] {
      assert c[..|s|] == s;
      ChainSource(edges, start, c, |s|);
    }
  }

  /** When the end of `s` is a leaf and no position of `s` has a later sibling, `s` is the last walk. */
  lemma NothingAfter(edges: set<Edge>, start: nat, s: seq<Edge>)
    requires Chain(edges, start, s)
    requires Leaf(edges, End(start, s))
    requires forall j, f :: 0 <= j < |s| && f in edges && f.0 == s[j].0 ==> !EdgeLess(s[j], f)
    ensures IsLast(edges, start, s)
  {
    forall c | Chain(edges, start, c) ensures !LexLess(s, c) {
      forall i: nat ensures !LexLessAt(s, c, i) {
        NotAfterAt(edges, start, s, c, i);
      }
    }
  }

  lemma ExtendLess(s: seq<Edge>, k: nat, e: Edge)
    requires k <= |s|
    requires k < |s| ==> EdgeLess(s[k], e)
    ensures LexLess(s, s[..k] + [e])
  {
    var t := s[..k] + [e];
    assert t[..k] == s[..k];
    if k == |s| {
      assert LexLessAt(s, t, k);
    } else {
      assert LexLessAt(s, t, k);
    }
  }

  // ---------------------------------------------------------------------
  // Termination measure and the values yielded so far
  // ---------------------------------------------------------------------

  /** The walks from `start` still to come after `s`; finite because walks in an acyclic graph are short. */
  ghost function Above(edges: set<Edge>, start: nat, s: seq<Edge>): set<seq<Edge>> {
    set c | c in ChainsUpTo(edges, start, |edges|) && LexLess(s, c)
  }

  lemma AboveShrinks(edges: set<Edge>, start: nat, s: seq<Edge>, t: seq<Edge>)
    requires Acyclic(edges) && Chain(edges, start, t) && LexLess(s, t)
    ensures |Above(edges, start, t)| < |Above(edges, start, s)|
  {
    var all := ChainsUpTo(edges, start, |edges|);
    var before := Above(edges, start, s);
    var after := Above(edges, start, t);
    ChainBound(edges, start, t);
    ChainsUpToComplete(edges, start, t, |edges|);
    assert t in before;
    forall c | c in after ensures c in before - {t} {
      LexTrans(s, t, c);
      LexIrreflexive(t);
    }
    assert after <= before - {t};
    assert |before - {t}| == |before| - 1;
    SubsetCard(after, before - {t});
  }

  lemma SubsetCard<T>(a: set<T>, b: set<T>)
    requires a <= b
    ensures |a| <= |b|
  {
    assert b == a + (b - a);
  }

  /** `v` ends some nonempty walk from `start` that is no later than `s`: the search has yielded it. */
  ghost predicate Yielded(edges: set<Edge>, start: nat, s: seq<Edge>, v: nat) {
    exists c :: Chain(edges, start, c) && |c| > 0 && End(start, c) == v && LexLE(c, s)
  }

  lemma YieldedNone(edges: set<Edge>, start: nat, v: nat)
    ensures !Yielded(edges, start, [], v)
  {
    forall c | |c| > 0 ensures !LexLE(c, []) {
    }
  }

  lemma YieldedStep(edges: set<Edge>, start: nat, s: seq<Edge>, t: seq<Edge>, v: nat)
    requires IsSuccessor(edges, start, s, t)
    ensures Yielded(edges, start, t, v) <==> Yielded(edges, start, s, v) || v == End(start, t)
  {
    var i: nat :| LexLessAt(s, t, i);
    assert |t| > 0;
    if Yielded(edges, start, s, v) {
      var c :| Chain(edges, start, c) && |c| > 0 && End(start, c) == v && LexLE(c, s);
      if c != s {
        LexTrans(c, s, t);
      }
      assert LexLE(c, t);
    }
    if v == End(start, t) {
      assert LexLE(t, t);
    }
    if Yielded(edges, start, t, v) && v != End(start, t) {
      var c :| Chain(edges, start, c) && |c| > 0 && End(start, c) == v && LexLE(c, t);
      LexAsym(c, t);
      LexTotal(c, s);
      assert LexLE(c, s);
    }
  }

  lemma YieldedLast(edges: set<Edge>, start: nat, s: seq<Edge>, v: nat)
    requires IsLast(edges, start, s)
    ensures Yielded(edges, start, s, v) <==> Reaches(edges, start, v)
  {
    if Reaches(edges, start, v) {
      var c :| Chain(edges, start, c) && |c| > 0 && End(start, c) == v;
      LexTotal(c, s);
      assert LexLE(c, s);
    }
  }
}
