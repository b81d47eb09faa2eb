/**
  The acyclic graph of src/graph.rs: a fixed number of nodes and an ordered set of
  directed edges that never contains a cycle, with the stack-based depth-first
  search used to refuse cycle-closing edges.
 */
module Graph {
  import opened Wrappers
  import opened Paths

  /**
    The structural value of a graph: its node count and its edge set.  Two graphs
    are equal exactly when these are, which is what deduplication in the tally relies on.
   */
  datatype GraphValue = GraphValue(nodes: nat, edges: set<Edge>) {
    /** Every edge joins two existing nodes and no node reaches itself. */
    ghost predicate Valid() {
      (forall e :: e in edges ==> e.0 < nodes && e.1 < nodes) && Acyclic(edges)
    }
  }

  /** The effect of `try_add_edge(src, dst)` on a graph's value. */
  ghost function AddEdge(g: GraphValue, src: nat, dst: nat): GraphValue {
    if src != dst && !Reaches(g.edges, dst, src) then g.(edges := g.edges + {(src, dst)}) else g
  }

  /** The nodes without an incoming edge. */
  ghost function RootSet(g: GraphValue): set<nat> {
    set v | 0 <= v < g.nodes && NoInto(g.edges, v)
  }

  /** `try_add_edge` keeps the node count and the acyclicity invariant, and never removes an edge. */
  lemma AddEdgeValid(g: GraphValue, src: nat, dst: nat)
    requires g.Valid() && src < g.nodes && dst < g.nodes
    ensures AddEdge(g, src, dst).Valid()
    ensures AddEdge(g, src, dst).nodes == g.nodes
    ensures g.edges <= AddEdge(g, src, dst).edges
  {
    if src != dst && !Reaches(g.edges, dst, src) {
      AddEdgeAcyclic(g.edges, src, dst);
    }
  }

  lemma {:induction false} BackChain(g: GraphValue, k: nat) returns (a: nat, c: seq<Edge>)
    requires g.nodes > 0
    requires forall e :: e in g.edges ==> e.0 < g.nodes && e.1 < g.nodes
    requires forall v :: 0 <= v < g.nodes ==> !NoInto(g.edges, v)
    ensures a < g.nodes && |c| == k && Chain(g.edges, a, c)
  {
    if k == 0 {
      a, c := 0, [];
    } else {
      var a', c' := BackChain(g, k - 1);
      assert !NoInto(g.edges, a');
      var e :| e in g.edges && e.1 == a';
      a, c := e.0, [e] + c';
      assert c[1..] == c';
    }
  }

  /** An acyclic graph with at least one node has a root. */
  lemma AcyclicHasRoot(g: GraphValue)
    requires g.Valid() && g.nodes > 0
    ensures RootSet(g) != {}
  {
    if RootSet(g) == {} {
      forall v | 0 <= v < g.nodes ensures !NoInto(g.edges, v) {
        assert v !in RootSet(g);
      }
      var a, c := BackChain(g, |g.edges| + 1);
      ChainBound(g.edges, a, c);
      assert false;
    }
  }

  /** The node indices `0 .. n - 1`. */
  function NodeRange(n: nat): (r: set<nat>)
    ensures forall v: nat :: v in r <==> v < n
  {
    if n == 0 then {} else NodeRange(n - 1) + {n - 1}
  }

  /** `m` is the least element of `s`. */
  predicate IsLeast(m: nat, s: set<nat>) {
    m in s && forall x :: x in s ==> m <= x
  }

  /** A nonempty set of naturals has a least element. */
  lemma {:induction false} LeastExists(s: set<nat>)
    requires s != {}
    ensures exists m :: IsLeast(m, s)
    decreases |s|
  {
    var x :| x in s;
    if s == {x} {
      assert IsLeast(x, s);
    } else {
      var rest := s - {x};
      LeastExists(rest);
      var r :| IsLeast(r, rest);
      var m := if x < r then x else r;
      forall y | y in s ensures m <= y {
        if y != x {
          assert y in rest;
        }
      }
      assert IsLeast(m, s);
    }
  }

  /** The least element of a nonempty set of naturals (the first one a `BTreeSet` yields). */
  function Min(s: set<nat>): (m: nat)
    requires s != {}
    ensures m in s && forall x :: x in s ==> m <= x
  {
    LeastExists(s);
    var m :| IsLeast(m, s);
    m
  }

  /** A graph whose edge set is updated in place by `TryAddEdge`; `nodes` is fixed at construction. */
  class AcyclicGraph {
    const nodes: nat
    var edges: set<Edge>

    function Value(): GraphValue
      reads this
    {
      GraphValue(nodes, edges)
    }

    ghost predicate Valid()
      reads this
    {
      Value().Valid()
    }

    /** `new(nodes)`: no edges. */
    constructor (nodes: nat)
      ensures this.nodes == nodes && edges == {} && Valid()
    {
      this.nodes := nodes;
      edges := {};
    }

    /** A fresh object holding the given value (the source clones graphs this way). */
    constructor Clone(g: GraphValue)
      requires g.Valid()
      ensures Value() == g && Valid()
    {
      nodes := g.nodes;
      edges := g.edges;
    }

    /** The destinations of the edges that leave `src`. */
    function Outgoing(src: nat): (out: set<nat>)
      reads this
      requires src < nodes
      ensures forall d :: d in out ==> (src, d) in edges
      ensures forall e :: e in edges && e.0 == src ==> e.1 in out
    {
      set e | e in edges && e.0 == src :: e.1
    }

    /**
      Adds `src -> dst` unless it is a self-loop or `dst` already reaches `src`;
      true when the edge was added and was new.
     */
    method TryAddEdge(src: nat, dst: nat) returns (added: bool)
      requires Valid() && src < nodes && dst < nodes
      modifies this
      ensures Valid()
      ensures Value() == AddEdge(old(Value()), src, dst)
      ensures added <==> src != dst && !Reaches(old(edges), dst, src) && (src, dst) !in old(edges)
    {
      if src == dst {
        return false;
      }
      var it := new Dfs(this, dst);
      YieldedNone(edges, dst, src);
      var clear := true;
      while true
        modifies it
        invariant fresh(it) && it.graph == this && it.start == dst && !it.exhausted && it.Valid()
        invariant !Yielded(edges, dst, it.visited, src)
        decreases |Above(edges, dst, it.visited)|
      {
        ghost var s := it.visited;
        var r := it.Next();
        if r.None? {
          YieldedLast(edges, dst, s, src);
          break;
        }
        YieldedStep(edges, dst, s, it.visited, src);
        if r.value == src {
          clear := false;
          break;
        }
        AboveShrinks(edges, dst, s, it.visited);
      }
      assert clear <==> !Reaches(edges, dst, src);
      if !clear {
        return false;
      }
      AddEdgeAcyclic(edges, src, dst);
      added := (src, dst) !in edges;
      edges := edges + {(src, dst)};
    }

    /** The nodes without an incoming edge, in ascending order. */
    method Roots() returns (rs: seq<nat>)
      ensures forall i, j :: 0 <= i < j < |rs| ==> rs[i] < rs[j]
      ensures forall v :: v in rs <==> v in RootSet(Value())
    {
      var elements: set<nat> := {};
      if nodes > 0 {
        elements := NodeRange(nodes);
        var todo := edges;
        while todo != {}
          invariant todo <= edges
          invariant forall v: nat :: v in elements <==> v < nodes && forall e :: e in edges && e !in todo ==> e.1 != v
        {
          var e :| e in todo;
          elements := elements - {e.1};
          todo := todo - {e};
        }
      }
      rs := [];
      var v := 0;
      while v < nodes
        invariant v <= nodes
        invariant forall i, j :: 0 <= i < j < |rs| ==> rs[i] < rs[j]
        invariant forall i :: 0 <= i < |rs| ==> rs[i] < v
        invariant forall w :: w in rs <==> w < v && w in elements
      {
        if v in elements {
          rs := rs + [v];
        }
        v := v + 1;
      }
    }

    /** Runs the depth-first search from `start` to the end and collects what it yields. */
    method DfsCollect(start: nat) returns (order: seq<nat>)
      requires Valid() && start < nodes
      ensures forall v :: v in order <==> Reaches(edges, start, v)
      ensures start !in order
    {
      var it := new Dfs(this, start);
      order := [];
      forall v ensures !Yielded(edges, start, [], v) {
        YieldedNone(edges, start, v);
      }
      while true
        modifies it
        invariant fresh(it) && it.graph == this && it.start == start && !it.exhausted && it.Valid()
        invariant forall v :: v in order <==> Yielded(edges, start, it.visited, v)
        decreases |Above(edges, start, it.visited)|
      {
        ghost var s := it.visited;
        var r := it.Next();
        if r.None? {
          forall v ensures Yielded(edges, start, s, v) <==> Reaches(edges, start, v) {
            YieldedLast(edges, start, s, v);
          }
          break;
        }
        forall v ensures Yielded(edges, start, it.visited, v) <==> Yielded(edges, start, s, v) || v == r.value {
          YieldedStep(edges, start, s, it.visited, v);
        }
        AboveShrinks(edges, start, s, it.visited);
        order := order + [r.value];
      }
    }
  }

  /**
    The search iterator: `visited` is the stack of edges taken from `start`, `node`
    the node the last yielded value names.  Once it has returned `None` it is
    exhausted and keeps returning `None`.
   */
  class Dfs {
    const graph: AcyclicGraph
    var visited: seq<Edge>
    var node: nat
    ghost const start: nat
    ghost var exhausted: bool

    ghost predicate Valid()
      reads this, graph
    {
      && graph.Valid()
      && node < graph.nodes
      && if exhausted then visited == [] && Leaf(graph.edges, node)
         else Chain(graph.edges, start, visited) && node == End(start, visited)
    }

    constructor (graph: AcyclicGraph, start: nat)
      requires graph.Valid() && start < graph.nodes
      ensures this.graph == graph && this.start == start
      ensures visited == [] && node == start && !exhausted && Valid()
    {
      this.graph := graph;
      this.start := start;
      visited := [];
      node := start;
      exhausted := false;
    }

    /**
      Yields the next node: the stack becomes the first walk from `start` after
      the current one (smallest outgoing edge first; on backtrack, the next edge
      of the same source), or `None` when there is none.
     */
    method Next() returns (r: Option<nat>)
      requires Valid()
      modifies this
      ensures Valid()
      ensures old(exhausted) ==> r.None? && exhausted && visited == old(visited)
      ensures !old(exhausted) && r.None? ==> exhausted && IsLast(graph.edges, start, old(visited))
      ensures !old(exhausted) && r.Some? ==>
        && !exhausted
        && IsSuccessor(graph.edges, start, old(visited), visited)
        && r.value == End(start, visited)
    {
      ghost var s0 := visited;
      var out := graph.Outgoing(node);
      if out != {} {
        var d := Min(out);
        var e := (node, d);
        ExtendIsSuccessor(graph.edges, start, s0, e);
        visited := visited + [e];
        node := d;
        return Some(d);
      }
      r := Backtrack();
    }

    /**
      The backtracking scan of `next`, from a node without outgoing edges: pops the
      stack until some edge after the popped one leaves the same source, and takes it.
     */
    method Backtrack() returns (r: Option<nat>)
      requires Valid() && Leaf(graph.edges, node)
      modifies this
      ensures Valid()
      ensures old(exhausted) ==> r.None? && exhausted && visited == old(visited)
      ensures !old(exhausted) && r.None? ==> exhausted && IsLast(graph.edges, start, old(visited))
      ensures !old(exhausted) && r.Some? ==>
        && !exhausted
        && IsSuccessor(graph.edges, start, old(visited), visited)
        && r.value == End(start, visited)
    {
      ghost var s0 := visited;
      while true
        invariant |visited| <= |s0| && visited == s0[..|visited|]
        invariant node == old(node) && Leaf(graph.edges, node)
        invariant exhausted == old(exhausted)
        invariant forall j, f :: |visited| <= j < |s0| && f in graph.edges && f.0 == s0[j].0 ==> !EdgeLess(s0[j], f)
        decreases |visited|
      {
        if visited == [] {
          if !exhausted {
            NothingAfter(graph.edges, start, s0);
          }
          exhausted := true;
          return None;
        }
        var k := |visited| - 1;
        var last := visited[k];
        assert last == s0[k];
        visited := visited[..k];
        assert visited == s0[..k];
        var later := set f | f in graph.edges && f.0 == last.0 && last.1 < f.1 :: f.1;
        assert forall f :: f in graph.edges && f.0 == last.0 && last.1 < f.1 ==> f.1 in later;
        if later != {} {
          var d := Min(later);
          var e := (last.0, d);
          assert e in graph.edges;
          SiblingIsSuccessor(graph.edges, start, s0, k, e);
          visited := visited + [e];
          node := d;
          return Some(d);
        }
      }
    }
  }
}
