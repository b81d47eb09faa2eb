/**
  The election of src/lib.rs: ballot validation, the tabulated pairwise data, and
  the Ranked Pairs tally that, group by group of equal margins, tries every order of
  the group's pairs on every graph built so far and elects every root of every
  resulting graph.
 */
module RankedPairs {
  import opened Wrappers
  import opened Paths
  import opened Graph
  import opened Pairwise

  /** Why a set of ballots is refused. */
  datatype Error = InvalidBallot | InvalidCandidate

  // ---------------------------------------------------------------------
  // Ballot validation
  // ---------------------------------------------------------------------

  /** Every choice is a candidate number below `candidates`. */
  ghost predicate InRange(b: Ballot, candidates: nat) {
    forall i :: 0 <= i < |b| ==> b[i] < candidates
  }

  /** No candidate is named twice. */
  ghost predicate Distinct(b: Ballot) {
    forall i, j :: 0 <= i < j < |b| ==> b[i] != b[j]
  }

  /** Scans the ballot for a choice that is not a candidate. */
  function HasInvalidCandidate(b: Ballot, candidates: nat): (r: bool)
    ensures r <==> !InRange(b, candidates)
  {
    if b == [] then false
    else
      assert forall i :: 0 < i < |b| ==> b[i] == b[1..][i - 1];
      b[0] >= candidates || HasInvalidCandidate(b[1..], candidates)
  }

  /** Scans the ballot for a candidate named twice. */
  function HasDuplicate(b: Ballot): (r: bool)
    ensures r <==> !Distinct(b)
  {
    if b == [] then false
    else
      assert forall i :: 0 < i < |b| ==> b[i] == b[1..][i - 1];
      assert b[0] in b[1..] <==> exists j :: 0 < j < |b| && b[0] == b[j];
      b[0] in b[1..] || HasDuplicate(b[1..])
  }

  /**
    The verdict on one ballot: a choice that is not a candidate makes it
    `InvalidCandidate`, otherwise a repeated choice makes it `InvalidBallot`.
   */
  function ValidateBallot(b: Ballot, candidates: nat): (r: Option<Error>)
    ensures r.None? <==> InRange(b, candidates) && Distinct(b)
    ensures r == Some(InvalidCandidate) <==> !InRange(b, candidates)
    ensures r == Some(InvalidBallot) <==> InRange(b, candidates) && !Distinct(b)
  {
    if HasInvalidCandidate(b, candidates) then Some(InvalidCandidate)
    else if HasDuplicate(b) then Some(InvalidBallot)
    else None
  }

  /**
    The verdict on all ballots: the first ballot at fault decides the error.
    Without a repeated choice anywhere the error is `InvalidCandidate`, and with
    every choice a candidate it is `InvalidBallot`.
   */
  function Validate(ballots: seq<Ballot>, candidates: nat): (r: Option<Error>)
    ensures r.None? <==> forall k :: 0 <= k < |ballots| ==> InRange(ballots[k], candidates) && Distinct(ballots[k])
    ensures r.Some? ==> exists k :: (0 <= k < |ballots| && ValidateBallot(ballots[k], candidates) == r &&
      forall k' :: 0 <= k' < k ==> ValidateBallot(ballots[k'], candidates).None?)
    ensures (forall k :: 0 <= k < |ballots| ==> Distinct(ballots[k])) && r.Some? ==> r == Some(InvalidCandidate)
    ensures (forall k :: 0 <= k < |ballots| ==> InRange(ballots[k], candidates)) && r.Some? ==> r == Some(InvalidBallot)
  {
    if ballots == [] then None
    else
      var v := ValidateBallot(ballots[0], candidates);
      if v.Some? then v
      else
        assert forall k :: 0 < k < |ballots| ==> ballots[k] == ballots[1..][k - 1];
        Validate(ballots[1..], candidates)
  }

  // ---------------------------------------------------------------------
  // The tabulated data
  // ---------------------------------------------------------------------

  /** The pairwise table of an election and its number of candidates. */
  datatype TabulatedData = TabulatedData(table: map<nat, set<Edge>>, candidates: nat) {
    /** Every stored pair joins two distinct candidates; `from_ballots` builds no other data. */
    ghost predicate Valid() {
      forall m, e :: m in table && e in table[m] ==> e.0 < candidates && e.1 < candidates && e.0 != e.1
    }
  }

  /**
    `from_ballots`: refuses the ballots with the verdict of `Validate`, and otherwise
    holds the pairwise table of the ballots.
   */
  method FromBallots(ballots: seq<Ballot>, candidates: nat) returns (r: Result<TabulatedData, Error>)
    ensures r.Err? <==> Validate(ballots, candidates).Some?
    ensures r.Err? ==> Validate(ballots, candidates) == Some(r.error)
    ensures r.Ok? ==> r.value.candidates == candidates && r.value.Valid()
    ensures r.Ok? ==> IsTable(Margins(ballots), candidates, r.value.table)
  {
    var verdict := Validate(ballots, candidates);
    if verdict.Some? {
      return Err(verdict.value);
    }
    var table := TabulatePairwiseResults(ballots, candidates);
    MarginsAntisymmetric(ballots);
    TableShape(Margins(ballots), candidates, table);
    return Ok(TabulatedData(table, candidates));
  }

  /** Appending an element below every element keeps a sequence strictly decreasing. */
  lemma AppendBelow(rest: seq<nat>, m: nat)
    requires forall i, j :: 0 <= i < j < |rest| ==> rest[i] > rest[j]
    requires forall x :: x in rest ==> x > m
    ensures forall i, j :: 0 <= i < j < |rest + [m]| ==> (rest + [m])[i] > (rest + [m])[j]
  {
    var r := rest + [m];
    forall i, j | 0 <= i < j < |r| ensures r[i] > r[j] {
      assert r[i] == rest[i] && rest[i] in rest;
    }
  }

  /** The elements of `s` from largest to smallest, each once. */
  function Descending(s: set<nat>): (r: seq<nat>)
    ensures forall i, j :: 0 <= i < j < |r| ==> r[i] > r[j]
    ensures forall x :: x in r <==> x in s
    decreases |s|
  {
    if s == {} then []
    else
      var m := Min(s);
      var rest := Descending(s - {m});
      AppendBelow(rest, m);
      rest + [m]
  }

  /**
    `pairwise_results`: the groups of the table, each exactly as stored, in the order
    of `Descending` on the margins, the widest margin first.
   */
  function PairwiseResults(d: TabulatedData): (r: seq<set<Edge>>)
    ensures |r| == |Descending(d.table.Keys)|
    ensures forall i :: 0 <= i < |r| ==> Descending(d.table.Keys)[i] in d.table && r[i] == d.table[Descending(d.table.Keys)[i]]
  {
    var ks := Descending(d.table.Keys);
    seq(|ks|, i requires 0 <= i < |ks| => d.table[ks[i]])
  }

  // ---------------------------------------------------------------------
  // Orderings of a group
  // ---------------------------------------------------------------------

  /** `p` lists the elements of `s`, each exactly once. */
  ghost predicate IsOrdering(p: seq<Edge>, s: set<Edge>) {
    (forall x :: x in p <==> x in s) && forall i, j :: 0 <= i < j < |p| ==> p[i] != p[j]
  }

  /** Every ordering of the pairs of a group (the `permutations` of the source). */
  function Orderings(s: set<Edge>): set<seq<Edge>>
    decreases |s|
  {
    if s == {} then {[]}
    else set e, p | e in s && p in Orderings(s - {e}) :: [e] + p
  }

  lemma OrderingCons(s: set<Edge>, e: Edge, p: seq<Edge>)
    requires e in s && IsOrdering(p, s - {e})
    ensures IsOrdering([e] + p, s)
  {
    var q := [e] + p;
    forall i, j | 0 <= i < j < |q| ensures q[i] != q[j] {
      if i == 0 {
        assert q[j] == p[j - 1];
      } else {
        assert q[i] == p[i - 1] && q[j] == p[j - 1];
      }
    }
  }

  lemma OrderingUncons(s: set<Edge>, p: seq<Edge>)
    requires s != {} && IsOrdering(p, s)
    ensures |p| > 0 && p[0] in s && IsOrdering(p[1..], s - {p[0]}) && p == [p[0]] + p[1..]
  {
    var x :| x in s;
    assert x in p;
    forall y ensures y in p[1..] <==> y in s - {p[0]} {
      if y in p[1..] {
        var j :| 0 <= j < |p[1..]| && p[1..][j] == y;
        assert p[j + 1] == y;
      }
      if y in s - {p[0]} {
        assert y in p;
        var j :| 0 <= j < |p| && p[j] == y;
        assert j > 0 && p[1..][j - 1] == y;
      }
    }
  }

  /** The first element of a nonempty sequence is one of its elements. */
  lemma HeadIn(p: seq<Edge>)
    requires p != []
    ensures p[0] in p
  {
  }

  /** The orderings of a group are exactly the sequences that list each of its pairs once. */
  lemma {:induction false} OrderingsExact(s: set<Edge>)
    ensures forall p :: p in Orderings(s) <==> IsOrdering(p, s)
    decreases |s|
  {
    if s == {} {
      forall p | IsOrdering(p, s) ensures p == [] {
        if p != [] {
          HeadIn(p);
          assert false;
        }
      }
    } else {
      forall p | p in Orderings(s) ensures IsOrdering(p, s) {
        var e, q :| e in s && q in Orderings(s - {e}) && p == [e] + q;
        OrderingsExact(s - {e});
        OrderingCons(s, e, q);
      }
      forall p | IsOrdering(p, s) ensures p in Orderings(s) {
        OrderingUncons(s, p);
        OrderingsExact(s - {p[0]});
        assert p[1..] in Orderings(s - {p[0]});
      }
    }
  }

  // ---------------------------------------------------------------------
  // Trying the pairs on a graph
  // ---------------------------------------------------------------------

  /** The graph after `try_add_edge` on every pair of `order`, in turn. */
  ghost function Apply(g: GraphValue, order: seq<Edge>): GraphValue
    decreases |order|
  {
    if order == [] then g
    else
      var last := order[|order| - 1];
      AddEdge(Apply(g, order[..|order| - 1]), last.0, last.1)
  }

  /** Every pair of `order` joins two nodes of a graph with `n` nodes. */
  ghost predicate OrderFits(order: seq<Edge>, n: nat) {
    forall i :: 0 <= i < |order| ==> order[i].0 < n && order[i].1 < n
  }

  /**
    Trying the pairs of `order` keeps the graph valid and its node count, keeps
    every edge it had and adds only pairs of `order`.
   */
  lemma {:induction false} ApplyValid(g: GraphValue, order: seq<Edge>)
    requires g.Valid() && OrderFits(order, g.nodes)
    ensures Apply(g, order).Valid() && Apply(g, order).nodes == g.nodes
    ensures g.edges <= Apply(g, order).edges
    ensures forall e :: e in Apply(g, order).edges ==> e in g.edges || e in order
    decreases |order|
  {
    if order != [] {
      var init := order[..|order| - 1];
      var last := order[|order| - 1];
      ApplyValid(g, init);
      AddEdgeValid(Apply(g, init), last.0, last.1);
      forall e | e in Apply(g, order).edges ensures e in g.edges || e in order {
        if e != last {
          assert e in Apply(g, init).edges;
          if e in init {
            var k :| 0 <= k < |init| && init[k] == e;
            assert order[k] == e;
          }
        }
      }
    }
  }

  /**
    A pair of two distinct nodes whose source has no incoming edge in `allowed` is
    never refused: once its turn comes in `order` it stays in the graph, as long as
    the graph's edges and the pairs of `order` are all in `allowed`.
   */
  lemma {:induction false} ApplyKeeps(g: GraphValue, order: seq<Edge>, allowed: set<Edge>, e: Edge)
    requires g.edges <= allowed && forall i :: 0 <= i < |order| ==> order[i] in allowed
    requires e in order && e.0 != e.1 && NoInto(allowed, e.0)
    ensures e in Apply(g, order).edges
    decreases |order|
  {
    var init := order[..|order| - 1];
    var last := order[|order| - 1];
    var h := Apply(g, init);
    assert h.edges <= allowed by {
      ApplyWithin(g, init, allowed);
    }
    if e == last {
      NoIntoUnreachable(h.edges, e.1, e.0);
    } else {
      var k :| 0 <= k < |order| && order[k] == e;
      assert k < |init| && init[k] == e;
      ApplyKeeps(g, init, allowed, e);
    }
  }

  lemma {:induction false} ApplyWithin(g: GraphValue, order: seq<Edge>, allowed: set<Edge>)
    requires g.edges <= allowed && forall i :: 0 <= i < |order| ==> order[i] in allowed
    ensures Apply(g, order).edges <= allowed
    decreases |order|
  {
    if order != [] {
      ApplyWithin(g, order[..|order| - 1], allowed);
    }
  }

  /**
    Clones the graph and calls `try_add_edge` on each pair of `order` in turn,
    skipping the refused ones.
   */
  method ApplyOrder(g: GraphValue, order: seq<Edge>) returns (r: GraphValue)
    requires g.Valid() && OrderFits(order, g.nodes)
    ensures r == Apply(g, order)
  {
    var graph := new AcyclicGraph.Clone(g);
    var i := 0;
    while i < |order|
      invariant i <= |order| && graph.nodes == g.nodes && graph.Valid()
      invariant graph.Value() == Apply(g, order[..i])
    {
      var _ := graph.TryAddEdge(order[i].0, order[i].1);
      assert order[..i + 1][..i] == order[..i];
      i := i + 1;
    }
    assert order[..|order|] == order;
    r := graph.Value();
  }

  // ---------------------------------------------------------------------
  // The search over groups
  // ---------------------------------------------------------------------

  /** Every graph of the working set, extended by every ordering of `group`. */
  ghost function Step(graphs: set<GraphValue>, group: set<Edge>): set<GraphValue> {
    set g, p | g in graphs && p in Orderings(group) :: Apply(g, p)
  }

  /** The working set after the groups, in turn, starting from `graphs`. */
  ghost function Search(groups: seq<set<Edge>>, graphs: set<GraphValue>): set<GraphValue>
    decreases |groups|
  {
    if groups == [] then graphs
    else Step(Search(groups[..|groups| - 1], graphs), groups[|groups| - 1])
  }

  lemma SearchNext(groups: seq<set<Edge>>, i: nat, init: set<GraphValue>, graphs: set<GraphValue>, next: set<GraphValue>)
    requires i < |groups| && graphs == Search(groups[..i], init) && next == Step(graphs, groups[i])
    ensures next == Search(groups[..i + 1], init)
  {
    assert groups[..i + 1][..i] == groups[..i];
  }

  /** Every root of every graph of the working set. */
  ghost function Winners(graphs: set<GraphValue>): set<nat> {
    set g, v | g in graphs && v in RootSet(g) :: v
  }

  /** The pairs of all the groups. */
  ghost function Union(groups: seq<set<Edge>>): set<Edge>
    decreases |groups|
  {
    if groups == [] then {} else Union(groups[..|groups| - 1]) + groups[|groups| - 1]
  }

  /** The winners the tally of `d` elects. */
  ghost function TallyOf(d: TabulatedData): set<nat> {
    Winners(Search(PairwiseResults(d), {GraphValue(d.candidates, {})}))
  }

  /** Every group of the data only joins candidates of the data. */
  ghost predicate GroupsFit(groups: seq<set<Edge>>, n: nat) {
    forall i, e :: 0 <= i < |groups| && e in groups[i] ==> e.0 < n && e.1 < n
  }

  lemma OrderingFits(p: seq<Edge>, group: set<Edge>, n: nat)
    requires p in Orderings(group) && forall e :: e in group ==> e.0 < n && e.1 < n
    ensures OrderFits(p, n) && forall i :: 0 <= i < |p| ==> p[i] in group
  {
    OrderingsExact(group);
    assert IsOrdering(p, group);
    forall i | 0 <= i < |p| ensures p[i] in group {
      assert p[i] in p;
    }
  }

  /** The groups of valid data only join candidates of the data. */
  lemma GroupsFitOf(d: TabulatedData)
    requires d.Valid()
    ensures GroupsFit(PairwiseResults(d), d.candidates)
  {
    var groups := PairwiseResults(d);
    var ks := Descending(d.table.Keys);
    forall i, e: Edge | 0 <= i < |groups| && e in groups[i] ensures e.0 < d.candidates && e.1 < d.candidates {
      assert ks[i] in d.table && e in d.table[ks[i]];
    }
  }

  /** Together the groups hold exactly the pairs of the table. */
  lemma UnionOfGroups(d: TabulatedData)
    ensures forall m, e :: m in d.table && e in d.table[m] ==> e in Union(PairwiseResults(d))
    ensures forall e :: e in Union(PairwiseResults(d)) ==> exists m :: m in d.table && e in d.table[m]
  {
    var groups := PairwiseResults(d);
    var ks := Descending(d.table.Keys);
    UnionExact(groups);
    forall m, e | m in d.table && e in d.table[m] ensures e in Union(groups) {
      assert m in ks;
      var i :| 0 <= i < |ks| && ks[i] == m;
      assert e in groups[i];
    }
    forall e | e in Union(groups) ensures exists m :: m in d.table && e in d.table[m] {
      var i :| 0 <= i < |groups| && e in groups[i];
      assert e in d.table[ks[i]];
    }
  }

  lemma {:induction false} UnionExact(groups: seq<set<Edge>>)
    ensures forall e :: e in Union(groups) <==> exists i :: 0 <= i < |groups| && e in groups[i]
    decreases |groups|
  {
    if groups != [] {
      var init := groups[..|groups| - 1];
      UnionExact(init);
      forall e | e in Union(groups) ensures exists i :: 0 <= i < |groups| && e in groups[i] {
        if e in Union(init) {
          var i :| 0 <= i < |init| && e in init[i];
          assert groups[i] == init[i];
        }
      }
      forall e | (exists i :: 0 <= i < |groups| && e in groups[i]) ensures e in Union(groups) {
        var i :| 0 <= i < |groups| && e in groups[i];
        if i < |init| {
          assert init[i] == groups[i];
        }
      }
    }
  }

  /**
    The loop invariant of the tally: the working set is nonempty, and each of its
    graphs is valid, has `n` nodes and has only edges of the groups processed.
    A pair of distinct candidates whose winner has no incoming pair in `allowed`
    is in every graph once its group has been processed.
   */
  lemma {:induction false} SearchInvariant(groups: seq<set<Edge>>, n: nat, allowed: set<Edge>)
    requires GroupsFit(groups, n) && Union(groups) <= allowed
    ensures Search(groups, {GraphValue(n, {})}) != {}
    ensures forall g :: g in Search(groups, {GraphValue(n, {})}) ==> g.Valid() && g.nodes == n && g.edges <= Union(groups)
    ensures forall g, e :: g in Search(groups, {GraphValue(n, {})}) && e in Union(groups) && e.0 != e.1 && NoInto(allowed, e.0) ==> e in g.edges
    decreases |groups|
  {
    var init := {GraphValue(n, {})};
    if groups == [] {
      assert GraphValue(n, {}).Valid() by {
        forall v ensures !Reaches({}, v, v) {
          NoIntoUnreachable({}, v, v);
        }
      }
    } else {
      var before := groups[..|groups| - 1];
      var group := groups[|groups| - 1];
      assert GroupsFit(before, n) by {
        forall i, e: Edge | 0 <= i < |before| && e in before[i] ensures e.0 < n && e.1 < n {
          assert before[i] == groups[i];
        }
      }
      SearchInvariant(before, n, allowed);
      var S := Search(before, init);
      assert forall e :: e in group ==> e.0 < n && e.1 < n by {
        forall e | e in group ensures e.0 < n && e.1 < n {
          assert e in groups[|groups| - 1];
        }
      }
      StepNonempty(S, group);
      assert Union(groups) == Union(before) + group;
      forall h | h in Search(groups, init)
        ensures h.Valid() && h.nodes == n && h.edges <= Union(groups)
        ensures forall e :: e in Union(groups) && e.0 != e.1 && NoInto(allowed, e.0) ==> e in h.edges
      {
        var g, p :| g in S && p in Orderings(group) && h == Apply(g, p);
        StepGraph(g, p, group, Union(before), allowed, n);
      }
    }
  }

  /** Every group has an ordering, so a nonempty working set stays nonempty. */
  lemma StepNonempty(graphs: set<GraphValue>, group: set<Edge>)
    requires graphs != {}
    ensures Step(graphs, group) != {}
  {
    var g :| g in graphs;
    OrderingsExact(group);
    var p := ListOf(group);
    assert Apply(g, p) in Step(graphs, group);
  }

  /** One graph of the working set, extended by one ordering of the next group, keeps the invariant. */
  lemma StepGraph(g: GraphValue, p: seq<Edge>, group: set<Edge>, before: set<Edge>, allowed: set<Edge>, n: nat)
    requires g.Valid() && g.nodes == n && g.edges <= before && before <= allowed
    requires forall e :: e in before && e.0 != e.1 && NoInto(allowed, e.0) ==> e in g.edges
    requires p in Orderings(group) && group <= allowed
    requires forall e :: e in group ==> e.0 < n && e.1 < n
    ensures Apply(g, p).Valid() && Apply(g, p).nodes == n && Apply(g, p).edges <= before + group
    ensures forall e :: e in before + group && e.0 != e.1 && NoInto(allowed, e.0) ==> e in Apply(g, p).edges
  {
    OrderingFits(p, group, n);
    ApplyValid(g, p);
    var h := Apply(g, p);
    forall e | e in h.edges ensures e in before + group {
      if e in p {
        var i :| 0 <= i < |p| && p[i] == e;
      }
    }
    OrderingsExact(group);
    forall e | e in before + group && e.0 != e.1 && NoInto(allowed, e.0) ensures e in h.edges {
      if e in before {
        assert e in g.edges;
      } else {
        assert IsOrdering(p, group);
        assert e in p;
        ApplyKeeps(g, p, allowed, e);
      }
    }
  }

  /** Some sequence lists the elements of `s`, each once. */
  lemma ListOf(s: set<Edge>) returns (p: seq<Edge>)
    ensures IsOrdering(p, s)
    decreases |s|
  {
    if s == {} {
      p := [];
    } else {
      var e :| e in s;
      var q := ListOf(s - {e});
      OrderingCons(s, e, q);
      p := [e] + q;
    }
  }

  // ---------------------------------------------------------------------
  // The tally
  // ---------------------------------------------------------------------

  /** Extends one graph by every ordering in `orders`. */
  method ExtendOne(g: GraphValue, orders: set<seq<Edge>>) returns (out: set<GraphValue>)
    requires g.Valid() && forall p :: p in orders ==> OrderFits(p, g.nodes)
    ensures out == set p | p in orders :: Apply(g, p)
    ensures forall h :: h in out ==> h.Valid() && h.nodes == g.nodes
  {
    out := {};
    var todo := orders;
    while todo != {}
      invariant todo <= orders
      invariant out == set p | p in orders - todo :: Apply(g, p)
      invariant forall h :: h in out ==> h.Valid() && h.nodes == g.nodes
    {
      var p :| p in todo;
      var h := ApplyOrder(g, p);
      ApplyValid(g, p);
      out := out + {h};
      todo := todo - {p};
    }
  }

  /** One pass of the tally's loop: every graph so far, extended by every ordering of the group. */
  method ExtendAll(graphs: set<GraphValue>, group: set<Edge>, n: nat) returns (next: set<GraphValue>)
    requires forall g :: g in graphs ==> g.Valid() && g.nodes == n
    requires forall e :: e in group ==> e.0 < n && e.1 < n
    ensures next == Step(graphs, group)
    ensures forall h :: h in next ==> h.Valid() && h.nodes == n
  {
    var orders := Orderings(group);
    forall p | p in orders ensures OrderFits(p, n) {
      OrderingFits(p, group, n);
    }
    next := {};
    var todo := graphs;
    while todo != {}
      invariant todo <= graphs
      invariant next == Step(graphs - todo, group)
      invariant forall h :: h in next ==> h.Valid() && h.nodes == n
    {
      var g :| g in todo;
      var out := ExtendOne(g, orders);
      next := next + out;
      todo := todo - {g};
    }
  }

  /** The union of the roots of the graphs, as `roots()` lists them. */
  method CollectRoots(graphs: set<GraphValue>) returns (winners: set<nat>)
    requires forall g :: g in graphs ==> g.Valid()
    ensures winners == Winners(graphs)
  {
    winners := {};
    var todo := graphs;
    while todo != {}
      invariant todo <= graphs
      invariant winners == Winners(graphs - todo)
    {
      var g :| g in todo;
      var graph := new AcyclicGraph.Clone(g);
      var rs := graph.Roots();
      winners := winners + set v | v in rs;
      todo := todo - {g};
    }
  }

  /**
    The loop of `tally`: starting from one graph with `n` nodes and no edges, each
    group in turn replaces the working set by its extension.
   */
  method SearchGroups(groups: seq<set<Edge>>, n: nat) returns (graphs: set<GraphValue>)
    requires GroupsFit(groups, n)
    ensures graphs == Search(groups, {GraphValue(n, {})})
    ensures forall g :: g in graphs ==> g.Valid() && g.nodes == n
  {
    var first := new AcyclicGraph(n);
    graphs := {first.Value()};
    ghost var init := {GraphValue(n, {})};
    assert graphs == Search(groups[..0], init);
    var i := 0;
    while i < |groups|
      invariant i <= |groups|
      invariant graphs == Search(groups[..i], init)
      invariant forall g :: g in graphs ==> g.Valid() && g.nodes == n
    {
      assert forall e: Edge :: e in groups[i] ==> e.0 < n && e.1 < n;
      ghost var before := graphs;
      graphs := ExtendAll(graphs, groups[i], n);
      SearchNext(groups, i, init, before, graphs);
      i := i + 1;
    }
    assert groups[..|groups|] == groups;
  }

  /**
    `tally`: processes the groups widest margin first, and elects every root of
    every graph of the final working set.
   */
  method Tally(d: TabulatedData) returns (winners: set<nat>)
    requires d.Valid()
    ensures winners == TallyOf(d)
  {
    var groups := PairwiseResults(d);
    GroupsFitOf(d);
    var graphs := SearchGroups(groups, d.candidates);
    winners := CollectRoots(graphs);
  }

  /** `tally(ballots, candidates)`: `FromBallots` followed by `Tally`. */
  method TallyBallots(ballots: seq<Ballot>, candidates: nat) returns (r: Result<set<nat>, Error>)
    ensures r.Err? <==> Validate(ballots, candidates).Some?
    ensures r.Err? ==> Validate(ballots, candidates) == Some(r.error)
    ensures r.Ok? ==> exists t :: IsTable(Margins(ballots), candidates, t) && r.value == TallyOf(TabulatedData(t, candidates))
    ensures r.Ok? ==> forall t :: IsTable(Margins(ballots), candidates, t) ==> r.value == TallyOf(TabulatedData(t, candidates))
  {
    var data := FromBallots(ballots, candidates);
    if data.Err? {
      return Err(data.error);
    }
    var winners := Tally(data.value);
    forall t | IsTable(Margins(ballots), candidates, t) ensures t == data.value.table {
      IsTableUnique(Margins(ballots), candidates, t, data.value.table);
    }
    return Ok(winners);
  }

  // ---------------------------------------------------------------------
  // What the tally guarantees
  // ---------------------------------------------------------------------

  /** The winners are candidates, and there is at least one when there are candidates. */
  lemma WinnersBounds(d: TabulatedData)
    requires d.Valid()
    ensures TallyOf(d) <= NodeRange(d.candidates)
    ensures d.candidates > 0 ==> TallyOf(d) != {}
  {
    var groups := PairwiseResults(d);
    GroupsFitOf(d);
    SearchInvariant(groups, d.candidates, Union(groups));
    var S := Search(groups, {GraphValue(d.candidates, {})});
    if d.candidates > 0 {
      var g :| g in S;
      AcyclicHasRoot(g);
      var v :| v in RootSet(g);
      assert v in Winners(S);
    }
  }

  /** Without pairwise data every candidate wins: `{}` for none and `{0}` for one. */
  lemma NoPairwiseData(d: TabulatedData)
    requires d.table == map[]
    ensures TallyOf(d) == NodeRange(d.candidates)
  {
    var g := GraphValue(d.candidates, {});
    assert Descending(d.table.Keys) == [];
    assert Search(PairwiseResults(d), {g}) == {g};
    forall v: nat ensures v in Winners({g}) <==> v < d.candidates {
      assert NoInto(g.edges, v);
      if v < d.candidates {
        assert v in RootSet(g);
      }
    }
  }

  /** `w` wins its stored pair against `l`. */
  ghost predicate Beats(d: TabulatedData, w: nat, l: nat) {
    exists m :: m in d.table && (w, l) in d.table[m]
  }

  /**
    Condorcet consistency: a candidate who loses no stored pair and beats every
    other candidate in some stored pair is the only winner.
   */
  lemma Condorcet(d: TabulatedData, c: nat)
    requires d.Valid() && c < d.candidates
    requires forall m, e :: m in d.table && e in d.table[m] ==> e.1 != c
    requires forall x: nat :: x < d.candidates && x != c ==> Beats(d, c, x)
    ensures TallyOf(d) == {c}
  {
    var groups := PairwiseResults(d);
    GroupsFitOf(d);
    UnionOfGroups(d);
    var U := Union(groups);
    assert NoInto(U, c);
    SearchInvariant(groups, d.candidates, U);
    var S := Search(groups, {GraphValue(d.candidates, {})});
    forall g | g in S ensures RootSet(g) == {c} {
      forall x: nat | x < d.candidates && x != c ensures (c, x) in g.edges {
        assert Beats(d, c, x);
        var m :| m in d.table && (c, x) in d.table[m];
        assert (c, x) in U;
      }
      SoleRoot(g, U, c);
    }
    SoleWinner(S, c);
  }

  /** A candidate who loses no stored pair is always among the winners. */
  lemma UnbeatenWins(d: TabulatedData, c: nat)
    requires d.Valid() && c < d.candidates
    requires forall m, e :: m in d.table && e in d.table[m] ==> e.1 != c
    ensures c in TallyOf(d)
  {
    var groups := PairwiseResults(d);
    GroupsFitOf(d);
    UnionOfGroups(d);
    var U := Union(groups);
    assert NoInto(U, c);
    SearchInvariant(groups, d.candidates, U);
    var S := Search(groups, {GraphValue(d.candidates, {})});
    var g :| g in S;
    assert NoInto(g.edges, c);
    assert c in RootSet(g);
  }

  /** A graph in which `c` has no incoming edge and an edge to every other node has `c` as its only root. */
  lemma SoleRoot(g: GraphValue, allowed: set<Edge>, c: nat)
    requires g.edges <= allowed && NoInto(allowed, c) && c < g.nodes
    requires forall x: nat :: x < g.nodes && x != c ==> (c, x) in g.edges
    ensures RootSet(g) == {c}
  {
    assert NoInto(g.edges, c);
    forall x: nat | x < g.nodes && x != c ensures x !in RootSet(g) {
      assert (c, x) in g.edges;
    }
  }

  lemma SoleWinner(graphs: set<GraphValue>, c: nat)
    requires graphs != {} && forall g :: g in graphs ==> RootSet(g) == {c}
    ensures Winners(graphs) == {c}
  {
    var g :| g in graphs;
    assert c in RootSet(g);
  }

  /** With no or one candidate the election elects every candidate, whatever the ballots. */
  lemma SmallElection(ballots: seq<Ballot>, candidates: nat, t: map<nat, set<Edge>>)
    requires candidates <= 1 && IsTable(Margins(ballots), candidates, t)
    ensures TallyOf(TabulatedData(t, candidates)) == NodeRange(candidates)
  {
    SmallTableEmpty(Margins(ballots), candidates, t);
    NoPairwiseData(TabulatedData(t, candidates));
  }

  /** A ballot naming candidate 3 of three candidates is refused as `InvalidCandidate`. */
  lemma InvalidCandidateExample()
    ensures Validate([[1, 2], [0, 3]], 3) == Some(InvalidCandidate)
  {
    assert ValidateBallot([1, 2], 3) == None by {
      assert InRange([1, 2], 3) && Distinct([1, 2]);
    }
    assert ValidateBallot([0, 3], 3) == Some(InvalidCandidate) by {
      assert [0, 3][1] == 3;
    }
    assert [[1, 2], [0, 3]][1..] == [[0, 3]];
  }

  /** A ballot naming candidate 0 twice is refused as `InvalidBallot`. */
  lemma InvalidBallotExample()
    ensures Validate([[0, 1, 2], [0, 1, 0]], 3) == Some(InvalidBallot)
  {
    assert ValidateBallot([0, 1, 2], 3) == None by {
      assert InRange([0, 1, 2], 3) && Distinct([0, 1, 2]);
    }
    assert ValidateBallot([0, 1, 0], 3) == Some(InvalidBallot) by {
      assert InRange([0, 1, 0], 3);
      assert [0, 1, 0][0] == [0, 1, 0][2];
    }
    assert [[0, 1, 2], [0, 1, 0]][1..] == [[0, 1, 0]];
  }
}
