/** The portal's topology: one parent for each node, and the tree this must give. Names are compared by an abstract order,
    standing for the locale's. */
module Topology {
  import opened Bytes

  datatype Node = Node(id: nat, name: string, zone: string, hopCount: nat, parentId: Option<nat>, online: bool)

  /** Where an edge comes from: the master, or the node with this ID. */
  datatype Source = Master | FromNode(id: nat)

  datatype Edge = Edge(source: Source, target: nat, connected: bool)

  type NameOrder = (string, string) -> bool

  ghost predicate IsOrder(leq: NameOrder) {
    && (forall a, b :: leq(a, b) || leq(b, a))
    && (forall a, b, c :: leq(a, b) && leq(b, c) ==> leq(a, c))
  }

  // ----- The heuristic parent -----

  function OneHopCloser(nodes: seq<Node>, hopCount: nat): (r: seq<Node>)
    ensures forall n :: n in r <==> n in nodes && n.hopCount + 1 == hopCount
  {
    if nodes == [] then []
    else (if nodes[0].hopCount + 1 == hopCount then [nodes[0]] else []) + OneHopCloser(nodes[1..], hopCount)
  }

  function InZone(nodes: seq<Node>, zone: string): (r: seq<Node>)
    ensures forall n :: n in r <==> n in nodes && n.zone == zone
  {
    if nodes == [] then [] else (if nodes[0].zone == zone then [nodes[0]] else []) + InZone(nodes[1..], zone)
  }

  /** Stable: a node goes after those whose name is not greater. */
  function Insert(sorted: seq<Node>, n: Node, leq: NameOrder): (r: seq<Node>)
    ensures multiset(r) == multiset(sorted) + multiset{n}
  {
    if sorted == [] then [n]
    else if leq(n.name, sorted[0].name) && !leq(sorted[0].name, n.name) then
      assert [n] + sorted == [n] + ([sorted[0]] + sorted[1..]);
      [n] + sorted
    else
      assert sorted == [sorted[0]] + sorted[1..];
      [sorted[0]] + Insert(sorted[1..], n, leq)
  }

  function SortByName(nodes: seq<Node>, leq: NameOrder): (r: seq<Node>)
    ensures multiset(r) == multiset(nodes)
  {
    if nodes == [] then []
    else
      assert nodes == nodes[..|nodes| - 1] + [nodes[|nodes| - 1]];
      Insert(SortByName(nodes[..|nodes| - 1], leq), nodes[|nodes| - 1], leq)
  }

  function HeuristicParent(nodes: seq<Node>, n: Node, leq: NameOrder): Option<Node> {
    var parents := SortByName(OneHopCloser(nodes, n.hopCount), leq);
    var sameZone := InZone(parents, n.zone);
    if sameZone != [] then Some(sameZone[0]) else if parents != [] then Some(parents[0]) else None
  }

  ghost predicate Sorted(nodes: seq<Node>, leq: NameOrder) {
    forall i, j :: 0 <= i < j < |nodes| ==> leq(nodes[i].name, nodes[j].name)
  }

  lemma {:induction false} InsertKeepsSorted(sorted: seq<Node>, n: Node, leq: NameOrder)
    requires IsOrder(leq) && Sorted(sorted, leq)
    ensures Sorted(Insert(sorted, n, leq), leq)
  {
    if sorted != [] {
      var first := sorted[0];
      if leq(n.name, first.name) && !leq(first.name, n.name) {
        forall j | 0 <= j < |sorted| ensures leq(n.name, sorted[j].name) {
          assert leq(first.name, sorted[j].name);
        }
      } else {
        assert leq(first.name, n.name);
        var rest := Insert(sorted[1..], n, leq);
        InsertKeepsSorted(sorted[1..], n, leq);
        forall i | 0 <= i < |rest| ensures leq(first.name, rest[i].name) {
          assert rest[i] in multiset(rest);
          if rest[i] != n {
            var j :| 1 <= j < |sorted| && sorted[j] == rest[i];
          }
        }
      }
    }
  }

  lemma {:induction false} SortSorts(nodes: seq<Node>, leq: NameOrder)
    requires IsOrder(leq)
    ensures Sorted(SortByName(nodes, leq), leq)
  {
    if nodes != [] {
      SortSorts(nodes[..|nodes| - 1], leq);
      InsertKeepsSorted(SortByName(nodes[..|nodes| - 1], leq), nodes[|nodes| - 1], leq);
    }
  }

  lemma {:induction false} FirstInZoneIsLeast(nodes: seq<Node>, zone: string, leq: NameOrder)
    requires IsOrder(leq) && Sorted(nodes, leq) && InZone(nodes, zone) != []
    ensures forall n :: n in nodes && n.zone == zone ==> leq(InZone(nodes, zone)[0].name, n.name)
  {
    if nodes[0].zone != zone {
      FirstInZoneIsLeast(nodes[1..], zone, leq);
      forall n | n in nodes && n.zone == zone ensures n in nodes[1..] {
      }
    }
  }

  predicate IsCandidate(nodes: seq<Node>, n: Node, p: Node) {
    p in nodes && p.hopCount + 1 == n.hopCount
  }

  /** There is a heuristic parent exactly when some node is one hop closer; it is least by name among those of the same
      zone if there are any, and among all of them otherwise. */
  lemma HeuristicParentIsLeast(nodes: seq<Node>, n: Node, leq: NameOrder)
    requires IsOrder(leq)
    ensures var r := HeuristicParent(nodes, n, leq);
      && (r.Some? <==> exists p :: IsCandidate(nodes, n, p))
      && (r.Some? ==>
            && IsCandidate(nodes, n, r.value)
            && ((exists p :: IsCandidate(nodes, n, p) && p.zone == n.zone) ==> r.value.zone == n.zone)
            && forall p :: IsCandidate(nodes, n, p) && (r.value.zone == n.zone ==> p.zone == n.zone) ==> leq(r.value.name, p.name))
  {
    var near := OneHopCloser(nodes, n.hopCount);
    var parents := SortByName(near, leq);
    SortSorts(near, leq);
    SameMembers(parents, near);
    assert forall p :: IsCandidate(nodes, n, p) <==> p in parents;
    if InZone(parents, n.zone) != [] {
      FirstInZoneIsLeast(parents, n.zone, leq);
      assert InZone(parents, n.zone)[0] in InZone(parents, n.zone);
      assert IsCandidate(nodes, n, InZone(parents, n.zone)[0]);
    } else if parents != [] {
      forall p | IsCandidate(nodes, n, p) ensures leq(parents[0].name, p.name) {
        var i :| 0 <= i < |parents| && parents[i] == p;
      }
      assert IsCandidate(nodes, n, parents[0]);
      assert forall p :: IsCandidate(nodes, n, p) && p.zone == n.zone ==> p in InZone(parents, n.zone);
    }
  }

  lemma SameMembers(a: seq<Node>, b: seq<Node>)
    requires multiset(a) == multiset(b)
    ensures forall n :: n in a <==> n in b
  {
    forall n ensures n in a <==> n in b {
      assert n in a <==> n in multiset(a);
      assert n in b <==> n in multiset(b);
    }
  }

  // ----- Edges -----

  function ById(nodes: seq<Node>): map<nat, Node> {
    if nodes == [] then map[] else ById(nodes[..|nodes| - 1])[nodes[|nodes| - 1].id := nodes[|nodes| - 1]]
  }

  /** A reported parent counts unless the node is one hop from the master; one that is not listed stands for the master. */
  function SourceOf(nodes: seq<Node>, n: Node, leq: NameOrder): Option<Source> {
    if n.parentId.Some? && n.hopCount != 1 then
      Some(if n.parentId.value in ById(nodes) then FromNode(n.parentId.value) else Master)
    else if n.hopCount == 1 then Some(Master)
    else
      match HeuristicParent(nodes, n, leq)
      case Some(p) => Some(FromNode(p.id))
      case None => None
  }

  function EdgeTo(nodes: seq<Node>, n: Node, source: Source, masterOnline: bool): Edge {
    Edge(source, n.id,
         n.online && match source
                     case Master => masterOnline
                     case FromNode(id) => id in ById(nodes) && ById(nodes)[id].online)
  }

  function InferFor(nodes: seq<Node>, todo: seq<Node>, masterOnline: bool, leq: NameOrder): seq<Edge> {
    if todo == [] then []
    else
      var n := todo[|todo| - 1];
      InferFor(nodes, todo[..|todo| - 1], masterOnline, leq)
      + match SourceOf(nodes, n, leq)
        case None => []
        case Some(source) => [EdgeTo(nodes, n, source, masterOnline)]
  }

  function InferEdges(nodes: seq<Node>, masterOnline: bool, leq: NameOrder): seq<Edge> {
    InferFor(nodes, nodes, masterOnline, leq)
  }

  ghost predicate UniqueIds(nodes: seq<Node>) {
    forall i, j :: 0 <= i < j < |nodes| ==> nodes[i].id != nodes[j].id
  }

  lemma {:induction false} ByIdFinds(nodes: seq<Node>, id: nat)
    ensures id in ById(nodes) <==> exists n :: n in nodes && n.id == id
    ensures id in ById(nodes) ==> ById(nodes)[id] in nodes && ById(nodes)[id].id == id
  {
    if nodes != [] {
      var init, last := nodes[..|nodes| - 1], nodes[|nodes| - 1];
      ByIdFinds(init, id);
      assert forall n :: n in nodes <==> n in init || n == last;
    }
  }

  lemma ByIdUnique(nodes: seq<Node>, n: Node)
    requires UniqueIds(nodes) && n in nodes
    ensures n.id in ById(nodes) && ById(nodes)[n.id] == n
  {
    ByIdFinds(nodes, n.id);
    var m := ById(nodes)[n.id];
    var i :| 0 <= i < |nodes| && nodes[i] == n;
    var j :| 0 <= j < |nodes| && nodes[j] == m;
    assert i == j;
  }

  /** The edges are exactly the parent choices of the listed nodes. */
  lemma {:induction false} EdgesAreChoices(nodes: seq<Node>, todo: seq<Node>, masterOnline: bool, leq: NameOrder, e: Edge)
    ensures e in InferFor(nodes, todo, masterOnline, leq)
       <==> exists n :: n in todo && SourceOf(nodes, n, leq) == Some(e.source) && e == EdgeTo(nodes, n, e.source, masterOnline)
  {
    if todo != [] {
      var init, last := todo[..|todo| - 1], todo[|todo| - 1];
      EdgesAreChoices(nodes, init, masterOnline, leq, e);
      assert forall n :: n in todo <==> n in init || n == last;
    }
  }

  ghost predicate OneEdgeEach(edges: seq<Edge>) {
    forall i, j :: 0 <= i < j < |edges| ==> edges[i].target != edges[j].target
  }

  lemma {:induction false} TargetsAreDistinct(nodes: seq<Node>, todo: seq<Node>, masterOnline: bool, leq: NameOrder)
    requires UniqueIds(todo)
    ensures OneEdgeEach(InferFor(nodes, todo, masterOnline, leq))
  {
    if todo != [] {
      var init, last := todo[..|todo| - 1], todo[|todo| - 1];
      var edges := InferFor(nodes, init, masterOnline, leq);
      TargetsAreDistinct(nodes, init, masterOnline, leq);
      forall i | 0 <= i < |edges| ensures edges[i].target != last.id {
        EdgesAreChoices(nodes, init, masterOnline, leq, edges[i]);
        var n :| n in init && edges[i] == EdgeTo(nodes, n, edges[i].source, masterOnline);
        var k :| 0 <= k < |init| && init[k] == n;
        assert todo[k] == n;
      }
    }
  }

  /** Whenever a reported parent is listed, it is closer to the master than the node that reports it. */
  ghost predicate ParentsAreCloser(nodes: seq<Node>) {
    forall n, p :: n in nodes && p in nodes && n.parentId == Some(p.id) && n.hopCount != 1 ==> p.hopCount < n.hopCount
  }

  /** Every edge starts at the master or at a listed node, and then one closer to the master than its target. */
  lemma EdgesDescend(nodes: seq<Node>, masterOnline: bool, leq: NameOrder, e: Edge)
    requires IsOrder(leq) && UniqueIds(nodes) && ParentsAreCloser(nodes)
    requires e in InferEdges(nodes, masterOnline, leq)
    ensures var byId := ById(nodes);
      e.target in byId && (e.source.FromNode? ==> e.source.id in byId && byId[e.source.id].hopCount < byId[e.target].hopCount)
  {
    EdgesAreChoices(nodes, nodes, masterOnline, leq, e);
    var n :| n in nodes && SourceOf(nodes, n, leq) == Some(e.source) && e == EdgeTo(nodes, n, e.source, masterOnline);
    ByIdUnique(nodes, n);
    if e.source.FromNode? {
      if n.parentId.Some? && n.hopCount != 1 {
        ByIdFinds(nodes, e.source.id);
      } else {
        HeuristicParentIsLeast(nodes, n, leq);
        ByIdUnique(nodes, HeuristicParent(nodes, n, leq).value);
      }
    }
  }

  // ----- Every node's edge, said outright -----

  ghost predicate IsListed(nodes: seq<Node>, id: nat) {
    exists p :: p in nodes && p.id == id
  }

  /** The parent the portal falls back on: a node one hop closer, of the same zone if some such node is, and least by name
      among those. */
  ghost predicate IsFallback(nodes: seq<Node>, n: Node, p: Node, leq: NameOrder) {
    && p in nodes && p.hopCount + 1 == n.hopCount
    && ((exists q :: q in nodes && q.hopCount + 1 == n.hopCount && q.zone == n.zone) ==> p.zone == n.zone)
    && forall q :: q in nodes && q.hopCount + 1 == n.hopCount && (p.zone == n.zone ==> q.zone == n.zone) ==> leq(p.name, q.name)
  }

  /** The edge the node must have, if it has one. */
  ghost predicate IsRightEdge(nodes: seq<Node>, masterOnline: bool, leq: NameOrder, n: Node, e: Edge) {
    if n.hopCount == 1 || (n.parentId.Some? && !IsListed(nodes, n.parentId.value)) then
      e == Edge(Master, n.id, masterOnline && n.online)
    else
      exists p :: p in nodes && (if n.parentId.Some? then p.id == n.parentId.value else IsFallback(nodes, n, p, leq))
               && e == Edge(FromNode(p.id), n.id, p.online && n.online)
  }

  ghost predicate HasParent(nodes: seq<Node>, n: Node) {
    n.hopCount == 1 || n.parentId.Some? || exists p :: IsCandidate(nodes, n, p)
  }

  lemma FallbackIsChosen(nodes: seq<Node>, n: Node, leq: NameOrder)
    requires IsOrder(leq) && HeuristicParent(nodes, n, leq).Some?
    ensures IsFallback(nodes, n, HeuristicParent(nodes, n, leq).value, leq)
  {
    HeuristicParentIsLeast(nodes, n, leq);
    var p := HeuristicParent(nodes, n, leq).value;
    assert IsCandidate(nodes, n, p);
    forall q | q in nodes && q.hopCount + 1 == n.hopCount && (p.zone == n.zone ==> q.zone == n.zone) ensures leq(p.name, q.name) {
      assert IsCandidate(nodes, n, q);
    }
    if q :| q in nodes && q.hopCount + 1 == n.hopCount && q.zone == n.zone {
      assert IsCandidate(nodes, n, q);
    }
  }

  lemma FallbackIsRight(nodes: seq<Node>, masterOnline: bool, leq: NameOrder, n: Node, p: Node)
    requires UniqueIds(nodes) && n.hopCount != 1 && n.parentId.None? && IsFallback(nodes, n, p, leq)
    ensures IsRightEdge(nodes, masterOnline, leq, n, EdgeTo(nodes, n, FromNode(p.id), masterOnline))
  {
    ByIdUnique(nodes, p);
    assert EdgeTo(nodes, n, FromNode(p.id), masterOnline) == Edge(FromNode(p.id), n.id, p.online && n.online);
  }

  lemma ChoiceIsRight(nodes: seq<Node>, masterOnline: bool, leq: NameOrder, n: Node)
    requires IsOrder(leq) && UniqueIds(nodes) && n in nodes
    ensures SourceOf(nodes, n, leq).Some? <==> HasParent(nodes, n)
    ensures SourceOf(nodes, n, leq).Some? ==>
      IsRightEdge(nodes, masterOnline, leq, n, EdgeTo(nodes, n, SourceOf(nodes, n, leq).value, masterOnline))
  {
    if n.parentId.Some? && n.hopCount != 1 {
      ByIdFinds(nodes, n.parentId.value);
    } else if n.hopCount != 1 {
      HeuristicParentIsLeast(nodes, n, leq);
      if HeuristicParent(nodes, n, leq).Some? {
        FallbackIsChosen(nodes, n, leq);
        FallbackIsRight(nodes, masterOnline, leq, n, HeuristicParent(nodes, n, leq).value);
      }
    }
  }

  /** What edges there are, for nodes with unique IDs. A listed node has one exactly when it is one hop from the master, or
      reports a parent, or some listed node is one hop closer. At one hop it comes from the master; otherwise from the
      reported parent, or from the master if that one is not listed; and without a report from the fallback. It is connected
      exactly when both its ends are online. No node has two edges, and there are no others. */
  lemma EdgesOutright(nodes: seq<Node>, masterOnline: bool, leq: NameOrder)
    requires IsOrder(leq) && UniqueIds(nodes)
    ensures var edges := InferEdges(nodes, masterOnline, leq);
      && OneEdgeEach(edges)
      && (forall n | n in nodes :: HasParent(nodes, n) <==> exists e :: e in edges && e.target == n.id)
      && (forall n, e | n in nodes && e in edges && e.target == n.id :: IsRightEdge(nodes, masterOnline, leq, n, e))
      && (forall e | e in edges :: IsListed(nodes, e.target))
  {
    var edges := InferEdges(nodes, masterOnline, leq);
    TargetsAreDistinct(nodes, nodes, masterOnline, leq);
    forall n | n in nodes ensures HasParent(nodes, n) <==> exists e :: e in edges && e.target == n.id {
      NodeHasEdge(nodes, masterOnline, leq, n);
    }
    forall n, e | n in nodes && e in edges && e.target == n.id ensures IsRightEdge(nodes, masterOnline, leq, n, e) {
      EdgeOfNode(nodes, masterOnline, leq, n, e);
    }
    forall e | e in edges ensures IsListed(nodes, e.target) {
      EdgesAreChoices(nodes, nodes, masterOnline, leq, e);
    }
  }

  /** The edge into a listed node is the one its parent choice makes. */
  lemma EdgeOfNode(nodes: seq<Node>, masterOnline: bool, leq: NameOrder, n: Node, e: Edge)
    requires IsOrder(leq) && UniqueIds(nodes) && n in nodes
    requires e in InferEdges(nodes, masterOnline, leq) && e.target == n.id
    ensures HasParent(nodes, n) && IsRightEdge(nodes, masterOnline, leq, n, e)
  {
    EdgesAreChoices(nodes, nodes, masterOnline, leq, e);
    var m :| m in nodes && SourceOf(nodes, m, leq) == Some(e.source) && e == EdgeTo(nodes, m, e.source, masterOnline);
    ByIdUnique(nodes, n);
    ByIdUnique(nodes, m);
    ChoiceIsRight(nodes, masterOnline, leq, n);
  }

  lemma NodeHasEdge(nodes: seq<Node>, masterOnline: bool, leq: NameOrder, n: Node)
    requires IsOrder(leq) && UniqueIds(nodes) && n in nodes
    ensures HasParent(nodes, n) <==> exists e :: e in InferEdges(nodes, masterOnline, leq) && e.target == n.id
  {
    if HasParent(nodes, n) {
      ChoiceIsRight(nodes, masterOnline, leq, n);
      var e := EdgeTo(nodes, n, SourceOf(nodes, n, leq).value, masterOnline);
      EdgesAreChoices(nodes, nodes, masterOnline, leq, e);
      assert e in InferEdges(nodes, masterOnline, leq) && e.target == n.id;
    }
    if e :| e in InferEdges(nodes, masterOnline, leq) && e.target == n.id {
      EdgeOfNode(nodes, masterOnline, leq, n, e);
    }
  }

  // ----- Descent -----

  /** The edge starts at the master, or at a listed node with fewer hops than its target. */
  ghost predicate Descends(nodes: seq<Node>, e: Edge) {
    var byId := ById(nodes);
    e.source.FromNode? ==> e.source.id in byId && e.target in byId && byId[e.source.id].hopCount < byId[e.target].hopCount
  }

  /** A report that is no closer gives an edge that does not descend. */
  lemma ReportIsAnEdge(nodes: seq<Node>, masterOnline: bool, leq: NameOrder, n: Node, p: Node)
    requires UniqueIds(nodes) && n in nodes && p in nodes && n.parentId == Some(p.id) && n.hopCount != 1
    ensures var e := EdgeTo(nodes, n, FromNode(p.id), masterOnline);
      e in InferEdges(nodes, masterOnline, leq) && (Descends(nodes, e) <==> p.hopCount < n.hopCount)
  {
    ByIdUnique(nodes, n);
    ByIdUnique(nodes, p);
    EdgesAreChoices(nodes, nodes, masterOnline, leq, EdgeTo(nodes, n, FromNode(p.id), masterOnline));
  }

  /** With unique IDs, every edge descends exactly when every listed reported parent is closer to the master than the node
      that reports it. */
  lemma EdgesDescendExactly(nodes: seq<Node>, masterOnline: bool, leq: NameOrder)
    requires IsOrder(leq) && UniqueIds(nodes)
    ensures (forall e :: e in InferEdges(nodes, masterOnline, leq) ==> Descends(nodes, e)) <==> ParentsAreCloser(nodes)
  {
    if ParentsAreCloser(nodes) {
      forall e | e in InferEdges(nodes, masterOnline, leq) ensures Descends(nodes, e) {
        EdgesDescend(nodes, masterOnline, leq, e);
      }
    }
    if forall e :: e in InferEdges(nodes, masterOnline, leq) ==> Descends(nodes, e) {
      forall n, p | n in nodes && p in nodes && n.parentId == Some(p.id) && n.hopCount != 1 ensures p.hopCount < n.hopCount {
        ReportIsAnEdge(nodes, masterOnline, leq, n, p);
      }
    }
  }

  ghost predicate IsParent(edges: seq<Edge>, child: nat, parent: nat) {
    exists e :: e in edges && e.target == child && e.source == FromNode(parent)
  }

  /** A walk from a node to its parent, that one's parent, and so on. */
  ghost predicate IsClimb(edges: seq<Edge>, path: seq<nat>) {
    path != [] && (|path| > 1 ==> IsParent(edges, path[0], path[1]) && IsClimb(edges, path[1..]))
  }

  lemma {:induction false} ClimbDescends(nodes: seq<Node>, masterOnline: bool, leq: NameOrder, path: seq<nat>)
    requires IsOrder(leq) && UniqueIds(nodes) && ParentsAreCloser(nodes)
    requires IsClimb(InferEdges(nodes, masterOnline, leq), path) && path[0] in ById(nodes)
    ensures path[|path| - 1] in ById(nodes)
    ensures ById(nodes)[path[|path| - 1]].hopCount + |path| - 1 <= ById(nodes)[path[0]].hopCount
  {
    if |path| > 1 {
      var edges := InferEdges(nodes, masterOnline, leq);
      var e :| e in edges && e.target == path[0] && e.source == FromNode(path[1]);
      EdgesDescend(nodes, masterOnline, leq, e);
      ClimbDescends(nodes, masterOnline, leq, path[1..]);
    }
  }

  /** The topology is a forest: each node has at most one incoming edge, and every climb from a listed node stays among
      listed nodes and is over after as many steps as the node has hops, so that no climb comes back. */
  lemma TopologyIsForest(nodes: seq<Node>, masterOnline: bool, leq: NameOrder, path: seq<nat>)
    requires IsOrder(leq) && UniqueIds(nodes) && ParentsAreCloser(nodes)
    requires IsClimb(InferEdges(nodes, masterOnline, leq), path) && path[0] in ById(nodes)
    ensures OneEdgeEach(InferEdges(nodes, masterOnline, leq))
    ensures |path| <= ById(nodes)[path[0]].hopCount + 1
    ensures path[|path| - 1] in ById(nodes)
    ensures |path| > 1 ==> path[|path| - 1] != path[0]
  {
    TargetsAreDistinct(nodes, nodes, masterOnline, leq);
    ClimbDescends(nodes, masterOnline, leq, path);
  }

  /** The edge from this node to its parent is a report, and the reported parent is not closer to the master. */
  predicate ReportsNoCloser(nodes: seq<Node>, child: nat, parent: nat)
    requires child in ById(nodes) && parent in ById(nodes)
  {
    var n := ById(nodes)[child];
    n.parentId == Some(parent) && n.hopCount != 1 && ById(nodes)[parent].hopCount >= n.hopCount
  }

  lemma EdgeDescendsOrBlames(nodes: seq<Node>, masterOnline: bool, leq: NameOrder, child: nat, parent: nat)
    requires IsOrder(leq) && UniqueIds(nodes) && child in ById(nodes)
    requires IsParent(InferEdges(nodes, masterOnline, leq), child, parent)
    ensures parent in ById(nodes)
    ensures ById(nodes)[parent].hopCount < ById(nodes)[child].hopCount || ReportsNoCloser(nodes, child, parent)
  {
    var e :| e in InferEdges(nodes, masterOnline, leq) && e.target == child && e.source == FromNode(parent);
    EdgesAreChoices(nodes, nodes, masterOnline, leq, e);
    var n :| n in nodes && SourceOf(nodes, n, leq) == Some(e.source) && e == EdgeTo(nodes, n, e.source, masterOnline);
    ByIdUnique(nodes, n);
    if !(n.parentId.Some? && n.hopCount != 1) {
      HeuristicParentIsLeast(nodes, n, leq);
      ByIdUnique(nodes, HeuristicParent(nodes, n, leq).value);
    }
  }

  lemma {:induction false} ClimbDescendsOrBlames(nodes: seq<Node>, masterOnline: bool, leq: NameOrder, path: seq<nat>)
    returns (i: nat)
    requires IsOrder(leq) && UniqueIds(nodes) && path != [] && path[0] in ById(nodes)
    requires IsClimb(InferEdges(nodes, masterOnline, leq), path)
    ensures path[|path| - 1] in ById(nodes)
    ensures ById(nodes)[path[|path| - 1]].hopCount + |path| - 1 <= ById(nodes)[path[0]].hopCount
      || (i + 1 < |path| && path[i] in ById(nodes) && path[i + 1] in ById(nodes) && ReportsNoCloser(nodes, path[i], path[i + 1]))
  {
    i := 0;
    if |path| > 1 {
      EdgeDescendsOrBlames(nodes, masterOnline, leq, path[0], path[1]);
      var j := ClimbDescendsOrBlames(nodes, masterOnline, leq, path[1..]);
      if !ReportsNoCloser(nodes, path[0], path[1]) {
        i := j + 1;
      }
    }
  }

  /** Whatever is reported, the heuristic is never to blame: a climb that comes back to where it began, or that takes more
      steps than the node has hops, passes through a node whose reported parent is no closer to the master. */
  lemma CyclesBlameReports(nodes: seq<Node>, masterOnline: bool, leq: NameOrder, path: seq<nat>)
    requires IsOrder(leq) && UniqueIds(nodes) && |path| > 1 && path[0] in ById(nodes)
    requires IsClimb(InferEdges(nodes, masterOnline, leq), path)
    requires path[|path| - 1] == path[0] || |path| > ById(nodes)[path[0]].hopCount + 1
    ensures exists i :: 0 <= i < |path| - 1 && path[i] in ById(nodes) && path[i + 1] in ById(nodes)
                     && ReportsNoCloser(nodes, path[i], path[i + 1])
  {
    var i := ClimbDescendsOrBlames(nodes, masterOnline, leq, path);
  }

  /** Without the condition on reported parents there can be a cycle: two nodes that report each other. */
  lemma ReportedParentsCanCycle(masterOnline: bool, leq: NameOrder)
    ensures var nodes := [Node(1, "a", "", 2, Some(2), true), Node(2, "b", "", 2, Some(1), true)];
      UniqueIds(nodes) && IsClimb(InferEdges(nodes, masterOnline, leq), [1, 2, 1])
  {
    var a, b := Node(1, "a", "", 2, Some(2), true), Node(2, "b", "", 2, Some(1), true);
    var nodes := [a, b];
    ByIdUnique(nodes, a);
    ByIdUnique(nodes, b);
    var e1, e2 := EdgeTo(nodes, a, FromNode(2), masterOnline), EdgeTo(nodes, b, FromNode(1), masterOnline);
    EdgesAreChoices(nodes, nodes, masterOnline, leq, e1);
    EdgesAreChoices(nodes, nodes, masterOnline, leq, e2);
    assert a in nodes && b in nodes;
    var path, edges := [1, 2, 1], InferEdges(nodes, masterOnline, leq);
    assert e1 in edges && e1.target == path[0] && e1.source == FromNode(path[1]);
    assert e2 in edges && e2.target == path[1] && e2.source == FromNode(path[2]);
    assert IsClimb(edges, path[1..][1..]);
    assert IsClimb(edges, path[1..]);
  }

  method IndexById(nodes: seq<Node>) returns (byId: map<nat, Node>)
    ensures byId == ById(nodes)
  {
    byId := map[];
    for i := 0 to |nodes|
      invariant byId == ById(nodes[..i])
    {
      assert nodes[..i + 1][..i] == nodes[..i];
      byId := byId[nodes[i].id := nodes[i]];
    }
    assert nodes[..|nodes|] == nodes;
  }

  lemma InferStep(nodes: seq<Node>, i: nat, masterOnline: bool, leq: NameOrder)
    requires i < |nodes|
    ensures InferFor(nodes, nodes[..i + 1], masterOnline, leq)
         == InferFor(nodes, nodes[..i], masterOnline, leq)
            + match SourceOf(nodes, nodes[i], leq)
              case None => []
              case Some(source) => [EdgeTo(nodes, nodes[i], source, masterOnline)]
  {
    assert nodes[..i + 1][..i] == nodes[..i];
  }

  method ComputeEdges(nodes: seq<Node>, masterOnline: bool, leq: NameOrder) returns (edges: seq<Edge>)
    ensures edges == InferEdges(nodes, masterOnline, leq)
  {
    edges := [];
    var byId := IndexById(nodes);
    for i := 0 to |nodes|
      invariant edges == InferFor(nodes, nodes[..i], masterOnline, leq)
    {
      var n := nodes[i];
      InferStep(nodes, i, masterOnline, leq);
      var source := Master;
      if n.parentId.Some? && n.hopCount != 1 {
        if n.parentId.value in byId {
          source := FromNode(n.parentId.value);
        }
      } else if n.hopCount != 1 {
        var parent := HeuristicParent(nodes, n, leq);
        if parent.None? {
          continue;
        }
        source := FromNode(parent.value.id);
      }
      var upstream := if source.Master? then masterOnline else source.id in byId && byId[source.id].online;
      edges := edges + [Edge(source, n.id, upstream && n.online)];
    }
    assert nodes[..|nodes|] == nodes;
  }
}
