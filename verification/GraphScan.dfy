/** Flattening a dependency graph to its component ids (xray/services/scan.go). */
module GraphScan {

  /** A node of a finite tree; the other fields of the source are not looked at. */
  datatype GraphNode = GraphNode(id: string, nodes: seq<GraphNode>)

  /** For every id seen so far, whether it was seen with children. */
  type Dependencies = map<string, bool>

  function Populated(node: GraphNode, deps: Dependencies): Dependencies
    decreases node, 1
  {
    if node.id in deps && (node.nodes == [] || deps[node.id]) then deps
    else PopulatedAll(node.nodes, deps[node.id := node.nodes != []])
  }

  function PopulatedAll(nodes: seq<GraphNode>, deps: Dependencies): Dependencies
    decreases nodes, 0
  {
    if nodes == [] then deps else PopulatedAll(nodes[1..], Populated(nodes[0], deps))
  }

  class UniqueDependencies {
    var deps: Dependencies

    constructor ()
      ensures deps == map[]
    {
      deps := map[];
    }

    method Populate(node: GraphNode)
      modifies this
      ensures deps == Populated(node, old(deps))
      decreases node
    {
      if node.id in deps && (|node.nodes| == 0 || deps[node.id]) {
        return;
      }
      deps := deps[node.id := false];
      if |node.nodes| > 0 {
        deps := deps[node.id := true];
      }
      assert node.nodes[0..] == node.nodes && deps == old(deps)[node.id := node.nodes != []];
      for i := 0 to |node.nodes|
        invariant Populated(node, old(deps)) == PopulatedAll(node.nodes[i..], deps)
      {
        assert node.nodes[i..][1..] == node.nodes[i + 1..];
        Populate(node.nodes[i]);
      }
    }
  }

  // ----- The ids of a graph -----

  function Ids(node: GraphNode): set<string>
    decreases node, 1
  {
    {node.id} + IdsAll(node.nodes)
  }

  function IdsAll(nodes: seq<GraphNode>): set<string>
    decreases nodes, 0
  {
    if nodes == [] then {} else Ids(nodes[0]) + IdsAll(nodes[1..])
  }

  /** All the nodes of a tree. */
  function Subtrees(node: GraphNode): set<GraphNode>
    decreases node, 1
  {
    {node} + SubtreesAll(node.nodes)
  }

  function SubtreesAll(nodes: seq<GraphNode>): set<GraphNode>
    decreases nodes, 0
  {
    if nodes == [] then {} else Subtrees(nodes[0]) + SubtreesAll(nodes[1..])
  }

  /** The flat graph lists every id once, under one root. */
  method FlattenGraph(graph: seq<GraphNode>) returns (flat: GraphNode)
    ensures flat.id == "root"
    ensures forall i :: 0 <= i < |flat.nodes| ==> flat.nodes[i].nodes == []
    ensures forall i, j :: 0 <= i < j < |flat.nodes| ==> flat.nodes[i].id != flat.nodes[j].id
    ensures forall id :: GraphNode(id, []) in flat.nodes <==> id in PopulatedAll(graph, map[])
  {
    var allDependencies := new UniqueDependencies();
    assert graph[0..] == graph;
    for i := 0 to |graph|
      invariant fresh(allDependencies)
      invariant PopulatedAll(graph, map[]) == PopulatedAll(graph[i..], allDependencies.deps)
    {
      assert graph[i..][1..] == graph[i + 1..];
      allDependencies.Populate(graph[i]);
    }
    var nodes: seq<GraphNode> := [];
    var rest := allDependencies.deps.Keys;
    while rest != {}
      invariant forall i :: 0 <= i < |nodes| ==> nodes[i].nodes == [] && nodes[i].id !in rest
      invariant forall i, j :: 0 <= i < j < |nodes| ==> nodes[i].id != nodes[j].id
      invariant forall id :: id in allDependencies.deps <==> id in rest || GraphNode(id, []) in nodes
      decreases |rest|
    {
      var id :| id in rest;
      nodes := nodes + [GraphNode(id, [])];
      rest := rest - {id};
    }
    return GraphNode("root", nodes);
  }

  // ----- Only ids of the graph -----

  lemma {:induction false} OnlyIds(node: GraphNode, deps: Dependencies)
    ensures deps.Keys <= Populated(node, deps).Keys <= deps.Keys + Ids(node)
    ensures node.id in Populated(node, deps)
    decreases node, 1
  {
    OnlyIdsAll(node.nodes, deps[node.id := node.nodes != []]);
  }

  /** Flattening adds nothing but ids of the graph. */
  lemma {:induction false} OnlyIdsAll(nodes: seq<GraphNode>, deps: Dependencies)
    ensures deps.Keys <= PopulatedAll(nodes, deps).Keys <= deps.Keys + IdsAll(nodes)
    decreases nodes, 0
  {
    if nodes != [] {
      OnlyIds(nodes[0], deps);
      OnlyIdsAll(nodes[1..], Populated(nodes[0], deps));
    }
  }

  // ----- All ids of a consistent graph -----

  /** Two occurrences of an id with children have the same ids below them. */
  ghost predicate SameIds(all: set<GraphNode>) {
    forall a, b :: a in all && b in all && a.nodes != [] && b.nodes != [] && a.id == b.id ==> Ids(a) == Ids(b)
  }

  /** No occurrence of an id with children lies below another. */
  ghost predicate NotNested(all: set<GraphNode>) {
    forall a, b :: a in all && b in SubtreesAll(a.nodes) && b.nodes != [] ==> a.id != b.id
  }

  /** Every id that was seen with children and whose node is not being visited now has its ids in the map. */
  ghost predicate Covered(deps: Dependencies, visiting: set<string>, all: set<GraphNode>) {
    forall n :: n in all && n.nodes != [] && n.id in deps && deps[n.id] && n.id !in visiting ==> Ids(n) <= deps.Keys
  }

  /** No node being visited occurs, with its children, among these. */
  ghost predicate Apart(visiting: set<string>, below: set<GraphNode>) {
    forall n :: n in below && n.nodes != [] ==> n.id !in visiting
  }

  lemma {:induction false} Covers(node: GraphNode, deps: Dependencies, visiting: set<string>, all: set<GraphNode>)
    requires Subtrees(node) <= all && SameIds(all) && NotNested(all)
    requires Covered(deps, visiting, all) && Apart(visiting, Subtrees(node))
    ensures Ids(node) <= Populated(node, deps).Keys
    ensures Covered(Populated(node, deps), visiting, all)
    decreases node, 1
  {
    hide SameIds, NotNested, Covered, Apart;
    assert node in all;
    if node.id in deps && (node.nodes == [] || deps[node.id]) {
      AlreadyCovered(node, deps, visiting, all);
    } else {
      var deps' := deps[node.id := node.nodes != []];
      var visiting' := if node.nodes == [] then visiting else visiting + {node.id};
      Enter(node, deps, visiting, all);
      CoversAll(node.nodes, deps', visiting', all);
      OnlyIdsAll(node.nodes, deps');
      Leave(node, PopulatedAll(node.nodes, deps'), visiting, all);
    }
  }

  lemma {:induction false} CoversAll(nodes: seq<GraphNode>, deps: Dependencies, visiting: set<string>,
                                     all: set<GraphNode>)
    requires SubtreesAll(nodes) <= all && SameIds(all) && NotNested(all)
    requires Covered(deps, visiting, all) && Apart(visiting, SubtreesAll(nodes))
    ensures IdsAll(nodes) <= PopulatedAll(nodes, deps).Keys
    ensures Covered(PopulatedAll(nodes, deps), visiting, all)
    decreases nodes, 0
  {
    hide SameIds, NotNested, Covered;
    if nodes != [] {
      Covers(nodes[0], deps, visiting, all);
      CoversAll(nodes[1..], Populated(nodes[0], deps), visiting, all);
      OnlyIdsAll(nodes[1..], Populated(nodes[0], deps));
    }
  }

  lemma AlreadyCovered(node: GraphNode, deps: Dependencies, visiting: set<string>, all: set<GraphNode>)
    requires node in all && Covered(deps, visiting, all) && Apart(visiting, Subtrees(node))
    requires node.id in deps && (node.nodes == [] || deps[node.id])
    ensures Ids(node) <= deps.Keys
  {
    assert node in Subtrees(node);
  }

  lemma Enter(node: GraphNode, deps: Dependencies, visiting: set<string>, all: set<GraphNode>)
    requires node in all && NotNested(all) && Covered(deps, visiting, all) && Apart(visiting, Subtrees(node))
    requires node.id in deps ==> node.nodes != []
    ensures var visiting' := if node.nodes == [] then visiting else visiting + {node.id};
            Covered(deps[node.id := node.nodes != []], visiting', all) && Apart(visiting', SubtreesAll(node.nodes))
  {
    hide Ids;
    assert SubtreesAll(node.nodes) <= Subtrees(node);
  }

  lemma Leave(node: GraphNode, deps: Dependencies, visiting: set<string>, all: set<GraphNode>)
    requires node in all && SameIds(all) && Ids(node) <= deps.Keys
    requires Covered(deps, if node.nodes == [] then visiting else visiting + {node.id}, all)
    ensures Covered(deps, visiting, all)
  {
    hide Ids;
  }

  /** If occurrences of an id with children have the same ids below them, and are not nested, then flattening finds
      every id, although it prunes the graph, and although an id may be seen first without its children. */
  lemma FlattensAllIds(graph: seq<GraphNode>)
    requires SameIds(SubtreesAll(graph)) && NotNested(SubtreesAll(graph))
    ensures PopulatedAll(graph, map[]).Keys == IdsAll(graph)
  {
    hide SameIds, NotNested;
    CoversAll(graph, map[], {}, SubtreesAll(graph));
    OnlyIdsAll(graph, map[]);
  }

  // ----- The exact condition -----

  lemma {:induction false} TrueStays(node: GraphNode, deps: Dependencies, id: string)
    requires id in deps && deps[id]
    ensures id in Populated(node, deps) && Populated(node, deps)[id]
    decreases node, 1
  {
    if !(node.id in deps && (node.nodes == [] || deps[node.id])) {
      TrueStaysAll(node.nodes, deps[node.id := node.nodes != []], id);
    }
  }

  lemma {:induction false} TrueStaysAll(nodes: seq<GraphNode>, deps: Dependencies, id: string)
    requires id in deps && deps[id]
    ensures id in PopulatedAll(nodes, deps) && PopulatedAll(nodes, deps)[id]
    decreases nodes, 0
  {
    if nodes != [] {
      TrueStays(nodes[0], deps, id);
      TrueStaysAll(nodes[1..], Populated(nodes[0], deps), id);
    }
  }

  /** The second of two occurrences of an id with children is skipped, so that its ids must lie below the first. */
  lemma SecondIsSkipped(a: GraphNode, b: GraphNode)
    requires a.nodes != [] && b.nodes != [] && a.id == b.id
    requires FindsAll([a, b])
    ensures Ids(b) <= Ids(a)
  {
    hide Ids;
    var first := Populated(a, map[]);
    TrueStaysAll(a.nodes, map[a.id := true], a.id);
    OnlyIds(a, map[]);
    assert [a, b][1..] == [b] && [b][1..] == [];
    assert PopulatedAll([b], first) == PopulatedAll([], Populated(b, first)) == first;
    assert IdsAll([b]) == Ids(b) + IdsAll([]);
    assert IdsAll([a, b]) == Ids(a) + IdsAll([b]);
  }

  lemma {:induction false} ListsBelow(list: seq<GraphNode>, graph: seq<GraphNode>)
    requires forall n :: n in list ==> n in SubtreesAll(graph)
    ensures SubtreesAll(list) <= SubtreesAll(graph)
  {
    if list != [] {
      assert list == [list[0]] + list[1..];
      ListsBelow(list[1..], graph);
      forall b | b in Subtrees(list[0])
        ensures b in SubtreesAll(graph)
      {
        if b != list[0] {
          SubtreesBelow(graph, list[0], b);
        }
      }
    }
  }

  /** Flattening the list finds every id. */
  ghost predicate FindsAll(list: seq<GraphNode>) {
    PopulatedAll(list, map[]).Keys == IdsAll(list)
  }

  /** The list is made of nodes of the graph. */
  ghost predicate TakenFrom(list: seq<GraphNode>, graph: seq<GraphNode>) {
    forall n :: n in list ==> n in SubtreesAll(graph)
  }

  /** For every id that only one of two runs has seen with children, the ids below its occurrences are among these. */
  ghost predicate Agreeing(d: Dependencies, e: Dependencies, ids: set<string>, all: set<GraphNode>) {
    forall n :: n in all && n.nodes != [] && SeenWithChildren(d, n.id) != SeenWithChildren(e, n.id) ==> Ids(n) <= ids
  }

  predicate SeenWithChildren(deps: Dependencies, id: string) {
    id in deps && deps[id]
  }

  /** A run that starts with some ids prunes more than a run that starts with none, but misses none of its ids: where
      only one of the two goes below a node, the ids there are among those that the longer run started with. */
  lemma {:induction false} RunsAgree(node: GraphNode, d: Dependencies, e: Dependencies, ids: set<string>,
                                     all: set<GraphNode>)
    requires Subtrees(node) <= all && SameIds(all) && Agreeing(d, e, ids, all) && d.Keys <= e.Keys && ids <= e.Keys
    ensures Agreeing(Populated(node, d), Populated(node, e), ids, all)
    ensures Populated(node, d).Keys <= Populated(node, e).Keys
    decreases node, 1
  {
    hide SameIds, Agreeing;
    var d', e' := d[node.id := node.nodes != []], e[node.id := node.nodes != []];
    OnlyIds(node, d);
    OnlyIds(node, e);
    if node.nodes == [] {
      LeavesAgree(node, d, e, ids, all);
    } else if SeenWithChildren(d, node.id) != SeenWithChildren(e, node.id) {
      BelowDiffers(node, d, e, ids, all);
      OneExplores(node, d, e, ids, all);
    } else if !SeenWithChildren(d, node.id) {
      BothEnter(d, e, node.id, ids, all);
      RunsAgreeAll(node.nodes, d', e', ids, all);
    }
  }

  lemma {:induction false} RunsAgreeAll(
      nodes: seq<GraphNode>, d: Dependencies, e: Dependencies, ids: set<string>, all: set<GraphNode>)
    requires SubtreesAll(nodes) <= all && SameIds(all) && Agreeing(d, e, ids, all) && d.Keys <= e.Keys && ids <= e.Keys
    ensures Agreeing(PopulatedAll(nodes, d), PopulatedAll(nodes, e), ids, all)
    ensures PopulatedAll(nodes, d).Keys <= PopulatedAll(nodes, e).Keys
    decreases nodes, 0
  {
    hide SameIds, Agreeing;
    if nodes != [] {
      RunsAgree(nodes[0], d, e, ids, all);
      OnlyIds(nodes[0], e);
      RunsAgreeAll(nodes[1..], Populated(nodes[0], d), Populated(nodes[0], e), ids, all);
    }
  }

  lemma LeavesAgree(node: GraphNode, d: Dependencies, e: Dependencies, ids: set<string>, all: set<GraphNode>)
    requires node.nodes == [] && Agreeing(d, e, ids, all) && d.Keys <= e.Keys
    ensures Agreeing(Populated(node, d), Populated(node, e), ids, all)
    ensures Populated(node, d).Keys <= Populated(node, e).Keys
  {
    hide Ids;
  }

  lemma BothEnter(d: Dependencies, e: Dependencies, id: string, ids: set<string>, all: set<GraphNode>)
    requires Agreeing(d, e, ids, all)
    ensures Agreeing(d[id := true], e[id := true], ids, all)
  {
    hide Ids;
  }

  lemma BelowDiffers(node: GraphNode, d: Dependencies, e: Dependencies, ids: set<string>, all: set<GraphNode>)
    requires node in all && node.nodes != [] && Agreeing(d, e, ids, all)
    requires SeenWithChildren(d, node.id) != SeenWithChildren(e, node.id)
    ensures Ids(node) <= ids
  {
    hide Ids;
  }

  /** Going below a node sees with children only what lies there. */
  lemma {:induction false} SeenBelow(node: GraphNode, deps: Dependencies, id: string)
    requires SeenWithChildren(Populated(node, deps), id) != SeenWithChildren(deps, id)
    ensures exists n :: n in Subtrees(node) && n.id == id && n.nodes != []
    decreases node, 1
  {
    hide Ids;
    if node.id == id && node.nodes != [] {
      assert node in Subtrees(node);
    } else {
      SeenBelowAll(node.nodes, deps[node.id := node.nodes != []], id);
    }
  }

  lemma {:induction false} SeenBelowAll(nodes: seq<GraphNode>, deps: Dependencies, id: string)
    requires SeenWithChildren(PopulatedAll(nodes, deps), id) != SeenWithChildren(deps, id)
    ensures exists n :: n in SubtreesAll(nodes) && n.id == id && n.nodes != []
    decreases nodes, 0
  {
    hide Ids;
    var first := Populated(nodes[0], deps);
    if SeenWithChildren(first, id) != SeenWithChildren(deps, id) {
      SeenBelow(nodes[0], deps, id);
    } else {
      SeenBelowAll(nodes[1..], first, id);
    }
  }

  lemma {:induction false} IdsBelow(nodes: seq<GraphNode>, n: GraphNode)
    requires n in SubtreesAll(nodes)
    ensures Ids(n) <= IdsAll(nodes)
    decreases nodes
  {
    if n in Subtrees(nodes[0]) {
      if n != nodes[0] {
        IdsBelow(nodes[0].nodes, n);
      }
    } else {
      IdsBelow(nodes[1..], n);
    }
  }

  /** Where one of two runs skips a node and the other goes below it. */
  lemma OneExplores(node: GraphNode, d: Dependencies, e: Dependencies, ids: set<string>, all: set<GraphNode>)
    requires Subtrees(node) <= all && SameIds(all) && Agreeing(d, e, ids, all) && d.Keys <= e.Keys && ids <= e.Keys
    requires Ids(node) <= ids
    ensures Agreeing(Populated(node, d), Populated(node, e), ids, all)
    ensures Populated(node, d).Keys <= Populated(node, e).Keys
  {
    hide Ids, Populated, Subtrees;
    OnlyIds(node, d);
    OnlyIds(node, e);
    var d', e' := Populated(node, d), Populated(node, e);
    forall n | n in all && n.nodes != [] && SeenWithChildren(d', n.id) != SeenWithChildren(e', n.id)
      ensures Ids(n) <= ids
    {
      if SeenWithChildren(d, n.id) == SeenWithChildren(e, n.id) {
        if SeenWithChildren(d', n.id) != SeenWithChildren(d, n.id) {
          SeenInside(node, d, n.id, n, all);
        } else {
          SeenInside(node, e, n.id, n, all);
        }
      }
    }
  }

  lemma SeenInside(node: GraphNode, deps: Dependencies, id: string, n: GraphNode, all: set<GraphNode>)
    requires Subtrees(node) <= all && SameIds(all) && n in all && n.nodes != [] && n.id == id
    requires SeenWithChildren(Populated(node, deps), id) != SeenWithChildren(deps, id)
    ensures Ids(n) <= Ids(node)
  {
    hide Ids, Populated;
    SeenBelow(node, deps, id);
    var m :| m in Subtrees(node) && m.id == id && m.nodes != [];
    assert Ids(m) == Ids(n);
    SubtreeIds(node, m);
  }

  lemma SubtreeIds(node: GraphNode, m: GraphNode)
    requires m in Subtrees(node)
    ensures Ids(m) <= Ids(node)
  {
    if m != node {
      IdsBelow(node.nodes, m);
    }
  }

  /** After any prefix of the list every id seen with children has the ids below it in the map, and none is missed. */
  lemma {:induction false} ListCovers(list: seq<GraphNode>, deps: Dependencies, all: set<GraphNode>)
    requires SubtreesAll(list) <= all && SameIds(all) && Covered(deps, {}, all)
    requires forall n :: n in list ==> FindsAll([n])
    ensures deps.Keys + IdsAll(list) <= PopulatedAll(list, deps).Keys
  {
    hide SameIds, Covered, FindsAll;
    if list != [] {
      var node, rest := list[0], list[1..];
      assert list == [node] + rest;
      NodeCovers(node, deps, all);
      ListCovers(rest, Populated(node, deps), all);
    }
  }

  lemma NodeCovers(node: GraphNode, deps: Dependencies, all: set<GraphNode>)
    requires Subtrees(node) <= all && SameIds(all) && Covered(deps, {}, all) && FindsAll([node])
    ensures deps.Keys + Ids(node) <= Populated(node, deps).Keys && Covered(Populated(node, deps), {}, all)
  {
    hide Ids, Populated, Subtrees, SameIds;
    OnlyNode(node);
    StartsAgreeing(deps, all);
    RunsAgree(node, map[], deps, deps.Keys, all);
    OnlyIds(node, deps);
    var after := Populated(node, deps);
    forall n | n in all && n.nodes != [] && n.id in after && after[n.id]
      ensures Ids(n) <= after.Keys
    {
      if !SeenWithChildren(deps, n.id) {
        SeenInside(node, deps, n.id, n, all);
      }
    }
  }

  lemma OnlyNode(node: GraphNode)
    ensures FindsAll([node]) <==> Populated(node, map[]).Keys == Ids(node)
  {
    hide Ids, Populated;
    var after := Populated(node, map[]);
    assert [node][1..] == [];
    assert IdsAll([node]) == Ids(node) + IdsAll([]) == Ids(node);
    assert PopulatedAll([node], map[]) == PopulatedAll([], after) == after;
  }

  lemma StartsAgreeing(deps: Dependencies, all: set<GraphNode>)
    requires Covered(deps, {}, all)
    ensures Agreeing(map[], deps, deps.Keys, all)
  {
    hide Ids;
  }

  /** For every graph: flattening finds every id of every list of the graph's nodes, in any order, if and only if
      occurrences of an id with children have the same ids below them, and flattening finds every id of each node
      alone. */
  lemma FlattensEveryListIff(graph: seq<GraphNode>)
    ensures (forall list :: TakenFrom(list, graph) ==> FindsAll(list))
            <==> SameIds(SubtreesAll(graph)) && forall n :: n in SubtreesAll(graph) ==> FindsAll([n])
  {
    hide SameIds, FindsAll, TakenFrom;
    if SameIds(SubtreesAll(graph)) && forall n :: n in SubtreesAll(graph) ==> FindsAll([n]) {
      forall list | TakenFrom(list, graph)
        ensures FindsAll(list)
      {
        ListFlattens(list, graph);
      }
    } else if !SameIds(SubtreesAll(graph)) {
      var list := LosingPair(graph);
    } else {
      var n :| n in SubtreesAll(graph) && !FindsAll([n]);
      assert TakenFrom([n], graph) by {
        OneTaken(n, graph);
      }
    }
  }

  lemma OneTaken(n: GraphNode, graph: seq<GraphNode>)
    requires n in SubtreesAll(graph)
    ensures TakenFrom([n], graph)
  {
  }

  lemma ListFlattens(list: seq<GraphNode>, graph: seq<GraphNode>)
    requires SameIds(SubtreesAll(graph)) && TakenFrom(list, graph)
    requires forall n :: n in SubtreesAll(graph) ==> FindsAll([n])
    ensures FindsAll(list)
  {
    hide SameIds, Covered;
    ListsBelow(list, graph);
    NothingCovered(SubtreesAll(graph));
    hide FindsAll;
    ListCovers(list, map[], SubtreesAll(graph));
    OnlyIdsAll(list, map[]);
    FindsAllIff(list);
  }

  lemma NothingCovered(all: set<GraphNode>)
    ensures Covered(map[], {}, all)
  {
  }

  lemma FindsAllIff(list: seq<GraphNode>)
    ensures FindsAll(list) <==> PopulatedAll(list, map[]).Keys == IdsAll(list)
  {
  }

  /** When occurrences do not nest, each node alone is flattened rightly, so that the ids below the occurrences
      decide. */
  lemma FlattensUnnestedIff(graph: seq<GraphNode>)
    requires NotNested(SubtreesAll(graph))
    ensures (forall list :: TakenFrom(list, graph) ==> FindsAll(list)) <==> SameIds(SubtreesAll(graph))
  {
    hide NotNested, FindsAll, TakenFrom, SameIds;
    FlattensEveryListIff(graph);
    if SameIds(SubtreesAll(graph)) {
      forall n | n in SubtreesAll(graph)
        ensures FindsAll([n])
      {
        UnnestedNode(n, graph);
      }
    }
  }

  lemma UnnestedNode(n: GraphNode, graph: seq<GraphNode>)
    requires SameIds(SubtreesAll(graph)) && NotNested(SubtreesAll(graph)) && n in SubtreesAll(graph)
    ensures FindsAll([n])
  {
    ListsBelow([n], graph);
    FlattensAllIds([n]);
  }

  lemma LosingPair(graph: seq<GraphNode>) returns (list: seq<GraphNode>)
    requires !SameIds(SubtreesAll(graph))
    ensures TakenFrom(list, graph) && !FindsAll(list)
  {
    hide FindsAll, Ids;
    var a, b :| a in SubtreesAll(graph) && b in SubtreesAll(graph) && a.nodes != [] && b.nodes != [] && a.id == b.id
                && Ids(a) != Ids(b);
    if FindsAll([a, b]) {
      SecondIsSkipped(a, b);
      list := [b, a];
      if FindsAll(list) {
        SecondIsSkipped(b, a);
      }
    } else {
      list := [a, b];
    }
  }

  // ----- Equal subtrees -----

  function Size(node: GraphNode): nat
    decreases node, 1
  {
    1 + SizeAll(node.nodes)
  }

  function SizeAll(nodes: seq<GraphNode>): nat
    decreases nodes, 0
  {
    if nodes == [] then 0 else Size(nodes[0]) + SizeAll(nodes[1..])
  }

  lemma {:induction false} SubtreesAreSmaller(nodes: seq<GraphNode>, n: GraphNode)
    requires n in SubtreesAll(nodes)
    ensures Size(n) <= SizeAll(nodes)
    decreases nodes
  {
    if n in Subtrees(nodes[0]) {
      if n != nodes[0] {
        SubtreesAreSmaller(nodes[0].nodes, n);
      }
    } else {
      SubtreesAreSmaller(nodes[1..], n);
    }
  }

  /** In particular flattening finds every id if all occurrences of an id with children are equal. */
  lemma EqualSubtreesSuffice(graph: seq<GraphNode>)
    requires forall a, b ::
               a in SubtreesAll(graph) && b in SubtreesAll(graph) && a.nodes != [] && b.nodes != [] && a.id == b.id ==>
                 a == b
    ensures PopulatedAll(graph, map[]).Keys == IdsAll(graph)
  {
    var all := SubtreesAll(graph);
    forall a, b | a in all && b in SubtreesAll(a.nodes) && b.nodes != []
      ensures a.id != b.id
    {
      SubtreesAreSmaller(a.nodes, b);
      SubtreesBelow(graph, a, b);
    }
    FlattensAllIds(graph);
  }

  lemma {:induction false} SubtreesBelow(nodes: seq<GraphNode>, a: GraphNode, b: GraphNode)
    requires a in SubtreesAll(nodes) && b in SubtreesAll(a.nodes)
    ensures b in SubtreesAll(nodes)
    decreases nodes
  {
    if a in Subtrees(nodes[0]) {
      if a != nodes[0] {
        SubtreesBelow(nodes[0].nodes, a, b);
      }
    } else {
      SubtreesBelow(nodes[1..], a, b);
    }
  }

  /** Without the condition ids are lost: the first occurrence of x has a leaf where the depth limit cut the graph,
      and the second one, which has that leaf's child, is skipped. */
  lemma CutLosesIds()
    ensures var b := GraphNode("b", []);
            var graph := [GraphNode("x", [GraphNode("a", [])]), GraphNode("x", [GraphNode("a", [b])])];
            "b" in IdsAll(graph) && "b" !in PopulatedAll(graph, map[])
  {
    var b, leaf := GraphNode("b", []), GraphNode("a", []);
    var a := GraphNode("a", [b]);
    var x, y := GraphNode("x", [leaf]), GraphNode("x", [a]);
    var graph := [x, y];
    assert graph[1..] == [y];
    assert "b" in Ids(b) && Ids(b) <= IdsAll([b]) && IdsAll([b]) <= Ids(a) && Ids(a) <= IdsAll([a])
           && IdsAll([a]) <= Ids(y);
    assert Ids(y) <= IdsAll([y]);
    var deps: Dependencies := map["x" := true];
    assert Populated(x, map[]) == PopulatedAll([leaf], deps);
    assert PopulatedAll([leaf], deps) == Populated(leaf, deps) by {
      assert [leaf][1..] == [];
    }
    var deps' := Populated(leaf, deps);
    assert deps' == deps["a" := false];
    assert Populated(y, deps') == deps';
    assert PopulatedAll([y], deps') == deps' by {
      assert [y][1..] == [];
    }
  }

  /** Nested occurrences with the same ids below them lose ids: x holds y, which holds x again with y cut and w. The
      inner x is skipped while the outer one is visited. */
  lemma NestingLosesIds()
    ensures var graph := Nested();
            SameIds(SubtreesAll(graph)) && !NotNested(SubtreesAll(graph)) && "w" in IdsAll(graph)
            && "w" !in PopulatedAll(graph, map[])
  {
    var y, w := GraphNode("y", []), GraphNode("w", []);
    var inner := GraphNode("x", [y, w]);
    var middle := GraphNode("y", [inner]);
    var outer := GraphNode("x", [middle]);
    NestedIds(y, w, inner, middle, outer);
    NestedSubtrees(y, w, inner, middle, outer);
    NestedRun(y, w, inner, middle, outer);
    NestedOccurrences(SubtreesAll(Nested()), inner, middle, outer);
    assert Nested() == [outer];
    assert "w" in IdsAll(Nested());
    assert PopulatedAll([outer], map[]) == map["x" := true, "y" := true];
    assert "w" !in PopulatedAll(Nested(), map[]);
    assert SameIds(SubtreesAll(Nested())) && !NotNested(SubtreesAll(Nested()));
  }

  lemma NestedOccurrences(all: set<GraphNode>, inner: GraphNode, middle: GraphNode, outer: GraphNode)
    requires outer in all && inner in SubtreesAll(outer.nodes) && inner.nodes != []
    requires forall a :: a in all && a.nodes != [] ==> a == inner || a == middle || a == outer
    requires inner.id == outer.id && middle.id != outer.id && Ids(inner) == Ids(outer)
    ensures SameIds(all) && !NotNested(all)
  {
    hide Ids, SubtreesAll;
  }

  function Nested(): seq<GraphNode> {
    var y, w := GraphNode("y", []), GraphNode("w", []);
    [GraphNode("x", [GraphNode("y", [GraphNode("x", [y, w])])])]
  }

  lemma NestedIds(y: GraphNode, w: GraphNode, inner: GraphNode, middle: GraphNode, outer: GraphNode)
    requires y == GraphNode("y", []) && w == GraphNode("w", []) && inner == GraphNode("x", [y, w])
    requires middle == GraphNode("y", [inner]) && outer == GraphNode("x", [middle])
    ensures Ids(inner) == Ids(outer) == IdsAll([outer]) && "w" in Ids(inner)
  {
    assert Ids(y) == {"y"} && Ids(w) == {"w"};
    assert [y, w][1..] == [w] && [w][1..] == [];
    assert IdsAll([w]) == {"w"};
    assert Ids(inner) == {"x", "y", "w"};
    assert [inner][1..] == [] && [middle][1..] == [] && [outer][1..] == [];
    assert IdsAll([inner]) == Ids(inner);
    assert IdsAll([middle]) == Ids(middle);
  }

  lemma NestedSubtrees(y: GraphNode, w: GraphNode, inner: GraphNode, middle: GraphNode, outer: GraphNode)
    requires y == GraphNode("y", []) && w == GraphNode("w", []) && inner == GraphNode("x", [y, w])
    requires middle == GraphNode("y", [inner]) && outer == GraphNode("x", [middle])
    ensures SubtreesAll([middle]) == {y, w, inner, middle} && SubtreesAll([outer]) == {y, w, inner, middle, outer}
  {
    assert Subtrees(y) == {y} && Subtrees(w) == {w};
    assert [y, w][1..] == [w] && [w][1..] == [];
    assert SubtreesAll([w]) == {w};
    assert Subtrees(inner) == {inner, y, w};
    assert [inner][1..] == [] && [middle][1..] == [] && [outer][1..] == [];
    assert SubtreesAll([inner]) == Subtrees(inner);
    assert Subtrees(middle) == {middle, inner, y, w};
    assert SubtreesAll([middle]) == Subtrees(middle);
  }

  lemma NestedRun(y: GraphNode, w: GraphNode, inner: GraphNode, middle: GraphNode, outer: GraphNode)
    requires y == GraphNode("y", []) && w == GraphNode("w", []) && inner == GraphNode("x", [y, w])
    requires middle == GraphNode("y", [inner]) && outer == GraphNode("x", [middle])
    ensures PopulatedAll([outer], map[]) == map["x" := true, "y" := true]
  {
    assert [inner][1..] == [] && [middle][1..] == [] && [outer][1..] == [];
    var x: Dependencies := map["x" := true];
    var both := x["y" := true];
    assert Populated(inner, both) == both;
    assert PopulatedAll([inner], both) == both;
    assert Populated(middle, x) == both;
    assert PopulatedAll([middle], x) == both;
    assert Populated(outer, map[]) == both;
  }
}
