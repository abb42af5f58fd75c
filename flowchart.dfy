/** The node and edge updaters of the FlowChart component (src/FlowChart.tsx).
    The component keeps its own node and edge lists, separate from the store,
    and none of its updaters recomputes activation. */
module FlowChart {
  import opened Types
  import opened Decimal
  import Util
  import Store

  /** The position `{ x: 0, y: 0 }` given to nodes added with the button. */
  const Origin := Position(0.0, 0.0)

  /** The updater of `createOnLabelChange(nodeId)(label)`: only the node with that
      id takes the new label; the list keeps its length and order. */
  function Relabel(nds: seq<Node>, nodeId: string, text: string): (r: seq<Node>)
    ensures |r| == |nds|
    ensures forall i :: 0 <= i < |nds| && nds[i].id != nodeId ==> r[i] == nds[i]
    ensures forall i :: 0 <= i < |nds| && nds[i].id == nodeId ==> r[i] == nds[i].(data := nds[i].data.(caption := text))
  {
    seq(|nds|, i requires 0 <= i < |nds| =>
      if nds[i].id == nodeId then nds[i].(data := nds[i].data.(caption := text)) else nds[i])
  }

  /** Relabelling twice is relabelling once with the later label. */
  lemma RelabelLastWins(nds: seq<Node>, nodeId: string, first: string, second: string)
    ensures Relabel(Relabel(nds, nodeId, first), nodeId, second) == Relabel(nds, nodeId, second)
  {
  }

  /** Relabelling an id that no node carries changes nothing. */
  lemma RelabelAbsentIsNoOp(nds: seq<Node>, nodeId: string, text: string)
    requires !HasNode(nds, nodeId)
    ensures Relabel(nds, nodeId, text) == nds
  {
    forall i | 0 <= i < |nds|
      ensures nds[i].id != nodeId
    {
      assert nds[i] in nds;
    }
  }

  /** The updater of `createOnStatusChange(nodeId)(isComplete)`: only the node with
      that id takes the new completion; its active flag and every other node stay. */
  function SetCompletion(nds: seq<Node>, nodeId: string, isComplete: bool): (r: seq<Node>)
    ensures |r| == |nds|
    ensures forall i :: 0 <= i < |nds| && nds[i].id != nodeId ==> r[i] == nds[i]
    ensures forall i :: 0 <= i < |nds| && nds[i].id == nodeId ==> r[i] == nds[i].(data := nds[i].data.(isComplete := isComplete))
  {
    seq(|nds|, i requires 0 <= i < |nds| =>
      if nds[i].id == nodeId then nds[i].(data := nds[i].data.(isComplete := isComplete)) else nds[i])
  }

  /** The component's status change and the store's part ways on the active flag:
      on an active node, the component keeps `isActive` while the store clears it. */
  lemma StatusChangesDisagree(n: Node, isComplete: bool)
    requires n.data.isActive
    ensures SetCompletion([n], n.id, isComplete)[0].data.isActive
    ensures !Store.SetStatus([n], n.id, isComplete)[0].data.isActive
  {
  }

  /** The updater of `onResetNodeCompletion`: every node becomes incomplete, nothing else changes. */
  function ResetCompletion(nds: seq<Node>): (r: seq<Node>)
    ensures |r| == |nds|
    ensures forall i :: 0 <= i < |nds| ==> !r[i].data.isComplete
    ensures forall i :: 0 <= i < |nds| ==> r[i].id == nds[i].id && r[i].kind == nds[i].kind && r[i].position == nds[i].position
    ensures forall i :: 0 <= i < |nds| ==> r[i].data.caption == nds[i].data.caption && r[i].data.isActive == nds[i].data.isActive
  {
    seq(|nds|, i requires 0 <= i < |nds| => nds[i].(data := nds[i].data.(isComplete := false)))
  }

  lemma ResetIdempotent(nds: seq<Node>)
    ensures ResetCompletion(ResetCompletion(nds)) == ResetCompletion(nds)
  {
  }

  /** A reset erases any earlier status change made through the component. */
  lemma ResetAfterStatusChange(nds: seq<Node>, nodeId: string, isComplete: bool)
    ensures ResetCompletion(SetCompletion(nds, nodeId, isComplete)) == ResetCompletion(nds)
  {
  }

  /** The updater of `onAddNode`: one node is appended with id `${nodes.length + 1}`
      at (0, 0); the existing nodes are kept as they were. */
  function AddNode(nds: seq<Node>): (r: seq<Node>)
    ensures |r| == |nds| + 1 && r[..|nds|] == nds
    ensures r[|nds|].id == NatToString(|nds| + 1) && ParseDecimal(r[|nds|].id) == Some(|nds| + 1)
    ensures r[|nds|].position == Origin && r[|nds|].kind == "appNode"
    ensures r[|nds|].data == NodeData("Node " + NatToString(|nds| + 1), false, false)
  {
    ParseNatToString(|nds| + 1);
    nds + [Util.CreateNode(NatToString(|nds| + 1), Origin)]
  }

  /** The ids `"1"`, `"2"`, ... in list order: what adding nodes to an empty chart yields. */
  predicate DenseIds(nds: seq<Node>)
  {
    forall i :: 0 <= i < |nds| ==> nds[i].id == NatToString(i + 1)
  }

  /** While nodes are only added, the length-based id is fresh and ids stay unique. */
  lemma AddNodeFreshWithoutDeletion(nds: seq<Node>)
    requires DenseIds(nds)
    ensures DenseIds(AddNode(nds)) && UniqueIds(AddNode(nds))
  {
    var r := AddNode(nds);
    forall i, j | 0 <= i < j < |r|
      ensures r[i].id != r[j].id
    {
      NatToStringInjective(i + 1, j + 1);
    }
  }

  /** As written, the length-based id is reused after a deletion: add two nodes,
      delete the first, add another, and two nodes carry the id "2". */
  lemma AddNodeReusesId()
    ensures var two := AddNode(AddNode([]));
      var r := AddNode(two[1..]);
      |r| == 2 && r[0].id == r[1].id == "2" && !UniqueIds(r)
  {
    var one := AddNode([]);
    var two := AddNode(one);
    assert NatToString(2) == "2";
    assert two[1].id == "2";
    var r := AddNode(two[1..]);
    assert r[0] == two[1];
  }

  /** The largest id that reads as a decimal number, or 0. */
  function MaxNumericId(nds: seq<Node>): (m: nat)
    ensures forall i :: 0 <= i < |nds| && ParseDecimal(nds[i].id).Some? ==> ParseDecimal(nds[i].id).value <= m
  {
    if |nds| == 0 then 0
    else
      var rest := MaxNumericId(nds[1..]);
      match ParseDecimal(nds[0].id)
      case Some(v) => if v > rest then v else rest
      case None => rest
  }

  /** One more than the largest numeric id: carried by no node. */
  function FreshNodeId(nds: seq<Node>): (id: string)
    ensures forall n :: n in nds ==> n.id != id
  {
    var m := MaxNumericId(nds);
    ParseNatToString(m + 1);
    NatToString(m + 1)
  }

  /** Adding a node under a fresh id keeps node ids unique. */
  function AddFreshNode(nds: seq<Node>): (r: seq<Node>)
    ensures |r| == |nds| + 1 && r[..|nds|] == nds
    ensures r[|nds|] == Util.CreateNode(FreshNodeId(nds), Origin)
    ensures UniqueIds(nds) ==> UniqueIds(r)
  {
    var id := FreshNodeId(nds);
    assert forall i :: 0 <= i < |nds| ==> nds[i].id != id by {
      forall i | 0 <= i < |nds| ensures nds[i].id != id { assert nds[i] in nds; }
    }
    nds + [Util.CreateNode(id, Origin)]
  }

  /** `onConnectEnd`: a drag released over a node changes nothing; one released over
      empty canvas at `dropAt` appends a node with id `${nodes.length + 1}` and an
      edge, under that same id, from the node the drag started at to the new node. */
  function ConnectEnd(g: Graph, isValid: bool, fromNodeId: string, dropAt: Position): (r: Graph)
    ensures isValid ==> r == g
    ensures !isValid ==>
      var id := NatToString(|g.nodes| + 1);
      && |r.nodes| == |g.nodes| + 1 && r.nodes[..|g.nodes|] == g.nodes
      && r.nodes[|g.nodes|] == Util.CreateNode(id, dropAt)
      && r.nodes[|g.nodes|].id == id && r.nodes[|g.nodes|].position == dropAt && r.nodes[|g.nodes|].kind == "appNode"
      && r.nodes[|g.nodes|].data == NodeData("Node " + id, false, false)
      && r.edges == g.edges + [Edge(id, fromNodeId, id)]
  {
    if isValid then g
    else
      var id := NatToString(|g.nodes| + 1);
      Graph(g.nodes + [Util.CreateNode(id, dropAt)], g.edges + [Edge(id, fromNodeId, id)])
  }

  /** As written, `onConnectEnd` reuses the length-based id after a deletion too:
      with node "2" left from two, a drag to empty canvas adds a second node "2"
      and an edge "2" from the node to itself. */
  lemma ConnectEndReusesId(dropAt: Position)
    ensures var g := Graph(AddNode(AddNode([]))[1..], []);
      var r := ConnectEnd(g, false, "2", dropAt);
      |r.nodes| == 2 && r.nodes[0].id == r.nodes[1].id == "2" && !UniqueIds(r.nodes)
      && r.edges == [Edge("2", "2", "2")]
  {
    var two := AddNode(AddNode([]));
    assert NatToString(2) == "2";
    assert two[1].id == "2";
    var g := Graph(two[1..], []);
    assert |g.nodes| + 1 == 2;
    var r := ConnectEnd(g, false, "2", dropAt);
    assert r.nodes[0] == two[1];
  }

  /** `onConnectEnd` with the fresh id of `AddFreshNode`: node ids stay unique,
      and a drag from an existing node leaves no dangling edge. */
  function ConnectEndFresh(g: Graph, isValid: bool, fromNodeId: string, dropAt: Position): (r: Graph)
    ensures isValid ==> r == g
    ensures !isValid ==>
      var id := FreshNodeId(g.nodes);
      && r.nodes == g.nodes + [Util.CreateNode(id, dropAt)]
      && r.edges == g.edges + [Edge(id, fromNodeId, id)]
    ensures UniqueIds(g.nodes) ==> UniqueIds(r.nodes)
    ensures WellFormed(g) && HasNode(g.nodes, fromNodeId) ==> WellFormed(r)
  {
    if isValid then g
    else
      var id := FreshNodeId(g.nodes);
      var added := Util.CreateNode(id, dropAt);
      var r := Graph(g.nodes + [added], g.edges + [Edge(id, fromNodeId, id)]);
      assert forall i :: 0 <= i < |g.nodes| ==> g.nodes[i].id != id by {
        forall i | 0 <= i < |g.nodes| ensures g.nodes[i].id != id { assert g.nodes[i] in g.nodes; }
      }
      assert added in r.nodes;
      assert forall n :: n in g.nodes ==> n in r.nodes;
      r
  }

  /** Dragging from a node that exists to empty canvas keeps every edge's ends in the graph. */
  lemma ConnectEndKeepsWellFormed(g: Graph, isValid: bool, fromNodeId: string, dropAt: Position)
    requires WellFormed(g) && HasNode(g.nodes, fromNodeId)
    ensures WellFormed(ConnectEnd(g, isValid, fromNodeId, dropAt))
  {
    var r := ConnectEnd(g, isValid, fromNodeId, dropAt);
    if !isValid {
      var added := r.nodes[|g.nodes|];
      assert added in r.nodes;
      forall id | HasNode(g.nodes, id)
        ensures HasNode(r.nodes, id)
      {
        var n :| n in g.nodes && n.id == id;
        assert n in r.nodes;
      }
    }
  }

  /** None of the component's updaters sets an active flag: a chart whose nodes are
      all inactive stays so, whatever is relabelled, completed, reset, added or connected. */
  lemma ChartNeverActivates(nds: seq<Node>, nodeId: string, text: string, isComplete: bool,
                            isValid: bool, fromNodeId: string, dropAt: Position, edges: seq<Edge>)
    requires NoneActive(nds)
    ensures NoneActive(Relabel(nds, nodeId, text))
    ensures NoneActive(SetCompletion(nds, nodeId, isComplete))
    ensures NoneActive(ResetCompletion(nds))
    ensures NoneActive(AddNode(nds))
    ensures NoneActive(ConnectEnd(Graph(nds, edges), isValid, fromNodeId, dropAt).nodes)
  {
    var added := AddNode(nds);
    assert forall i :: 0 <= i < |nds| ==> added[i] == nds[i];
    var connected := ConnectEnd(Graph(nds, edges), isValid, fromNodeId, dropAt).nodes;
    assert forall i :: 0 <= i < |nds| ==> connected[i] == nds[i];
  }

  /** The component's own node and edge state (`useNodesState`, `useEdgesState`). */
  class Chart {
    var nodes: seq<Node>
    var edges: seq<Edge>

    function State(): Graph
      reads this
    {
      Graph(nodes, edges)
    }

    constructor ()
      ensures State() == Graph([], [])
    {
      nodes, edges := [], [];
    }

    method SetNodes(u: Updater<Node>)
      modifies this
      ensures nodes == Updated(u, old(nodes)) && edges == old(edges)
    {
      nodes := Updated(u, nodes);
    }

    method SetEdges(u: Updater<Edge>)
      modifies this
      ensures edges == Updated(u, old(edges)) && nodes == old(nodes)
    {
      edges := Updated(u, edges);
    }

    method OnLabelChange(nodeId: string, text: string)
      modifies this
      ensures State() == Graph(Relabel(old(nodes), nodeId, text), old(edges))
    {
      SetNodes(Apply(nds => Relabel(nds, nodeId, text)));
    }

    method OnStatusChange(nodeId: string, isComplete: bool)
      modifies this
      ensures State() == Graph(SetCompletion(old(nodes), nodeId, isComplete), old(edges))
    {
      SetNodes(Apply(nds => SetCompletion(nds, nodeId, isComplete)));
    }

    method OnResetNodeCompletion()
      modifies this
      ensures State() == Graph(ResetCompletion(old(nodes)), old(edges))
    {
      SetNodes(Apply(ResetCompletion));
    }

    method OnAddNode()
      modifies this
      ensures State() == Graph(AddNode(old(nodes)), old(edges))
    {
      var newNode := Util.CreateNode(NatToString(|nodes| + 1), Origin);
      SetNodes(Apply(nds => nds + [newNode]));
    }

    /** `onConnectEnd`; `dropAt` is the flow position of the pointer where the drag ended. */
    method OnConnectEnd(isValid: bool, fromNodeId: string, dropAt: Position)
      modifies this
      ensures State() == ConnectEnd(old(State()), isValid, fromNodeId, dropAt)
    {
      if !isValid {
        var id := NatToString(|nodes| + 1);
        var newNode := Util.CreateNode(id, dropAt);
        SetNodes(Apply(nds => nds + [newNode]));
        SetEdges(Apply(eds => eds + [Edge(id, fromNodeId, id)]));
      }
    }
  }
}
