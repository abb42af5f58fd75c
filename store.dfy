/** The graph store of src/store.ts: the activation engine, the status change and
    the node deletion with re-linking, and the store object whose `nodes` and
    `edges` every operation overwrites. */
module Store {
  import opened Types

  // ---------------------------------------------------------------------------
  // Activation engine (`updateNodeActiveStatus`)
  // ---------------------------------------------------------------------------

  /** `nodes.find((n) => n.id === key)`: the first node carrying that id. */
  function Find(nodes: seq<Node>, key: string): (r: Option<Node>)
    ensures r.None? <==> !HasNode(nodes, key)
    ensures r.Some? ==> exists i :: 0 <= i < |nodes| && nodes[i] == r.value && r.value.id == key && !HasNode(nodes[..i], key)
  {
    if |nodes| == 0 then None
    else if nodes[0].id == key then (assert nodes[..0] == []; Some(nodes[0]))
    else
      var r := Find(nodes[1..], key);
      assert r.Some? ==> exists i :: 1 <= i <= |nodes[1..]| && nodes[i] == r.value && !HasNode(nodes[..i], key) by {
        if r.Some? {
          var k :| 0 <= k < |nodes[1..]| && nodes[1..][k] == r.value && r.value.id == key && !HasNode(nodes[1..][..k], key);
          assert nodes[..k + 1] == [nodes[0]] + nodes[1..][..k];
        }
      }
      r
  }

  /** The edge's source node exists and is complete (`find(...)?.data.isComplete`). */
  predicate SourceComplete(e: Edge, nodes: seq<Node>)
    ensures SourceComplete(e, nodes) ==> exists n :: n in nodes && n.id == e.source && n.data.isComplete
    ensures !HasNode(nodes, e.source) ==> !SourceComplete(e, nodes)
  {
    var found := Find(nodes, e.source);
    found.Some? && found.value.data.isComplete
  }

  /** `edges.filter((edge) => edge.target === id)` */
  function Incoming(edges: seq<Edge>, id: string): (r: seq<Edge>)
    ensures forall e :: e in r <==> e in edges && e.target == id
    ensures |r| <= |edges|
  {
    if |edges| == 0 then []
    else (if edges[0].target == id then [edges[0]] else []) + Incoming(edges[1..], id)
  }

  /** `dependencies.every(...)`: every listed edge has a complete source node. */
  function AllSourcesComplete(deps: seq<Edge>, nodes: seq<Node>): (r: bool)
    ensures r <==> forall e :: e in deps ==> SourceComplete(e, nodes)
  {
    |deps| == 0 || (SourceComplete(deps[0], nodes) && AllSourcesComplete(deps[1..], nodes))
  }

  /** The per-node step of the `nodes.map(...)`; lookups go to the snapshot `nodes`. */
  function ActivateNode(n: Node, nodes: seq<Node>, edges: seq<Edge>): (r: Node)
    ensures SameExceptActive(n, r)
    ensures n.data.isComplete ==> r == n
    ensures !n.data.isComplete ==> (r.data.isActive <==> forall e :: e in edges && e.target == n.id ==> SourceComplete(e, nodes))
  {
    if n.data.isComplete then n
    else n.(data := n.data.(isActive := AllSourcesComplete(Incoming(edges, n.id), nodes)))
  }

  /** `updateNodeActiveStatus` on a snapshot. A complete node is returned as it was;
      an incomplete node becomes active exactly when every edge into it has a
      source node that exists and is complete. Nothing but `isActive` changes. */
  function Activate(nodes: seq<Node>, edges: seq<Edge>): (r: seq<Node>)
    ensures |r| == |nodes|
    ensures forall i :: 0 <= i < |nodes| ==> SameExceptActive(nodes[i], r[i])
    ensures forall i :: 0 <= i < |nodes| && nodes[i].data.isComplete ==> r[i] == nodes[i]
    ensures forall i :: 0 <= i < |nodes| && !nodes[i].data.isComplete ==>
      (r[i].data.isActive <==> forall e :: e in edges && e.target == nodes[i].id ==> SourceComplete(e, nodes))
  {
    seq(|nodes|, i requires 0 <= i < |nodes| => ActivateNode(nodes[i], nodes, edges))
  }

  /** An incomplete node with no incoming edge is active after recomputation. */
  lemma VacuousActivation(nodes: seq<Node>, edges: seq<Edge>, i: nat)
    requires i < |nodes| && !nodes[i].data.isComplete
    requires forall e :: e in edges ==> e.target != nodes[i].id
    ensures Activate(nodes, edges)[i].data.isActive
  {
  }

  /** An edge whose source node is missing or incomplete blocks its incomplete target. */
  lemma BlockedByMissingOrIncompleteSource(nodes: seq<Node>, edges: seq<Edge>, i: nat, e: Edge)
    requires i < |nodes| && !nodes[i].data.isComplete
    requires e in edges && e.target == nodes[i].id
    requires !HasNode(nodes, e.source) || !Find(nodes, e.source).value.data.isComplete
    ensures !Activate(nodes, edges)[i].data.isActive
  {
    var found := Find(nodes, e.source);
    if found.Some? {
      assert found.value in nodes;
    }
  }

  /** Lookups in two lists that differ only in `isActive` agree on what they find. */
  lemma {:induction false} FindIgnoresActive(a: seq<Node>, b: seq<Node>, key: string)
    requires |a| == |b| && forall i :: 0 <= i < |a| ==> SameExceptActive(a[i], b[i])
    ensures Find(a, key).Some? == Find(b, key).Some?
    ensures Find(a, key).Some? ==> Find(a, key).value.data.isComplete == Find(b, key).value.data.isComplete
  {
    if |a| > 0 {
      assert a[0].id == b[0].id;
      FindIgnoresActive(a[1..], b[1..], key);
    }
  }

  /** Recomputing twice gives what recomputing once gives: the pass reads only
      `isComplete` and ids, which it never writes. */
  lemma {:induction false} ActivateIdempotent(nodes: seq<Node>, edges: seq<Edge>)
    ensures Activate(Activate(nodes, edges), edges) == Activate(nodes, edges)
  {
    var once := Activate(nodes, edges);
    var twice := Activate(once, edges);
    forall e | e in edges
      ensures SourceComplete(e, once) == SourceComplete(e, nodes)
    {
      FindIgnoresActive(once, nodes, e.source);
    }
    forall i | 0 <= i < |nodes|
      ensures twice[i] == once[i]
    {
      if !nodes[i].data.isComplete {
        assert once[i].id == nodes[i].id;
      }
    }
  }

  // ---------------------------------------------------------------------------
  // Status change (`onStatusChange`)
  // ---------------------------------------------------------------------------

  /** The `map` of `onStatusChange`: the node with that id gets the new
      completion and loses its active flag; every other node is kept. */
  function SetStatus(nodes: seq<Node>, nodeId: string, isComplete: bool): (r: seq<Node>)
    ensures |r| == |nodes|
    ensures forall i :: 0 <= i < |nodes| && nodes[i].id != nodeId ==> r[i] == nodes[i]
    ensures forall i :: 0 <= i < |nodes| && nodes[i].id == nodeId ==>
      r[i] == nodes[i].(data := nodes[i].data.(isComplete := isComplete, isActive := false))
  {
    seq(|nodes|, i requires 0 <= i < |nodes| =>
      if nodes[i].id == nodeId then nodes[i].(data := nodes[i].data.(isComplete := isComplete, isActive := false))
      else nodes[i])
  }

  /** `onStatusChange` followed by the recomputation it triggers. */
  function StatusChanged(g: Graph, nodeId: string, isComplete: bool): (r: Graph)
    ensures r.edges == g.edges && |r.nodes| == |g.nodes|
    ensures forall i :: 0 <= i < |g.nodes| ==> r.nodes[i].id == g.nodes[i].id && r.nodes[i].data.caption == g.nodes[i].data.caption
    ensures forall i :: 0 <= i < |g.nodes| && g.nodes[i].id == nodeId ==> r.nodes[i].data.isComplete == isComplete
  {
    Graph(Activate(SetStatus(g.nodes, nodeId, isComplete), g.edges), g.edges)
  }

  /** The matching node takes the new completion; no other node changes anything
      but its active flag; the edges stay; a node just marked complete stays
      inactive, since recomputation skips complete nodes. */
  lemma StatusChangeEffect(g: Graph, nodeId: string, isComplete: bool)
    ensures var r := StatusChanged(g, nodeId, isComplete);
      && r.edges == g.edges && |r.nodes| == |g.nodes|
      && (forall i :: 0 <= i < |g.nodes| && g.nodes[i].id != nodeId ==> SameExceptActive(g.nodes[i], r.nodes[i]))
      && (forall i :: 0 <= i < |g.nodes| && g.nodes[i].id == nodeId ==>
            r.nodes[i].data.isComplete == isComplete && r.nodes[i].data.caption == g.nodes[i].data.caption
            && (isComplete ==> !r.nodes[i].data.isActive))
  {
    var s := SetStatus(g.nodes, nodeId, isComplete);
    forall i | 0 <= i < |g.nodes| && g.nodes[i].id != nodeId
      ensures SameExceptActive(g.nodes[i], StatusChanged(g, nodeId, isComplete).nodes[i])
    {
      assert s[i] == g.nodes[i];
    }
  }

  // ---------------------------------------------------------------------------
  // Node deletion with re-linking (`deleteNode`)
  // ---------------------------------------------------------------------------

  /** `nodes.filter((it) => it.id !== nodeId)` */
  function WithoutNode(nodes: seq<Node>, nodeId: string): (r: seq<Node>)
    ensures forall n :: n in r <==> n in nodes && n.id != nodeId
    ensures |r| <= |nodes|
  {
    if |nodes| == 0 then []
    else (if nodes[0].id != nodeId then [nodes[0]] else []) + WithoutNode(nodes[1..], nodeId)
  }

  /** Filtering out an id no node carries returns the list unchanged. */
  lemma {:induction false} WithoutAbsentNode(nodes: seq<Node>, nodeId: string)
    requires !HasNode(nodes, nodeId)
    ensures WithoutNode(nodes, nodeId) == nodes
  {
    if |nodes| > 0 {
      assert nodes[0] in nodes;
      assert !HasNode(nodes[1..], nodeId) by {
        forall n | n in nodes[1..] ensures n.id != nodeId { assert n in nodes; }
      }
      WithoutAbsentNode(nodes[1..], nodeId);
      assert nodes == [nodes[0]] + nodes[1..];
    }
  }

  /** The filter keeps distinct ids distinct. */
  lemma {:induction false} WithoutNodeUnique(nodes: seq<Node>, nodeId: string)
    requires UniqueIds(nodes)
    ensures UniqueIds(WithoutNode(nodes, nodeId))
  {
    if |nodes| > 0 {
      var rest := WithoutNode(nodes[1..], nodeId);
      WithoutNodeUnique(nodes[1..], nodeId);
      forall n | n in rest ensures n.id != nodes[0].id {
        var j :| 0 <= j < |nodes[1..]| && nodes[1..][j] == n;
        assert nodes[j + 1] == n;
      }
    }
  }

  /** The filter keeps the surviving nodes in their relative order: it distributes over concatenation. */
  lemma {:induction false} WithoutNodeKeepsOrder(a: seq<Node>, b: seq<Node>, nodeId: string)
    ensures WithoutNode(a + b, nodeId) == WithoutNode(a, nodeId) + WithoutNode(b, nodeId)
  {
    if |a| == 0 {
      assert a + b == b;
    } else {
      var head := if a[0].id != nodeId then [a[0]] else [];
      calc {
        WithoutNode(a + b, nodeId);
      == { assert (a + b)[0] == a[0] && (a + b)[1..] == a[1..] + b; }
        head + WithoutNode(a[1..] + b, nodeId);
      == { WithoutNodeKeepsOrder(a[1..], b, nodeId); }
        head + (WithoutNode(a[1..], nodeId) + WithoutNode(b, nodeId));
      ==
        (head + WithoutNode(a[1..], nodeId)) + WithoutNode(b, nodeId);
      }
    }
  }



  /** `edges.filter((it) => it.source === nodeId)` */
  function Outgoing(edges: seq<Edge>, id: string): (r: seq<Edge>)
    ensures forall e :: e in r <==> e in edges && e.source == id
    ensures |r| <= |edges|
  {
    if |edges| == 0 then []
    else (if edges[0].source == id then [edges[0]] else []) + Outgoing(edges[1..], id)
  }

  /** `filteredEdges`: the edges that touch neither end of the deleted node. */
  function Unlinked(edges: seq<Edge>, id: string): (r: seq<Edge>)
    ensures forall e :: e in r <==> e in edges && e.source != id && e.target != id
    ensures |r| <= |edges|
  {
    if |edges| == 0 then []
    else (if edges[0].source != id && edges[0].target != id then [edges[0]] else []) + Unlinked(edges[1..], id)
  }

  /** When no edge touches the id, every edge survives, in place. */
  lemma {:induction false} UnlinkedUntouched(edges: seq<Edge>, id: string)
    requires forall e :: e in edges ==> e.source != id && e.target != id
    ensures Unlinked(edges, id) == edges
  {
    if |edges| > 0 {
      assert edges[0] in edges;
      UnlinkedUntouched(edges[1..], id);
      assert edges == [edges[0]] + edges[1..];
    }
  }

  /** The surviving edges keep their original order: the filter distributes over concatenation. */
  lemma {:induction false} UnlinkedKeepsOrder(a: seq<Edge>, b: seq<Edge>, id: string)
    ensures Unlinked(a + b, id) == Unlinked(a, id) + Unlinked(b, id)
  {
    if |a| == 0 {
      assert a + b == b;
    } else {
      var head := if a[0].source != id && a[0].target != id then [a[0]] else [];
      calc {
        Unlinked(a + b, id);
      == { assert (a + b)[0] == a[0] && (a + b)[1..] == a[1..] + b; }
        head + Unlinked(a[1..] + b, id);
      == { UnlinkedKeepsOrder(a[1..], b, id); }
        head + (Unlinked(a[1..], id) + Unlinked(b, id));
      ==
        (head + Unlinked(a[1..], id)) + Unlinked(b, id);
      }
    }
  }


  /** `map((it) => it.source)` */
  function Sources(edges: seq<Edge>): (r: seq<string>)
    ensures |r| == |edges| && forall k :: 0 <= k < |edges| ==> r[k] == edges[k].source
  {
    seq(|edges|, k requires 0 <= k < |edges| => edges[k].source)
  }

  /** `map((it) => it.target)` */
  function Targets(edges: seq<Edge>): (r: seq<string>)
    ensures |r| == |edges| && forall k :: 0 <= k < |edges| ==> r[k] == edges[k].target
  {
    seq(|edges|, k requires 0 <= k < |edges| => edges[k].target)
  }

  /** `filteredEdges.find(...)`: the first surviving edge with that (source, target) pair. */
  function FindPair(edges: seq<Edge>, source: string, target: string): (r: Option<Edge>)
    ensures r.None? <==> forall e :: e in edges ==> !(e.source == source && e.target == target)
    ensures r.Some? ==> r.value in edges && r.value.source == source && r.value.target == target
  {
    if |edges| == 0 then None
    else if edges[0].source == source && edges[0].target == target then Some(edges[0])
    else FindPair(edges[1..], source, target)
  }

  /** The edges the inner `forEach` pushes for the `i`-th source after visiting
      the first `j` targets. `roll(i, j)` stands for the random id of that pair. */
  function Row(i: nat, source: string, targets: seq<string>, survivors: seq<Edge>,
               roll: (nat, nat) -> string, j: nat): (r: seq<Edge>)
    requires j <= |targets|
    ensures |r| <= j
  {
    if j == 0 then []
    else
      var t := targets[j - 1];
      Row(i, source, targets, survivors, roll, j - 1)
        + (if FindPair(survivors, source, t).None? then [Edge(roll(i, j - 1), source, t)] else [])
  }

  /** The edges the nested `forEach` loops push after visiting the first `i` sources. */
  function Grid(sources: seq<string>, targets: seq<string>, survivors: seq<Edge>,
                roll: (nat, nat) -> string, i: nat): (r: seq<Edge>)
    requires i <= |sources|
    ensures |r| <= i * |targets|
  {
    if i == 0 then []
    else
      var prefix := Grid(sources, targets, survivors, roll, i - 1);
      var row := Row(i - 1, sources[i - 1], targets, survivors, roll, |targets|);
      assert |prefix + row| <= (i - 1) * |targets| + |targets| == i * |targets|;
      prefix + row
  }

  /** Every edge a row pushes leaves its source, enters a listed target, and is covered by no survivor. */
  lemma {:induction false} RowSound(i: nat, source: string, targets: seq<string>, survivors: seq<Edge>,
                                    roll: (nat, nat) -> string, j: nat)
    requires j <= |targets|
    ensures forall e :: e in Row(i, source, targets, survivors, roll, j) ==>
      e.source == source && e.target in targets && FindPair(survivors, source, e.target).None?
  {
    if j > 0 {
      RowSound(i, source, targets, survivors, roll, j - 1);
    }
  }

  /** A row pushes an edge to every visited target that no survivor already reaches. */
  lemma {:induction false} RowComplete(i: nat, source: string, targets: seq<string>, survivors: seq<Edge>,
                                       roll: (nat, nat) -> string, j: nat, b: nat)
    requires b < j <= |targets| && FindPair(survivors, source, targets[b]).None?
    ensures exists e :: e in Row(i, source, targets, survivors, roll, j) && e.source == source && e.target == targets[b]
  {
    var row := Row(i, source, targets, survivors, roll, j);
    if b < j - 1 {
      RowComplete(i, source, targets, survivors, roll, j - 1, b);
      var e :| e in Row(i, source, targets, survivors, roll, j - 1) && e.source == source && e.target == targets[b];
      assert e in row;
    } else {
      assert row[|row| - 1] == Edge(roll(i, b), source, targets[b]);
    }
  }

  lemma {:induction false} GridSound(sources: seq<string>, targets: seq<string>, survivors: seq<Edge>,
                                     roll: (nat, nat) -> string, i: nat)
    requires i <= |sources|
    ensures forall e :: e in Grid(sources, targets, survivors, roll, i) ==>
      e.source in sources && e.target in targets && FindPair(survivors, e.source, e.target).None?
  {
    if i > 0 {
      var prefix := Grid(sources, targets, survivors, roll, i - 1);
      var row := Row(i - 1, sources[i - 1], targets, survivors, roll, |targets|);
      GridSound(sources, targets, survivors, roll, i - 1);
      RowSound(i - 1, sources[i - 1], targets, survivors, roll, |targets|);
      assert Grid(sources, targets, survivors, roll, i) == prefix + row;
      assert sources[i - 1] in sources;
    }
  }

  lemma {:induction false} GridComplete(sources: seq<string>, targets: seq<string>, survivors: seq<Edge>,
                                        roll: (nat, nat) -> string, i: nat, a: nat, b: nat)
    requires a < i <= |sources| && b < |targets|
    requires FindPair(survivors, sources[a], targets[b]).None?
    ensures exists e :: e in Grid(sources, targets, survivors, roll, i) && e.source == sources[a] && e.target == targets[b]
  {
    var grid := Grid(sources, targets, survivors, roll, i);
    if a < i - 1 {
      GridComplete(sources, targets, survivors, roll, i - 1, a, b);
      var e :| e in Grid(sources, targets, survivors, roll, i - 1) && e.source == sources[a] && e.target == targets[b];
      assert e in grid;
    } else {
      RowComplete(a, sources[a], targets, survivors, roll, |targets|, b);
      var e :| e in Row(a, sources[a], targets, survivors, roll, |targets|) && e.source == sources[a] && e.target == targets[b];
      assert e in grid;
    }
  }

  /** The nested `forEach` loops of `deleteNode`: for each upstream source and
      each downstream target, in order, push an edge with the random id
      `roll(i, j)` unless a surviving edge already joins the pair. */
  method RelinkEdges(allSourceNodes: seq<string>, allTargetNodes: seq<string>, filteredEdges: seq<Edge>,
                     roll: (nat, nat) -> string) returns (edgesToAdd: seq<Edge>)
    ensures edgesToAdd == Grid(allSourceNodes, allTargetNodes, filteredEdges, roll, |allSourceNodes|)
  {
    edgesToAdd := [];
    var i := 0;
    while i < |allSourceNodes|
      invariant 0 <= i <= |allSourceNodes|
      invariant edgesToAdd == Grid(allSourceNodes, allTargetNodes, filteredEdges, roll, i)
    {
      var sourceNode := allSourceNodes[i];
      ghost var before := edgesToAdd;
      var j := 0;
      while j < |allTargetNodes|
        invariant 0 <= j <= |allTargetNodes|
        invariant edgesToAdd == before + Row(i, sourceNode, allTargetNodes, filteredEdges, roll, j)
      {
        var edge := Edge(roll(i, j), sourceNode, allTargetNodes[j]);
        var dupeEdge := FindPair(filteredEdges, edge.source, edge.target);
        if dupeEdge.None? {
          edgesToAdd := edgesToAdd + [edge];
        }
        j := j + 1;
      }
      i := i + 1;
    }
  }

  /** `edgesToAdd`: one edge per (upstream source, downstream target) pair that no surviving edge covers. */
  function Relinked(edges: seq<Edge>, nodeId: string, roll: (nat, nat) -> string): (r: seq<Edge>)
    ensures forall e :: e in r ==> FindPair(Unlinked(edges, nodeId), e.source, e.target).None?
  {
    var sources := Sources(Incoming(edges, nodeId));
    GridSound(sources, Targets(Outgoing(edges, nodeId)), Unlinked(edges, nodeId), roll, |sources|);
    Grid(sources, Targets(Outgoing(edges, nodeId)), Unlinked(edges, nodeId), roll, |sources|)
  }

  /** `[...filteredEdges, ...edgesToAdd]` */
  function DeletedEdges(edges: seq<Edge>, nodeId: string, roll: (nat, nat) -> string): (r: seq<Edge>)
    ensures forall e :: e in edges && e.source != nodeId && e.target != nodeId ==> e in r
    ensures forall e :: e in r && e !in edges ==> FindPair(Unlinked(edges, nodeId), e.source, e.target).None?
  {
    Unlinked(edges, nodeId) + Relinked(edges, nodeId, roll)
  }

  /** `deleteNode` followed by the recomputation it triggers. */
  function Deleted(g: Graph, nodeId: string, roll: (nat, nat) -> string): (r: Graph)
    ensures forall n :: n in r.nodes ==> n.id != nodeId
    ensures |r.nodes| <= |g.nodes|
  {
    var edges := DeletedEdges(g.edges, nodeId, roll);
    var kept := WithoutNode(g.nodes, nodeId);
    var nodes := Activate(kept, edges);
    assert forall n :: n in nodes ==> n.id != nodeId by {
      forall n | n in nodes ensures n.id != nodeId {
        var i :| 0 <= i < |nodes| && nodes[i] == n;
        assert kept[i] in kept;
      }
    }
    Graph(nodes, edges)
  }

  /** Each synthesized edge joins the source of an edge into the deleted node to
      the target of an edge out of it, and repeats the pair of no survivor. */
  lemma RelinkedSound(edges: seq<Edge>, nodeId: string, roll: (nat, nat) -> string)
    ensures forall e :: e in Relinked(edges, nodeId, roll) ==>
      && (exists a :: a in edges && a.target == nodeId && a.source == e.source)
      && (exists b :: b in edges && b.source == nodeId && b.target == e.target)
      && (forall f :: f in Unlinked(edges, nodeId) ==> !(f.source == e.source && f.target == e.target))
  {
    var inc := Incoming(edges, nodeId);
    var out := Outgoing(edges, nodeId);
    var sources := Sources(inc);
    var targets := Targets(out);
    GridSound(sources, targets, Unlinked(edges, nodeId), roll, |sources|);
    forall e | e in Relinked(edges, nodeId, roll)
      ensures (exists a :: a in edges && a.target == nodeId && a.source == e.source)
           && (exists b :: b in edges && b.source == nodeId && b.target == e.target)
    {
      var x :| 0 <= x < |sources| && sources[x] == e.source;
      assert inc[x] in inc;
      var y :| 0 <= y < |targets| && targets[y] == e.target;
      assert out[y] in out;
    }
  }

  /** No node with the id survives; the other nodes survive, with only their active flag recomputed. */
  lemma DeleteRemovesNode(g: Graph, nodeId: string, roll: (nat, nat) -> string)
    ensures var r := Deleted(g, nodeId, roll);
      && !HasNode(r.nodes, nodeId)
      && |r.nodes| == |WithoutNode(g.nodes, nodeId)|
      && forall i :: 0 <= i < |r.nodes| ==> SameExceptActive(WithoutNode(g.nodes, nodeId)[i], r.nodes[i])
  {
    var kept := WithoutNode(g.nodes, nodeId);
    var r := Deleted(g, nodeId, roll);
    forall n | n in r.nodes
      ensures n.id != nodeId
    {
      var i :| 0 <= i < |r.nodes| && r.nodes[i] == n;
      assert kept[i] in kept;
    }
  }

  /** The new edge list is every edge not touching the node, in order, followed
      only by synthesized edges: each joins the source of an edge into the node
      to the target of an edge out of it, and none repeats the pair of a survivor. */
  lemma DeletedEdgesShape(edges: seq<Edge>, nodeId: string, roll: (nat, nat) -> string)
    ensures var r := DeletedEdges(edges, nodeId, roll);
      var survivors := Unlinked(edges, nodeId);
      && r[..|survivors|] == survivors
      && forall k :: |survivors| <= k < |r| ==>
           (exists a :: a in edges && a.target == nodeId && a.source == r[k].source)
           && (exists b :: b in edges && b.source == nodeId && b.target == r[k].target)
           && (forall f :: f in survivors ==> !(f.source == r[k].source && f.target == r[k].target))
  {
    var r := DeletedEdges(edges, nodeId, roll);
    var survivors := Unlinked(edges, nodeId);
    RelinkedSound(edges, nodeId, roll);
    forall k | |survivors| <= k < |r|
      ensures r[k] in Relinked(edges, nodeId, roll)
    {
      assert r[k] == Relinked(edges, nodeId, roll)[k - |survivors|];
    }
  }

  /** Every upstream source of the deleted node ends up with an edge to every downstream target. */
  lemma DeleteRelinks(edges: seq<Edge>, nodeId: string, roll: (nat, nat) -> string, a: Edge, b: Edge)
    requires a in edges && a.target == nodeId
    requires b in edges && b.source == nodeId
    ensures exists e :: e in DeletedEdges(edges, nodeId, roll) && e.source == a.source && e.target == b.target
  {
    var survivors := Unlinked(edges, nodeId);
    var inc := Incoming(edges, nodeId);
    var out := Outgoing(edges, nodeId);
    var sources := Sources(inc);
    var targets := Targets(out);
    var x :| 0 <= x < |inc| && inc[x] == a;
    var y :| 0 <= y < |out| && out[y] == b;
    var found := FindPair(survivors, a.source, b.target);
    if found.Some? {
      assert found.value in DeletedEdges(edges, nodeId, roll);
    } else {
      GridComplete(sources, targets, survivors, roll, |sources|, x, y);
      var e :| e in Relinked(edges, nodeId, roll) && e.source == a.source && e.target == b.target;
      assert e in DeletedEdges(edges, nodeId, roll);
    }
  }

  /** Without an edge from the node to itself, no edge of the result touches the deleted node. */
  lemma DeleteDetachesNode(edges: seq<Edge>, nodeId: string, roll: (nat, nat) -> string)
    requires forall e :: e in edges ==> !(e.source == nodeId && e.target == nodeId)
    ensures forall e :: e in DeletedEdges(edges, nodeId, roll) ==> e.source != nodeId && e.target != nodeId
  {
    RelinkedSound(edges, nodeId, roll);
  }

  /** A well-formed graph with no self-loop on the deleted node stays well-formed. */
  lemma DeleteKeepsWellFormed(g: Graph, nodeId: string, roll: (nat, nat) -> string)
    requires WellFormed(g)
    requires forall e :: e in g.edges ==> !(e.source == nodeId && e.target == nodeId)
    ensures WellFormed(Deleted(g, nodeId, roll))
  {
    var r := Deleted(g, nodeId, roll);
    RelinkedSound(g.edges, nodeId, roll);
    DeleteDetachesNode(g.edges, nodeId, roll);
    KeptNodesSurvive(g, r.edges, nodeId);
  }

  /** Every id other than the deleted one is still carried by a node after deletion. */
  lemma KeptNodesSurvive(g: Graph, edges: seq<Edge>, nodeId: string)
    ensures forall id :: id != nodeId && HasNode(g.nodes, id) ==> HasNode(Activate(WithoutNode(g.nodes, nodeId), edges), id)
  {
    var kept := WithoutNode(g.nodes, nodeId);
    var after := Activate(kept, edges);
    forall id | id != nodeId && HasNode(g.nodes, id)
      ensures HasNode(after, id)
    {
      var n :| n in g.nodes && n.id == id;
      assert n in kept;
      var i :| 0 <= i < |kept| && kept[i] == n;
      assert after[i] in after;
    }
  }

  /** Deleting an id that no node and no edge carries changes nothing before recomputation. */
  lemma DeleteAbsentIsNoOp(g: Graph, nodeId: string, roll: (nat, nat) -> string)
    requires !HasNode(g.nodes, nodeId)
    requires forall e :: e in g.edges ==> e.source != nodeId && e.target != nodeId
    ensures DeletedEdges(g.edges, nodeId, roll) == g.edges
    ensures Deleted(g, nodeId, roll) == Graph(Activate(g.nodes, g.edges), g.edges)
  {
    WithoutAbsentNode(g.nodes, nodeId);
    UnlinkedUntouched(g.edges, nodeId);
  }

  /** Deletion and the recomputation after it keep node ids unique. */
  lemma DeletePreservesUniqueIds(g: Graph, nodeId: string, roll: (nat, nat) -> string)
    requires UniqueIds(g.nodes)
    ensures UniqueIds(Deleted(g, nodeId, roll).nodes)
  {
    WithoutNodeUnique(g.nodes, nodeId);
  }

  /** Synthesized edges are not deduplicated among themselves: two parallel
      edges into the deleted node give two edges with the same pair. */
  lemma ParallelEdgesRepeatPair(roll: (nat, nat) -> string)
    ensures var edges := [Edge("e1", "a", "x"), Edge("e2", "a", "x"), Edge("e3", "x", "b")];
      var r := DeletedEdges(edges, "x", roll);
      |r| == 2 && r[0].source == r[1].source == "a" && r[0].target == r[1].target == "b"
  {
    var edges := [Edge("e1", "a", "x"), Edge("e2", "a", "x"), Edge("e3", "x", "b")];
    assert Incoming(edges, "x") == [edges[0], edges[1]];
    assert Outgoing(edges, "x") == [edges[2]];
    assert Unlinked(edges, "x") == [];
    var sources := Sources([edges[0], edges[1]]);
    var targets := Targets([edges[2]]);
    assert sources == ["a", "a"];
    assert targets == ["b"];
    assert FindPair([], "a", "b") == None;
    assert Row(0, "a", targets, [], roll, 1) == [Edge(roll(0, 0), "a", "b")];
    assert Row(1, "a", targets, [], roll, 1) == [Edge(roll(1, 0), "a", "b")];
    assert sources[0] == "a" && sources[1] == "a" && |targets| == 1;
    assert Grid(sources, targets, [], roll, 1) == [Edge(roll(0, 0), "a", "b")];
    assert Grid(sources, targets, [], roll, 2) == [Edge(roll(0, 0), "a", "b"), Edge(roll(1, 0), "a", "b")];
  }

  /** As written, a self-loop on the deleted node re-creates an edge from and to
      the deleted id: a one-node graph with a self-loop loses its node and keeps
      a dangling edge. */
  lemma SelfLoopLeavesDangling(roll: (nat, nat) -> string)
    ensures var g := Graph([Node("A", "appNode", Position(0.0, 0.0), NodeData("Node A", false, false))],
                           [Edge("e", "A", "A")]);
      WellFormed(g) && !WellFormed(Deleted(g, "A", roll))
  {
    var n := Node("A", "appNode", Position(0.0, 0.0), NodeData("Node A", false, false));
    var g := Graph([n], [Edge("e", "A", "A")]);
    assert HasNode(g.nodes, "A") by { assert g.nodes[0] == n; }
    var r := Deleted(g, "A", roll);
    assert WithoutNode(g.nodes, "A") == [];
    assert Incoming(g.edges, "A") == g.edges;
    assert Outgoing(g.edges, "A") == g.edges;
    assert Unlinked(g.edges, "A") == [];
    assert Sources(g.edges) == ["A"];
    assert Targets(g.edges) == ["A"];
    assert FindPair([], "A", "A") == None;
    assert Row(0, "A", ["A"], [], roll, 1) == [Edge(roll(0, 0), "A", "A")];
    assert r.edges == [Edge(roll(0, 0), "A", "A")];
    assert r.edges[0] in r.edges;
  }

  /** `ids` without the deleted id. */
  function WithoutId(ids: seq<string>, nodeId: string): (r: seq<string>)
    ensures forall s :: s in r <==> s in ids && s != nodeId
    ensures multiset(r) <= multiset(ids)
  {
    if |ids| == 0 then []
    else
      assert ids == [ids[0]] + ids[1..];
      (if ids[0] != nodeId then [ids[0]] else []) + WithoutId(ids[1..], nodeId)
  }

  /** Re-linking that leaves the deleted id out of the pairs it joins. */
  function DeletedEdgesFixed(edges: seq<Edge>, nodeId: string, roll: (nat, nat) -> string): (r: seq<Edge>)
    ensures forall e :: e in edges && e.source != nodeId && e.target != nodeId ==> e in r
    ensures forall e :: e in r ==> e.source != nodeId && e.target != nodeId
  {
    var sources := WithoutId(Sources(Incoming(edges, nodeId)), nodeId);
    var targets := WithoutId(Targets(Outgoing(edges, nodeId)), nodeId);
    GridSound(sources, targets, Unlinked(edges, nodeId), roll, |sources|);
    Unlinked(edges, nodeId) + Grid(sources, targets, Unlinked(edges, nodeId), roll, |sources|)
  }

  function DeletedFixed(g: Graph, nodeId: string, roll: (nat, nat) -> string): (r: Graph)
    ensures forall n :: n in r.nodes ==> n.id != nodeId
    ensures forall e :: e in r.edges ==> e.source != nodeId && e.target != nodeId
  {
    var edges := DeletedEdgesFixed(g.edges, nodeId, roll);
    var kept := WithoutNode(g.nodes, nodeId);
    var nodes := Activate(kept, edges);
    assert forall n :: n in nodes ==> n.id != nodeId by {
      forall n | n in nodes ensures n.id != nodeId {
        var i :| 0 <= i < |nodes| && nodes[i] == n;
        assert kept[i] in kept;
      }
    }
    Graph(nodes, edges)
  }

  /** The corrected deletion keeps every well-formed graph well-formed, self-loops included. */
  lemma DeleteFixedKeepsWellFormed(g: Graph, nodeId: string, roll: (nat, nat) -> string)
    requires WellFormed(g)
    ensures WellFormed(DeletedFixed(g, nodeId, roll))
  {
    var r := DeletedFixed(g, nodeId, roll);
    var survivors := Unlinked(g.edges, nodeId);
    var inc := Incoming(g.edges, nodeId);
    var out := Outgoing(g.edges, nodeId);
    var sources := WithoutId(Sources(inc), nodeId);
    var targets := WithoutId(Targets(out), nodeId);
    var grid := Grid(sources, targets, survivors, roll, |sources|);
    GridSound(sources, targets, survivors, roll, |sources|);
    KeptNodesSurvive(g, r.edges, nodeId);
    forall e | e in grid
      ensures HasNode(g.nodes, e.source) && HasNode(g.nodes, e.target)
    {
      var x :| 0 <= x < |inc| && Sources(inc)[x] == e.source;
      assert inc[x] in inc;
      var y :| 0 <= y < |out| && Targets(out)[y] == e.target;
      assert out[y] in out;
    }
  }

  /** The corrected deletion still joins every upstream source other than the
      deleted node to every downstream target other than it. */
  lemma DeleteFixedRelinks(edges: seq<Edge>, nodeId: string, roll: (nat, nat) -> string, a: Edge, b: Edge)
    requires a in edges && a.target == nodeId && a.source != nodeId
    requires b in edges && b.source == nodeId && b.target != nodeId
    ensures exists e :: e in DeletedEdgesFixed(edges, nodeId, roll) && e.source == a.source && e.target == b.target
  {
    var r := DeletedEdgesFixed(edges, nodeId, roll);
    var survivors := Unlinked(edges, nodeId);
    var inc := Incoming(edges, nodeId);
    var out := Outgoing(edges, nodeId);
    var sources := WithoutId(Sources(inc), nodeId);
    var targets := WithoutId(Targets(out), nodeId);
    var x :| 0 <= x < |inc| && inc[x] == a;
    assert Sources(inc)[x] == a.source;
    var y :| 0 <= y < |out| && out[y] == b;
    assert Targets(out)[y] == b.target;
    assert Sources(inc)[x] in Sources(inc) && Targets(out)[y] in Targets(out);
    assert a.source in sources && b.target in targets;
    var i :| 0 <= i < |sources| && sources[i] == a.source;
    var j :| 0 <= j < |targets| && targets[j] == b.target;
    var found := FindPair(survivors, a.source, b.target);
    if found.Some? {
      assert found.value in r;
    } else {
      GridComplete(sources, targets, survivors, roll, |sources|, i, j);
      var e :| e in Grid(sources, targets, survivors, roll, |sources|) && e.source == a.source && e.target == b.target;
      assert e in r;
    }
  }

  /** The corrected deletion keeps node ids unique too. */
  lemma DeleteFixedPreservesUniqueIds(g: Graph, nodeId: string, roll: (nat, nat) -> string)
    requires UniqueIds(g.nodes)
    ensures UniqueIds(DeletedFixed(g, nodeId, roll).nodes)
  {
    WithoutNodeUnique(g.nodes, nodeId);
  }

  // ---------------------------------------------------------------------------
  // The store object
  // ---------------------------------------------------------------------------

  /** The zustand store: its `nodes` and `edges` fields, overwritten by every operation. */
  class AppStore {
    var nodes: seq<Node>
    var edges: seq<Edge>

    function State(): Graph
      reads this
    {
      Graph(nodes, edges)
    }

    constructor ()
      ensures State() == Graph([], [])
    {
      nodes, edges := [], [];
    }

    method UpdateNodeActiveStatus()
      modifies this
      ensures nodes == Activate(old(nodes), old(edges)) && edges == old(edges)
    {
      nodes := Activate(nodes, edges);
    }

    /** `onNodesChange`: the renderer's `applyNodeChanges` result is the parameter `changed`. */
    method OnNodesChange(changed: seq<Node>)
      modifies this
      ensures nodes == Activate(changed, old(edges)) && edges == old(edges)
    {
      nodes := changed;
      UpdateNodeActiveStatus();
    }

    /** `onEdgesChange`: the renderer's `applyEdgeChanges` result is the parameter `changed`. */
    method OnEdgesChange(changed: seq<Edge>)
      modifies this
      ensures nodes == Activate(old(nodes), changed) && edges == changed
    {
      edges := changed;
      UpdateNodeActiveStatus();
    }

    /** `onConnect`: the renderer's `addEdge` result is the parameter `connected`. */
    method OnConnect(connected: seq<Edge>)
      modifies this
      ensures nodes == Activate(old(nodes), connected) && edges == connected
    {
      edges := connected;
      UpdateNodeActiveStatus();
    }

    /** `setNodes`: replaces the nodes without recomputing activation. */
    method SetNodes(u: Updater<Node>)
      modifies this
      ensures nodes == Updated(u, old(nodes)) && edges == old(edges)
    {
      nodes := Updated(u, nodes);
    }

    /** `setEdges`: replaces the edges without recomputing activation. */
    method SetEdges(u: Updater<Edge>)
      modifies this
      ensures edges == Updated(u, old(edges)) && nodes == old(nodes)
    {
      edges := Updated(u, edges);
    }

    method OnStatusChange(nodeId: string, isComplete: bool)
      modifies this
      ensures State() == StatusChanged(old(State()), nodeId, isComplete)
    {
      nodes := SetStatus(nodes, nodeId, isComplete);
      UpdateNodeActiveStatus();
    }

    /** `deleteNode`: filter the nodes, split the edges, push the re-linking
        edges, and recompute activation. */
    method DeleteNode(nodeId: string, roll: (nat, nat) -> string)
      modifies this
      ensures State() == Deleted(old(State()), nodeId, roll)
    {
      var newNodes := WithoutNode(nodes, nodeId);
      var allSourceNodes := Sources(Incoming(edges, nodeId));
      var allTargetNodes := Targets(Outgoing(edges, nodeId));
      var filteredEdges := Unlinked(edges, nodeId);
      var edgesToAdd := RelinkEdges(allSourceNodes, allTargetNodes, filteredEdges, roll);
      nodes, edges := newNodes, filteredEdges + edgesToAdd;
      UpdateNodeActiveStatus();
    }
  }
}
