# Work-order dependency graph: a Dafny model

This project models the core of a node-graph workflow editor. Users create
work-order nodes, link them with directed dependency edges, label them and
mark them complete. The model covers two parts:

- **The graph store** (`src/store.ts`, module `Store`). It holds `nodes` and
  `edges`. Its activation engine (`updateNodeActiveStatus`) recomputes every
  incomplete node's `isActive` flag: a node is active exactly when every edge
  into it comes from a node that exists and is complete. Its status change
  resets the node's flag and then recomputes. Its node deletion drops every
  edge touching the node and re-links each upstream source to each downstream
  target, skipping pairs that a surviving edge already joins.
- **The flow chart component** (`src/FlowChart.tsx`, module `FlowChart`). It
  keeps its own node and edge lists and never calls the store. Its updaters
  relabel a node, set a node's completion, reset all completion, add a node
  with id `nodes.length + 1`, and, when a connection drag ends over empty
  canvas, add a node together with an edge to it.

The data types of `src/types.ts` are in module `Types`. The node constructor
of `src/util.ts` is `Util.CreateNode`. Module `Decimal` renders `${n}` for a
natural number and parses it back. A node's `type` field is called `kind`, and
its `label` is called `caption`, because both words are Dafny keywords.

Pure updaters (the `map`, `filter`, `every` and `concat` expressions) are
functions over sequences. The store and the component are classes whose
`nodes`/`edges` fields the methods reassign. Each method's `ensures` ties the
new state to those functions. The nested `forEach` loops of `deleteNode` are the
method `Store.RelinkEdges`, proved against the function `Store.Grid`.

The model follows the code in these behaviours:

- A complete node keeps whatever `isActive` it had, even with no incoming
  edge. Only incomplete nodes are recomputed.
- The flow chart component never recomputes activation after a mutation.
  `FlowChart.ChartNeverActivates` shows that its nodes stay inactive.
- New node ids, in both `onAddNode` and `onConnectEnd`, are `nodes.length + 1`, which is not fresh after a deletion.
  See the findings below.
- No core operation is meant to produce a dangling edge, yet deleting a node
  with a self-loop leaves one. See the findings below.

The flow chart's own `createNode` (src/FlowChart.tsx:71-86) builds the same
node as `src/util.ts`, apart from the callbacks it stores in the node data. It
also leaves `isActive` undefined, which reads as `false`. The model uses
`Util.CreateNode` for both.

## Model

| member | source | states |
|---|---|---|
| Types.Updated | src/store.ts:54-64 | a list argument replaces the current list; a function argument is applied to the current list |
| Util.CreateNode | src/util.ts:3-16 | the new node has the given id and position, type `appNode`, label `"Node " + id`, and is neither complete nor active |
| Decimal.NatToString | src/FlowChart.tsx:99 | `${n}` is a non-empty string of digits, with one digit exactly when n < 10, and a leading `0` only for 0 |
| Decimal.ParseNatToString | src/FlowChart.tsx:148 | parsing the decimal rendering of n gives back n |
| Decimal.NatToStringInjective | src/FlowChart.tsx:99 | distinct list lengths give distinct ids |
| Store.Find | src/store.ts:21 | `find` returns nothing exactly when no node has the id; otherwise it returns the first node with that id |
| Store.SourceComplete | src/store.ts:21 | an edge's source counts as complete only when a node with that id exists and is complete; a missing source never counts |
| Store.Incoming | src/store.ts:19 | the dependencies of a node are exactly the edges whose target is its id, and there are no more of them than edges |
| Store.ActivateNode | src/store.ts:16-28 | only `isActive` may change; a complete node is returned unchanged; an incomplete node is active iff every edge into it has a complete source |
| Store.AllSourcesComplete | src/store.ts:20-22 | `every` holds exactly when each dependency's source node is found and is complete |
| Store.Activate | src/store.ts:14-31 | same length and order; only `isActive` may change; complete nodes are returned unchanged; an incomplete node is active iff every edge into it has a source node that exists and is complete |
| Store.VacuousActivation | src/store.ts:19-20 | an incomplete node with no incoming edge becomes active |
| Store.BlockedByMissingOrIncompleteSource | src/store.ts:19-22 | an incoming edge whose source is missing, or whose first node with the source id is incomplete, makes an incomplete node inactive |
| Store.FindIgnoresActive | src/store.ts:21 | lists that differ only in active flags find the same nodes, with the same completion |
| Store.ActivateIdempotent | src/store.ts:14-31 | recomputing activation twice gives the same nodes as recomputing once |
| Store.SetStatus | src/store.ts:67-73 | the node with the id gets the new completion and `isActive = false`; every other node is unchanged |
| Store.StatusChanged | src/store.ts:66-75 | a status change keeps the edges, the node count, every id and every label, and gives each node with the id the new completion |
| Store.StatusChangeEffect | src/store.ts:66-75 | after a status change and recomputation, the edges are unchanged; other nodes change only their active flag; the node takes the new completion and keeps its label; a node just marked complete stays inactive |
| Store.WithoutNode | src/store.ts:80 | the remaining nodes are exactly the nodes whose id differs from the deleted id, and there are no more of them than before |
| Store.WithoutAbsentNode | src/store.ts:80 | removing an id that no node carries leaves the node list unchanged |
| Store.WithoutNodeKeepsOrder | src/store.ts:80 | the node filter distributes over concatenation, so the remaining nodes keep their relative order |
| Store.WithoutNodeUnique | src/store.ts:80 | filtering out a node keeps the remaining ids unique |
| Store.Outgoing | src/store.ts:89 | the outgoing edges are exactly the edges whose source is the deleted id, and there are no more of them than edges |
| Store.Unlinked | src/store.ts:92-94 | the surviving edges are exactly the edges touching neither end of the deleted id, and there are no more of them than edges |
| Store.UnlinkedUntouched | src/store.ts:92-94 | when no edge touches the id, every edge survives, in place |
| Store.UnlinkedKeepsOrder | src/store.ts:92-94 | the edge filter distributes over concatenation, so the survivors keep their original order |
| Store.Sources | src/store.ts:87 | the k-th upstream id is the source of the k-th incoming edge |
| Store.Targets | src/store.ts:90 | the k-th downstream id is the target of the k-th outgoing edge |
| Store.FindPair | src/store.ts:105-107 | the duplicate lookup finds an edge exactly when some survivor joins the same source and target |
| Store.Row | src/store.ts:97-112 | after visiting j targets, one source has pushed at most j edges |
| Store.Grid | src/store.ts:96-113 | after visiting i sources, at most |targets| edges per visited source have been pushed (`|r| <= i * |targets|`) |
| Store.RowSound | src/store.ts:97-112 | every edge pushed for one source leaves that source, enters a listed target, and repeats no survivor's pair |
| Store.RowComplete | src/store.ts:97-112 | for one source, an edge is pushed to every visited target that no survivor already reaches |
| Store.GridSound | src/store.ts:96-113 | every pushed edge joins a listed source to a listed target that no survivor already joins |
| Store.GridComplete | src/store.ts:96-113 | every (source, target) pair that no survivor joins gets a pushed edge |
| Store.RelinkEdges | src/store.ts:96-113 | the nested loops push, in loop order, exactly the edges that the re-linking specification gives |
| Store.Relinked | src/store.ts:84-113 | no synthesized edge repeats the pair of a surviving edge |
| Store.DeletedEdges | src/store.ts:92-115 | every edge touching neither end of the deleted id is kept; every added edge repeats no survivor's pair |
| Store.Deleted | src/store.ts:77-131 | after deletion and recomputation no node carries the id, and there are no more nodes than before |
| Store.RelinkedSound | src/store.ts:86-113 | each synthesized edge runs from the source of an edge into the deleted node to the target of an edge out of it, and repeats the pair of no surviving edge |
| Store.DeleteRemovesNode | src/store.ts:80 | after deletion no node carries the id; the other nodes remain in order and change only their active flag |
| Store.DeletedEdgesShape | src/store.ts:92-115 | the new edge list is the surviving edges in original order, followed only by synthesized edges that join an upstream source to a downstream target and repeat no survivor's pair |
| Store.DeleteRelinks | src/store.ts:86-115 | for every edge s→id and every edge id→t, the result has an edge s→t |
| Store.DeleteDetachesNode | src/store.ts:86-115 | without a self-loop on the deleted node, no remaining edge touches its id |
| Store.KeptNodesSurvive | src/store.ts:80 | every id other than the deleted one is still carried by a node afterwards |
| Store.DeleteKeepsWellFormed | src/store.ts:77-131 | a graph with no dangling edges and no self-loop on the deleted node still has no dangling edges afterwards |
| Store.DeleteAbsentIsNoOp | src/store.ts:80-115 | deleting an id that no node or edge carries leaves nodes and edges unchanged before recomputation |
| Store.DeletePreservesUniqueIds | src/store.ts:77-131 | deleting a node and recomputing activation keeps node ids unique |
| Store.ParallelEdgesRepeatPair | src/store.ts:96-113 | two parallel edges into the deleted node yield two synthesized edges with the same pair |
| Store.SelfLoopLeavesDangling | src/store.ts:86-115 | deleting the only node, which has a self-loop, leaves an edge from and to the deleted id |
| Store.WithoutId | src/store.ts:86-115 | the corrected re-linking drops exactly the deleted id from the upstream and downstream ids |
| Store.DeletedEdgesFixed | src/store.ts:86-115 | the corrected edge list keeps every edge that touches neither end of the deleted id, and no edge in it touches that id |
| Store.DeletedFixed | src/store.ts:77-131 | after the corrected deletion no node carries the id and no edge touches it |
| Store.DeleteFixedKeepsWellFormed | src/store.ts:86-115 | with the deleted id left out of the re-linked pairs, a graph without dangling edges keeps none |
| Store.DeleteFixedRelinks | src/store.ts:86-115 | the corrected deletion still links every other upstream source to every other downstream target |
| Store.DeleteFixedPreservesUniqueIds | src/store.ts:77-131 | the corrected deletion keeps node ids unique |
| Store.AppStore.constructor | src/store.ts:12-13 | the store starts with no nodes and no edges |
| Store.AppStore.UpdateNodeActiveStatus | src/store.ts:14-31 | the nodes become their recomputed activation; the edges are untouched |
| Store.AppStore.OnNodesChange | src/store.ts:33-38 | the changed node list is stored, then activation is recomputed |
| Store.AppStore.OnEdgesChange | src/store.ts:40-45 | the changed edge list is stored, then activation is recomputed |
| Store.AppStore.OnConnect | src/store.ts:47-52 | the connected edge list is stored, then activation is recomputed |
| Store.AppStore.SetNodes | src/store.ts:54-58 | the nodes become the given list, or the given function applied to the current list; no recomputation |
| Store.AppStore.SetEdges | src/store.ts:60-64 | the edges become the given list, or the given function applied to the current list; no recomputation |
| Store.AppStore.OnStatusChange | src/store.ts:66-75 | the new state is the status change followed by recomputation |
| Store.AppStore.DeleteNode | src/store.ts:77-132 | the new state is the filtered nodes and the surviving plus re-linked edges, after recomputation |
| FlowChart.Relabel | src/FlowChart.tsx:37-41 | only nodes with the id take the new label; length, order, other fields and other nodes are unchanged |
| FlowChart.RelabelLastWins | src/FlowChart.tsx:37-41 | relabelling twice equals relabelling once with the later label |
| FlowChart.RelabelAbsentIsNoOp | src/FlowChart.tsx:37-41 | relabelling an absent id changes nothing |
| FlowChart.SetCompletion | src/FlowChart.tsx:48-52 | only nodes with the id take the new completion; their active flag and every other node are untouched |
| FlowChart.StatusChangesDisagree | src/FlowChart.tsx:48-52 | on an active node the component's status change keeps `isActive`, while the store's clears it |
| FlowChart.ResetCompletion | src/FlowChart.tsx:88-92 | every node becomes incomplete; ids, kinds, positions, labels, active flags and count are preserved |
| FlowChart.ResetIdempotent | src/FlowChart.tsx:88-92 | resetting twice equals resetting once |
| FlowChart.ResetAfterStatusChange | src/FlowChart.tsx:88-92 | a reset erases any earlier status change made through the component |
| FlowChart.AddNode | src/FlowChart.tsx:98-101 | exactly one node is appended, with id `${length + 1}`, at (0, 0), labelled, incomplete and inactive; existing nodes are unchanged |
| FlowChart.AddNodeFreshWithoutDeletion | src/FlowChart.tsx:98-101 | while nodes are only added, ids stay `"1"`, `"2"`, … and unique |
| FlowChart.AddNodeReusesId | src/FlowChart.tsx:98-101 | after adding two nodes and deleting the first, adding a node duplicates id `"2"` |
| FlowChart.MaxNumericId | src/FlowChart.tsx:99 | the result bounds every id that reads as a decimal number |
| FlowChart.FreshNodeId | src/FlowChart.tsx:99 | one more than the largest numeric id is carried by no node |
| FlowChart.AddFreshNode | src/FlowChart.tsx:98-101 | appending `createNode` under a fresh id at the origin keeps the existing nodes and keeps ids unique |
| FlowChart.ConnectEnd | src/FlowChart.tsx:145-163 | a valid end changes nothing; an invalid end appends `createNode(${length + 1}, dropPoint)` and one edge, under that id, from the drag's origin node to the new node |
| FlowChart.ConnectEndKeepsWellFormed | src/FlowChart.tsx:147-159 | dragging from an existing node to empty canvas creates no dangling edge |
| FlowChart.ConnectEndReusesId | src/FlowChart.tsx:148-158 | after a deletion, a drag to empty canvas adds a second node "2" and an edge "2" from that node to itself |
| FlowChart.ConnectEndFresh | src/FlowChart.tsx:145-163 | with a fresh id, an invalid end appends `createNode` at the drop point and the edge to it, keeps ids unique, and leaves no dangling edge when the drag starts at an existing node |
| FlowChart.ChartNeverActivates | src/FlowChart.tsx:35-163 | no updater of the component sets an active flag |
| FlowChart.Chart.constructor | src/FlowChart.tsx:30-31 | the component starts with no nodes and no edges |
| FlowChart.Chart.SetNodes | src/FlowChart.tsx:30 | the nodes become the given list, or the given function applied to the current list |
| FlowChart.Chart.SetEdges | src/FlowChart.tsx:31 | the edges become the given list, or the given function applied to the current list |
| FlowChart.Chart.OnLabelChange | src/FlowChart.tsx:35-44 | the nodes are relabelled through `setNodes`; the edges are unchanged |
| FlowChart.Chart.OnStatusChange | src/FlowChart.tsx:46-55 | the node's completion is set through `setNodes`; the edges are unchanged |
| FlowChart.Chart.OnResetNodeCompletion | src/FlowChart.tsx:88-92 | every node is reset to incomplete; the edges are unchanged |
| FlowChart.Chart.OnAddNode | src/FlowChart.tsx:98-101 | the nodes gain the new node; the edges are unchanged |
| FlowChart.Chart.OnConnectEnd | src/FlowChart.tsx:145-163 | the new state is the connection-end update of the old one |

## Findings

| source | as written | input that shows it | evidently intended | confidence | as-written member | corrected member |
|---|---|---|---|---|---|---|
| src/FlowChart.tsx:98-101 | a new node's id is `${nodes.length + 1}` | add nodes "1" and "2", delete "1", add a node: it gets id "2" again | a fresh id, such as one more than the largest numeric id | high; not executed | FlowChart.AddNodeReusesId | FlowChart.AddFreshNode |
| src/store.ts:86-115 | re-linking pairs every source of an edge into the node with every target of an edge out of it, including the deleted node itself | one node "A" with an edge A→A; `deleteNode("A")` leaves no node but an edge A→A | no edge refers to the deleted node | medium; not executed | Store.SelfLoopLeavesDangling | Store.DeleteFixedKeepsWellFormed |
| src/FlowChart.tsx:148 | the node and edge created when a drag ends over empty canvas take the id `${nodes.length + 1}` | add nodes "1" and "2", delete "1", drag from "2" to empty canvas: a second node "2" appears, with an edge from "2" to "2" | a fresh id, as for an added node | high; not executed | FlowChart.ConnectEndReusesId | FlowChart.ConnectEndFresh |

The class methods model the code as written. The corrected definitions
(`FlowChart.AddFreshNode`, `FlowChart.ConnectEndFresh`, `Store.DeletedFixed`) sit beside them and carry
the proved properties.

## Left out

- Rendering and widgets (src/App.tsx, src/AppCustomNode.tsx, the `ReactFlow` tree, hooks and effects): no graph logic.
- `onSave` and `onRestore`: local-storage I/O and JSON. Their defaults (viewport 0/0/1, edges `[]`) are not modelled.
- `applyNodeChanges`, `applyEdgeChanges` and `addEdge` belong to the rendering library, whose code is not part of this model. Their results are the parameters of `OnNodesChange`, `OnEdgesChange` and `OnConnect`. Duplicate suppression in `addEdge` is therefore not modelled, and neither is the component's `onConnect`.
- `Math.random` edge ids in `deleteNode`: the parameter `roll(i, j)` gives the id drawn for the i-th source and j-th target. No uniqueness is claimed.
- Positions are opaque reals. `screenToFlowPosition` and the touch/mouse event are replaced by the parameter `dropAt`. The `origin` anchor is not modelled.
- The callback closures stored in node data (`onLabelChange`, `onStatusChange`, `onDelete`) and `deleteElements`: wiring, not data.
- `connectionState.fromNode!`: the model takes the origin node's id as a parameter; a missing origin node, which would throw, is not modelled.
- The component reads `nodes.length` from the render's closure but appends through `setNodes`' current list. Updates are sequential here, so both are the same list.
- Console logging.
