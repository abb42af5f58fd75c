/** The data model of the work-order graph: nodes, edges and the snapshot
    that the store and the flow chart hold (src/types.ts). */
module Types {

  datatype Option<T> = None | Some(value: T)

  /** A canvas coordinate. It is owned by the renderer; the core only carries it. */
  datatype Position = Position(x: real, y: real)

  /** `AppNodeData`; `caption` is its `label` (a Dafny keyword), and the optional
      booleans read as `false` when absent. */
  datatype NodeData = NodeData(caption: string, isComplete: bool, isActive: bool)

  /** An `AppNode`; `kind` is the node's `type` field. */
  datatype Node = Node(id: string, kind: string, position: Position, data: NodeData)

  /** A directed dependency: `source` must be complete before `target` is active. */
  datatype Edge = Edge(id: string, source: string, target: string)

  /** The node and edge lists held as state. */
  datatype Graph = Graph(nodes: seq<Node>, edges: seq<Edge>)

  /** The argument of `setNodes` / `setEdges`: a new list, or a function of the current one. */
  datatype Updater<!T> = Replace(value: seq<T>) | Apply(f: seq<T> -> seq<T>)

  /** A list updater ignores the current list; a function updater is applied to it. */
  function Updated<T>(u: Updater<T>, current: seq<T>): (r: seq<T>)
    ensures u.Replace? ==> r == u.value
    ensures u.Apply? ==> r == u.f(current)
  {
    match u
    case Replace(value) => value
    case Apply(f) => f(current)
  }

  predicate HasNode(nodes: seq<Node>, id: string)
  {
    exists n :: n in nodes && n.id == id
  }

  predicate UniqueIds(nodes: seq<Node>)
  {
    forall i, j :: 0 <= i < j < |nodes| ==> nodes[i].id != nodes[j].id
  }

  /** No edge refers to a node that is not in the graph. */
  predicate WellFormed(g: Graph)
  {
    forall e :: e in g.edges ==> HasNode(g.nodes, e.source) && HasNode(g.nodes, e.target)
  }

  /** `b` is `a` with at most its `isActive` flag changed. */
  predicate SameExceptActive(a: Node, b: Node)
  {
    b == a.(data := a.data.(isActive := b.data.isActive))
  }

  predicate NoneActive(nodes: seq<Node>)
  {
    forall i :: 0 <= i < |nodes| ==> !nodes[i].data.isActive
  }
}
