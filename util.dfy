/** The node constructor of src/util.ts. */
module Util {
  import opened Types

  /** A fresh, incomplete, inactive `appNode` labelled `Node <id>`. */
  function CreateNode(id: string, position: Position): (r: Node)
    ensures r.id == id && r.kind == "appNode" && r.position == position
    ensures r.data.caption == "Node " + id
    ensures !r.data.isComplete && !r.data.isActive
  {
    Node(id, "appNode", position, NodeData("Node " + id, false, false))
  }
}
