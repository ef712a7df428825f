/** Nodes of the red-black tree: mutable records linked by references. */
module RbNode {

  datatype Color = Red | Black

  /**
   * A tree node. `left`, `right` and `parent` are `null` exactly where the
   * original has `None`: a fresh node, the root's parent, and the links of the
   * shared black sentinel, which are never written.
   */
  class Node {
    var key: int
    var color: Color
    var left: Node?
    var right: Node?
    var parent: Node?

    /** A new node is red unless a colour is given, and is not linked to anything. */
    constructor (key: int, color: Color := Red)
      ensures this.key == key && this.color == color
      ensures left == null && right == null && parent == null
    {
      this.key := key;
      this.color := color;
      left, right, parent := null, null, null;
    }
  }
}
