/** The nodes of an AVL tree (libbinom/include/binom_impl/avl_tree.hxx).  A key is its rank in the order of
    KeyValue::getCompare. */
module AVLNodes {
  class AVLNode {
    var depth: int
    var left: AVLNode?
    var right: AVLNode?
    var parent: AVLNode?
    const key: int

    constructor (key: int)
      ensures this.key == key
      ensures depth == 1 && left == null && right == null && parent == null
    {
      this.key := key;
      depth, left, right, parent := 1, null, null, null;
    }
  }
}
