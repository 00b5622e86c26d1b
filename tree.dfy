/**
 * The node of the Merkle tree (class `No` of blockchain.py) and the
 * structural notions every other module uses: the double digest, the
 * well-formedness of a built tree, and the pre-order listing of its nodes.
 */
module Tree {
  import opened Wrappers

  /**
   * `sha_256`: hex digest of the UTF-8 encoding of a string.  The real
   * SHA-256 is not modelled; every operation takes the hash as a parameter,
   * so nothing proved here depends on what it computes.
   */
  type HashFunction = string -> string

  /** The hash applied twice, as at every hashing site of the tree. */
  function Digest(H: HashFunction, data: string): string
  {
    H(H(data))
  }

  /** A node: its hash (hex text) and two optional children (`esq`, `dir`). */
  datatype Node = Node(hash: string, left: Option<Node>, right: Option<Node>)

  /** The leaf made for one record by the leaf builder. */
  function Leaf(H: HashFunction, record: string): Node
  {
    Node(Digest(H, record), None, None)
  }

  /** The parent the assembler makes for a pair, hashing left then right. */
  function Parent(H: HashFunction, l: Node, r: Node): Node
  {
    Node(Digest(H, l.hash + r.hash), Some(l), Some(r))
  }

  /**
   * A tree as the assembler leaves it: every node is a leaf or has both
   * children and the double digest of their concatenated hashes.
   */
  predicate WellFormed(H: HashFunction, t: Node)
    decreases t
  {
    match (t.left, t.right)
    case (None, None) => true
    case (Some(l), Some(r)) =>
      t.hash == Digest(H, l.hash + r.hash) && WellFormed(H, l) && WellFormed(H, r)
    case _ => false
  }

  /** The nodes of a (possibly absent) tree in pre-order: node, left, right. */
  function PreOrder(no: Option<Node>): seq<Node>
    decreases no
  {
    match no
    case None => []
    case Some(n) => [n] + PreOrder(n.left) + PreOrder(n.right)
  }

  /** Some node of the tree, internal nodes included, carries hash `h`. */
  predicate Contains(no: Option<Node>, h: string)
  {
    exists n :: n in PreOrder(no) && n.hash == h
  }

  /** A node's children are listed wherever the node is. */
  lemma {:induction false} ChildrenInPreOrder(no: Option<Node>, m: Node)
    requires m in PreOrder(no)
    ensures m.left.Some? ==> m.left.value in PreOrder(no)
    ensures m.right.Some? ==> m.right.value in PreOrder(no)
    decreases no
  {
    var n := no.value;
    if m == n {
      if m.left.Some? {
        assert PreOrder(m.left)[0] == m.left.value;
      }
      if m.right.Some? {
        assert PreOrder(m.right)[0] == m.right.value;
      }
    } else if m in PreOrder(n.left) {
      ChildrenInPreOrder(n.left, m);
    } else {
      ChildrenInPreOrder(n.right, m);
    }
  }
}
