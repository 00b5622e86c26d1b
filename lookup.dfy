/**
 * The lookup engine, `Merkle_tree._busca_no` (blockchain.py:136-150): a
 * pre-order depth-first search for a node, internal nodes included, whose
 * hash is the one sought.
 */
module Lookup {
  import opened Wrappers
  import opened Tree

  /**
   * The node `_busca_no(no, h)` returns: it is a node of the tree with hash
   * `h`, and there is none exactly when no node of the tree has that hash.
   */
  function Find(no: Option<Node>, h: string): (r: Option<Node>)
    ensures r.Some? ==> r.value.hash == h && r.value in PreOrder(no)
    ensures r.None? <==> !Contains(no, h)
    decreases no
  {
    match no
    case None => None
    case Some(n) =>
      if n.hash == h then Some(n)
      else
        var inLeft := Find(n.left, h);
        if inLeft.Some? then inLeft else Find(n.right, h)
  }

  /** The first node of a list with hash `h`, scanning from the front. */
  function FirstWithHash(s: seq<Node>, h: string): Option<Node>
    decreases |s|
  {
    if s == [] then None
    else if s[0].hash == h then Some(s[0])
    else FirstWithHash(s[1..], h)
  }

  lemma {:induction false} FirstWithHashAppend(a: seq<Node>, b: seq<Node>, h: string)
    ensures FirstWithHash(a + b, h)
         == if FirstWithHash(a, h).Some? then FirstWithHash(a, h) else FirstWithHash(b, h)
    decreases |a|
  {
    if a == [] {
      assert a + b == b;
    } else {
      assert (a + b)[0] == a[0];
      assert (a + b)[1..] == a[1..] + b;
      FirstWithHashAppend(a[1..], b, h);
    }
  }

  /** The search returns the first node of the pre-order listing that has hash `h`. */
  lemma {:induction false} FindIsFirstInPreOrder(no: Option<Node>, h: string)
    ensures Find(no, h) == FirstWithHash(PreOrder(no), h)
    decreases no
  {
    if no.Some? {
      var n := no.value;
      FindIsFirstInPreOrder(n.left, h);
      FindIsFirstInPreOrder(n.right, h);
      FirstWithHashAppend([n] + PreOrder(n.left), PreOrder(n.right), h);
      FirstWithHashAppend([n], PreOrder(n.left), h);
      assert FirstWithHash([n], h) == if n.hash == h then Some(n) else FirstWithHash([], h);
    }
  }
}
