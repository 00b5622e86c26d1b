/**
 * The proof engine: `Merkle_tree._encontrar_caminho` (blockchain.py:175-195)
 * derives the inclusion path of a hash, and `Verify` replays such a path
 * from a record up to a root hash.  The source has no verifier of its own;
 * `Verify` is the replay the path's labels call for, with the concatenation
 * order of the assembler (blockchain.py:112).
 */
module InclusionProofs {
  import opened Wrappers
  import opened Tree
  import opened Assembly
  import opened Lookup

  /** A side of a pair: `"esquerda"` is `Left`, `"direita"` is `Right`. */
  datatype Side = Left | Right

  /** One entry `(hash_irmao, direcao)`: a sibling's hash and the side the sibling is on. */
  datatype Step = Step(sibling: string, side: Side)

  /** An inclusion path, ordered from the matched node up to the root. */
  type Path = seq<Step>

  function Flip(s: Side): Side
  {
    if s == Left then Right else Left
  }

  /**
   * What `_encontrar_caminho(no, h, caminho)` does: `None` when it returns
   * False, leaving `caminho` as it was; `Some(p)` when it returns True,
   * having appended the entries `p` to `caminho`.  The search order is the
   * lookup's: the node, then the left subtree, then the right one; a hit in
   * the left child appends the right sibling labelled `Right`, a hit in the
   * right child the left sibling labelled `Left`, each only when that
   * sibling is present.
   */
  function FindPath(no: Option<Node>, h: string): (r: Option<Path>)
    ensures r.Some? <==> Contains(no, h)
    decreases no
  {
    match no
    case None => None
    case Some(n) =>
      if n.hash == h then Some([])
      else
        match FindPath(n.left, h)
        case Some(p) =>
          Some(if n.right.Some? then p + [Step(n.right.value.hash, Right)] else p)
        case None =>
          match FindPath(n.right, h)
          case Some(p) =>
            Some(if n.left.Some? then p + [Step(n.left.value.hash, Left)] else p)
          case None => None
  }

  /** One replay step: the sibling goes on the side its label names. */
  function Combine(H: HashFunction, s: Step, current: string): string
  {
    match s.side
    case Left => Digest(H, s.sibling + current)
    case Right => Digest(H, current + s.sibling)
  }

  /** The hash reached by replaying `path` from `current`, first entry first. */
  function Replay(H: HashFunction, current: string, path: Path): string
    decreases |path|
  {
    if path == [] then current else Replay(H, Combine(H, path[0], current), path[1..])
  }

  /** A path proves that `record` is included under `root`. */
  predicate Verify(H: HashFunction, record: string, path: Path, root: string)
  {
    Replay(H, Digest(H, record), path) == root
  }

  /** Replaying one more entry applies it to the hash reached so far. */
  lemma {:induction false} ReplayAppend(H: HashFunction, current: string, p: Path, s: Step)
    ensures Replay(H, current, p + [s]) == Combine(H, s, Replay(H, current, p))
    decreases |p|
  {
    if p != [] {
      assert (p + [s])[0] == p[0];
      assert (p + [s])[1..] == p[1..] + [s];
      ReplayAppend(H, Combine(H, p[0], current), p[1..], s);
    }
  }

  // Addresses: a node named by the children taken from the root, top-down

  /** The node reached from `t` by taking the children `a` names, top-down. */
  function At(t: Node, a: seq<Side>): Option<Node>
    decreases |a|
  {
    if a == [] then Some(t)
    else
      var child := if a[0] == Left then t.left else t.right;
      if child.None? then None else At(child.value, a[1..])
  }

  /**
   * The entries collected while unwinding from the node at address `a` to
   * `t`: per edge, the present sibling and the side it is on, bottom-up.
   */
  function SiblingsAlong(t: Node, a: seq<Side>): Path
    decreases |a|
  {
    if a == [] then []
    else
      var child := if a[0] == Left then t.left else t.right;
      var other := if a[0] == Left then t.right else t.left;
      var below := if child.None? then [] else SiblingsAlong(child.value, a[1..]);
      below + (if other.None? then [] else [Step(other.value.hash, Flip(a[0]))])
  }

  /**
   * In a well-formed tree the entries along an address are one per edge, the
   * lowest first, each labelled with the side opposite the child taken.
   */
  lemma {:induction false} SiblingsAlongShape(H: HashFunction, t: Node, a: seq<Side>)
    requires WellFormed(H, t) && At(t, a).Some?
    ensures |SiblingsAlong(t, a)| == |a|
    ensures forall k :: 0 <= k < |a| ==> SiblingsAlong(t, a)[k].side == Flip(a[|a| - 1 - k])
    decreases |a|
  {
    if a != [] {
      var child := if a[0] == Left then t.left.value else t.right.value;
      var rest := a[1..];
      SiblingsAlongShape(H, child, rest);
      var below := SiblingsAlong(child, rest);
      forall k | 0 <= k < |a|
        ensures SiblingsAlong(t, a)[k].side == Flip(a[|a| - 1 - k])
      {
        if k < |rest| {
          assert SiblingsAlong(t, a)[k] == below[k];
          assert rest[|rest| - 1 - k] == a[|a| - 1 - k];
        }
      }
    }
  }

  /**
   * In a well-formed tree, replaying the entries along an address from the
   * hash of the node there gives the hash of the tree's root.
   */
  lemma {:induction false} ReplayAlong(H: HashFunction, t: Node, a: seq<Side>)
    requires WellFormed(H, t) && At(t, a).Some?
    ensures Replay(H, At(t, a).value.hash, SiblingsAlong(t, a)) == t.hash
    decreases |a|
  {
    if a != [] {
      var n := At(t, a).value;
      var l, r := t.left.value, t.right.value;
      var child := if a[0] == Left then l else r;
      var other := if a[0] == Left then r else l;
      ReplayAlong(H, child, a[1..]);
      var step := Step(other.hash, Flip(a[0]));
      ReplayAppend(H, n.hash, SiblingsAlong(child, a[1..]), step);
    }
  }

  /**
   * The path derivation and the lookup stop at the same node, the first in
   * pre-order with hash `h`, and the path holds the entries along its address.
   */
  lemma {:induction false} FindPathAddress(t: Node, h: string) returns (a: seq<Side>)
    requires FindPath(Some(t), h).Some?
    ensures At(t, a) == Find(Some(t), h)
    ensures FindPath(Some(t), h).value == SiblingsAlong(t, a)
    decreases t
  {
    if t.hash == h {
      a := [];
    } else if FindPath(t.left, h).Some? {
      var rest := FindPathAddress(t.left.value, h);
      a := [Left] + rest;
      assert a[1..] == rest;
    } else {
      var rest := FindPathAddress(t.right.value, h);
      a := [Right] + rest;
      assert a[1..] == rest;
    }
  }

  /**
   * Soundness of a derived path: in a well-formed tree, a path found for
   * `h` has one entry per edge from the match to the root, and replaying it
   * from `h` gives the root hash.
   */
  lemma FindPathSound(H: HashFunction, t: Node, h: string, p: Path)
    requires WellFormed(H, t) && FindPath(Some(t), h) == Some(p)
    ensures Replay(H, h, p) == t.hash
  {
    var a := FindPathAddress(t, h);
    ReplayAlong(H, t, a);
  }

  /**
   * On a tree built by the assembler from well-formed nodes, the path
   * derived for the hash of any input node exists and replays to the root.
   */
  lemma BuiltTreeInclusion(H: HashFunction, nos: seq<Node>, i: nat, root: Node)
    requires Build(H, nos) == Some(root) && i < |nos|
    requires forall j :: 0 <= j < |nos| ==> WellFormed(H, nos[j])
    ensures FindPath(Some(root), nos[i].hash).Some?
    ensures Replay(H, nos[i].hash, FindPath(Some(root), nos[i].hash).value) == root.hash
  {
    BuildContainsInputs(H, nos, i);
    BuildWellFormed(H, nos, root);
    FindPathSound(H, root, nos[i].hash, FindPath(Some(root), nos[i].hash).value);
  }
}
