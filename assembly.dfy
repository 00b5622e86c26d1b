/**
 * The tree assembler, `Merkle_tree.monta_tudo` (blockchain.py:96-115): one
 * pass pairs the nodes of a level left to right with stride 2, an odd last
 * node with itself; the passes repeat until one node is left.
 * `NextLevel` and `Build` are the specification the method
 * `MerkleTrees.MerkleTree.Assemble` is proved against.
 */
module Assembly {
  import opened Wrappers
  import opened Tree

  /** Parent `k` of a level: nodes `2k` and `2k+1`, or node `2k` twice when it is last. */
  function PairAt(H: HashFunction, nos: seq<Node>, k: nat): Node
    requires 2 * k < |nos|
  {
    Parent(H, nos[2 * k], if 2 * k + 1 < |nos| then nos[2 * k + 1] else nos[2 * k])
  }

  /** The level one pass of the `for` loop builds (`altura_atual`); it has ceil(n/2) nodes. */
  function NextLevel(H: HashFunction, nos: seq<Node>): (r: seq<Node>)
    ensures |r| == (|nos| + 1) / 2
    decreases |nos|
  {
    if |nos| == 0 then []
    else if |nos| == 1 then [Parent(H, nos[0], nos[0])]
    else [Parent(H, nos[0], nos[1])] + NextLevel(H, nos[2..])
  }

  /**
   * Parent `k` of the next level has node `2k` on the left and node `2k+1`
   * on the right, or node `2k` again when that is the last node.
   */
  lemma {:induction false} NextLevelAt(H: HashFunction, nos: seq<Node>, k: nat)
    requires k < (|nos| + 1) / 2
    ensures NextLevel(H, nos)[k] == PairAt(H, nos, k)
    decreases |nos|
  {
    if k > 0 {
      NextLevelAt(H, nos[2..], k - 1);
      assert nos[2..][2 * (k - 1)] == nos[2 * k];
      if 2 * k + 1 < |nos| {
        assert nos[2..][2 * (k - 1) + 1] == nos[2 * k + 1];
      }
    }
  }

  /** The node `monta_tudo(nos)` returns: none for no nodes, else the root. */
  function Build(H: HashFunction, nos: seq<Node>): (r: Option<Node>)
    ensures r.None? <==> |nos| == 0
    ensures |nos| == 1 ==> r == Some(nos[0])
    decreases |nos|
  {
    if |nos| == 0 then None
    else if |nos| == 1 then Some(nos[0])
    else Build(H, NextLevel(H, nos))
  }

  /** How many passes (recursive calls that pair nodes) `monta_tudo` makes on `n` nodes. */
  function FoldCount(n: nat): nat
    decreases n
  {
    if n <= 1 then 0 else 1 + FoldCount((n + 1) / 2)
  }

  function Pow2(e: nat): nat
  {
    if e == 0 then 1 else 2 * Pow2(e - 1)
  }

  /** The number of passes is the ceiling of log2 n: 2^(F-1) < n <= 2^F. */
  lemma {:induction false} FoldCountIsCeilLog2(n: nat)
    requires n >= 1
    ensures n <= Pow2(FoldCount(n))
    ensures n > 1 ==> Pow2(FoldCount(n) - 1) < n
    decreases n
  {
    if n > 1 {
      var m := (n + 1) / 2;
      FoldCountIsCeilLog2(m);
      assert FoldCount(n) == 1 + FoldCount(m);
      assert Pow2(FoldCount(n)) == 2 * Pow2(FoldCount(m));
    }
  }

  /** The number of edges on the longest way down from `t` to a leaf. */
  function Height(t: Node): nat
    decreases t
  {
    var l := if t.left.Some? then 1 + Height(t.left.value) else 0;
    var r := if t.right.Some? then 1 + Height(t.right.value) else 0;
    if l >= r then l else r
  }

  /**
   * Each pairing pass adds one level: from input nodes all of height `h`,
   * the root has height `h` plus the number of passes.
   */
  lemma {:induction false} BuildHeight(H: HashFunction, nos: seq<Node>, root: Node, h: nat)
    requires Build(H, nos) == Some(root)
    requires forall i :: 0 <= i < |nos| ==> Height(nos[i]) == h
    ensures Height(root) == h + FoldCount(|nos|)
    decreases |nos|
  {
    if |nos| > 1 {
      var next := NextLevel(H, nos);
      forall k | 0 <= k < |next|
        ensures Height(next[k]) == h + 1
      {
        NextLevelAt(H, nos, k);
      }
      BuildHeight(H, next, root, h + 1);
    }
  }

  /** Every node of the tree is well formed when every input node is. */
  lemma {:induction false} BuildWellFormed(H: HashFunction, nos: seq<Node>, root: Node)
    requires Build(H, nos) == Some(root)
    requires forall i :: 0 <= i < |nos| ==> WellFormed(H, nos[i])
    ensures WellFormed(H, root)
    decreases |nos|
  {
    if |nos| > 1 {
      var next := NextLevel(H, nos);
      forall k | 0 <= k < |next|
        ensures WellFormed(H, next[k])
      {
        NextLevelAt(H, nos, k);
      }
      BuildWellFormed(H, next, root);
    }
  }

  /** Every input node is a node of the built tree. */
  lemma {:induction false} BuildContainsInputs(H: HashFunction, nos: seq<Node>, i: nat)
    requires i < |nos|
    ensures nos[i] in PreOrder(Build(H, nos))
    decreases |nos|
  {
    if |nos| == 1 {
      assert PreOrder(Build(H, nos))[0] == nos[0];
    } else {
      var next := NextLevel(H, nos);
      var k := i / 2;
      assert i == 2 * k || i == 2 * k + 1;
      BuildContainsInputs(H, next, k);
      assert Build(H, nos) == Build(H, next);
      NextLevelAt(H, nos, k);
      var p := next[k];
      assert p.left == Some(nos[2 * k]);
      assert i == 2 * k + 1 ==> p.right == Some(nos[i]);
      ChildrenInPreOrder(Build(H, nos), p);
    }
  }

  /** An odd level pairs exactly as it would with its last node duplicated. */
  lemma {:induction false} NextLevelOddDuplication(H: HashFunction, nos: seq<Node>)
    requires |nos| % 2 == 1
    ensures NextLevel(H, nos) == NextLevel(H, nos + [nos[|nos| - 1]])
    decreases |nos|
  {
    var x := nos[|nos| - 1];
    if |nos| == 1 {
      assert (nos + [x])[2..] == [];
    } else {
      var rest := nos[2..];
      assert (nos + [x])[2..] == rest + [x];
      assert rest[|rest| - 1] == x;
      NextLevelOddDuplication(H, rest);
    }
  }

  /**
   * A tree over an odd number (at least three) of nodes has the root of
   * the tree over the same nodes with the last one repeated.
   */
  lemma BuildOddDuplication(H: HashFunction, nos: seq<Node>)
    requires |nos| % 2 == 1 && |nos| >= 3
    ensures Build(H, nos) == Build(H, nos + [nos[|nos| - 1]])
  {
    NextLevelOddDuplication(H, nos);
  }

  // The left-to-right reading of the leaves

  /** The nodes `d` levels below `t`, left to right; a node without both children stands for itself. */
  function Fringe(t: Node, d: nat): seq<Node>
    decreases t
  {
    if d == 0 || t.left.None? || t.right.None? then [t]
    else Fringe(t.left.value, d - 1) + Fringe(t.right.value, d - 1)
  }

  /** The fringes of the nodes of a level, concatenated. */
  function LevelFringe(level: seq<Node>, d: nat): seq<Node>
    decreases |level|
  {
    if level == [] then [] else Fringe(level[0], d) + LevelFringe(level[1..], d)
  }

  /** A level with its last node repeated when its length is odd. */
  function Padded(nos: seq<Node>): seq<Node>
  {
    if |nos| % 2 == 1 then nos + [nos[|nos| - 1]] else nos
  }

  lemma {:induction false} LevelFringeAppend(a: seq<Node>, b: seq<Node>, d: nat)
    ensures LevelFringe(a + b, d) == LevelFringe(a, d) + LevelFringe(b, d)
    decreases |a|
  {
    if a == [] {
      assert a + b == b;
    } else {
      assert (a + b)[0] == a[0];
      assert (a + b)[1..] == a[1..] + b;
      LevelFringeAppend(a[1..], b, d);
    }
  }

  lemma LevelFringePair(x: Node, y: Node, d: nat)
    ensures LevelFringe([x, y], d) == Fringe(x, d) + Fringe(y, d)
  {
    assert [x, y][1..] == [y];
    assert LevelFringe([y], d) == Fringe(y, d) + LevelFringe([], d);
  }

  lemma LevelFringeCons(x: Node, rest: seq<Node>, d: nat)
    ensures LevelFringe([x] + rest, d) == Fringe(x, d) + LevelFringe(rest, d)
  {
    assert ([x] + rest)[1..] == rest;
  }

  lemma PaddedTail(nos: seq<Node>)
    requires |nos| >= 2
    ensures Padded(nos) == [nos[0], nos[1]] + Padded(nos[2..])
  {
  }

  /** One level up, the fringe one level deeper is the padded level's fringe. */
  lemma {:induction false} NextLevelFringe(H: HashFunction, nos: seq<Node>, d: nat)
    ensures LevelFringe(NextLevel(H, nos), d + 1) == LevelFringe(Padded(nos), d)
    decreases |nos|
  {
    if |nos| == 1 {
      var x := nos[0];
      var p := Parent(H, x, x);
      assert NextLevel(H, nos) == [p] + [];
      LevelFringeCons(p, [], d + 1);
      assert Padded(nos) == [x, x];
      LevelFringePair(x, x, d);
    } else if |nos| >= 2 {
      var rest := nos[2..];
      var p := Parent(H, nos[0], nos[1]);
      var up := NextLevel(H, rest);
      NextLevelFringe(H, rest, d);
      assert NextLevel(H, nos) == [p] + up;
      LevelFringeCons(p, up, d + 1);
      assert Fringe(p, d + 1) == Fringe(nos[0], d) + Fringe(nos[1], d);
      PaddedTail(nos);
      LevelFringeAppend([nos[0], nos[1]], Padded(rest), d);
      LevelFringePair(nos[0], nos[1], d);
    }
  }

  /** The fringe of each node of a level is part of the level's fringe. */
  lemma {:induction false} FringeInLevelFringe(nos: seq<Node>, i: nat, d: nat, x: Node)
    requires i < |nos| && x in Fringe(nos[i], d)
    ensures x in LevelFringe(nos, d)
    decreases |nos|
  {
    if i > 0 {
      FringeInLevelFringe(nos[1..], i - 1, d, x);
    }
  }

  /** Padding a level adds nothing new to its fringe. */
  lemma PaddedFringeElements(nos: seq<Node>, d: nat, x: Node)
    requires x in LevelFringe(Padded(nos), d)
    ensures x in LevelFringe(nos, d)
  {
    if |nos| % 2 == 1 {
      var last := nos[|nos| - 1];
      LevelFringeAppend(nos, [last], d);
      LevelFringeCons(last, [], d);
      if x in Fringe(last, d) {
        FringeInLevelFringe(nos, |nos| - 1, d, x);
      }
    }
  }

  /**
   * Generalised to depth `d`: the fringe of the input level is where the
   * fringe of the root starts, `d` levels below the last pass (`e` levels
   * below the root), and every node of the root's fringe is in it.
   */
  lemma {:induction false} BuildFringe(H: HashFunction, nos: seq<Node>, root: Node, d: nat, e: nat)
    requires Build(H, nos) == Some(root)
    requires e == FoldCount(|nos|) + d
    ensures LevelFringe(nos, d) <= Fringe(root, e)
    ensures forall x :: x in Fringe(root, e) ==> x in LevelFringe(nos, d)
    decreases |nos|
  {
    if |nos| == 1 {
      assert LevelFringe(nos, d) == Fringe(nos[0], d) + LevelFringe([], d);
    } else {
      var next := NextLevel(H, nos);
      BuildFringe(H, next, root, d + 1, e);
      NextLevelFringe(H, nos, d);
      if |nos| % 2 == 1 {
        LevelFringeAppend(nos, [nos[|nos| - 1]], d);
      }
      forall x | x in Fringe(root, e)
        ensures x in LevelFringe(nos, d)
      {
        PaddedFringeElements(nos, d, x);
      }
    }
  }

  lemma {:induction false} LevelFringeZero(nos: seq<Node>)
    ensures LevelFringe(nos, 0) == nos
    decreases |nos|
  {
    if nos != [] {
      LevelFringeZero(nos[1..]);
    }
  }

  /**
   * Read left to right at the depth of the last pass, the leaves of the
   * built tree start with exactly the input nodes, in order, and every
   * position after them holds a copy of an input node made by the odd-node
   * rule.
   */
  lemma BuildLeavesInOrder(H: HashFunction, nos: seq<Node>, root: Node)
    requires Build(H, nos) == Some(root)
    ensures nos <= Fringe(root, FoldCount(|nos|))
    ensures forall x :: x in Fringe(root, FoldCount(|nos|)) ==> x in nos
  {
    BuildFringe(H, nos, root, 0, FoldCount(|nos|));
    LevelFringeZero(nos);
  }
}
