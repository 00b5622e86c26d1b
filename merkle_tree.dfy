/**
 * The class `Merkle_tree` of blockchain.py: its construction (leaf
 * building, then assembly), the lookup of a record and the derivation of an
 * inclusion proof for a record.
 */
module MerkleTrees {
  import opened Wrappers
  import opened Tree
  import opened LeafBuilding
  import opened Assembly
  import opened Lookup
  import opened InclusionProofs

  /**
   * Every record the leaf builder turned into a leaf has a derivable
   * inclusion path in the assembled tree, and that path verifies against
   * the root hash.
   */
  lemma RecordIncluded(H: HashFunction, order: seq<string>, record: string, root: Node)
    requires Build(H, LeavesOf(H, order)) == Some(root) && record in order
    ensures Contains(Some(root), Digest(H, record))
    ensures FindPath(Some(root), Digest(H, record)).Some?
    ensures Verify(H, record, FindPath(Some(root), Digest(H, record)).value, root.hash)
  {
    var leaves := LeavesOf(H, order);
    var i :| 0 <= i < |order| && order[i] == record;
    LeavesOfHashes(H, order);
    assert leaves[i].hash == Digest(H, record);
    BuiltTreeInclusion(H, leaves, i, root);
  }

  class MerkleTree {
    /** `sha_256`. */
    const H: HashFunction
    /** `self.folhas`: the leaves, in the order they were appended (with one worker, the claim order). */
    var leaves: seq<Node>
    /** `self.raiz`: the root, `None` while no tree is built. */
    var root: Option<Node>
    /** The records the tree was built from. */
    ghost var records: seq<string>
    /** The records in the order their leaves were appended (with one worker, the claim order). */
    ghost var claimOrder: seq<string>

    /**
     * A leaf per record, in append order, and the root the assembler makes
     * from those leaves.
     */
    ghost predicate Valid()
      reads this
    {
      multiset(claimOrder) == multiset(records)
      && leaves == LeavesOf(H, claimOrder)
      && root == Build(H, leaves)
    }

    /**
     * `Merkle_tree(nome_arquivo)` once the file has been read into
     * `transactions`: nothing is built for no records; otherwise the leaf
     * builder runs to completion and the assembler folds its leaves.
     */
    constructor (H: HashFunction, transactions: seq<string>)
      ensures Valid() && this.H == H && records == transactions
      ensures |leaves| == |transactions|
      ensures multiset(Hashes(leaves)) == multiset(Digests(H, transactions))
      ensures root.None? <==> transactions == []
      ensures root.Some? ==> WellFormed(H, root.value)
      ensures root.Some? ==> Height(root.value) == FoldCount(|transactions|)
    {
      this.H := H;
      leaves := [];
      root := None;
      records := transactions;
      claimOrder := [];
      new;
      if transactions != [] {
        var remaining, order := SaveLeaves(transactions);
        claimOrder := order;
        root := Assemble(leaves);
        LeavesOfHashes(H, order);
        DigestsOfPermutation(H, order, transactions);
        assert |order| == |transactions| by {
          assert |multiset(order)| == |multiset(transactions)|;
        }
        BuildWellFormed(H, leaves, root.value);
        BuildHeight(H, leaves, root.value, 0);
      }
    }

    /**
     * `salva_transacao`, as one worker: while records are pending, claim an
     * arbitrary one, remove its first occurrence from the pending list and
     * append the leaf for it.  At the end nothing is pending and the new
     * leaves are those of a permutation of the pending records.
     */
    method SaveLeaves(pending: seq<string>) returns (remaining: seq<string>, ghost order: seq<string>)
      modifies this`leaves
      ensures remaining == []
      ensures multiset(order) == multiset(pending)
      ensures leaves == old(leaves) + LeavesOf(H, order)
    {
      remaining := pending;
      order := [];
      while remaining != []
        invariant multiset(remaining) + multiset(order) == multiset(pending)
        invariant leaves == old(leaves) + LeavesOf(H, order)
        decreases |remaining|
      {
        var i :| 0 <= i < |remaining|;
        var transaction := remaining[i];
        ClaimKeepsRecords(remaining, order, transaction);
        remaining := RemoveFirst(remaining, transaction);
        var hash := Digest(H, transaction);
        leaves := leaves + [Node(hash, None, None)];
        LeavesOfSnoc(H, order, transaction);
        order := order + [transaction];
      }
    }

    /**
     * `monta_tudo`: pair the level left to right (the last node of an odd
     * level with itself), then fold the new level; the result is the node
     * the specification `Build` gives.
     */
    method Assemble(nodes: seq<Node>) returns (r: Option<Node>)
      ensures r == Build(H, nodes)
      decreases |nodes|
    {
      if nodes == [] {
        return None;
      }
      if |nodes| == 1 {
        return Some(nodes[0]);
      }
      var level: seq<Node> := [];
      var i := 0;
      while i < |nodes|
        invariant 0 <= i <= |nodes| + 1 && i % 2 == 0
        invariant |level| == i / 2
        invariant forall k :: 0 <= k < |level| ==> level[k] == PairAt(H, nodes, k)
      {
        var left := nodes[i];
        var right := if i + 1 < |nodes| then nodes[i + 1] else nodes[i];
        var parent := Digest(H, left.hash + right.hash);
        level := level + [Node(parent, Some(left), Some(right))];
        i := i + 2;
      }
      forall k | 0 <= k < |level|
        ensures level[k] == NextLevel(H, nodes)[k]
      {
        NextLevelAt(H, nodes, k);
      }
      assert level == NextLevel(H, nodes);
      r := Assemble(level);
    }

    /**
     * `busca_transacao`: nothing without a root; otherwise the first node in
     * pre-order whose hash is the record's digest, found exactly when some
     * node has it, and always found for a record the tree was built from.
     */
    method FindTransaction(transaction: string) returns (r: Option<Node>)
      requires Valid()
      ensures root.None? ==> r.None?
      ensures r.Some? <==> root.Some? && Contains(root, Digest(H, transaction))
      ensures r.Some? ==> r.value.hash == Digest(H, transaction)
      ensures r == FirstWithHash(PreOrder(root), Digest(H, transaction))
      ensures transaction in records ==> r.Some?
    {
      if root.None? {
        return None;
      }
      var target := Digest(H, transaction);
      r := Find(root, target);
      FindIsFirstInPreOrder(root, target);
      if transaction in records {
        assert transaction in multiset(claimOrder);
        RecordIncluded(H, claimOrder, transaction, root.value);
      }
    }

    /**
     * `gerar_prova_inclusao`: nothing without a root; otherwise the path
     * `_encontrar_caminho` appends to an empty list, present exactly when
     * some node has the record's digest, always present for a record the
     * tree was built from, and verifying against the root hash.
     */
    method InclusionProof(transaction: string) returns (r: Option<Path>)
      requires Valid()
      ensures root.None? ==> r.None?
      ensures root.Some? ==> r == FindPath(root, Digest(H, transaction))
      ensures r.Some? <==> root.Some? && Contains(root, Digest(H, transaction))
      ensures r.Some? ==> Verify(H, transaction, r.value, root.value.hash)
      ensures transaction in records ==> r.Some?
    {
      if root.None? {
        return None;
      }
      var tree := root.value;
      var target := Digest(H, transaction);
      r := FindPath(root, target);
      if r.Some? {
        LeavesOfHashes(H, claimOrder);
        BuildWellFormed(H, leaves, tree);
        FindPathSound(H, tree, target, r.value);
      }
      if transaction in records {
        assert transaction in multiset(claimOrder);
        RecordIncluded(H, claimOrder, transaction, tree);
      }
    }
  }
}
