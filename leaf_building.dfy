/**
 * The pieces of the leaf builder, `Merkle_tree.salva_transacao`
 * (blockchain.py:80-94), that do not touch the tree object: Python's
 * `list.remove`, the leaves made for a list of records, and the multiset of
 * their hashes.
 */
module LeafBuilding {
  import opened Tree

  /** Position of the first occurrence of `x` in `s`. */
  function IndexOf<T(==)>(s: seq<T>, x: T): (i: nat)
    requires x in s
    ensures i < |s| && s[i] == x && x !in s[..i]
    decreases |s|
  {
    if s[0] == x then 0
    else
      var j := IndexOf(s[1..], x);
      assert s[..j + 1] == [s[0]] + s[1..][..j];
      1 + j
  }

  /** `list.remove(x)`: the list without its first occurrence of `x`, the others in their order. */
  function RemoveFirst<T(==)>(s: seq<T>, x: T): (r: seq<T>)
    requires x in s
    ensures var i := IndexOf(s, x); r == s[..i] + s[i + 1..]
    decreases |s|
  {
    if s[0] == x then
      s[1..]
    else
      var tail := s[1..];
      var rest := RemoveFirst(tail, x);
      ghost var j := IndexOf(tail, x);
      assert s[..j + 1] == [s[0]] + tail[..j];
      assert s[j + 2..] == tail[j + 1..];
      [s[0]] + rest
  }

  /** Removing takes exactly one copy of `x` out of the list and leaves every other element. */
  lemma RemoveFirstCount<T>(s: seq<T>, x: T)
    requires x in s
    ensures multiset(RemoveFirst(s, x)) == multiset(s) - multiset{x}
  {
    var i := IndexOf(s, x);
    assert s == s[..i] + [x] + s[i + 1..];
  }

  /**
   * One claim moves one copy of `x` from the pending list to the claimed
   * list: together they hold the same records as before.
   */
  lemma ClaimKeepsRecords<T>(pending: seq<T>, claimed: seq<T>, x: T)
    requires x in pending
    ensures multiset(RemoveFirst(pending, x)) + multiset(claimed + [x])
         == multiset(pending) + multiset(claimed)
  {
    RemoveFirstCount(pending, x);
  }

  /** The leaves made for `records`, in that order. */
  function LeavesOf(H: HashFunction, records: seq<string>): seq<Node>
  {
    seq(|records|, i requires 0 <= i < |records| => Leaf(H, records[i]))
  }

  lemma LeavesOfSnoc(H: HashFunction, records: seq<string>, record: string)
    ensures LeavesOf(H, records + [record]) == LeavesOf(H, records) + [Leaf(H, record)]
  {
  }

  /** The hashes of a list of nodes. */
  function Hashes(nodes: seq<Node>): seq<string>
  {
    seq(|nodes|, i requires 0 <= i < |nodes| => nodes[i].hash)
  }

  /** The double digests of a list of records. */
  function Digests(H: HashFunction, records: seq<string>): seq<string>
  {
    seq(|records|, i requires 0 <= i < |records| => Digest(H, records[i]))
  }

  /** The leaves of a list of records are leaves, whose hashes are the records' digests. */
  lemma LeavesOfHashes(H: HashFunction, records: seq<string>)
    ensures Hashes(LeavesOf(H, records)) == Digests(H, records)
    ensures forall i :: 0 <= i < |records| ==> WellFormed(H, LeavesOf(H, records)[i])
  {
  }

  /**
   * Records that are a permutation of each other have digests that are a
   * permutation of each other: the multiset of digests is the image of the
   * multiset of records.
   */
  lemma {:induction false} DigestsOfPermutation(H: HashFunction, a: seq<string>, b: seq<string>)
    requires multiset(a) == multiset(b)
    ensures multiset(Digests(H, a)) == multiset(Digests(H, b))
    decreases |a|
  {
    if a == [] {
      assert |multiset(b)| == 0;
    } else {
      var x := a[0];
      assert x in multiset(b);
      var j := IndexOf(b, x);
      var b' := RemoveFirst(b, x);
      var a' := a[1..];
      RemoveFirstCount(b, x);
      assert a == [x] + a';
      assert multiset(a') == multiset(a) - multiset{x};
      DigestsOfPermutation(H, a', b');
      DigestsOfSplit(H, a, 0);
      assert a[..0] + a[1..] == a';
      DigestsOfSplit(H, b, j);
    }
  }

  /** The digests of a list are those of the part before and after position `j`, with `j`'s between. */
  lemma DigestsOfSplit(H: HashFunction, s: seq<string>, j: nat)
    requires j < |s|
    ensures multiset(Digests(H, s))
         == multiset(Digests(H, s[..j] + s[j + 1..])) + multiset{Digest(H, s[j])}
  {
    var d := Digests(H, s);
    assert d == d[..j] + [d[j]] + d[j + 1..];
    assert Digests(H, s[..j] + s[j + 1..]) == d[..j] + d[j + 1..];
  }
}
