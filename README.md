# Merkle tree engine of `blockchain.py`, modelled in Dafny

`blockchain.py` builds a Merkle tree over transaction records. One record
is one line of a text file. The code has four parts:

- **Leaf building** (`salva_transacao`): workers repeatedly claim a pending
  record at random, remove it from the pending list, and append a leaf whose
  hash is `sha_256(sha_256(record))`.
- **Assembly** (`monta_tudo`): nodes are paired left to right. An odd last
  node is paired with itself. Each parent gets
  `sha_256(sha_256(left.hash + right.hash))`. This repeats until one node,
  the root, is left.
- **Lookup** (`_busca_no`): a pre-order depth-first search for a node with a
  given hash.
- **Inclusion paths** (`_encontrar_caminho`): the same search. While the
  recursion unwinds, it records each sibling's hash and side (`"direita"`,
  `"esquerda"`), from the match up to the root.

The model keeps that structure:

| file | module | what it holds |
|---|---|---|
| `wrappers.dfy` | `Wrappers` | `Option`, standing for Python's `None`/object results |
| `tree.dfy` | `Tree` | `Node` (class `No`), the double digest, well-formedness, pre-order listing |
| `leaf_building.dfy` | `LeafBuilding` | `list.remove`, the leaves of a list of records, multisets of digests |
| `assembly.dfy` | `Assembly` | one pass of the fold (`NextLevel`), its specification `Build`, and the properties of the built tree |
| `lookup.dfy` | `Lookup` | `_busca_no` as `Find` |
| `proofs.dfy` | `InclusionProofs` | `_encontrar_caminho` as `FindPath`, path replay (`Verify`), and soundness |
| `merkle_tree.dfy` | `MerkleTrees` | class `Merkle_tree`: constructor, `salva_transacao`, `monta_tudo`, `busca_transacao`, `gerar_prova_inclusao` |

`sha_256` is a parameter `H: string -> string`. Nothing proved depends on
what it computes. As in the source, hashes are hex strings, and the
assembler concatenates those strings (not raw digest bytes) before hashing.

The source has no proof verifier. `InclusionProofs.Verify` is the replay the
path's labels call for. A `Left` ("esquerda") sibling is concatenated before
the current hash. A `Right` ("direita") sibling is concatenated after it.

Behaviour of the code that the model keeps:

- No records is not an error. The constructor leaves `folhas` empty and
  `raiz` as `None`.
- Parent hashes are taken over the concatenated hex text of the children's
  hashes.
- There is no height or leaf-count accessor. The height of the built tree
  is proved instead: `BuildHeight` ties it to the number of pairing passes,
  and `FoldCountIsCeilLog2` bounds that number by `ceil(log2 n)`.

## Model

| member | source | states |
|---|---|---|
| `LeafBuilding.IndexOf` | blockchain.py:86 | the position found holds `x`, and no earlier position does (the occurrence `list.remove` deletes) |
| `LeafBuilding.RemoveFirst` | blockchain.py:86 | `list.remove(x)` yields the list with its first occurrence of `x` cut out and the other elements in order |
| `LeafBuilding.RemoveFirstCount` | blockchain.py:86 | removing a claimed record takes exactly one copy of it out of the pending multiset |
| `LeafBuilding.ClaimKeepsRecords` | blockchain.py:83-86 | one claim moves exactly one copy of the record from the pending list to the claimed records, so together they hold the same multiset as before |
| `LeafBuilding.DigestsOfPermutation` | blockchain.py:80-94 | records that are permutations of each other have digest multisets that are equal, so leaf order does not change the multiset of leaf hashes |
| `MerkleTrees.MerkleTree.SaveLeaves` | blockchain.py:80-94 | each iteration claims an arbitrary pending record, removes one occurrence, and appends one leaf `H(H(record))`; at exit nothing is pending and the new leaves are those of a permutation of the pending records |
| `MerkleTrees.MerkleTree.constructor` | blockchain.py:25-61 | no records: no leaves and no root; otherwise one leaf per record, leaf-hash multiset = image of the record multiset under `H∘H`, and the root is the assembler's result on the leaves, is well formed, and has height `F` (the number of pairing passes, `ceil(log2 n)`) |
| `Assembly.NextLevel` | blockchain.py:104-113 | one pass over `n` nodes makes `ceil(n/2)` parents |
| `Assembly.NextLevelAt` | blockchain.py:104-113 | parent `k` has left child `nos[2k]` and right child `nos[2k+1]`, or `nos[2k]` itself when that is the last node; its hash is `H(H(left.hash + right.hash))` |
| `Assembly.Build` | blockchain.py:96-115 | `monta_tudo` returns `None` exactly for an empty list and returns the sole node unchanged for a one-node list; the recursion terminates because each pass shrinks the level |
| `MerkleTrees.MerkleTree.Assemble` | blockchain.py:96-115 | the loop and the recursion of `monta_tudo` compute exactly `Build` |
| `Assembly.FoldCountIsCeilLog2` | blockchain.py:96-115 | on `n ≥ 1` nodes the number of pairing passes `F` satisfies `2^(F-1) < n ≤ 2^F`, so `F = ceil(log2 n)` |
| `Assembly.BuildHeight` | blockchain.py:96-115 | when every input node has height `h`, the root `monta_tudo` returns has height `h + F`, with `F` the number of pairing passes; for leaves the tree's height is `ceil(log2 n)` |
| `Assembly.BuildWellFormed` | blockchain.py:104-113 | on well-formed input nodes, every node of the built tree is a leaf or has both children and hash `H(H(left.hash + right.hash))` |
| `Assembly.BuildContainsInputs` | blockchain.py:96-115 | every input node is a node of the built tree |
| `Assembly.NextLevelOddDuplication` | blockchain.py:107-110 | one pass over an odd level gives the same parents as one pass with the last node repeated |
| `Assembly.BuildOddDuplication` | blockchain.py:96-115 | for an odd count of at least three nodes, the root equals the root built with the last node duplicated once |
| `Assembly.NextLevelFringe` | blockchain.py:104-113 | the grandchildren-level reading of a new level is the reading of the old level with its odd last node doubled |
| `Assembly.BuildFringe` | blockchain.py:96-115 | generalisation used for `BuildLeavesInOrder`: at any extra depth, the input level's fringe is a prefix of the root's fringe, and every node of the root's fringe comes from it |
| `Assembly.BuildLeavesInOrder` | blockchain.py:96-115 | the root's leaves, read left to right at the depth of the last pass, start with exactly the input nodes in order, and every later leaf is one of the input nodes |
| `Lookup.Find` | blockchain.py:136-150 | `_busca_no` returns a node of the tree with the target hash, and returns `None` exactly when no node, internal nodes included, has it |
| `Lookup.FindIsFirstInPreOrder` | blockchain.py:136-150 | the node returned is the first in the pre-order listing (node, left, right) with the target hash |
| `MerkleTrees.MerkleTree.FindTransaction` | blockchain.py:117-134 | no root: `None`; otherwise the first pre-order node whose hash is `H(H(record))`; found exactly when some node has that hash, and always found for a record the tree was built from |
| `InclusionProofs.FindPath` | blockchain.py:175-195 | `_encontrar_caminho` returns True (here `Some`) exactly when some node of the subtree has the target hash; on False nothing is appended |
| `InclusionProofs.ReplayAppend` | blockchain.py:184-193 | an entry appended during unwinding is replayed after the entries below it |
| `InclusionProofs.FindPathAddress` | blockchain.py:175-195 | the path search stops at the same node as the lookup (the first pre-order match), and the path holds exactly the sibling entries along that node's address, bottom-up |
| `InclusionProofs.SiblingsAlongShape` | blockchain.py:184-193 | in a well-formed tree there is one entry per edge from the match to the root, lowest first, labelled "direita" (`Right`) for a step into the left child and "esquerda" (`Left`) for a step into the right child |
| `InclusionProofs.ReplayAlong` | blockchain.py:184-193 | in a well-formed tree, replaying the entries along an address from that node's hash reproduces the root hash |
| `InclusionProofs.FindPathSound` | blockchain.py:175-195 | in a well-formed tree, replaying a derived path from the target hash gives the root hash |
| `InclusionProofs.BuiltTreeInclusion` | blockchain.py:96-115 | on a tree built by `monta_tudo`, every input node has a derived path, and replaying that path reproduces the root hash |
| `MerkleTrees.RecordIncluded` | blockchain.py:152-170 | every record the tree was built from is found, its path exists, and `Verify(record, path, root.hash)` holds |
| `MerkleTrees.MerkleTree.InclusionProof` | blockchain.py:152-173 | no root: `None`; otherwise exactly the entries `_encontrar_caminho` appends to the empty `caminho` for `H(H(record))`; a path exists exactly when some node has that hash; it exists for every record the tree was built from, and it always verifies against the root hash |

## Left out

- SHA-256 and hex encoding (blockchain.py:13-16) are a foreign library call. The model takes them as the parameter `H`.
- Threads, locks and `join` (blockchain.py:7-10, 41-50, 82, 93) are left out. The source starts a fixed 8 threads; the model runs one sequential worker. The other seven workers would find the pool empty, and interleavings are not modelled. The arbitrary claim order stands in for the scheduling.
- `random.choice` (blockchain.py:85) becomes an arbitrary index choice. Its distribution is not modelled.
- `leitura_arquivo` and the `os.path.exists` checks (blockchain.py:29-31, 65-77) are file I/O. The constructor takes the records that were read as a list.
- The interactive `input()` menu (blockchain.py:199-222) and all `print` output are left out.
- graficos.py is not part of this model. It holds CSV loading, regressions, charts and reports.
- `_encontrar_caminho` appends to a list the caller passes in. `FindPath` returns the appended entries instead, so the caller's list afterwards is the old list plus those entries. Aliasing of that list is not modelled.
- In the odd case the source makes both children the same object. As datatype values they are just equal, so object identity is not modelled.
- A tampered path must fail verification. That needs collision resistance of SHA-256, which an arbitrary `H` does not have, so it is not stated.
- Hashes can collide. If an internal node's hash equals a record's digest, lookup and path derivation stop at that node, as the code does. The path then still replays to the root hash, but it need not be one entry per level of the leaf.
