/** Root hashes, transactions, headers and blocks (trie/node.go, core/types).

    Hashing is symbolic: a hash is a constructor applied to what is hashed, so it determines that
    value, and no hash equals the empty one. The hash of a header thus determines its parent and all
    its ancestors, and the root hash of a trie determines the whole trie. */
module Blocks {
  import opened Basics

  // ----- tries -----

  type Nibble = n: int | 0 <= n <= 16
  type Key = seq<Nibble>
  type Value = seq<byte>

  datatype Digest = EmptyDigest | DigestOf(node: Encoding)

  datatype Encoding =
    | LeafEnc(key: Key, value: Value)
    | ExtendEnc(key: Key, next: Digest)
    | BranchEnc(children: seq<Digest>)

  // ----- blocks -----

  type Address = seq<byte>

  datatype Hash = EmptyHash | HashOf(header: Header)

  /** `rest` stands for the header fields that are not modelled. Heights are unbounded. */
  datatype Header = Header(prev: Hash, height: nat, difficulty: int, stateHash: Digest, creator: Address, rest: nat)

  /** `signed` stands for the checks of hash and signature. */
  datatype Tx = Tx(from: Address, to: Option<Address>, amount: Option<int>, nonce: uint64,
                   payload: seq<byte>, signed: bool)

  datatype Block = Block(hash: Hash, header: Header, txs: seq<Tx>)
}
