/**
 Merkle audit paths of perfect trees: the honest path of every leaf is accepted, and acceptance of
 anything else yields two explicit inputs with the same hash.
 */
module Merkle {
  import opened Wrappers
  import opened Bytes

  type Hash = s: seq<Byte> | |s| == 32 witness seq(32, _ => 0)

  /** SHA-256 and base64url decoding. */
  datatype Crypto = Crypto(sha256: seq<Byte> -> Hash, decode: string -> Option<seq<Byte>>)

  datatype InclusionProof = InclusionProof(leafIndex: nat, leafHash: string, auditPath: seq<string>)

  function LeafHash(c: Crypto, leaf: seq<Byte>): Hash {
    c.sha256([0] + leaf)
  }

  function NodeHash(c: Crypto, left: Hash, right: Hash): Hash {
    c.sha256([1] + left + right)
  }

  function Pow2(n: nat): (p: nat)
    ensures p > 0
  {
    if n == 0 then 1 else 2 * Pow2(n - 1)
  }

  /** The bit of this weight. */
  function BitOf(index: nat, weight: nat): nat
    requires weight > 0
  {
    index / weight % 2
  }

  /** `(index >> i) & 1` on 64-bit words; the shift amount wraps at 64. */
  function Bit(index: nat, i: nat): nat {
    BitOf(index, Pow2(i % 64))
  }

  // ---- verification --------------------------------------------------------

  function Step(c: Crypto, index: nat, i: nat, node: Hash, sibling: Hash): Hash {
    if Bit(index, i) == 0 then NodeHash(c, node, sibling) else NodeHash(c, sibling, node)
  }

  /** The hash after folding the path, bottom up. */
  function Fold(c: Crypto, index: nat, leaf: Hash, path: seq<Hash>): Hash {
    if path == [] then leaf
    else
      var n := |path| - 1;
      Step(c, index, n, Fold(c, index, leaf, path[..n]), path[n])
  }

  function DecodeHash(c: Crypto, text: string): Option<Hash> {
    match c.decode(text)
    case None => None
    case Some(bytes) => if |bytes| == 32 then Some(bytes) else None
  }

  /** The decoded path, if every step is a hash. */
  function DecodePath(c: Crypto, path: seq<string>): (r: Option<seq<Hash>>)
    ensures r.Some? ==> |r.value| == |path|
  {
    if path == [] then Some([])
    else
      match DecodePath(c, path[..|path| - 1])
      case None => None
      case Some(hashes) =>
        match DecodeHash(c, path[|path| - 1])
        case None => None
        case Some(h) => Some(hashes + [h])
  }

  predicate Accepts(c: Crypto, proof: InclusionProof, rootHash: string, leaf: seq<Byte>) {
    var path := DecodePath(c, proof.auditPath);
    && c.decode(proof.leafHash) == Some(LeafHash(c, leaf))
    && path.Some?
    && c.decode(rootHash) == Some(Fold(c, proof.leafIndex, LeafHash(c, leaf), path.value))
  }

  /** `leaf` is the canonical JSON of the entry. */
  method VerifyInclusion(c: Crypto, proof: InclusionProof, rootHash: string, leaf: seq<Byte>) returns (ok: bool)
    ensures ok <==> Accepts(c, proof, rootHash, leaf)
  {
    var nodeHash: Hash := c.sha256([0] + leaf);
    if c.decode(proof.leafHash) != Some(nodeHash) {
      return false;
    }
    ghost var hashes: seq<Hash> := [];
    var i := 0;
    while i < |proof.auditPath|
      invariant 0 <= i <= |proof.auditPath|
      invariant DecodePath(c, proof.auditPath[..i]) == Some(hashes)
      invariant nodeHash == Fold(c, proof.leafIndex, LeafHash(c, leaf), hashes)
    {
      assert proof.auditPath[..i + 1][..i] == proof.auditPath[..i];
      var sibling := c.decode(proof.auditPath[i]);
      if sibling.None? || |sibling.value| != 32 {
        BadStepSpoils(c, proof.auditPath, i);
        return false;
      }
      if Bit(proof.leafIndex, i) == 0 {
        nodeHash := c.sha256([1] + nodeHash + sibling.value);
      } else {
        nodeHash := c.sha256([1] + sibling.value + nodeHash);
      }
      assert (hashes + [sibling.value])[..i] == hashes;
      hashes := hashes + [sibling.value];
      i := i + 1;
    }
    assert proof.auditPath[..i] == proof.auditPath;
    ok := c.decode(rootHash) == Some(nodeHash);
  }

  lemma {:induction false} BadStepSpoils(c: Crypto, path: seq<string>, i: nat)
    requires i < |path| && DecodeHash(c, path[i]).None?
    ensures DecodePath(c, path).None?
  {
    if i < |path| - 1 {
      BadStepSpoils(c, path[..|path| - 1], i);
    }
  }

  // ---- perfect trees -------------------------------------------------------

  type Leaves = seq<seq<Byte>>

  predicate Perfect(leaves: Leaves, depth: nat) {
    |leaves| == Pow2(depth)
  }

  function Left(leaves: Leaves, depth: nat): (half: Leaves)
    requires depth > 0 && Perfect(leaves, depth)
    ensures Perfect(half, depth - 1)
  {
    leaves[..Pow2(depth - 1)]
  }

  function Right(leaves: Leaves, depth: nat): (half: Leaves)
    requires depth > 0 && Perfect(leaves, depth)
    ensures Perfect(half, depth - 1)
  {
    leaves[Pow2(depth - 1)..]
  }

  /** The Merkle tree head, section 2.1.1 of RFC 9162. */
  function Root(c: Crypto, leaves: Leaves, depth: nat): Hash
    requires Perfect(leaves, depth)
  {
    if depth == 0 then c.sha256([0x00] + leaves[0])
    else c.sha256([0x01] + Root(c, Left(leaves, depth), depth - 1) + Root(c, Right(leaves, depth), depth - 1))
  }

  /** The half of the tree that holds the leaf at this index, and the other one. */
  function Towards(leaves: Leaves, depth: nat, index: nat): (half: Leaves)
    requires depth > 0 && Perfect(leaves, depth)
    ensures Perfect(half, depth - 1)
  {
    if BitOf(index, Pow2(depth - 1)) == 0 then Left(leaves, depth) else Right(leaves, depth)
  }

  function Away(leaves: Leaves, depth: nat, index: nat): (half: Leaves)
    requires depth > 0 && Perfect(leaves, depth)
    ensures Perfect(half, depth - 1)
  {
    if BitOf(index, Pow2(depth - 1)) == 0 then Right(leaves, depth) else Left(leaves, depth)
  }

  /** The siblings on the way from the leaf to the root. */
  function AuditPath(c: Crypto, leaves: Leaves, depth: nat, index: nat): (path: seq<Hash>)
    requires Perfect(leaves, depth)
    ensures |path| == depth
  {
    if depth == 0 then []
    else AuditPath(c, Towards(leaves, depth, index), depth - 1, index) + [Root(c, Away(leaves, depth, index), depth - 1)]
  }

  /** The leaf the bits of the index lead to. */
  function LeafAt(leaves: Leaves, depth: nat, index: nat): seq<Byte>
    requires Perfect(leaves, depth)
  {
    if depth == 0 then leaves[0] else LeafAt(Towards(leaves, depth, index), depth - 1, index)
  }

  /** It is the leaf at the index, whose bits above the depth play no part. */
  lemma {:induction false} LeafAtIs(leaves: Leaves, depth: nat, index: nat)
    requires Perfect(leaves, depth)
    ensures index % Pow2(depth) < Pow2(depth) && LeafAt(leaves, depth, index) == leaves[index % Pow2(depth)]
  {
    if depth > 0 {
      var half := Pow2(depth - 1);
      LeafAtIs(Towards(leaves, depth, index), depth - 1, index);
      SplitIndex(index, half);
    }
  }

  lemma SplitIndex(index: nat, half: nat)
    requires half > 0
    ensures index % (2 * half) == index % half + if index / half % 2 == 0 then 0 else half
  {
    var q, r := index / half, index % half;
    var a := q / 2;
    assert index == half * q + r;
    Halves(half, a);
    if q % 2 == 0 {
      assert q == 2 * a;
      RemainderIs(index, a, 2 * half, r);
    } else {
      assert q == 2 * a + 1;
      RemainderIs(index, a, 2 * half, half + r);
    }
  }

  lemma Halves(half: nat, a: nat)
    ensures half * (2 * a) == a * (2 * half)
    ensures half * (2 * a + 1) == a * (2 * half) + half
  {
  }

  lemma Monotone(a: int, b: int, m: nat)
    requires a <= b
    ensures a * m <= b * m
  {
  }

  lemma RemainderIs(n: nat, k: nat, m: nat, r: nat)
    requires m > 0 && n == k * m + r && r < m
    ensures n % m == r
  {
    var q := n / m;
    assert n == q * m + n % m;
    if q < k {
      Monotone(q + 1, k, m);
    } else if k < q {
      Monotone(k + 1, q, m);
    }
  }

  lemma LowBit(index: nat, i: nat)
    requires i < 64
    ensures Bit(index, i) == BitOf(index, Pow2(i))
  {
    assert i % 64 == i;
  }

  /** Folding the honest path of a leaf gives the root. */
  lemma {:induction false} HonestPathFolds(c: Crypto, leaves: Leaves, depth: nat, index: nat)
    requires Perfect(leaves, depth) && depth <= 64
    ensures Fold(c, index, LeafHash(c, LeafAt(leaves, depth, index)), AuditPath(c, leaves, depth, index))
         == Root(c, leaves, depth)
  {
    if depth > 0 {
      var path := AuditPath(c, leaves, depth, index);
      HonestPathFolds(c, Towards(leaves, depth, index), depth - 1, index);
      LowBit(index, depth - 1);
      assert path[..depth - 1] == AuditPath(c, Towards(leaves, depth, index), depth - 1, index);
    }
  }

  /** The entry stands at the index, its hash is the one given, and the texts are the sibling hashes on its way to the root. */
  ghost predicate Genuine(c: Crypto, leaves: Leaves, depth: nat, proof: InclusionProof, leaf: seq<Byte>)
    requires Perfect(leaves, depth)
  {
    && (var i := proof.leafIndex % Pow2(depth); i < |leaves| && leaf == leaves[i])
    && c.decode(proof.leafHash) == Some(c.sha256([0x00] + leaf))
    && |proof.auditPath| == depth
    && forall i :: 0 <= i < depth ==> c.decode(proof.auditPath[i]) == Some(AuditPath(c, leaves, depth, proof.leafIndex)[i])
  }

  lemma {:induction false} PathDecodesWhen(c: Crypto, texts: seq<string>, hashes: seq<Hash>)
    ensures DecodePath(c, texts) == Some(hashes) <==>
            |texts| == |hashes| && forall i :: 0 <= i < |texts| ==> c.decode(texts[i]) == Some(hashes[i])
  {
    if texts != [] && |hashes| == |texts| {
      var n := |texts| - 1;
      PathDecodesWhen(c, texts[..n], hashes[..n]);
      assert hashes == hashes[..n] + [hashes[n]];
    }
  }

  /** A genuine proof is accepted. */
  lemma HonestProofAccepted(
    c: Crypto, leaves: Leaves, depth: nat, proof: InclusionProof, rootHash: string, leaf: seq<Byte>)
    requires Perfect(leaves, depth) && depth <= 64
    requires Genuine(c, leaves, depth, proof, leaf) && c.decode(rootHash) == Some(Root(c, leaves, depth))
    ensures Accepts(c, proof, rootHash, leaf)
  {
    LeafAtIs(leaves, depth, proof.leafIndex);
    HonestPathFolds(c, leaves, depth, proof.leafIndex);
    PathDecodesWhen(c, proof.auditPath, AuditPath(c, leaves, depth, proof.leafIndex));
  }

  // ---- soundness -----------------------------------------------------------

  ghost predicate Collision(c: Crypto, x: seq<Byte>, y: seq<Byte>) {
    x != y && c.sha256(x) == c.sha256(y)
  }

  /**
   Of all leaves and paths of any length, every one that folds to the root of a tree but is not the
   leaf at that index with its own path gives two different inputs of the hash function with one hash.
   */
  lemma {:induction false} ForgeryFindsCollision(
    c: Crypto, leaves: Leaves, depth: nat, index: nat, leaf: seq<Byte>, path: seq<Hash>)
    returns (x: seq<Byte>, y: seq<Byte>)
    requires Perfect(leaves, depth) && depth <= 64
    requires Fold(c, index, LeafHash(c, leaf), path) == Root(c, leaves, depth)
    requires leaf != LeafAt(leaves, depth, index) || path != AuditPath(c, leaves, depth, index)
    ensures Collision(c, x, y)
    decreases |path|
  {
    if path == [] || depth == 0 {
      x, y := FoldPreimage(c, index, leaf, path), RootPreimage(c, leaves, depth);
      assert x[0] == (if path == [] then 0 else 1) && y[0] == if depth == 0 then 0 else 1;
      if path == [] && depth == 0 {
        assert x[1..] == leaf && y[1..] == leaves[0];
      }
    } else {
      var n := |path| - 1;
      var node, sibling := Fold(c, index, LeafHash(c, leaf), path[..n]), path[n];
      var left, right := Root(c, Left(leaves, depth), depth - 1), Root(c, Right(leaves, depth), depth - 1);
      var a, b := if Bit(index, n) == 0 then node else sibling, if Bit(index, n) == 0 then sibling else node;
      if a != left || b != right {
        x, y := [1] + a + b, [1] + left + right;
        assert x[1..33] == a && x[33..] == b && y[1..33] == left && y[33..] == right;
      } else if n == depth - 1 {
        LowBit(index, n);
        assert path == path[..n] + [sibling];
        x, y := ForgeryFindsCollision(c, Towards(leaves, depth, index), depth - 1, index, leaf, path[..n]);
      } else {
        var half := if Bit(index, n) == 0 then Left(leaves, depth) else Right(leaves, depth);
        x, y := ForgeryFindsCollision(c, half, depth - 1, index, leaf, path[..n]);
      }
    }
  }

  ghost function FoldPreimage(c: Crypto, index: nat, leaf: seq<Byte>, path: seq<Hash>): (x: seq<Byte>)
    ensures c.sha256(x) == Fold(c, index, LeafHash(c, leaf), path)
    ensures x != [] && x[0] == if path == [] then 0 else 1
    ensures path == [] ==> x == [0] + leaf
  {
    if path == [] then [0] + leaf
    else
      var n := |path| - 1;
      var node, sibling := Fold(c, index, LeafHash(c, leaf), path[..n]), path[n];
      if Bit(index, n) == 0 then [1] + node + sibling else [1] + sibling + node
  }

  ghost function RootPreimage(c: Crypto, leaves: Leaves, depth: nat): (y: seq<Byte>)
    requires Perfect(leaves, depth)
    ensures c.sha256(y) == Root(c, leaves, depth)
    ensures y != [] && y[0] == if depth == 0 then 0 else 1
    ensures depth == 0 ==> y == [0] + leaves[0]
  {
    if depth == 0 then [0] + leaves[0]
    else [1] + Root(c, Left(leaves, depth), depth - 1) + Root(c, Right(leaves, depth), depth - 1)
  }

  /** Acceptance against a tree's root means the proof is genuine, or hands over a collision. */
  lemma AcceptedIsGenuineOrCollides(
    c: Crypto, leaves: Leaves, depth: nat, proof: InclusionProof, rootHash: string, leaf: seq<Byte>)
    returns (x: seq<Byte>, y: seq<Byte>)
    requires Perfect(leaves, depth) && depth <= 64
    requires c.decode(rootHash) == Some(Root(c, leaves, depth)) && Accepts(c, proof, rootHash, leaf)
    ensures (x != y && c.sha256(x) == c.sha256(y)) || Genuine(c, leaves, depth, proof, leaf)
  {
    x, y := [], [];
    var path := DecodePath(c, proof.auditPath).value;
    LeafAtIs(leaves, depth, proof.leafIndex);
    PathDecodesWhen(c, proof.auditPath, path);
    if leaf != LeafAt(leaves, depth, proof.leafIndex) || path != AuditPath(c, leaves, depth, proof.leafIndex) {
      x, y := ForgeryFindsCollision(c, leaves, depth, proof.leafIndex, leaf, path);
    }
  }
}
