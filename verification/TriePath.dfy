/** The path of a key through the tree, bit by bit: the tree is the one that
    splits its leaves by the bits of their keys, highest bit of the first byte
    first, and hashes the left part before the right. */
module TriePath {
  import opened Primitives
  import opened Hashing
  import opened Trie

  /** Bit `j` of a byte, counted from the highest. */
  function Bit(b: Byte, j: nat): nat
    requires j < 8
  {
    match j
    case 0 => b / 128
    case 1 => b / 64 % 2
    case 2 => b / 32 % 2
    case 3 => b / 16 % 2
    case 4 => b / 8 % 2
    case 5 => b / 4 % 2
    case 6 => b / 2 % 2
    case _ => b % 2
  }

  /** Bit `i` of a key, byte after byte. */
  function KeyBit(key: Digest, i: nat): nat
    requires i < 256
  {
    Bit(key[i / 8], i % 8)
  }

  // ---------------------------------------------------------------------
  // Reference: splitting by bits
  // ---------------------------------------------------------------------

  /** The leaves whose key has the given bit. */
  function Side(leaves: map<Digest, Bytes>, i: nat, bit: nat): map<Digest, Bytes>
    requires i < 256
  {
    map k | k in leaves && KeyBit(k, i) == bit :: leaves[k]
  }

  /** The digest of a tree of leaves that agree on their first `i` bits. */
  ghost function SplitTree(h: Hash, leaves: map<Digest, Bytes>, i: nat): Digest
    requires i <= 256
    decreases 256 - i
  {
    if i == 256 then
      if leaves == map[] then seq(32, _ => 0)
      else
        var k :| k in leaves;
        h(leaves[k])
    else
      h(SplitTree(h, Side(leaves, i, 0), i + 1) + SplitTree(h, Side(leaves, i, 1), i + 1))
  }

  // ---------------------------------------------------------------------
  // Bits of big-endian numbers
  // ---------------------------------------------------------------------

  lemma {:induction false} ShiftTwice(x: nat, a: nat, b: nat)
    ensures Shift(x, a + b) == Shift(Shift(x, a), b)
  {
    if b > 0 {
      ShiftTwice(x, a, b - 1);
    }
  }

  /** Shifting a number with a last byte, bit by bit. */
  lemma ShiftForms(y: nat, b: Byte)
    ensures var x := 256 * y + b;
            && Shift(x, 0) == x && Shift(x, 1) == 128 * y + b / 2
            && Shift(x, 2) == 64 * y + b / 4 && Shift(x, 3) == 32 * y + b / 8
            && Shift(x, 4) == 16 * y + b / 16 && Shift(x, 5) == 8 * y + b / 32
            && Shift(x, 6) == 4 * y + b / 64 && Shift(x, 7) == 2 * y + b / 128
            && Shift(x, 8) == y
  {
  }

  lemma EvenPlus(m: nat, r: nat)
    ensures (2 * m + r) % 2 == r % 2
  {
  }

  lemma ShiftInByte(y: nat, b: Byte, d: nat)
    requires d < 8
    ensures Shift(256 * y + b, d) % 2 == Bit(b, 7 - d)
  {
    hide Shift;
    ShiftForms(y, b);
    match d {
      case 0 => EvenPlus(128 * y, b);
      case 1 => EvenPlus(64 * y, b / 2);
      case 2 => EvenPlus(32 * y, b / 4);
      case 3 => EvenPlus(16 * y, b / 8);
      case 4 => EvenPlus(8 * y, b / 16);
      case 5 => EvenPlus(4 * y, b / 32);
      case 6 => EvenPlus(2 * y, b / 64);
      case _ => EvenPlus(y, b / 128);
    }
  }

  lemma {:induction false} BigEndianBit(s: Bytes, d: nat)
    requires d < 8 * |s|
    ensures Shift(FromBigEndian(s), d) % 2 == Bit(s[|s| - 1 - d / 8], 7 - d % 8)
  {
    hide Shift;
    hide Bit;
    var n := |s| - 1;
    var y, b := FromBigEndian(s[..n]), s[n];
    assert FromBigEndian(s) == 256 * y + b;
    hide FromBigEndian;
    if d < 8 {
      ShiftInByte(y, b, d);
    } else {
      ShiftForms(y, b);
      ShiftTwice(256 * y + b, 8, d - 8);
      BigEndianBit(s[..n], d - 8);
      ByteBack(d);
    }
  }

  lemma ByteBack(d: nat)
    requires d >= 8
    ensures (d - 8) / 8 == d / 8 - 1 && (d - 8) % 8 == d % 8
  {
  }

  /** Shifted by `d`, a position ends in bit d % 8, counted from the lowest, of byte 31 - d / 8 of the key. */
  lemma PathBit(key: Digest, d: nat)
    requires d < 256
    ensures Shift(Position(key), d) % 2 == KeyBit(key, 255 - d)
  {
    BigEndianBit(key, d);
    assert (255 - d) / 8 == 31 - d / 8 && (255 - d) % 8 == 7 - d % 8;
  }

  // ---------------------------------------------------------------------
  // The tree is the reference
  // ---------------------------------------------------------------------

  /** The leaves below position `pos` after `i` bits. */
  ghost function Below(leaves: map<Digest, Bytes>, i: nat, pos: nat): map<Digest, Bytes>
    requires i <= 256
  {
    map k | k in leaves && Shift(Position(k), 256 - i) == pos :: leaves[k]
  }

  lemma SideBelow(leaves: map<Digest, Bytes>, i: nat, pos: nat, bit: nat)
    requires i < 256 && bit < 2
    ensures Side(Below(leaves, i, pos), i, bit) == Below(leaves, i + 1, 2 * pos + bit)
  {
    forall k | k in leaves
      ensures Shift(Position(k), 256 - i) == pos && KeyBit(k, i) == bit
              <==> Shift(Position(k), 255 - i) == 2 * pos + bit
    {
      PathBit(k, 255 - i);
      assert Shift(Position(k), 256 - i) == Shift(Position(k), 255 - i) / 2;
    }
  }

  lemma LeafBelow(h: Hash, leaves: map<Digest, Bytes>, pos: nat)
    ensures SplitTree(h, Below(leaves, 256, pos), 256) == Subtree(h, LeafLevel(h, leaves), 0, pos)
  {
    var below := Below(leaves, 256, pos);
    forall k | k in leaves ensures Shift(Position(k), 0) == Position(k) {}
    PositionsDiffer();
    if k :| k in leaves && Position(k) == pos {
      assert k in below;
      var j :| j in below && SplitTree(h, below, 256) == h(below[j]);
      assert Position(j) == pos;
    } else {
      assert below == map[];
    }
  }

  lemma SplitStep(h: Hash, leaves: map<Digest, Bytes>, i: nat)
    requires i < 256
    ensures SplitTree(h, leaves, i)
            == h(SplitTree(h, Side(leaves, i, 0), i + 1) + SplitTree(h, Side(leaves, i, 1), i + 1))
  {
  }

  lemma SubtreeStep(h: Hash, base: map<nat, Digest>, d: nat, pos: nat)
    ensures Subtree(h, base, d + 1, pos) == h(Subtree(h, base, d, 2 * pos) + Subtree(h, base, d, 2 * pos + 1))
  {
  }

  lemma {:induction false} BelowIsSubtree(h: Hash, leaves: map<Digest, Bytes>, i: nat, d: nat, pos: nat)
    requires i + d == 256
    ensures SplitTree(h, Below(leaves, i, pos), i) == Subtree(h, LeafLevel(h, leaves), d, pos)
    decreases d
  {
    hide *;
    if d == 0 {
      LeafBelow(h, leaves, pos);
    } else {
      SplitStep(h, Below(leaves, i, pos), i);
      SubtreeStep(h, LeafLevel(h, leaves), d - 1, pos);
      SideBelow(leaves, i, pos, 0);
      SideBelow(leaves, i, pos, 1);
      BelowIsSubtree(h, leaves, i + 1, d - 1, 2 * pos);
      BelowIsSubtree(h, leaves, i + 1, d - 1, 2 * pos + 1);
    }
  }

  /** The Merkle root is the digest of the tree that splits the leaves bit by bit. */
  lemma RootSplitsByBits(h: Hash, leaves: map<Digest, Bytes>)
    ensures MerkleRoot(h, leaves) == SplitTree(h, leaves, 0)
  {
    hide SplitTree;
    hide Subtree;
    BelowIsSubtree(h, leaves, 0, 256, 0);
    AllBelow(leaves);
  }

  lemma AllBelow(leaves: map<Digest, Bytes>)
    ensures Below(leaves, 0, 0) == leaves
  {
    forall k | k in leaves ensures Shift(Position(k), 256) == 0 {
      BigEndianBound(k);
      ShiftBound(Position(k), 256, 256);
    }
  }

  function LowHalf(leaves: map<Digest, Bytes>): map<Digest, Bytes> {
    map k | k in leaves && k[0] < 128 :: leaves[k]
  }

  function HighHalf(leaves: map<Digest, Bytes>): map<Digest, Bytes> {
    map k | k in leaves && k[0] >= 128 :: leaves[k]
  }

  /** Keys whose first byte is below 128 are in the left half, the others in the right. */
  lemma RootHalves(h: Hash, leaves: map<Digest, Bytes>)
    ensures MerkleRoot(h, leaves) == h(SplitTree(h, LowHalf(leaves), 1) + SplitTree(h, HighHalf(leaves), 1))
  {
    hide SplitTree;
    hide MerkleRoot;
    RootSplitsByBits(h, leaves);
    SplitStep(h, leaves, 0);
    assert Side(leaves, 0, 0) == LowHalf(leaves);
    assert Side(leaves, 0, 1) == HighHalf(leaves);
  }
}
