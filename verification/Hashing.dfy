/** Byte strings, 32-byte digests and an arbitrary hash function.

    The node hashes with BLAKE3. Nothing here assumes that hash to be
    injective: every function to 32 bytes has collisions somewhere. Results
    that would need injectivity name instead the two inputs, both hashed by
    the computations they speak of, that collide when the result fails. */
module Hashing {
  import opened Primitives

  type Digest = d: Bytes | |d| == 32 witness seq(32, _ => 0)
  type Hash = Bytes -> Digest

  /** Two different inputs with the same digest. */
  ghost predicate Collides(h: Hash, x: Bytes, y: Bytes) {
    x != y && h(x) == h(y)
  }

  /** The digest of two digests laid side by side in 64 bytes. */
  function HashPair(h: Hash, left: Digest, right: Digest): Digest {
    h(left + right)
  }

  /** Equal pair digests have equal halves, or these two pairs collide. */
  lemma PairBinding(h: Hash, l0: Digest, r0: Digest, l1: Digest, r1: Digest)
    requires HashPair(h, l0, r0) == HashPair(h, l1, r1)
    ensures (l0 == l1 && r0 == r1) || Collides(h, l0 + r0, l1 + r1)
  {
    if l0 + r0 == l1 + r1 {
      assert l0 == (l0 + r0)[..32] == l1;
      assert r0 == (l0 + r0)[32..] == r1;
    }
  }

  /** A byte string read as a big-endian number. */
  function FromBigEndian(s: Bytes): nat {
    if s == [] then 0 else 256 * FromBigEndian(s[..|s| - 1]) + s[|s| - 1]
  }

  function Pow2(n: nat): nat {
    if n == 0 then 1 else 2 * Pow2(n - 1)
  }

  lemma {:induction false} BigEndianBound(s: Bytes)
    ensures FromBigEndian(s) < Pow2(8 * |s|)
  {
    if s != [] {
      BigEndianBound(s[..|s| - 1]);
      Pow2Step8(8 * (|s| - 1));
      assert 8 * |s| == 8 * (|s| - 1) + 8;
    }
  }

  lemma Pow2Step8(n: nat)
    ensures Pow2(n + 8) == 256 * Pow2(n)
  {
    assert Pow2(n + 8) == 2 * Pow2(n + 7);
    assert Pow2(n + 7) == 2 * Pow2(n + 6);
    assert Pow2(n + 6) == 2 * Pow2(n + 5);
    assert Pow2(n + 5) == 2 * Pow2(n + 4);
    assert Pow2(n + 4) == 2 * Pow2(n + 3);
    assert Pow2(n + 3) == 2 * Pow2(n + 2);
    assert Pow2(n + 2) == 2 * Pow2(n + 1);
  }

  lemma {:induction false} BigEndianInjective(s: Bytes, t: Bytes)
    requires |s| == |t| && FromBigEndian(s) == FromBigEndian(t)
    ensures s == t
  {
    if s != [] {
      var n := |s| - 1;
      assert s[n] == t[n];
      BigEndianInjective(s[..n], t[..n]);
      assert s == s[..n] + [s[n]] && t == t[..n] + [t[n]];
    }
  }
}
