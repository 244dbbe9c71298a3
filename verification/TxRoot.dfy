/** The transaction root of a block: a left-nested hash chain over sorted hashes. */
module TxRoot {
  import opened Primitives
  import opened Hashing
  import opened Sorting

  /** Byte-wise lexicographic order of equal-length digests, as big-endian numbers. */
  predicate DigestLe(a: Digest, b: Digest) {
    FromBigEndian(a) <= FromBigEndian(b)
  }

  lemma DigestOrder()
    ensures TotalPreorder(DigestLe) && AntiSymmetric(DigestLe)
  {
    forall a: Digest, b: Digest | DigestLe(a, b) && DigestLe(b, a) ensures a == b {
      BigEndianInjective(a, b);
    }
  }

  /** At the first byte in which the two differ, the first is smaller. */
  ghost predicate ByteBefore(a: Bytes, b: Bytes) {
    exists i :: 0 <= i < |a| && i < |b| && a[..i] == b[..i] && a[i] < b[i]
  }

  lemma {:induction false} ByteBeforeIsLess(a: Bytes, b: Bytes, i: nat)
    requires |a| == |b| && i < |a| && a[..i] == b[..i] && a[i] < b[i]
    ensures FromBigEndian(a) < FromBigEndian(b)
  {
    var n := |a| - 1;
    if i < n {
      assert a[..n][..i] == a[..i] && b[..n][..i] == b[..i];
      ByteBeforeIsLess(a[..n], b[..n], i);
    }
  }

  lemma {:induction false} FirstDifference(a: Bytes, b: Bytes) returns (i: nat)
    requires |a| == |b| && a != b
    ensures i < |a| && a[..i] == b[..i] && a[i] != b[i]
  {
    if a[0] == b[0] {
      assert a == [a[0]] + a[1..] && b == [b[0]] + b[1..];
      var j := FirstDifference(a[1..], b[1..]);
      i := j + 1;
      assert a[..i] == [a[0]] + a[1..][..j] && b[..i] == [b[0]] + b[1..][..j];
    } else {
      i := 0;
    }
  }

  /** The order of the sort is the lexicographic order of the bytes. */
  lemma DigestLeIff(a: Digest, b: Digest)
    ensures DigestLe(a, b) <==> a == b || ByteBefore(a, b)
  {
    if a != b {
      var i := FirstDifference(a, b);
      if a[i] < b[i] {
        ByteBeforeIsLess(a, b, i);
      } else {
        ByteBeforeIsLess(b, a, i);
        if j :| 0 <= j < |a| && j < |b| && a[..j] == b[..j] && a[j] < b[j] {
          ByteBeforeIsLess(a, b, j);
        }
      }
    }
  }

  function LeafHashes(h: Hash, txs: seq<Bytes>): seq<Digest> {
    if txs == [] then [] else LeafHashes(h, txs[..|txs| - 1]) + [h(txs[|txs| - 1])]
  }

  /** `root := h(root ++ next)` from the first hash on. */
  function Chain(h: Hash, hashes: seq<Digest>): Digest
    requires hashes != []
  {
    if |hashes| == 1 then hashes[0]
    else HashPair(h, Chain(h, hashes[..|hashes| - 1]), hashes[|hashes| - 1])
  }

  /** The root of a list of encoded transactions. */
  function Root(h: Hash, txs: seq<Bytes>): Digest {
    if txs == [] then h([])
    else
      SortPermutes(LeafHashes(h, txs), DigestLe);
      Chain(h, Sort(LeafHashes(h, txs), DigestLe))
  }

  /** The hash of every transaction, each as often as it occurs, the smaller in
      byte order first. */
  ghost predicate HashList(h: Hash, txs: seq<Bytes>, hashes: seq<Digest>) {
    && multiset(hashes) == multiset(seq(|txs|, i requires 0 <= i < |txs| => h(txs[i])))
    && forall i, j :: 0 <= i < j < |hashes| ==> hashes[i] == hashes[j] || ByteBefore(hashes[i], hashes[j])
  }

  /** h(… h(h(root ++ rest[0]) ++ rest[1]) … ++ the last of `rest`). */
  ghost function NestLeft(h: Hash, root: Digest, rest: seq<Digest>): Digest
    decreases |rest|
  {
    if rest == [] then root else NestLeft(h, h(root + rest[0]), rest[1..])
  }

  lemma {:induction false} NestLeftLast(h: Hash, root: Digest, rest: seq<Digest>)
    requires rest != []
    ensures NestLeft(h, root, rest) == h(NestLeft(h, root, rest[..|rest| - 1]) + rest[|rest| - 1])
    decreases |rest|
  {
    if |rest| > 1 {
      NestLeftLast(h, h(root + rest[0]), rest[1..]);
      assert rest[1..][..|rest| - 2] == rest[..|rest| - 1][1..];
    }
  }

  lemma {:induction false} ChainNestsLeft(h: Hash, hashes: seq<Digest>)
    requires hashes != []
    ensures Chain(h, hashes) == NestLeft(h, hashes[0], hashes[1..])
  {
    var n := |hashes| - 1;
    if n > 0 {
      ChainNestsLeft(h, hashes[..n]);
      NestLeftLast(h, hashes[0], hashes[1..]);
      assert hashes[1..][..n - 1] == hashes[..n][1..];
    }
  }

  lemma SortedIsHashList(h: Hash, txs: seq<Bytes>)
    ensures HashList(h, txs, Sort(LeafHashes(h, txs), DigestLe))
  {
    var leaves := LeafHashes(h, txs);
    LeafHashesAt(h, txs);
    assert leaves == seq(|txs|, i requires 0 <= i < |txs| => h(txs[i]));
    DigestOrder();
    SortPermutes(leaves, DigestLe);
    SortSorts(leaves, DigestLe);
    var sorted := Sort(leaves, DigestLe);
    forall i, j | 0 <= i < j < |sorted| ensures sorted[i] == sorted[j] || ByteBefore(sorted[i], sorted[j]) {
      assert DigestLe(sorted[i], sorted[j]);
      DigestLeIff(sorted[i], sorted[j]);
    }
  }

  /** The list of transaction hashes in byte order is unique, and its left-nested
      chain is the root. */
  lemma RootNestsLeft(h: Hash, txs: seq<Bytes>, hashes: seq<Digest>)
    requires HashList(h, txs, hashes) && txs != []
    ensures hashes != [] && Root(h, txs) == NestLeft(h, hashes[0], hashes[1..])
  {
    var sorted := Sort(LeafHashes(h, txs), DigestLe);
    SortedIsHashList(h, txs);
    SortPermutes(LeafHashes(h, txs), DigestLe);
    LeafHashesAt(h, txs);
    DigestOrder();
    SortSorts(LeafHashes(h, txs), DigestLe);
    forall i, j | 0 <= i < j < |hashes| ensures DigestLe(hashes[i], hashes[j]) {
      DigestLeIff(hashes[i], hashes[j]);
    }
    SortedUnique(sorted, hashes, DigestLe);
    ChainNestsLeft(h, hashes);
  }

  /** The digest of the empty input, or the chain of the hashes in byte order. */
  ghost predicate IsRoot(h: Hash, txs: seq<Bytes>, root: Digest) {
    && (txs == [] ==> root == h([]))
    && (txs != [] ==> forall hashes: seq<Digest> :: HashList(h, txs, hashes) ==>
          hashes != [] && root == NestLeft(h, hashes[0], hashes[1..]))
    && exists hashes: seq<Digest> :: HashList(h, txs, hashes)
  }

  lemma RootIsRoot(h: Hash, txs: seq<Bytes>)
    ensures IsRoot(h, txs, Root(h, txs))
  {
    SortedIsHashList(h, txs);
    forall hashes | txs != [] && HashList(h, txs, hashes)
      ensures hashes != [] && Root(h, txs) == NestLeft(h, hashes[0], hashes[1..])
    {
      RootNestsLeft(h, txs, hashes);
    }
  }

  method ComputeTxRoot(h: Hash, txs: seq<Bytes>) returns (root: Digest)
    ensures root == Root(h, txs) && IsRoot(h, txs, root)
  {
    RootIsRoot(h, txs);
    hide IsRoot;
    hide Sort;
    hide DigestLe;
    if txs == [] {
      return h([]);
    }
    var hashes: seq<Digest> := [];
    for i := 0 to |txs|
      invariant hashes == LeafHashes(h, txs[..i]) && |hashes| == i
    {
      assert txs[..i + 1][..i] == txs[..i];
      hashes := hashes + [h(txs[i])];
    }
    assert txs[..|txs|] == txs;
    SortPermutes(hashes, DigestLe);
    hashes := Sort(hashes, DigestLe);
    root := hashes[0];
    for i := 1 to |hashes|
      invariant root == Chain(h, hashes[..i])
    {
      assert hashes[..i + 1][..i] == hashes[..i];
      root := h(root + hashes[i]);
    }
    assert hashes[..|hashes|] == hashes;
  }

  // ---------------------------------------------------------------------
  // Canonical: the order of transactions does not matter
  // ---------------------------------------------------------------------

  lemma {:induction false} LeafHashesAt(h: Hash, txs: seq<Bytes>)
    ensures |LeafHashes(h, txs)| == |txs|
    ensures forall i :: 0 <= i < |txs| ==> LeafHashes(h, txs)[i] == h(txs[i])
  {
    if txs != [] {
      LeafHashesAt(h, txs[..|txs| - 1]);
    }
  }

  lemma {:induction false} LeafHashesAppend(h: Hash, a: seq<Bytes>, b: seq<Bytes>)
    ensures LeafHashes(h, a + b) == LeafHashes(h, a) + LeafHashes(h, b)
  {
    if b == [] {
      assert a + b == a;
    } else {
      assert (a + b)[..|a + b| - 1] == a + b[..|b| - 1];
      LeafHashesAppend(h, a, b[..|b| - 1]);
    }
  }

  lemma LeafHashesSplit(h: Hash, p: seq<Bytes>, x: Bytes, q: seq<Bytes>)
    ensures LeafHashes(h, p + [x] + q) == LeafHashes(h, p) + [h(x)] + LeafHashes(h, q)
  {
    LeafHashesAppend(h, p + [x], q);
    assert (p + [x])[..|p|] == p;
  }

  /** Taking out one transaction takes out its hash. */
  lemma RemoveLeaf(h: Hash, txs: seq<Bytes>, p: seq<Bytes>, x: Bytes, q: seq<Bytes>)
    requires txs == p + [x] + q
    ensures multiset(LeafHashes(h, txs)) == multiset(LeafHashes(h, p + q)) + multiset{h(x)}
    ensures multiset(txs) == multiset(p + q) + multiset{x}
  {
    LeafHashesSplit(h, p, x, q);
    LeafHashesAppend(h, p, q);
  }

  lemma {:induction false} LeafHashesPermutation(h: Hash, a: seq<Bytes>, b: seq<Bytes>)
    requires multiset(a) == multiset(b)
    ensures multiset(LeafHashes(h, a)) == multiset(LeafHashes(h, b))
  {
    if a == [] {
      assert |b| == |multiset(b)| == 0;
    } else {
      var p, q := TakeOut(a, b);
      LeafHashesPermutation(h, a[1..], p + q);
      assert a == [] + [a[0]] + a[1..] && [] + a[1..] == a[1..];
      RemoveLeaf(h, a, [], a[0], a[1..]);
      RemoveLeaf(h, b, p, a[0], q);
    }
  }

  /** Any two orders of the same transactions have the same root. */
  lemma RootCanonical(h: Hash, a: seq<Bytes>, b: seq<Bytes>)
    requires multiset(a) == multiset(b)
    ensures Root(h, a) == Root(h, b)
  {
    assert |a| == |multiset(a)| == |multiset(b)| == |b|;
    DigestOrder();
    LeafHashesPermutation(h, a, b);
    SortOrderIndependent(LeafHashes(h, a), LeafHashes(h, b), DigestLe);
  }

  // ---------------------------------------------------------------------
  // Binding: the root determines the transactions
  // ---------------------------------------------------------------------

  /** The sorted transaction hashes the chain runs over. */
  function SortedHashes(h: Hash, txs: seq<Bytes>): seq<Digest> {
    Sort(LeafHashes(h, txs), DigestLe)
  }

  /** The 64 bytes hashed when the chain takes in element `i`. */
  function Link(h: Hash, hashes: seq<Digest>, i: nat): Bytes
    requires 1 <= i < |hashes|
  {
    Chain(h, hashes[..i]) + hashes[i]
  }

  ghost predicate IsLink(h: Hash, hashes: seq<Digest>, x: Bytes) {
    exists i :: 1 <= i < |hashes| && Link(h, hashes, i) == x
  }

  /** Two links, one of each chain, collide. */
  ghost predicate LinksCollide(h: Hash, a: seq<Digest>, b: seq<Digest>) {
    exists x, y :: IsLink(h, a, x) && IsLink(h, b, y) && Collides(h, x, y)
  }

  /** An element of `a` is the digest of a link of `b`. */
  ghost predicate LinkAsElement(h: Hash, a: seq<Digest>, b: seq<Digest>) {
    exists d, x :: d in a && IsLink(h, b, x) && h(x) == d
  }

  /** The ways in which different chains share a digest. */
  ghost predicate ChainsClash(h: Hash, a: seq<Digest>, b: seq<Digest>) {
    LinksCollide(h, a, b) || LinkAsElement(h, a, b) || LinkAsElement(h, b, a)
  }

  lemma LinkOfPrefix(h: Hash, hashes: seq<Digest>, n: nat, x: Bytes)
    requires n <= |hashes| && IsLink(h, hashes[..n], x)
    ensures IsLink(h, hashes, x)
  {
    var i :| 1 <= i < n && Link(h, hashes[..n], i) == x;
    assert hashes[..n][..i] == hashes[..i];
    assert Link(h, hashes, i) == x;
  }

  lemma ElementOfPrefix(h: Hash, a: seq<Digest>, m: nat, b: seq<Digest>, n: nat)
    requires m <= |a| && n <= |b| && LinkAsElement(h, a[..m], b[..n])
    ensures LinkAsElement(h, a, b)
  {
    var d, x :| d in a[..m] && IsLink(h, b[..n], x) && h(x) == d;
    LinkOfPrefix(h, b, n, x);
    assert d in a;
  }

  lemma ClashOfPrefixes(h: Hash, a: seq<Digest>, m: nat, b: seq<Digest>, n: nat)
    requires m <= |a| && n <= |b| && ChainsClash(h, a[..m], b[..n])
    ensures ChainsClash(h, a, b)
  {
    if x, y :| IsLink(h, a[..m], x) && IsLink(h, b[..n], y) && Collides(h, x, y) {
      LinkOfPrefix(h, a, m, x);
      LinkOfPrefix(h, b, n, y);
    } else if LinkAsElement(h, a[..m], b[..n]) {
      ElementOfPrefix(h, a, m, b, n);
    } else {
      ElementOfPrefix(h, b, n, a, m);
    }
  }

  /** A chain decodes uniquely, its length included, unless a link of one chain
      collides with a link of the other or stands in the other as an element. */
  lemma {:induction false} ChainBinding(h: Hash, a: seq<Digest>, b: seq<Digest>)
    requires a != [] && b != [] && Chain(h, a) == Chain(h, b)
    ensures a == b || ChainsClash(h, a, b)
  {
    var m, n := |a| - 1, |b| - 1;
    if m == 0 && n == 0 {
    } else if m == 0 {
      assert a[0] in a && IsLink(h, b, Link(h, b, n)) && h(Link(h, b, n)) == a[0];
    } else if n == 0 {
      assert b[0] in b && IsLink(h, a, Link(h, a, m)) && h(Link(h, a, m)) == b[0];
    } else if Link(h, a, m) == Link(h, b, n) || !Collides(h, Link(h, a, m), Link(h, b, n)) {
      PairBinding(h, Chain(h, a[..m]), a[m], Chain(h, b[..n]), b[n]);
      ChainBinding(h, a[..m], b[..n]);
      if a[..m] == b[..n] {
        assert a == a[..m] + [a[m]] && b == b[..n] + [b[n]];
      } else {
        ClashOfPrefixes(h, a, m, b, n);
      }
    } else {
      assert IsLink(h, a, Link(h, a, m)) && IsLink(h, b, Link(h, b, n));
    }
  }

  /** Two transactions, one of each list, collide. */
  ghost predicate LeavesCollide(h: Hash, a: seq<Bytes>, b: seq<Bytes>) {
    exists x, y :: x in a && y in b && Collides(h, x, y)
  }

  /** A transaction of `b` with the hash of the first of `a`. */
  lemma SameHashIn(h: Hash, a: seq<Bytes>, b: seq<Bytes>) returns (p: seq<Bytes>, x: Bytes, q: seq<Bytes>)
    requires a != [] && multiset(LeafHashes(h, a)) == multiset(LeafHashes(h, b))
    ensures b == p + [x] + q && h(x) == h(a[0])
  {
    LeafHashesAt(h, a);
    LeafHashesAt(h, b);
    SameMembers(LeafHashes(h, a), LeafHashes(h, b));
    assert LeafHashes(h, a)[0] in LeafHashes(h, b);
    var i :| 0 <= i < |b| && LeafHashes(h, b)[i] == h(a[0]);
    p, x, q := b[..i], b[i], b[i + 1..];
  }

  /** Equal multisets of hashes come from equal multisets of transactions, unless
      two of the transactions collide. */
  lemma {:induction false} LeafHashesBinding(h: Hash, a: seq<Bytes>, b: seq<Bytes>)
    requires multiset(LeafHashes(h, a)) == multiset(LeafHashes(h, b))
    ensures multiset(a) == multiset(b) || LeavesCollide(h, a, b)
  {
    if a == [] {
      LeafHashesAt(h, b);
      assert |LeafHashes(h, b)| == |multiset(LeafHashes(h, b))| == 0;
    } else {
      var p, x, q := SameHashIn(h, a, b);
      RemoveSameHash(h, a, b, p, x, q);
      LeafHashesBinding(h, a[1..], p + q);
      if LeavesCollide(h, a[1..], p + q) {
        CollideInPart(h, a[1..], p + q, a, b);
      } else if a[0] != x {
        assert a[0] in a && x in b && Collides(h, a[0], x);
      }
    }
  }

  lemma CollideInPart(h: Hash, s: seq<Bytes>, t: seq<Bytes>, a: seq<Bytes>, b: seq<Bytes>)
    requires LeavesCollide(h, s, t)
    requires multiset(s) <= multiset(a) && multiset(t) <= multiset(b)
    ensures LeavesCollide(h, a, b)
  {
    var x, y :| x in s && y in t && Collides(h, x, y);
    assert x in multiset(a) && y in multiset(b);
  }

  /** Taking out two transactions with the same hash leaves equal hashes. */
  lemma RemoveSameHash(h: Hash, a: seq<Bytes>, b: seq<Bytes>, p: seq<Bytes>, x: Bytes, q: seq<Bytes>)
    requires a != [] && b == p + [x] + q && h(a[0]) == h(x)
    requires multiset(LeafHashes(h, a)) == multiset(LeafHashes(h, b))
    ensures multiset(LeafHashes(h, a[1..])) == multiset(LeafHashes(h, p + q))
    ensures multiset(a) == multiset(a[1..]) + multiset{a[0]}
    ensures multiset(b) == multiset(p + q) + multiset{x}
  {
    assert a == [] + [a[0]] + a[1..] && [] + a[1..] == a[1..];
    RemoveLeaf(h, a, [], a[0], a[1..]);
    RemoveLeaf(h, b, p, x, q);
    SameRest(multiset(LeafHashes(h, a[1..])), multiset(LeafHashes(h, p + q)), h(x));
  }

  lemma SameRest<T>(m: multiset<T>, n: multiset<T>, x: T)
    requires m + multiset{x} == n + multiset{x}
    ensures m == n
  {
    assert m == (m + multiset{x}) - multiset{x};
    assert n == (n + multiset{x}) - multiset{x};
  }

  /** What is hashed above the transactions: the links, or the empty input for
      the empty list. */
  ghost predicate InnerInput(h: Hash, txs: seq<Bytes>, x: Bytes) {
    IsLink(h, SortedHashes(h, txs), x) || (txs == [] && x == [])
  }

  /** Everything hashed for the root of a list. */
  ghost predicate RootInput(h: Hash, txs: seq<Bytes>, x: Bytes) {
    x in txs || InnerInput(h, txs, x)
  }

  /** Two inputs, one hashed for each root, collide. */
  ghost predicate InputsCollide(h: Hash, a: seq<Bytes>, b: seq<Bytes>) {
    exists x, y :: RootInput(h, a, x) && RootInput(h, b, y) && Collides(h, x, y)
  }

  /** A transaction of `a` has the very bytes of an inner input of `b`. */
  ghost predicate ReadsAsInner(h: Hash, a: seq<Bytes>, b: seq<Bytes>) {
    exists x :: x in a && InnerInput(h, b, x)
  }

  /** A sorted hash is the hash of a transaction. */
  lemma SortedHashOf(h: Hash, txs: seq<Bytes>, d: Digest) returns (x: Bytes)
    requires d in SortedHashes(h, txs)
    ensures x in txs && h(x) == d
  {
    var hashes := LeafHashes(h, txs);
    LeafHashesAt(h, txs);
    SortPermutes(hashes, DigestLe);
    SameMembers(hashes, SortedHashes(h, txs));
    var j :| 0 <= j < |hashes| && hashes[j] == d;
    x := txs[j];
  }

  /** A transaction hash equal to the digest of an inner input of the other list. */
  lemma InnerAsLeaf(h: Hash, a: seq<Bytes>, b: seq<Bytes>, d: Digest, y: Bytes)
    requires d in SortedHashes(h, a) && InnerInput(h, b, y) && h(y) == d
    ensures (InputsCollide(h, a, b) && InputsCollide(h, b, a)) || ReadsAsInner(h, a, b)
  {
    var x := SortedHashOf(h, a, d);
    if x != y {
      assert RootInput(h, a, x) && RootInput(h, b, y);
      assert Collides(h, x, y) && Collides(h, y, x);
    }
  }

  /** The root of an empty block is the root of another block only through a
      collision of the empty input or a transaction encoded as the empty input. */
  lemma EmptyRootBinding(h: Hash, txs: seq<Bytes>)
    requires txs != [] && Root(h, txs) == h([])
    ensures (InputsCollide(h, [], txs) && InputsCollide(h, txs, [])) || ReadsAsInner(h, txs, [])
  {
    var sorted := SortedHashes(h, txs);
    SortPermutes(LeafHashes(h, txs), DigestLe);
    LeafHashesAt(h, txs);
    if |sorted| == 1 {
      InnerAsLeaf(h, txs, [], sorted[0], []);
    } else {
      var x := Link(h, sorted, |sorted| - 1);
      assert RootInput(h, txs, x) && RootInput(h, [], []);
      assert Collides(h, [], x) && Collides(h, x, []);
    }
  }

  /** Equal roots mean equal multisets of transactions, unless two inputs hashed
      for the two roots collide or a transaction of one list has the bytes of an
      inner input of the other. */
  lemma RootBinding(h: Hash, a: seq<Bytes>, b: seq<Bytes>)
    requires Root(h, a) == Root(h, b)
    ensures multiset(a) == multiset(b) || InputsCollide(h, a, b) || ReadsAsInner(h, a, b) || ReadsAsInner(h, b, a)
  {
    if a == [] && b != [] {
      EmptyRootBinding(h, b);
    } else if b == [] && a != [] {
      EmptyRootBinding(h, a);
    } else if a != [] {
      var x, y := SortedHashes(h, a), SortedHashes(h, b);
      SortPermutes(LeafHashes(h, a), DigestLe);
      SortPermutes(LeafHashes(h, b), DigestLe);
      LeafHashesAt(h, a);
      LeafHashesAt(h, b);
      ChainBinding(h, x, y);
      if x == y {
        LeafHashesBinding(h, a, b);
      } else {
        ChainClashInputs(h, a, b);
      }
    }
  }

  lemma ChainClashInputs(h: Hash, a: seq<Bytes>, b: seq<Bytes>)
    requires ChainsClash(h, SortedHashes(h, a), SortedHashes(h, b))
    ensures InputsCollide(h, a, b) || ReadsAsInner(h, a, b) || ReadsAsInner(h, b, a)
  {
    var s, t := SortedHashes(h, a), SortedHashes(h, b);
    if x, y :| IsLink(h, s, x) && IsLink(h, t, y) && Collides(h, x, y) {
      assert RootInput(h, a, x) && RootInput(h, b, y);
    } else if d, y :| d in s && IsLink(h, t, y) && h(y) == d {
      InnerAsLeaf(h, a, b, d, y);
    } else {
      var d, x :| d in t && IsLink(h, s, x) && h(x) == d;
      InnerAsLeaf(h, b, a, d, x);
    }
  }

  /** Encoded transactions are longer than the 64 bytes of a digest pair; the
      signature alone takes 809. */
  ghost predicate LongEncodings(txs: seq<Bytes>) {
    forall i :: 0 <= i < |txs| ==> |txs[i]| > 64
  }

  /** Signed transactions never have the bytes of an inner input, so for them equal
      roots mean equal transactions or a collision among the hashed inputs. */
  lemma SignedRootBinding(h: Hash, a: seq<Bytes>, b: seq<Bytes>)
    requires LongEncodings(a) && LongEncodings(b) && Root(h, a) == Root(h, b)
    ensures multiset(a) == multiset(b) || InputsCollide(h, a, b)
  {
    RootBinding(h, a, b);
    NeverInner(h, a, b);
    NeverInner(h, b, a);
  }

  lemma NeverInner(h: Hash, a: seq<Bytes>, b: seq<Bytes>)
    requires LongEncodings(a)
    ensures !ReadsAsInner(h, a, b)
  {
    forall x | x in a ensures !InnerInput(h, b, x) {
      assert |x| > 64;
    }
  }

  /** Without the length condition the chain is ambiguous: a one-transaction block
      whose encoding is the 64 bytes of a digest pair shares its root with a
      two-transaction block. */
  lemma ShortEncodingsAmbiguous(h: Hash, x: Bytes, y: Bytes)
    requires DigestLe(h(x), h(y))
    ensures Root(h, [h(x) + h(y)]) == Root(h, [x, y])
  {
    var z: Bytes := h(x) + h(y);
    assert [z][..0] == [] && [x, y][..1] == [x] && [x][..0] == [];
    assert LeafHashes(h, [z]) == [h(z)];
    assert LeafHashes(h, [x, y]) == [h(x), h(y)];
    assert [h(z)][1..] == [] && [h(x), h(y)][1..] == [h(y)] && [h(y)][1..] == [];
    assert Sort([h(z)], DigestLe) == [h(z)];
    assert Sort([h(y)], DigestLe) == [h(y)];
    assert Sort([h(x), h(y)], DigestLe) == [h(x), h(y)];
    var pair: seq<Digest> := [h(x), h(y)];
    assert pair[..1] == [h(x)] && Chain(h, [h(x)]) == h(x);
    assert Chain(h, pair) == HashPair(h, h(x), h(y));
    assert Root(h, [x, y]) == Chain(h, pair);
    assert Root(h, [z]) == Chain(h, [h(z)]);
  }
}
