/** The 256-level sparse Merkle tree that stores all on-chain state. */
module Trie {
  import opened Primitives
  import opened Hashing

  const DEPTH: nat := 256
  const EMPTY_HASH: Digest := Zeros()

  /** The reserved digest of an absent leaf. */
  function Zeros(): (d: Digest) {
    seq(32, _ => 0)
  }

  /** The 256-bit leaf position of a key digest. */
  function Position(key: Digest): nat {
    FromBigEndian(key)
  }

  // ---------------------------------------------------------------------
  // Reference: the recursive 256-level tree
  // ---------------------------------------------------------------------

  /** The digest of a subtree of depth `d` all of whose leaves are empty. */
  function Default(h: Hash, d: nat): Digest {
    if d == 0 then EMPTY_HASH else HashPair(h, Default(h, d - 1), Default(h, d - 1))
  }

  /** The digest of the subtree of depth `d` at position `pos` of its level. */
  ghost function Subtree(h: Hash, base: map<nat, Digest>, d: nat, pos: nat): Digest {
    if d == 0 then if pos in base then base[pos] else EMPTY_HASH
    else HashPair(h, Subtree(h, base, d - 1, 2 * pos), Subtree(h, base, d - 1, 2 * pos + 1))
  }

  /** The leaf digests by leaf position. */
  ghost function LeafLevel(h: Hash, leaves: map<Digest, Bytes>): (base: map<nat, Digest>)
    ensures forall k :: k in leaves ==> Position(k) in base && base[Position(k)] == h(leaves[k])
    ensures forall p :: p in base ==> exists k :: k in leaves && Position(k) == p
  {
    PositionsDiffer();
    map k | k in leaves :: Position(k) := h(leaves[k])
  }

  lemma PositionsDiffer()
    ensures forall j: Digest, k: Digest :: Position(j) == Position(k) ==> j == k
  {
    forall j: Digest, k: Digest | Position(j) == Position(k) ensures j == k {
      BigEndianInjective(j, k);
    }
  }

  /** The Merkle root of a leaf map. */
  ghost function MerkleRoot(h: Hash, leaves: map<Digest, Bytes>): Digest {
    Subtree(h, LeafLevel(h, leaves), DEPTH, 0)
  }

  // ---------------------------------------------------------------------
  // Levels
  // ---------------------------------------------------------------------

  /** `k` shifted right by `d` bits. */
  function Shift(k: nat, d: nat): nat {
    if d == 0 then k else Shift(k, d - 1) / 2
  }

  /** Some leaf lies below position `pos` of level `d`. */
  ghost predicate Occupied(base: map<nat, Digest>, d: nat, pos: nat) {
    exists k :: k in base && Shift(k, d) == pos
  }

  /** The working map of level `d`: one node per occupied position, holding
      the digest of the subtree there. */
  ghost predicate IsLevel(h: Hash, base: map<nat, Digest>, d: nat, nodes: map<nat, Digest>) {
    && (forall p :: p in nodes <==> Occupied(base, d, p))
    && (forall p :: p in nodes ==> nodes[p] == Subtree(h, base, d, p))
  }

  lemma OccupiedParent(base: map<nat, Digest>, d: nat, pos: nat)
    ensures Occupied(base, d, pos) ==> Occupied(base, d + 1, pos / 2)
  {
    if Occupied(base, d, pos) {
      var k :| k in base && Shift(k, d) == pos;
      assert Shift(k, d + 1) == pos / 2;
    }
  }

  lemma {:induction false} EmptySubtree(h: Hash, base: map<nat, Digest>, d: nat, pos: nat)
    requires !Occupied(base, d, pos)
    ensures Subtree(h, base, d, pos) == Default(h, d)
  {
    if d == 0 {
      assert Shift(pos, 0) == pos;
    } else {
      OccupiedParent(base, d - 1, 2 * pos);
      OccupiedParent(base, d - 1, 2 * pos + 1);
      EmptySubtree(h, base, d - 1, 2 * pos);
      EmptySubtree(h, base, d - 1, 2 * pos + 1);
    }
  }

  lemma {:induction false} ShiftBound(k: nat, n: nat, d: nat)
    requires k < Pow2(n) && d <= n
    ensures Shift(k, d) < Pow2(n - d)
  {
    if d > 0 {
      ShiftBound(k, n, d - 1);
      assert Pow2(n - (d - 1)) == 2 * Pow2(n - d);
    }
  }

  /** The neighbour of a node under the same parent (`pos` with its last bit flipped). */
  function Sibling(pos: nat): nat {
    if pos % 2 == 0 then pos + 1 else pos - 1
  }

  /** Hashing a node with its neighbour, default or stored, gives the parent. */
  lemma ParentDigest(h: Hash, base: map<nat, Digest>, d: nat, nodes: map<nat, Digest>, pos: nat)
    requires IsLevel(h, base, d, nodes) && pos in nodes
    ensures var other := if Sibling(pos) in nodes then nodes[Sibling(pos)] else Default(h, d);
            Subtree(h, base, d + 1, pos / 2) ==
              if pos < Sibling(pos) then HashPair(h, nodes[pos], other) else HashPair(h, other, nodes[pos])
  {
    if Sibling(pos) !in nodes {
      EmptySubtree(h, base, d, Sibling(pos));
    }
    assert pos % 2 == 0 ==> pos == 2 * (pos / 2) && Sibling(pos) == 2 * (pos / 2) + 1;
    assert pos % 2 == 1 ==> pos == 2 * (pos / 2) + 1 && Sibling(pos) == 2 * (pos / 2);
  }

  /** A map holding the right digest exactly above the occupied positions is the next level. */
  lemma NextLevel(h: Hash, base: map<nat, Digest>, d: nat, nodes: map<nat, Digest>, parents: map<nat, Digest>)
    requires IsLevel(h, base, d, nodes)
    requires forall q :: q in nodes ==> q / 2 in parents
    requires forall p :: p in parents ==> exists q :: q in nodes && q / 2 == p
    requires forall p :: p in parents ==> parents[p] == Subtree(h, base, d + 1, p)
    ensures IsLevel(h, base, d + 1, parents)
  {
    forall p ensures p in parents <==> Occupied(base, d + 1, p) {
      if p in parents {
        var q :| q in nodes && q / 2 == p;
        var k :| k in base && Shift(k, d) == q;
        assert Shift(k, d + 1) == p;
      }
      if Occupied(base, d + 1, p) {
        var k :| k in base && Shift(k, d + 1) == p;
        assert Occupied(base, d, Shift(k, d));
        assert Shift(k, d) in nodes;
      }
    }
  }

  /** All leaves but those of `keys` have been placed. */
  ghost predicate PlacedBut(leaves: map<Digest, Bytes>, base: map<nat, Digest>, nodes: map<nat, Digest>,
                            keys: set<Digest>)
  {
    && (forall p :: p in nodes ==> p in base && nodes[p] == base[p])
    && (forall k :: k in leaves && k !in keys ==> Position(k) in nodes)
  }

  lemma PlaceNext(leaves: map<Digest, Bytes>, base: map<nat, Digest>, nodes: map<nat, Digest>, keys: set<Digest>,
                  key: Digest, digest: Digest)
    requires PlacedBut(leaves, base, nodes, keys)
    requires Position(key) in base && base[Position(key)] == digest
    ensures PlacedBut(leaves, base, nodes[Position(key) := digest], keys - {key})
  {
  }

  /** Once all leaves are placed, the map is level 0. */
  lemma BottomLevel(h: Hash, leaves: map<Digest, Bytes>, nodes: map<nat, Digest>)
    requires PlacedBut(leaves, LeafLevel(h, leaves), nodes, {})
    ensures IsLevel(h, LeafLevel(h, leaves), 0, nodes)
  {
    var base := LeafLevel(h, leaves);
    assert nodes.Keys == base.Keys;
    forall p ensures p in nodes <==> Occupied(base, 0, p) {
      assert Shift(p, 0) == p;
    }
  }

  /** At the top exactly one position remains, and it holds the root. */
  lemma TopLevel(h: Hash, leaves: map<Digest, Bytes>, nodes: map<nat, Digest>)
    requires leaves != map[]
    requires IsLevel(h, LeafLevel(h, leaves), DEPTH, nodes)
    ensures nodes.Keys == {0}
    ensures nodes[0] == MerkleRoot(h, leaves)
  {
    var base := LeafLevel(h, leaves);
    forall p | p in nodes ensures p == 0 {
      var k :| k in base && Shift(k, DEPTH) == p;
      var key :| key in leaves && Position(key) == k;
      BigEndianBound(key);
      ShiftBound(k, DEPTH, DEPTH);
    }
    var key :| key in leaves;
    assert Occupied(base, DEPTH, Shift(Position(key), DEPTH));
  }

  // ---------------------------------------------------------------------
  // Leaf maps
  // ---------------------------------------------------------------------

  function Lookup(leaves: map<Digest, Bytes>, key: Digest): Option<Bytes> {
    if key in leaves then Some(leaves[key]) else None
  }

  lemma SameLookups(a: map<Digest, Bytes>, b: map<Digest, Bytes>)
    requires forall key :: Lookup(a, key) == Lookup(b, key)
    ensures a == b
  {
    forall key ensures (key in a <==> key in b) && (key in a ==> a[key] == b[key]) {
      assert Lookup(a, key) == Lookup(b, key);
    }
  }

  // ---------------------------------------------------------------------
  // The tree object
  // ---------------------------------------------------------------------

  /** The first `n` entries of the table are the default digests. */
  ghost predicate DefaultsUpTo(h: Hash, table: seq<Digest>, n: nat) {
    n <= |table| && forall d :: 0 <= d < n ==> table[d] == Default(h, d)
  }

  lemma DefaultsNext(h: Hash, table: seq<Digest>, d: nat)
    requires 0 < d < |table| && DefaultsUpTo(h, table, d)
    ensures DefaultsUpTo(h, table[d := HashPair(h, table[d - 1], table[d - 1])], d + 1)
  {
  }

  /** The table of default digests of a tree of the given depth. */
  method ComputeDefaults(h: Hash, depth: nat) returns (defaults: array<Digest>)
    ensures fresh(defaults) && defaults.Length == depth + 1
    ensures DefaultsUpTo(h, defaults[..], depth + 1)
  {
    defaults := new Digest[depth + 1](_ => EMPTY_HASH);
    for d := 1 to depth + 1
      invariant DefaultsUpTo(h, defaults[..], d)
    {
      DefaultsNext(h, defaults[..], d);
      defaults[d] := HashPair(h, defaults[d - 1], defaults[d - 1]);
    }
  }

  class SparseMerkleTree {
    const h: Hash
    var leaves: map<Digest, Bytes>
    var cachedRoot: Option<Digest>

    /** The cache, when filled, holds the root of the current leaves. */
    ghost predicate Valid()
      reads this
    {
      cachedRoot.Some? ==> cachedRoot.value == MerkleRoot(h, leaves)
    }

    constructor (h: Hash)
      ensures Valid() && this.h == h && leaves == map[]
    {
      this.h := h;
      leaves := map[];
      cachedRoot := None;
    }

    method Insert(key: Bytes, value: Bytes)
      modifies this
      ensures Valid() && leaves == old(leaves)[h(key) := value]
    {
      leaves := leaves[h(key) := value];
      cachedRoot := None;
    }

    method Get(key: Bytes) returns (value: Option<Bytes>)
      ensures value == Lookup(leaves, h(key))
    {
      if h(key) in leaves {
        value := Some(leaves[h(key)]);
      } else {
        value := None;
      }
    }

    method Root() returns (root: Digest)
      requires Valid()
      modifies this
      ensures Valid() && leaves == old(leaves)
      ensures root == MerkleRoot(h, leaves)
    {
      if cachedRoot.Some? {
        return cachedRoot.value;
      }
      if leaves == map[] {
        var defaults := ComputeDefaults(h, DEPTH);
        EmptySubtree(h, LeafLevel(h, leaves), DEPTH, 0);
        return defaults[DEPTH];
      }
      root := ComputeRoot();
      cachedRoot := Some(root);
    }

    /** Walk up from the leaves to the root, one level at a time. */
    method ComputeRoot() returns (root: Digest)
      requires leaves != map[]
      ensures root == MerkleRoot(h, leaves)
    {
      var defaults := ComputeDefaults(h, DEPTH);
      ghost var base := LeafLevel(h, leaves);
      var nodes := HashLeaves();
      hide IsLevel;
      hide LeafLevel;
      hide MerkleRoot;
      hide Subtree;
      for depth := 0 to DEPTH
        invariant IsLevel(h, base, depth, nodes)
        invariant DefaultsUpTo(h, defaults[..], DEPTH + 1)
      {
        nodes := MergeLevel(nodes, defaults[depth], base, depth);
      }
      TopLevel(h, leaves, nodes);
      var top :| top in nodes.Keys;
      root := nodes[top];
    }

    /** The bottom level: leaf digests by position. */
    method HashLeaves() returns (nodes: map<nat, Digest>)
      ensures IsLevel(h, LeafLevel(h, leaves), 0, nodes)
    {
      ghost var base := LeafLevel(h, leaves);
      nodes := map[];
      var keys := leaves.Keys;
      while keys != {}
        invariant keys <= leaves.Keys
        invariant PlacedBut(leaves, base, nodes, keys)
        decreases |keys|
      {
        var key :| key in keys;
        PlaceNext(leaves, base, nodes, keys, key, h(leaves[key]));
        nodes := nodes[Position(key) := h(leaves[key])];
        keys := keys - {key};
      }
      BottomLevel(h, leaves, nodes);
    }

    /** Merge the nodes of one level pairwise into their parents. The order in
        which the nodes are visited is left open. */
    method MergeLevel(nodes: map<nat, Digest>, default: Digest, ghost base: map<nat, Digest>, ghost depth: nat)
      returns (parents: map<nat, Digest>)
      requires IsLevel(h, base, depth, nodes) && default == Default(h, depth)
      ensures IsLevel(h, base, depth + 1, parents)
    {
      parents := map[];
      var todo := nodes.Keys;
      while todo != {}
        invariant todo <= nodes.Keys
        invariant forall q :: q in nodes && q !in todo ==> q / 2 in parents
        invariant forall p :: p in parents ==> exists q :: q in nodes && q / 2 == p
        invariant forall p :: p in parents ==> parents[p] == Subtree(h, base, depth + 1, p)
        decreases |todo|
      {
        var pos :| pos in todo;
        ParentDigest(h, base, depth, nodes, pos);
        var siblingPos := Sibling(pos);
        var siblingHash := if siblingPos in nodes then nodes[siblingPos] else default;
        var left, right := nodes[pos], siblingHash;
        if siblingPos < pos {
          left, right := siblingHash, nodes[pos];
        }
        parents := parents[pos / 2 := HashPair(h, left, right)];
        todo := todo - {pos};
      }
      NextLevel(h, base, depth, nodes, parents);
    }
  }

  // ---------------------------------------------------------------------
  // Whole runs
  // ---------------------------------------------------------------------

  datatype Op = Put(key: Bytes, value: Bytes) | Look(key: Bytes) | TakeRoot
  datatype Reply = Stored | Found(value: Option<Bytes>) | RootIs(root: Digest)

  /** The value most recently written under digest `d`, if any. */
  function LastWrite(h: Hash, ops: seq<Op>, d: Digest): Option<Bytes> {
    if ops == [] then None
    else
      var last := ops[|ops| - 1];
      if last.Put? && h(last.key) == d then Some(last.value)
      else LastWrite(h, ops[..|ops| - 1], d)
  }

  /** `leaves` holds exactly the last write under every digest. */
  ghost predicate HoldsLastWrites(h: Hash, ops: seq<Op>, leaves: map<Digest, Bytes>) {
    forall d: Digest :: LastWrite(h, ops, d) == Lookup(leaves, d)
  }

  /** What a caller must be told after the history `before`: a lookup sees the
      last write to its key, and a root is the Merkle root of the last writes. */
  ghost predicate CorrectReply(h: Hash, before: seq<Op>, op: Op, reply: Reply) {
    match op
    case Put(_, _) => reply == Stored
    case Look(key) => reply == Found(LastWrite(h, before, h(key)))
    case TakeRoot => reply.RootIs? && forall leaves :: HoldsLastWrites(h, before, leaves) ==>
                                         reply.root == MerkleRoot(h, leaves)
  }

  lemma LastWritesDetermineLeaves(h: Hash, ops: seq<Op>, a: map<Digest, Bytes>, b: map<Digest, Bytes>)
    requires HoldsLastWrites(h, ops, a) && HoldsLastWrites(h, ops, b)
    ensures a == b
  {
    forall d: Digest ensures Lookup(a, d) == Lookup(b, d) {
      assert LastWrite(h, ops, d) == Lookup(a, d);
    }
    SameLookups(a, b);
  }

  lemma LastWritesAfter(h: Hash, ops: seq<Op>, op: Op, leaves: map<Digest, Bytes>)
    requires HoldsLastWrites(h, ops, leaves)
    ensures HoldsLastWrites(h, ops + [op], if op.Put? then leaves[h(op.key) := op.value] else leaves)
  {
    assert (ops + [op])[..|ops|] == ops;
    forall d: Digest ensures LastWrite(h, ops + [op], d) ==
      (if op.Put? && h(op.key) == d then Some(op.value) else LastWrite(h, ops, d)) {}
  }

  /** One call on a tree that holds the last writes of a history. */
  method Perform(tree: SparseMerkleTree, ghost before: seq<Op>, op: Op) returns (reply: Reply)
    requires tree.Valid() && HoldsLastWrites(tree.h, before, tree.leaves)
    modifies tree
    ensures tree.Valid() && HoldsLastWrites(tree.h, before + [op], tree.leaves)
    ensures CorrectReply(tree.h, before, op, reply)
  {
    LastWritesAfter(tree.h, before, op, tree.leaves);
    match op {
      case Put(key, value) =>
        tree.Insert(key, value);
        reply := Stored;
      case Look(key) =>
        var value := tree.Get(key);
        reply := Found(value);
      case TakeRoot =>
        var root := tree.Root();
        forall leaves | HoldsLastWrites(tree.h, before, leaves) ensures root == MerkleRoot(tree.h, leaves) {
          LastWritesDetermineLeaves(tree.h, before, leaves, tree.leaves);
        }
        reply := RootIs(root);
    }
  }

  /** Every sequence of calls, on a fresh tree, gets correct replies throughout. */
  method Replay(h: Hash, ops: seq<Op>) returns (tree: SparseMerkleTree, replies: seq<Reply>)
    ensures fresh(tree) && tree.h == h && tree.Valid()
    ensures HoldsLastWrites(h, ops, tree.leaves)
    ensures |replies| == |ops| && forall i :: 0 <= i < |ops| ==> CorrectReply(h, ops[..i], ops[i], replies[i])
  {
    tree := new SparseMerkleTree(h);
    replies := [];
    for i := 0 to |ops|
      invariant fresh(tree) && tree.h == h && tree.Valid()
      invariant HoldsLastWrites(h, ops[..i], tree.leaves)
      invariant |replies| == i && forall j :: 0 <= j < i ==> CorrectReply(h, ops[..j], ops[j], replies[j])
    {
      assert ops[..i + 1] == ops[..i] + [ops[i]];
      var reply := Perform(tree, ops[..i], ops[i]);
      replies := replies + [reply];
    }
    assert ops[..|ops|] == ops;
  }

  // ---------------------------------------------------------------------
  // Binding
  // ---------------------------------------------------------------------

  /** The 64 bytes hashed for the node at position `pos` of level `d + 1`. */
  ghost function NodeInput(h: Hash, base: map<nat, Digest>, d: nat, pos: nat): Bytes {
    Subtree(h, base, d, 2 * pos) + Subtree(h, base, d, 2 * pos + 1)
  }

  /** The nodes of level `d + 1` above leaf `k` are hashed from different inputs
      in the two trees to the same digest. */
  ghost predicate NodesCollide(h: Hash, a: map<nat, Digest>, b: map<nat, Digest>, d: nat, k: nat) {
    Collides(h, NodeInput(h, a, d, Shift(k, d + 1)), NodeInput(h, b, d, Shift(k, d + 1)))
  }

  /** That happens somewhere on the path from leaf `k` up to level `d`. */
  ghost predicate PathCollides(h: Hash, a: map<nat, Digest>, b: map<nat, Digest>, d: nat, k: nat) {
    exists e :: 0 <= e < d && NodesCollide(h, a, b, e, k)
  }

  lemma {:induction false} SubtreeBinding(h: Hash, a: map<nat, Digest>, b: map<nat, Digest>, d: nat, k: nat)
    requires Subtree(h, a, d, Shift(k, d)) == Subtree(h, b, d, Shift(k, d))
    ensures Subtree(h, a, 0, k) == Subtree(h, b, 0, k) || PathCollides(h, a, b, d, k)
  {
    if d > 0 {
      var p := Shift(k, d);
      PairBinding(h, Subtree(h, a, d - 1, 2 * p), Subtree(h, a, d - 1, 2 * p + 1),
                  Subtree(h, b, d - 1, 2 * p), Subtree(h, b, d - 1, 2 * p + 1));
      if !NodesCollide(h, a, b, d - 1, k) {
        assert Shift(k, d - 1) == 2 * p || Shift(k, d - 1) == 2 * p + 1;
        SubtreeBinding(h, a, b, d - 1, k);
      }
    }
  }

  /** Equal roots of two trees of one depth agree on a leaf digest, or collide on its path. */
  lemma TopBinding(h: Hash, a: map<nat, Digest>, b: map<nat, Digest>, depth: nat, k: nat)
    requires Subtree(h, a, depth, 0) == Subtree(h, b, depth, 0) && k < Pow2(depth)
    ensures Subtree(h, a, 0, k) == Subtree(h, b, 0, k) || PathCollides(h, a, b, depth, k)
  {
    ShiftBound(k, depth, depth);
    SubtreeBinding(h, a, b, depth, k);
  }

  /** The value stored in one tree only hashes to the digest of an absent leaf. */
  ghost predicate HidesAsEmpty(h: Hash, a: map<Digest, Bytes>, b: map<Digest, Bytes>, key: Digest) {
    || (key in a && key !in b && h(a[key]) == EMPTY_HASH)
    || (key in b && key !in a && h(b[key]) == EMPTY_HASH)
  }

  /** The hash fails on data of these two trees at this key: on the nodes of its
      path, on the two values stored under it, or on the one value stored. */
  ghost predicate BrokenAt(h: Hash, a: map<Digest, Bytes>, b: map<Digest, Bytes>, key: Digest) {
    || PathCollides(h, LeafLevel(h, a), LeafLevel(h, b), DEPTH, Position(key))
    || (key in a && key in b && Collides(h, a[key], b[key]))
    || HidesAsEmpty(h, a, b, key)
  }

  /** The same somewhere among the keys of the two trees. */
  ghost predicate Broken(h: Hash, a: map<Digest, Bytes>, b: map<Digest, Bytes>) {
    exists key :: key in a.Keys + b.Keys && BrokenAt(h, a, b, key)
  }

  /** Trees with one root agree on every key, unless the hash fails at that key. */
  lemma LeafBinding(h: Hash, a: map<Digest, Bytes>, b: map<Digest, Bytes>, key: Digest)
    requires MerkleRoot(h, a) == MerkleRoot(h, b)
    ensures Lookup(a, key) == Lookup(b, key) || BrokenAt(h, a, b, key)
  {
    BigEndianBound(key);
    TopBinding(h, LeafLevel(h, a), LeafLevel(h, b), DEPTH, Position(key));
    LeafDigest(h, a, key);
    LeafDigest(h, b, key);
  }

  /** The digest at a key's leaf position. */
  lemma LeafDigest(h: Hash, leaves: map<Digest, Bytes>, key: Digest)
    ensures Subtree(h, LeafLevel(h, leaves), 0, Position(key))
            == if key in leaves then h(leaves[key]) else EMPTY_HASH
  {
    if key !in leaves && Position(key) in LeafLevel(h, leaves) {
      var other :| other in leaves && Position(other) == Position(key);
      BigEndianInjective(key, other);
    }
  }

  /** Equal leaf maps have equal roots, and leaf maps with equal roots are equal
      unless the hash fails on a node or a value of these two trees. */
  lemma RootBinding(h: Hash, a: map<Digest, Bytes>, b: map<Digest, Bytes>)
    ensures a == b ==> MerkleRoot(h, a) == MerkleRoot(h, b)
    ensures MerkleRoot(h, a) == MerkleRoot(h, b) ==> a == b || Broken(h, a, b)
  {
    if MerkleRoot(h, a) == MerkleRoot(h, b) && !Broken(h, a, b) {
      forall key ensures Lookup(a, key) == Lookup(b, key) {
        if key in a.Keys + b.Keys {
          LeafBinding(h, a, b, key);
        }
      }
      SameLookups(a, b);
    }
  }

  ghost predicate SameLastWrites(h: Hash, ops: seq<Op>, ops': seq<Op>) {
    forall d: Digest :: LastWrite(h, ops, d) == LastWrite(h, ops', d)
  }

  /** Over two histories: equal last writes give equal roots, and equal roots mean
      equal last writes under every digest, unless the hash fails on the two trees. */
  lemma RootsAgreeIffLastWritesAgree(h: Hash, ops: seq<Op>, ops': seq<Op>,
                                     leaves: map<Digest, Bytes>, leaves': map<Digest, Bytes>)
    requires HoldsLastWrites(h, ops, leaves) && HoldsLastWrites(h, ops', leaves')
    ensures SameLastWrites(h, ops, ops') ==> MerkleRoot(h, leaves) == MerkleRoot(h, leaves')
    ensures MerkleRoot(h, leaves) == MerkleRoot(h, leaves') ==>
              SameLastWrites(h, ops, ops') || Broken(h, leaves, leaves')
  {
    RootBinding(h, leaves, leaves');
    if SameLastWrites(h, ops, ops') {
      assert HoldsLastWrites(h, ops, leaves');
      LastWritesDetermineLeaves(h, ops, leaves, leaves');
    }
  }
}
