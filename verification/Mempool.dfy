/** The transaction pool: a nested index with a redundant counter, and block
    selection by priority. */
module Mempool {
  import opened Primitives
  import opened Sorting
  import opened Sums

  datatype Tx = Tx(sender: Address, nonce: nat, fee: nat, body: Bytes)

  /** A pooled transaction and the instant it arrived. */
  datatype PoolTx = PoolTx(tx: Tx, receivedAt: nat)

  datatype Ordering = Less | Equal | Greater

  function Compare(a: nat, b: nat): Ordering {
    if a < b then Less else if a == b then Equal else Greater
  }

  /** Fee descending, then arrival ascending, then nonce ascending. */
  function CmpPriority(a: PoolTx, b: PoolTx): Ordering {
    match Compare(b.tx.fee, a.tx.fee)
    case Equal =>
      (match Compare(a.receivedAt, b.receivedAt)
       case Equal => Compare(a.tx.nonce, b.tx.nonce)
       case byTime => byTime)
    case byFee => byFee
  }

  predicate Ahead(a: PoolTx, b: PoolTx) {
    CmpPriority(a, b) != Greater
  }

  /** The fee is no lower; at equal fees the arrival no later; at equal fee and
      arrival the nonce no greater. */
  ghost predicate NoWorse(a: PoolTx, b: PoolTx) {
    && a.tx.fee >= b.tx.fee
    && (a.tx.fee == b.tx.fee ==> a.receivedAt <= b.receivedAt)
    && (a.tx.fee == b.tx.fee && a.receivedAt == b.receivedAt ==> a.tx.nonce <= b.tx.nonce)
  }

  ghost predicate SameRank(a: PoolTx, b: PoolTx) {
    a.tx.fee == b.tx.fee && a.receivedAt == b.receivedAt && a.tx.nonce == b.tx.nonce
  }

  /** The three answers of the comparison in terms of fee, arrival and nonce. */
  lemma PriorityMeaning(a: PoolTx, b: PoolTx)
    ensures CmpPriority(a, b) == Equal <==> SameRank(a, b)
    ensures CmpPriority(a, b) == Less <==> NoWorse(a, b) && !SameRank(a, b)
    ensures Ahead(a, b) <==> NoWorse(a, b)
  {
  }

  lemma AheadOrder()
    ensures TotalPreorder(Ahead)
  {
  }

  type Index = map<Address, map<nat, PoolTx>>

  ghost predicate FiledUnder(s: Address, m: map<nat, PoolTx>) {
    forall n :: n in m ==> m[n].tx.sender == s && m[n].tx.nonce == n
  }

  /** Every transaction is filed under its own sender and nonce. */
  ghost predicate Filed(txs: Index) {
    forall s :: s in txs ==> FiledUnder(s, txs[s])
  }

  predicate Pooled(txs: Index, p: PoolTx) {
    && p.tx.sender in txs
    && p.tx.nonce in txs[p.tx.sender]
    && txs[p.tx.sender][p.tx.nonce] == p
  }

  ghost predicate Lists(txs: Index, pool: set<PoolTx>) {
    forall p :: p in pool <==> Pooled(txs, p)
  }

  lemma PoolExists(txs: Index)
    requires Filed(txs)
    ensures exists pool :: Lists(txs, pool)
  {
    var pool := set s, n | s in txs && n in txs[s] :: txs[s][n];
    assert Lists(txs, pool);
  }

  /** The pooled transactions, forgetting how they are filed. */
  ghost function PoolOf(txs: Index): (pool: set<PoolTx>)
    requires Filed(txs)
    ensures forall p :: p in pool <==> Pooled(txs, p)
  {
    PoolExists(txs);
    var pool :| Lists(txs, pool);
    pool
  }

  function Sizes(txs: Index): map<Address, nat> {
    map s | s in txs :: |txs[s]|
  }

  ghost function SentBy(pool: set<PoolTx>, sender: Address): set<PoolTx> {
    set p | p in pool && p.tx.sender == sender
  }

  ghost function Members(s: seq<PoolTx>): set<PoolTx> {
    set p | p in s
  }

  /** One sender's transactions by nonce, seen as a set, have the map's size. */
  lemma {:induction false} SliceSize(m: map<nat, PoolTx>, slice: set<PoolTx>)
    requires forall n :: n in m ==> m[n].tx.nonce == n
    requires forall p :: p in slice <==> p.tx.nonce in m && m[p.tx.nonce] == p
    ensures |slice| == |m|
    decreases |m|
  {
    if m == map[] {
      assert slice == {};
    } else {
      var n :| n in m;
      assert m[n] in slice;
      assert (m - {n}).Keys == m.Keys - {n};
      SliceSize(m - {n}, slice - {m[n]});
    }
  }

  lemma SentBySize(txs: Index, sender: Address)
    requires Filed(txs)
    ensures |SentBy(PoolOf(txs), sender)| == if sender in txs then |txs[sender]| else 0
  {
    if sender in txs {
      SliceSize(txs[sender], SentBy(PoolOf(txs), sender));
    } else {
      assert SentBy(PoolOf(txs), sender) == {};
    }
  }

  /** Taking one sender out takes exactly its transactions out. */
  lemma WithoutSender(txs: Index, s: Address)
    requires Filed(txs)
    ensures Filed(txs - {s})
    ensures PoolOf(txs - {s}) == PoolOf(txs) - SentBy(PoolOf(txs), s)
  {
  }

  /** The sum of the per-sender sizes is the number of pooled transactions. */
  lemma {:induction false} PoolSize(txs: Index)
    requires Filed(txs)
    ensures |PoolOf(txs)| == Sum(Sizes(txs))
    decreases |txs|
  {
    if txs == map[] {
      assert PoolOf(txs) == {};
      assert Sizes(txs) == map[];
    } else {
      var s :| s in txs;
      assert (txs - {s}).Keys == txs.Keys - {s};
      PoolSize(txs - {s});
      WithoutSender(txs, s);
      SentBySize(txs, s);
      assert Sizes(txs - {s}) == Sizes(txs) - {s};
      SumRemove(Sizes(txs), s);
      SplitSize(PoolOf(txs), SentBy(PoolOf(txs), s));
    }
  }

  lemma SplitSize(pool: set<PoolTx>, part: set<PoolTx>)
    requires part <= pool
    ensures |pool| == |pool - part| + |part|
  {
    assert pool == (pool - part) + part;
  }

  lemma SizeUpdate(txs: Index, s: Address, m: map<nat, PoolTx>)
    ensures Sum(Sizes(txs[s := m])) + (if s in txs then |txs[s]| else 0) == Sum(Sizes(txs)) + |m|
  {
    assert Sizes(txs[s := m]) == Sizes(txs)[s := |m|];
    SumUpdate(Sizes(txs), s, |m|);
  }

  lemma SizeRemove(txs: Index, s: Address)
    requires s in txs
    ensures Sum(Sizes(txs - {s})) + |txs[s]| == Sum(Sizes(txs))
  {
    assert Sizes(txs - {s}) == Sizes(txs) - {s};
    SumRemove(Sizes(txs), s);
  }

  function MapOf(txs: Index, s: Address): map<nat, PoolTx> {
    if s in txs then txs[s] else map[]
  }

  /** Replacing one sender's transactions. */
  lemma PutSender(txs: Index, s: Address, m: map<nat, PoolTx>)
    requires Filed(txs) && FiledUnder(s, m)
    ensures Filed(txs[s := m])
    ensures forall q :: Pooled(txs[s := m], q) <==>
              if q.tx.sender == s then q.tx.nonce in m && m[q.tx.nonce] == q else Pooled(txs, q)
  {
  }

  /** Putting a transaction under a free (sender, nonce) adds it to the pool. */
  lemma FileEffect(txs: Index, p: PoolTx, m: map<nat, PoolTx>)
    requires Filed(txs) && p.tx.nonce !in MapOf(txs, p.tx.sender)
    requires m == MapOf(txs, p.tx.sender)[p.tx.nonce := p]
    ensures Filed(txs[p.tx.sender := m])
    ensures PoolOf(txs[p.tx.sender := m]) == PoolOf(txs) + {p}
    ensures |m| == |MapOf(txs, p.tx.sender)| + 1
    ensures Sum(Sizes(txs[p.tx.sender := m])) == Sum(Sizes(txs)) + 1
  {
    assert m.Keys == MapOf(txs, p.tx.sender).Keys + {p.tx.nonce};
    SizeUpdate(txs, p.tx.sender, m);
    FileMembers(txs, p, m);
  }

  lemma FileMembers(txs: Index, p: PoolTx, m: map<nat, PoolTx>)
    requires Filed(txs) && p.tx.nonce !in MapOf(txs, p.tx.sender)
    requires m == MapOf(txs, p.tx.sender)[p.tx.nonce := p]
    ensures Filed(txs[p.tx.sender := m])
    ensures PoolOf(txs[p.tx.sender := m]) == PoolOf(txs) + {p}
  {
    assert FiledUnder(p.tx.sender, m);
    PutSender(txs, p.tx.sender, m);
    forall q ensures Pooled(txs[p.tx.sender := m], q) <==> Pooled(txs, q) || q == p {}
  }

  /** Removing a filed transaction, and its sender's entry once empty. */
  function Unfile(txs: Index, sender: Address, left: map<nat, PoolTx>): Index {
    if left == map[] then txs - {sender} else txs[sender := left]
  }

  lemma UnfileMembers(txs: Index, sender: Address, nonce: nat, left: map<nat, PoolTx>)
    requires Filed(txs) && sender in txs && nonce in txs[sender] && left == txs[sender] - {nonce}
    ensures Filed(Unfile(txs, sender, left))
    ensures PoolOf(Unfile(txs, sender, left)) == PoolOf(txs) - {txs[sender][nonce]}
  {
    assert FiledUnder(sender, left);
    PutSender(txs, sender, left);
    var next := Unfile(txs, sender, left);
    assert Filed(next);
    forall q ensures Pooled(next, q) <==> Pooled(txs, q) && q != txs[sender][nonce] {
      if q.tx.sender == sender {
        assert q.tx.nonce in left <==> q.tx.nonce in txs[sender] && q.tx.nonce != nonce;
      }
    }
  }

  lemma OnlyOneFiled(txs: Index, sender: Address, nonce: nat)
    requires Filed(txs) && sender in txs && nonce in txs[sender]
    ensures var p := txs[sender][nonce];
            && p in PoolOf(txs) && p.tx.sender == sender && p.tx.nonce == nonce
            && PoolOf(txs) - {p} == set q | q in PoolOf(txs) && !(q.tx.sender == sender && q.tx.nonce == nonce)
  {
    assert Pooled(txs, txs[sender][nonce]);
  }

  lemma UnfileSizes(txs: Index, sender: Address, nonce: nat, left: map<nat, PoolTx>)
    requires sender in txs && nonce in txs[sender] && left == txs[sender] - {nonce}
    ensures Sum(Sizes(Unfile(txs, sender, left))) + 1 == Sum(Sizes(txs))
    ensures |left| + 1 == |txs[sender]|
  {
    assert left.Keys == txs[sender].Keys - {nonce};
    assert |left| + 1 == |txs[sender]|;
    if left == map[] {
      assert |left| == 0;
      SizeRemove(txs, sender);
    } else {
      SizeUpdate(txs, sender, left);
    }
  }

  lemma UnfileEffect(txs: Index, sender: Address, nonce: nat, left: map<nat, PoolTx>)
    requires Filed(txs) && sender in txs && nonce in txs[sender] && left == txs[sender] - {nonce}
    ensures Filed(Unfile(txs, sender, left))
    ensures PoolOf(Unfile(txs, sender, left)) == PoolOf(txs) - {txs[sender][nonce]}
    ensures Sum(Sizes(Unfile(txs, sender, left))) + 1 == Sum(Sizes(txs))
    ensures |left| + 1 == |txs[sender]|
  {
    UnfileMembers(txs, sender, nonce, left);
    UnfileSizes(txs, sender, nonce, left);
  }

  // ---------------------------------------------------------------------
  // The pool object
  // ---------------------------------------------------------------------

  datatype InsertResult = Inserted | FeeTooLow | PoolFull | DuplicateNonce | SenderAtCap

  /** What a block selection is: the best transactions, best first. */
  ghost predicate IsSelection(before: set<PoolTx>, max: nat, chosen: seq<PoolTx>, left: set<PoolTx>) {
    && |chosen| == Min(max, |before|)
    && Distinct(chosen)
    && (forall i, j :: 0 <= i < j < |chosen| ==> NoWorse(chosen[i], chosen[j]))
    && (forall p :: p in before <==> p in chosen || p in left)
    && (forall p :: p in left ==> p !in chosen)
    && (forall c, p :: c in chosen && p in left ==> NoWorse(c, p))
  }

  function Txs(chosen: seq<PoolTx>): seq<Tx> {
    seq(|chosen|, i requires 0 <= i < |chosen| => chosen[i].tx)
  }

  function CountIn(taken: map<Address, nat>, sender: Address): nat {
    if sender in taken then taken[sender] else 0
  }

  lemma PrefixGrows(all: seq<PoolTx>, i: nat)
    requires i < |all| && Distinct(all)
    ensures forall s :: |SentBy(Members(all[..i + 1]), s)|
                        == |SentBy(Members(all[..i]), s)| + (if s == all[i].tx.sender then 1 else 0)
  {
    assert all[..i + 1] == all[..i] + [all[i]];
    assert all[i] !in all[..i];
    forall s ensures |SentBy(Members(all[..i + 1]), s)|
                     == |SentBy(Members(all[..i]), s)| + (if s == all[i].tx.sender then 1 else 0) {
      assert SentBy(Members(all[..i + 1]), s)
          == SentBy(Members(all[..i]), s) + (if s == all[i].tx.sender then {all[i]} else {});
    }
  }

  /** No two pooled transactions share sender and nonce. */
  ghost predicate KeysDiffer(pool: set<PoolTx>) {
    forall p, q :: p in pool && q in pool && p.tx.sender == q.tx.sender && p.tx.nonce == q.tx.nonce ==> p == q
  }

  lemma RemovedOne(pool: set<PoolTx>, now: set<PoolTx>, c: PoolTx)
    requires KeysDiffer(pool) && now <= pool && c in pool
    ensures (set p | p in now && !(p.tx.sender == c.tx.sender && p.tx.nonce == c.tx.nonce)) == now - {c}
  {
  }

  lemma RemovedNext(pool: set<PoolTx>, now: set<PoolTx>, chosen: seq<PoolTx>, i: nat)
    requires KeysDiffer(pool) && i < |chosen| && chosen[i] in pool
    requires forall p :: p in now <==> p in pool && p !in chosen[..i]
    ensures var c := chosen[i];
            forall p :: (p in now && !(p.tx.sender == c.tx.sender && p.tx.nonce == c.tx.nonce)) <==>
                        p in pool && p !in chosen[..i + 1]
  {
    assert chosen[..i + 1] == chosen[..i] + [chosen[i]];
    RemovedOne(pool, now, chosen[i]);
    hide KeysDiffer;
    var next := set p | p in now && !(p.tx.sender == chosen[i].tx.sender && p.tx.nonce == chosen[i].tx.nonce);
    forall p ensures p in next <==> p in pool && p !in chosen[..i + 1] {}
  }

  /** The front of the priority list is a selection; the rest stays. */
  lemma PrefixIsSelection(pool: set<PoolTx>, all: seq<PoolTx>, max: nat, left: set<PoolTx>)
    requires Distinct(all) && Sorted(all, Ahead) && |all| == |pool| && forall p :: p in all <==> p in pool
    requires forall p :: p in left <==> p in pool && p !in all[..Min(max, |all|)]
    ensures IsSelection(pool, max, all[..Min(max, |all|)], left)
  {
    var k := Min(max, |all|);
    var chosen := all[..k];
    forall i, j | 0 <= i < j < |chosen| ensures NoWorse(chosen[i], chosen[j]) {
      assert Ahead(all[i], all[j]);
    }
    forall c, p | c in chosen && p in left ensures NoWorse(c, p) {
      var i :| 0 <= i < k && all[i] == c;
      assert p in all;
      var j :| 0 <= j < |all| && all[j] == p;
      forall m | 0 <= m < k ensures all[m] != p {
        assert all[m] == chosen[m];
      }
      assert Ahead(all[i], all[j]);
    }
    forall p ensures p in pool <==> p in chosen || p in left {
      if p in chosen {
        var i :| 0 <= i < k && chosen[i] == p;
        assert all[i] == p;
      }
    }
  }

  /** `kept` holds what survives of all senders but the ones still to visit. */
  ghost predicate Survivors(txs: Index, kept: Index, senders: set<Address>, now: nat, ttl: nat) {
    && Filed(kept)
    && kept.Keys <= txs.Keys - senders
    && (forall p :: Pooled(kept, p) <==> Pooled(txs, p) && p.tx.sender !in senders && Age(p, now) < ttl)
  }

  /** `left` is what survives of one sender's transactions. */
  ghost predicate FreshPart(m: map<nat, PoolTx>, left: map<nat, PoolTx>, now: nat, ttl: nat) {
    && (forall n :: n in left <==> n in m && Age(m[n], now) < ttl)
    && (forall n :: n in left ==> left[n] == m[n])
  }

  /** Kept and evicted transactions make up the senders already visited. */
  ghost predicate SizesAddUp(txs: Index, kept: Index, evicted: nat, senders: set<Address>) {
    Sum(Sizes(kept)) + evicted == Weight(Sizes(txs), txs.Keys - senders)
  }

  function KeepPart(kept: Index, s: Address, left: map<nat, PoolTx>): Index {
    if left == map[] then kept else kept[s := left]
  }

  lemma KeepSizes(kept: Index, s: Address, left: map<nat, PoolTx>)
    requires s !in kept
    ensures Sum(Sizes(KeepPart(kept, s, left))) == Sum(Sizes(kept)) + |left|
  {
    SizeUpdate(kept, s, left);
    if left == map[] {
      assert |left| == 0;
    }
  }

  /** Visiting one more sender adds its size to the weight of the visited ones. */
  lemma VisitedWeight(txs: Index, senders: set<Address>, s: Address)
    requires s in senders && s in txs
    ensures Weight(Sizes(txs), txs.Keys - (senders - {s})) == Weight(Sizes(txs), txs.Keys - senders) + |txs[s]|
  {
    WeightAdd(Sizes(txs), txs.Keys - senders, s);
    assert txs.Keys - (senders - {s}) == (txs.Keys - senders) + {s};
  }

  lemma SizesStep(txs: Index, kept: Index, evicted: nat, senders: set<Address>, s: Address,
                  left: map<nat, PoolTx>, gone: nat)
    requires s in senders && s in txs && s !in kept && |left| + gone == |txs[s]|
    requires SizesAddUp(txs, kept, evicted, senders)
    ensures SizesAddUp(txs, KeepPart(kept, s, left), evicted + gone, senders - {s})
  {
    KeepSizes(kept, s, left);
    VisitedWeight(txs, senders, s);
  }

  lemma PartMembers(txs: Index, s: Address, left: map<nat, PoolTx>, now: nat, ttl: nat)
    requires Filed(txs) && s in txs && FreshPart(txs[s], left, now, ttl)
    ensures FiledUnder(s, left)
    ensures forall p: PoolTx :: p.tx.sender == s ==>
              (p.tx.nonce in left && left[p.tx.nonce] == p <==> Pooled(txs, p) && Age(p, now) < ttl)
  {
  }

  /** Processing one more sender during eviction. */
  lemma KeepSender(txs: Index, kept: Index, senders: set<Address>, s: Address, left: map<nat, PoolTx>,
                   now: nat, ttl: nat)
    requires Filed(txs) && s in senders && s in txs
    requires Survivors(txs, kept, senders, now, ttl) && FreshPart(txs[s], left, now, ttl)
    ensures Survivors(txs, KeepPart(kept, s, left), senders - {s}, now, ttl)
  {
    PartMembers(txs, s, left, now, ttl);
    PutSender(kept, s, left);
    var next := KeepPart(kept, s, left);
    assert Filed(next);
    forall p ensures Pooled(next, p) <==> if p.tx.sender == s then p.tx.nonce in left && left[p.tx.nonce] == p
                                          else Pooled(kept, p) {}
  }

  function Age(p: PoolTx, now: nat): nat {
    if p.receivedAt <= now then now - p.receivedAt else 0
  }

  class Mempool {
    const maxSize: nat
    const ttl: nat
    const minFee: nat
    const perSenderCap: nat
    var txs: Index
    var count: nat

    /** The counter is the sum of the per-sender sizes, within the size limit,
        and no sender exceeds its cap. */
    ghost predicate Valid()
      reads this
    {
      && Filed(txs)
      && count == Sum(Sizes(txs)) <= maxSize
      && (forall s :: s in txs ==> WithinLimits(txs[s]))
    }

    ghost predicate WithinLimits(m: map<nat, PoolTx>) {
      |m| <= perSenderCap && forall n :: n in m ==> m[n].tx.fee >= minFee
    }

    ghost function Pool(): set<PoolTx>
      requires Filed(txs)
      reads this
    {
      PoolOf(txs)
    }

    constructor (maxSize: nat, ttl: nat, minFee: nat, perSenderCap: nat)
      ensures Valid() && Pool() == {}
      ensures this.maxSize == maxSize && this.ttl == ttl && this.minFee == minFee && this.perSenderCap == perSenderCap
    {
      this.maxSize, this.ttl, this.minFee, this.perSenderCap := maxSize, ttl, minFee, perSenderCap;
      txs, count := map[], 0;
      new;
      assert Sizes(txs) == map[];
    }

    /** Another transaction of the sender with the nonce is pooled. */
    ghost predicate Taken(pool: set<PoolTx>, tx: Tx) {
      exists p :: p in pool && p.tx.sender == tx.sender && p.tx.nonce == tx.nonce
    }

    /** The answer to an insertion, on the pool as a set. */
    ghost predicate Admits(pool: set<PoolTx>, tx: Tx, result: InsertResult) {
      && (result == FeeTooLow <==> tx.fee < minFee)
      && (result == PoolFull <==> tx.fee >= minFee && |pool| >= maxSize)
      && (result == DuplicateNonce <==> tx.fee >= minFee && |pool| < maxSize && Taken(pool, tx))
      && (result == SenderAtCap <==>
            tx.fee >= minFee && |pool| < maxSize && !Taken(pool, tx) && |SentBy(pool, tx.sender)| >= perSenderCap)
    }

    method Add(tx: Tx, now: nat) returns (result: InsertResult)
      requires Valid()
      modifies this
      ensures Valid()
      ensures Admits(old(Pool()), tx, result)
      ensures Pool() == old(Pool()) + (if result == Inserted then {PoolTx(tx, now)} else {})
    {
      AdmissionFromIndex(tx);
      if tx.fee < minFee {
        return FeeTooLow;
      }
      if count >= maxSize {
        return PoolFull;
      }
      var sender := MapOf(txs, tx.sender);
      if tx.nonce in sender {
        return DuplicateNonce;
      }
      if |sender| >= perSenderCap {
        KeepEntry(tx.sender);
        return SenderAtCap;
      }
      File(PoolTx(tx, now));
      result := Inserted;
    }

    method File(p: PoolTx)
      requires Valid() && Admits(Pool(), p.tx, Inserted)
      modifies this
      ensures Valid() && Pool() == old(Pool()) + {p}
    {
      AdmissionFromIndex(p.tx);
      var sender := MapOf(txs, p.tx.sender)[p.tx.nonce := p];
      FileEffect(txs, p, sender);
      SenderStaysWithin(p, sender);
      txs, count := txs[p.tx.sender := sender], count + 1;
    }

    lemma SenderStaysWithin(p: PoolTx, m: map<nat, PoolTx>)
      requires Valid() && p.tx.fee >= minFee && |m| <= perSenderCap
      requires m == MapOf(txs, p.tx.sender)[p.tx.nonce := p]
      ensures WithinLimits(m)
    {
      if p.tx.sender in txs {
        assert WithinLimits(txs[p.tx.sender]);
      }
    }

    /** The same checks, read off the index. */
    lemma AdmissionFromIndex(tx: Tx)
      requires Valid()
      ensures Admits(Pool(), tx,
                if tx.fee < minFee then FeeTooLow
                else if count >= maxSize then PoolFull
                else if tx.nonce in MapOf(txs, tx.sender) then DuplicateNonce
                else if |MapOf(txs, tx.sender)| >= perSenderCap then SenderAtCap
                else Inserted)
    {
      PoolSize(txs);
      SentBySize(txs, tx.sender);
      DuplicateIff(tx);
    }

    lemma DuplicateIff(tx: Tx)
      requires Valid()
      ensures tx.nonce in MapOf(txs, tx.sender) <==> Taken(Pool(), tx)
    {
      if tx.nonce in MapOf(txs, tx.sender) {
        assert Pooled(txs, txs[tx.sender][tx.nonce]);
      }
    }

    /** A refusal at the cap leaves the sender's entry in the index, empty when the cap is zero. */
    method KeepEntry(sender: Address)
      requires Valid()
      modifies this`txs
      ensures Valid() && Pool() == old(Pool())
    {
      if sender !in txs {
        SizeUpdate(txs, sender, map[]);
        assert Filed(txs[sender := map[]]);
        forall p ensures Pooled(txs[sender := map[]], p) <==> Pooled(txs, p) {}
        assert PoolOf(txs[sender := map[]]) == PoolOf(txs);
        txs := txs[sender := map[]];
      }
    }

    method Remove(sender: Address, nonce: nat) returns (removed: bool)
      requires Valid()
      modifies this
      ensures Valid()
      ensures removed <==> exists p :: p in old(Pool()) && p.tx.sender == sender && p.tx.nonce == nonce
      ensures Pool() == set p | p in old(Pool()) && !(p.tx.sender == sender && p.tx.nonce == nonce)
    {
      if sender in txs {
        if nonce in txs[sender] {
          var left := txs[sender] - {nonce};
          UnfileEffect(txs, sender, nonce, left);
          OnlyOneFiled(txs, sender, nonce);
          count := count - 1;
          if left == map[] {
            txs := txs - {sender};
          } else {
            txs := txs[sender := left];
          }
          return true;
        }
      }
      return false;
    }

    /** All pooled transactions, in the arbitrary order of the hash map. */
    method Collect() returns (all: seq<PoolTx>)
      requires Valid()
      ensures Distinct(all) && forall p :: p in all <==> p in Pool()
      ensures |all| == |Pool()|
    {
      all := [];
      var senders := txs.Keys;
      while senders != {}
        invariant senders <= txs.Keys
        invariant Distinct(all)
        invariant forall p :: p in all <==> Pooled(txs, p) && p.tx.sender !in senders
        decreases |senders|
      {
        var s :| s in senders;
        all := AppendSender(all, s, senders);
        senders := senders - {s};
      }
      ListSize(all, Pool());
    }

    method AppendSender(before: seq<PoolTx>, s: Address, ghost senders: set<Address>) returns (all: seq<PoolTx>)
      requires Valid() && s in txs && s in senders
      requires Distinct(before) && forall p :: p in before <==> Pooled(txs, p) && p.tx.sender !in senders
      ensures Distinct(all) && forall p :: p in all <==> Pooled(txs, p) && p.tx.sender !in senders - {s}
    {
      all := before;
      var nonces := txs[s].Keys;
      while nonces != {}
        invariant nonces <= txs[s].Keys
        invariant Distinct(all)
        invariant forall p :: p in all <==>
                    p in before || (Pooled(txs, p) && p.tx.sender == s && p.tx.nonce !in nonces)
        decreases |nonces|
      {
        var n :| n in nonces;
        assert Pooled(txs, txs[s][n]) && txs[s][n] !in all;
        all := all + [txs[s][n]];
        nonces := nonces - {n};
      }
    }

    method Select(max: nat) returns (result: seq<Tx>, ghost chosen: seq<PoolTx>)
      requires Valid()
      modifies this
      ensures Valid()
      ensures IsSelection(old(Pool()), max, chosen, Pool())
      ensures |result| == |chosen| && forall i :: 0 <= i < |result| ==> result[i] == chosen[i].tx
    {
      PoolSize(txs);
      if max == 0 || count == 0 {
        chosen := [];
        return [], [];
      }
      var all := CollectSorted();
      result := TakeBest(all, max);
      chosen := all[..Min(max, |all|)];
      RemoveAll(result, chosen);
      PrefixIsSelection(old(Pool()), all, max, Pool());
    }

    /** All pooled transactions, best first. */
    method CollectSorted() returns (all: seq<PoolTx>)
      requires Valid()
      ensures Distinct(all) && Sorted(all, Ahead) && forall p :: p in all <==> p in Pool()
      ensures |all| == |Pool()|
    {
      var listed := Collect();
      all := Sort(listed, Ahead);
      AheadOrder();
      SortPermutes(listed, Ahead);
      SortSorts(listed, Ahead);
      DistinctPermutation(listed, all);
      SameMembers(listed, all);
    }

    method RemoveAll(result: seq<Tx>, ghost chosen: seq<PoolTx>)
      requires Valid() && result == Txs(chosen) && forall c :: c in chosen ==> c in Pool()
      modifies this
      ensures Valid()
      ensures forall p :: p in Pool() <==> p in old(Pool()) && p !in chosen
    {
      ghost var all := Pool();
      assert KeysDiffer(all);
      for i := 0 to |result|
        invariant Valid()
        invariant forall p :: p in Pool() <==> p in all && p !in chosen[..i]
      {
        assert chosen[i] in chosen;
        RemovedNext(all, Pool(), chosen, i);
        var removed := Remove(result[i].sender, result[i].nonce);
      }
      assert chosen[..|result|] == chosen;
    }

    /** Take from the front of the sorted list, never more than the cap from one
        sender. Since the pool respects the cap, nothing is ever skipped. */
    method TakeBest(all: seq<PoolTx>, max: nat) returns (result: seq<Tx>)
      requires Valid() && max > 0 && Distinct(all) && forall p :: p in all <==> p in Pool()
      ensures result == Txs(all[..Min(max, |all|)])
    {
      var taken: map<Address, nat> := map[];
      result := [];
      var i := 0;
      while i < |all|
        invariant 0 <= i <= |all| && i < max
        invariant result == Txs(all[..i])
        invariant forall s :: CountIn(taken, s) == |SentBy(Members(all[..i]), s)|
        decreases |all| - i
      {
        CapLeavesRoom(all, i);
        PrefixGrows(all, i);
        var s := all[i].tx.sender;
        if CountIn(taken, s) >= perSenderCap {
          assert false;
        }
        result := result + [all[i].tx];
        ghost var before := taken;
        taken := taken[s := CountIn(taken, s) + 1];
        forall t ensures CountIn(taken, t) == CountIn(before, t) + (if t == s then 1 else 0) {}
        i := i + 1;
        if |result| >= max {
          break;
        }
      }
    }

    lemma CapLeavesRoom(all: seq<PoolTx>, i: nat)
      requires Valid() && i < |all| && Distinct(all) && forall p :: p in all <==> p in Pool()
      ensures |SentBy(Members(all[..i]), all[i].tx.sender)| < perSenderCap
    {
      var s := all[i].tx.sender;
      var part, whole := SentBy(Members(all[..i]), s), SentBy(Pool(), s);
      SentBySize(txs, s);
      assert all[i] in Pool() && all[i] in whole;
      assert all[i] !in all[..i];
      assert Pool() == PoolOf(txs);
      assert part <= whole - {all[i]} by {
        forall p | p in part ensures p in whole - {all[i]} {
          assert p in all;
        }
      }
      SubsetSize(part, whole - {all[i]});
    }

    /** The transactions that arrived less than the time to live before `now`. */
    ghost function Young(pool: set<PoolTx>, now: nat): set<PoolTx> {
      set p | p in pool && ttl > 0 && now < p.receivedAt + ttl
    }

    method EvictExpired(now: nat) returns (evicted: nat)
      requires Valid()
      modifies this
      ensures Valid()
      ensures Pool() == Young(old(Pool()), now)
      ensures evicted == |old(Pool())| - |Pool()|
    {
      var kept: Index;
      kept, evicted := RetainAll(now);
      EvictDone(kept, evicted, now);
      PoolSize(txs);
      PoolSize(kept);
      txs, count := kept, count - evicted;
    }

    method RetainAll(now: nat) returns (kept: Index, evicted: nat)
      requires Valid()
      ensures EvictOk(kept, evicted, {}, now)
    {
      kept, evicted := map[], 0;
      var senders := txs.Keys;
      EvictStart(now);
      while senders != {}
        invariant senders <= txs.Keys && EvictOk(kept, evicted, senders, now)
        decreases |senders|
      {
        var s :| s in senders;
        kept, evicted := RetainSender(kept, evicted, senders, s, now);
        senders := senders - {s};
      }
    }

    method RetainSender(before: Index, evictedBefore: nat, ghost senders: set<Address>, s: Address, now: nat)
      returns (kept: Index, evicted: nat)
      requires Valid() && EvictOk(before, evictedBefore, senders, now) && s in senders && s in txs
      ensures EvictOk(kept, evicted, senders - {s}, now)
    {
      var left, gone := RetainFresh(txs[s], now);
      EvictStep(before, evictedBefore, senders, s, left, gone, now);
      evicted := evictedBefore + gone;
      kept := KeepPart(before, s, left);
    }

    /** Eviction with some senders still to visit: the survivors among the
        others, within limits, and the counts of both adding up. */
    ghost predicate EvictOk(kept: Index, evicted: nat, senders: set<Address>, now: nat)
      reads this
    {
      && Survivors(txs, kept, senders, now, ttl)
      && (forall s :: s in kept ==> WithinLimits(kept[s]))
      && SizesAddUp(txs, kept, evicted, senders)
    }

    lemma EvictStart(now: nat)
      ensures EvictOk(map[], 0, txs.Keys, now)
    {
      assert txs.Keys - txs.Keys == {};
      WeightEmpty(Sizes(txs));
      assert Sizes(map[]) == map[];
    }

    lemma EvictDone(kept: Index, evicted: nat, now: nat)
      requires Valid() && EvictOk(kept, evicted, {}, now)
      ensures Filed(kept) && PoolOf(kept) == Young(Pool(), now)
      ensures Sum(Sizes(kept)) + evicted == count
    {
      assert txs.Keys - {} == txs.Keys;
      WeightAll(Sizes(txs), txs.Keys);
      YoungSurvive(kept, now);
    }

    lemma YoungSurvive(kept: Index, now: nat)
      requires Valid() && Survivors(txs, kept, {}, now, ttl)
      ensures PoolOf(kept) == Young(Pool(), now)
    {
      forall p ensures p in PoolOf(kept) <==> p in Young(Pool(), now) {
        assert Pooled(kept, p) <==> Pooled(txs, p) && Age(p, now) < ttl;
      }
    }

    lemma EvictStep(kept: Index, evicted: nat, senders: set<Address>, s: Address,
                    left: map<nat, PoolTx>, gone: nat, now: nat)
      requires Valid() && EvictOk(kept, evicted, senders, now) && s in senders && s in txs
      requires FreshPart(txs[s], left, now, ttl) && |left| + gone == |txs[s]|
      ensures EvictOk(KeepPart(kept, s, left), evicted + gone, senders - {s}, now)
    {
      KeepSender(txs, kept, senders, s, left, now, ttl);
      SizesStep(txs, kept, evicted, senders, s, left, gone);
      FreshWithinLimits(txs[s], left, now);
    }

    lemma FreshWithinLimits(m: map<nat, PoolTx>, left: map<nat, PoolTx>, now: nat)
      requires WithinLimits(m) && FreshPart(m, left, now, ttl) && |left| <= |m|
      ensures WithinLimits(left)
    {
    }

    /** One sender's transactions that have not expired, and how many have. */
    method RetainFresh(m: map<nat, PoolTx>, now: nat) returns (left: map<nat, PoolTx>, gone: nat)
      ensures FreshPart(m, left, now, ttl)
      ensures |left| + gone == |m|
    {
      left, gone := map[], 0;
      var nonces := m.Keys;
      while nonces != {}
        invariant nonces <= m.Keys
        invariant forall n :: n in left <==> n in m && n !in nonces && Age(m[n], now) < ttl
        invariant forall n :: n in left ==> left[n] == m[n]
        invariant |left| + gone + |nonces| == |m.Keys|
        decreases |nonces|
      {
        var n :| n in nonces;
        if Age(m[n], now) >= ttl {
          gone := gone + 1;
        } else {
          assert left[n := m[n]].Keys == left.Keys + {n};
          left := left[n := m[n]];
        }
        nonces := nonces - {n};
      }
    }
  }

  lemma {:induction false} ListSize<T>(s: seq<T>, members: set<T>)
    requires Distinct(s) && forall x :: x in s <==> x in members
    ensures |s| == |members|
  {
    if s == [] {
      assert members == {};
    } else {
      var n := |s| - 1;
      assert s == s[..n] + [s[n]];
      assert s[n] !in s[..n];
      ListSize(s[..n], members - {s[n]});
    }
  }

  // ---------------------------------------------------------------------
  // When the selection is unique
  // ---------------------------------------------------------------------

  /** The transactions with strictly higher priority than `p`. */
  ghost function AheadOf(pool: set<PoolTx>, p: PoolTx): set<PoolTx> {
    set x | x in pool && NoWorse(x, p) && !SameRank(x, p)
  }

  /** Two transactions tie, and fewer than `max` come before them: the tie reaches
      a selected place. */
  ghost predicate TieReaches(pool: set<PoolTx>, max: nat) {
    exists p, q :: p in pool && q in pool && p != q && SameRank(p, q) && |AheadOf(pool, p)| < max
  }

  /** Without such a tie the selection is unique. */
  lemma SelectionUnique(before: set<PoolTx>, max: nat, a: seq<PoolTx>, left: set<PoolTx>,
                        b: seq<PoolTx>, left': set<PoolTx>)
    requires IsSelection(before, max, a, left) && IsSelection(before, max, b, left')
    requires !TieReaches(before, max)
    ensures a == b
  {
    forall k | 0 <= k < |a| ensures a[k] == b[k] {
      SelectionPrefix(before, max, a, left, b, left', k);
    }
  }

  lemma {:induction false} SelectionPrefix(before: set<PoolTx>, max: nat, a: seq<PoolTx>, left: set<PoolTx>,
                                           b: seq<PoolTx>, left': set<PoolTx>, k: nat)
    requires IsSelection(before, max, a, left) && IsSelection(before, max, b, left') && k < |a|
    requires !TieReaches(before, max)
    ensures forall m :: 0 <= m <= k ==> a[m] == b[m]
  {
    if k > 0 {
      SelectionPrefix(before, max, a, left, b, left', k - 1);
    }
    assert a[k] in a && b[k] in b;
    AheadOfRest(before, max, a, left, k, b[k]);
    AheadOfRest(before, max, b, left', k, a[k]);
    FewAhead(before, max, a, left, k);
    assert CmpPriority(a[k], b[k]) == Equal;
  }

  /** Only the choices before the k-th come strictly before it. */
  lemma FewAhead(before: set<PoolTx>, max: nat, a: seq<PoolTx>, left: set<PoolTx>, k: nat)
    requires IsSelection(before, max, a, left) && k < |a|
    ensures |AheadOf(before, a[k])| <= k
  {
    forall x | x in AheadOf(before, a[k]) ensures x in Members(a[..k]) {
      if x !in a[..k] {
        forall m | 0 <= m < k ensures a[m] != x {
          assert a[..k][m] == a[m];
        }
        AheadOfRest(before, max, a, left, k, x);
      }
    }
    SubsetSize(AheadOf(before, a[k]), Members(a[..k]));
    MembersSize(a[..k]);
  }

  lemma {:induction false} MembersSize(s: seq<PoolTx>)
    ensures |Members(s)| <= |s|
  {
    if s == [] {
      assert Members(s) == {};
    } else {
      var n := |s| - 1;
      MembersSize(s[..n]);
      assert s == s[..n] + [s[n]];
      assert Members(s) == Members(s[..n]) + {s[n]};
    }
  }

  /** The k-th choice is ahead of everything not chosen before it. */
  lemma AheadOfRest(before: set<PoolTx>, max: nat, a: seq<PoolTx>, left: set<PoolTx>, k: nat, p: PoolTx)
    requires IsSelection(before, max, a, left) && k < |a|
    requires p in before && forall m :: 0 <= m < k ==> a[m] != p
    ensures Ahead(a[k], p)
  {
    if p in a {
      var j :| 0 <= j < |a| && a[j] == p;
      assert j >= k;
    } else {
      assert a[k] in a;
    }
  }

  /** The set as a duplicate-free list. */
  lemma {:induction false} ListOf(pool: set<PoolTx>) returns (all: seq<PoolTx>)
    ensures Distinct(all) && |all| == |pool| && forall p :: p in all <==> p in pool
    decreases |pool|
  {
    if pool == {} {
      all := [];
    } else {
      var p :| p in pool;
      var rest := ListOf(pool - {p});
      all := rest + [p];
    }
  }

  /** The pool as a priority list. */
  lemma PriorityList(pool: set<PoolTx>) returns (all: seq<PoolTx>)
    ensures Distinct(all) && Sorted(all, Ahead) && |all| == |pool| && forall p :: p in all <==> p in pool
  {
    var listed := ListOf(pool);
    all := Sort(listed, Ahead);
    AheadOrder();
    SortPermutes(listed, Ahead);
    SortSorts(listed, Ahead);
    DistinctPermutation(listed, all);
    SameMembers(listed, all);
  }

  /** Two tied entries of a priority list exchanged. */
  function Exchange(all: seq<PoolTx>, i: nat, j: nat): seq<PoolTx>
    requires i < |all| && j < |all|
  {
    all[i := all[j]][j := all[i]]
  }

  lemma ExchangeSorted(all: seq<PoolTx>, i: nat, j: nat)
    requires i < |all| && j < |all| && Sorted(all, Ahead) && CmpPriority(all[i], all[j]) == Equal
    ensures Sorted(Exchange(all, i, j), Ahead)
  {
    var next := Exchange(all, i, j);
    forall m, n | 0 <= m < n < |next| ensures Ahead(next[m], next[n]) {
      assert Ahead(all[m], all[n]);
    }
  }

  lemma ExchangeMembers(all: seq<PoolTx>, i: nat, j: nat)
    requires i < |all| && j < |all| && i != j && Distinct(all)
    ensures Distinct(Exchange(all, i, j))
    ensures forall p :: p in Exchange(all, i, j) <==> p in all
  {
    var next := Exchange(all, i, j);
    forall p ensures p in next <==> p in all {
      if p in all {
        var k :| 0 <= k < |all| && all[k] == p;
        assert next[if k == i then j else if k == j then i else k] == p;
      }
    }
  }

  lemma NotAllAhead(pool: set<PoolTx>, all: seq<PoolTx>, max: nat, p: PoolTx)
    requires Distinct(all) && max <= |all| && forall x :: x in all <==> x in pool
    requires |AheadOf(pool, p)| < max
    ensures exists k :: 0 <= k < max && CmpPriority(all[k], p) != Less
  {
    if forall k :: 0 <= k < max ==> CmpPriority(all[k], p) == Less {
      forall x | x in Members(all[..max]) ensures x in AheadOf(pool, p) {
        var k :| 0 <= k < max && all[..max][k] == x;
        assert all[k] in all;
      }
      SubsetSize(Members(all[..max]), AheadOf(pool, p));
      ListSize(all[..max], Members(all[..max]));
      assert false;
    }
  }

  /** A tie that reaches a selected place has a member in one. */
  lemma TiedInFront(pool: set<PoolTx>, all: seq<PoolTx>, max: nat, p: PoolTx) returns (m: nat)
    requires Distinct(all) && Sorted(all, Ahead) && forall x :: x in all <==> x in pool
    requires p in pool && |AheadOf(pool, p)| < max
    ensures m < |all| && m < max && CmpPriority(all[m], p) == Equal
  {
    var i :| 0 <= i < |all| && all[i] == p;
    if i < max {
      m := i;
    } else {
      NotAllAhead(pool, all, max, p);
      m :| 0 <= m < max && CmpPriority(all[m], p) != Less;
      assert Ahead(all[m], all[i]);
    }
  }

  ghost predicate UniqueSelection(pool: set<PoolTx>, max: nat) {
    forall a, left, b, left' :: IsSelection(pool, max, a, left) && IsSelection(pool, max, b, left') ==> a == b
  }

  /** What is left of the pool after the front of a list. */
  ghost function LeftAfter(pool: set<PoolTx>, all: seq<PoolTx>, max: nat): set<PoolTx> {
    set p | p in pool && p !in all[..Min(max, |all|)]
  }

  /** Exchanging a tied transaction in a selected place with another gives another selection. */
  lemma TwoSelections(pool: set<PoolTx>, max: nat, p: PoolTx, q: PoolTx)
    returns (a: seq<PoolTx>, left: set<PoolTx>, b: seq<PoolTx>, left': set<PoolTx>)
    requires p in pool && q in pool && p != q && SameRank(p, q) && |AheadOf(pool, p)| < max
    ensures IsSelection(pool, max, a, left) && IsSelection(pool, max, b, left') && a != b
  {
    hide IsSelection;
    var all := PriorityList(pool);
    var m := TiedInFront(pool, all, max, p);
    var other := if all[m] == p then q else p;
    var n :| 0 <= n < |all| && all[n] == other;
    var next := Exchange(all, m, n);
    ExchangeSorted(all, m, n);
    ExchangeMembers(all, m, n);
    a, left := all[..Min(max, |all|)], LeftAfter(pool, all, max);
    b, left' := next[..Min(max, |all|)], LeftAfter(pool, next, max);
    PrefixIsSelection(pool, all, max, left);
    PrefixIsSelection(pool, next, max, left');
    assert a[m] == all[m] && b[m] == all[n];
  }

  /** Exactly then: the list of selected transactions is determined by the pool if
      and only if no tie reaches a selected place. */
  lemma SelectionUniqueIff(pool: set<PoolTx>, max: nat)
    ensures UniqueSelection(pool, max) <==> !TieReaches(pool, max)
  {
    hide IsSelection;
    if TieReaches(pool, max) {
      var p, q :| p in pool && q in pool && p != q && SameRank(p, q) && |AheadOf(pool, p)| < max;
      var a, left, b, left' := TwoSelections(pool, max, p, q);
    } else {
      forall a, left, b, left' | IsSelection(pool, max, a, left) && IsSelection(pool, max, b, left') ensures a == b {
        SelectionUnique(pool, max, a, left, b, left');
      }
    }
  }
}
