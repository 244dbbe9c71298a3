/** Replay protection and the footprint of a single transaction. */
module Replay {
  import opened Primitives
  import opened Sorting
  import opened Sums
  import opened State
  import opened Ledger
  import opened Lifecycle

  function NonceOf(st: State, addr: Address): nat {
    AccountOrNew(st.accounts, addr).nonce
  }

  /** The transaction moves its sender's nonce: it succeeded, or it is a
      cumulative-unstake rejection whose second fee could be paid. */
  ghost predicate MovesNonce(st: State, tx: Transaction, verdict: Verdict) {
    verdict == Applied || (verdict == FailedCharged && CumulativeRejection(st, tx))
  }

  /** Only the sender's nonce ever moves, and by exactly one. */
  lemma TxNonces(st: State, chainId: nat, tx: Transaction)
    requires Money(st) < U256_MOD && TxStep(st, chainId, tx).Stepped?
    ensures var step := TxStep(st, chainId, tx);
            && (step.verdict == Applied ==> tx.nonce == NonceOf(st, tx.sender))
            && (forall a :: NonceOf(step.st, a) ==
                  if a == tx.sender && MovesNonce(st, tx, step.verdict) then Add64(NonceOf(st, a), 1)
                  else NonceOf(st, a))
  {
    if tx.chainId == chainId && tx.sender in st.accounts {
      var e := ExecBody(st, st.accounts[tx.sender], tx);
      if e.outcome.Failure? {
        FailureFrame(st, tx);
      } else {
        var step := TxStep(st, chainId, tx);
        SuccessNonces(st, tx);
        forall a ensures NonceOf(step.st, a) ==
          if a == tx.sender then Add64(NonceOf(st, a), 1) else NonceOf(st, a) {}
      }
    }
  }

  lemma SuccessNonces(st: State, tx: Transaction)
    requires tx.sender in st.accounts
    requires ExecBody(st, st.accounts[tx.sender], tx).outcome.Success?
    ensures var e := ExecBody(st, st.accounts[tx.sender], tx);
            && tx.nonce == st.accounts[tx.sender].nonce
            && e.sender.nonce == Add64(tx.nonce, 1)
            && (forall a :: NonceOf(e.st, a) == NonceOf(st, a))
  {
    var sender := st.accounts[tx.sender];
    var e := ExecBody(st, sender, tx);
    match tx.body {
      case Transfer(to, n) => assert e == ExecTransfer(st, sender, to, n, tx.fee, tx.nonce);
      case Burn(target, n) => assert e == ExecTransfer(st, sender, BurnDestination(target), n, tx.fee, tx.nonce);
      case RegisterValidator(k) => assert e == ExecRegister(st, sender, tx.sender, k, tx.fee, tx.nonce);
      case Stake(v, n) => assert e == ExecStake(st, sender, v, n, tx.fee, tx.nonce);
      case RegisterAndStake(v, n) => assert e == ExecRegisterAndStake(st, sender, tx.sender, v, n, tx.fee, tx.nonce);
      case Unstake(v, n) => assert e == ExecUnstake(st, sender, v, n, tx.fee, tx.nonce, 0);
      case _ => assert e == ExecFeeOnly(st, sender, tx.fee, tx.nonce);
    }
  }

  /** A transaction that does not succeed touches its sender's account only:
      it pays nothing, one fee, or, after a cumulative-unstake rejection with
      money left, two fees and a nonce. */
  lemma FailedTxFrame(st: State, chainId: nat, tx: Transaction)
    requires Money(st) < U256_MOD && TxStep(st, chainId, tx).Stepped?
    requires TxStep(st, chainId, tx).verdict != Applied
    ensures var step := TxStep(st, chainId, tx);
            && step.st == st.(accounts := step.st.accounts)
            && step.st.accounts.Keys == st.accounts.Keys
            && (forall a :: a in st.accounts && a != tx.sender ==> step.st.accounts[a] == st.accounts[a])
            && (step.verdict != FailedCharged ==> step.st == st)
            && (step.verdict == FailedCharged ==>
                  var before, after := st.accounts[tx.sender], step.st.accounts[tx.sender];
                  if CumulativeRejection(st, tx)
                  then after.balance + 2 * tx.fee == before.balance && after.nonce == Add64(before.nonce, 1)
                  else after.balance + tx.fee == before.balance && after.nonce == before.nonce)
  {
    if tx.chainId == chainId && tx.sender in st.accounts {
      FailureFrame(st, tx);
    }
  }

  // ---------------------------------------------------------------------
  // The log of successful transactions
  // ---------------------------------------------------------------------

  datatype Done = Done(sender: Address, nonce: nat)

  function Entry(tx: Transaction, verdict: Verdict): seq<Done> {
    if verdict == Applied then [Done(tx.sender, tx.nonce)] else []
  }

  /** The (sender, nonce) pairs that succeeded in a list of transactions, in order. */
  ghost function TxLog(st: State, chainId: nat, txs: seq<Transaction>): seq<Done> {
    if txs == [] then []
    else
      var n := |txs| - 1;
      var log := TxLog(st, chainId, txs[..n]);
      match RunTxs(st, chainId, txs[..n])
      case None => log
      case Some((mid, _)) =>
        match TxStep(mid, chainId, txs[n])
        case Aborted => log
        case Stepped(_, verdict) => log + Entry(txs[n], verdict)
  }

  ghost function EventLog(st: State, ev: Event): seq<Done> {
    match ev
    case NewBlock(block) => TxLog(st, block.chainId, block.transactions)
    case _ => []
  }

  ghost function RunLog(st: State, events: seq<Event>): seq<Done> {
    if events == [] then []
    else
      var n := |events| - 1;
      match Run(st, events[..n])
      case None => RunLog(st, events[..n])
      case Some(mid) => RunLog(st, events[..n]) + EventLog(mid, events[n])
  }

  function EventSize(ev: Event): nat {
    match ev
    case NewBlock(block) => |block.transactions|
    case _ => 0
  }

  ghost function RunSize(events: seq<Event>): nat {
    SeqSum(events, EventSize)
  }

  /** Stored nonces are 64-bit numbers. */
  ghost predicate NoncesTyped(st: State) {
    forall a :: NonceOf(st, a) < U64_MOD
  }

  /** How far a 64-bit counter has to go forward from `n` to reach `m`. */
  function Forward(n: nat, m: nat): nat
    requires n < U64_MOD && m < U64_MOD
  {
    if n <= m then m - n else m + U64_MOD - n
  }

  /** No nonce has moved forward by more than `room` steps. */
  ghost predicate NoncesForward(st: State, next: State, room: nat)
    requires NoncesTyped(st) && NoncesTyped(next)
  {
    forall a :: Forward(NonceOf(st, a), NonceOf(next, a)) <= room
  }

  /** The pair was used between one and `room` steps of its sender's nonce ago. */
  ghost predicate UsedWithin(st: State, d: Done, room: nat)
    requires NoncesTyped(st)
  {
    d.nonce < U64_MOD && 1 <= Forward(d.nonce, NonceOf(st, d.sender)) <= room
  }

  /** After `room` transactions the log is free of repeats, and while the nonces
      cannot have gone all the way round, every pair in it lies behind its
      sender's nonce. */
  ghost predicate LogOk(st: State, log: seq<Done>, room: nat) {
    && NoncesTyped(st)
    && Distinct(log)
    && (room < U64_MOD ==> forall i :: 0 <= i < |log| ==> UsedWithin(st, log[i], room))
  }

  /** Each nonce stays or takes one step. */
  ghost predicate OneStep(st: State, next: State) {
    forall a :: NonceOf(next, a) == NonceOf(st, a) || NonceOf(next, a) == Add64(NonceOf(st, a), 1)
  }

  lemma ForwardStep(n: nat, m: nat, next: nat)
    requires n < U64_MOD && m < U64_MOD && (next == m || next == Add64(m, 1))
    ensures next < U64_MOD
    ensures Forward(n, m) + 1 < U64_MOD ==> Forward(n, m) <= Forward(n, next) <= Forward(n, m) + 1
  {
  }

  lemma UsedStep(st: State, next: State, d: Done, room: nat)
    requires NoncesTyped(st) && NoncesTyped(next) && OneStep(st, next)
    requires UsedWithin(st, d, room) && room + 1 < U64_MOD
    ensures UsedWithin(next, d, room + 1)
  {
    ForwardStep(d.nonce, NonceOf(st, d.sender), NonceOf(next, d.sender));
  }

  lemma TypedStep(st: State, next: State)
    requires NoncesTyped(st) && OneStep(st, next)
    ensures NoncesTyped(next)
  {
    forall a ensures NonceOf(next, a) < U64_MOD {
      ForwardStep(0, NonceOf(st, a), NonceOf(next, a));
    }
  }

  /** One more transaction: its pair is new as long as no nonce can have gone all
      the way round before it. */
  lemma TxExtendsLog(st: State, chainId: nat, tx: Transaction, log: seq<Done>, room: nat)
    requires Money(st) < U256_MOD && TxStep(st, chainId, tx).Stepped?
    requires LogOk(st, log, room) && room < U64_MOD
    ensures var step := TxStep(st, chainId, tx);
            OneStep(st, step.st) && LogOk(step.st, log + Entry(tx, step.verdict), room + 1)
  {
    TxNonces(st, chainId, tx);
    var step := TxStep(st, chainId, tx);
    TypedStep(st, step.st);
    var more := Entry(tx, step.verdict);
    assert Distinct(log + more);
    if room + 1 < U64_MOD {
      forall i | 0 <= i < |log + more| ensures UsedWithin(step.st, (log + more)[i], room + 1) {
        if i < |log| {
          UsedStep(st, step.st, log[i], room);
        }
      }
    }
  }

  lemma {:induction false} TxsExtendLog(st: State, chainId: nat, txs: seq<Transaction>, log: seq<Done>, room: nat)
    requires Money(st) < U256_MOD && RunTxs(st, chainId, txs).Some?
    requires LogOk(st, log, room) && room + |txs| <= U64_MOD
    ensures LogOk(RunTxs(st, chainId, txs).value.0, log + TxLog(st, chainId, txs), room + |txs|)
  {
    if txs == [] {
      assert log + [] == log;
    } else {
      var n := |txs| - 1;
      TxsExtendLog(st, chainId, txs[..n], log, room);
      TxsLedger(st, chainId, txs[..n]);
      var mid := RunTxs(st, chainId, txs[..n]).value.0;
      var done := TxLog(st, chainId, txs[..n]);
      TxExtendsLog(mid, chainId, txs[n], log + done, room + n);
      var more := Entry(txs[n], TxStep(mid, chainId, txs[n]).verdict);
      assert log + done + more == log + (done + more);
    }
  }

  lemma {:induction false} TxsForward(start: State, st: State, chainId: nat, txs: seq<Transaction>, room: nat)
    requires Money(st) < U256_MOD && RunTxs(st, chainId, txs).Some?
    requires NoncesTyped(start) && NoncesTyped(st) && NoncesForward(start, st, room) && room + |txs| < U64_MOD
    ensures NoncesTyped(RunTxs(st, chainId, txs).value.0)
    ensures NoncesForward(start, RunTxs(st, chainId, txs).value.0, room + |txs|)
  {
    if txs != [] {
      var n := |txs| - 1;
      TxsForward(start, st, chainId, txs[..n], room);
      TxsLedger(st, chainId, txs[..n]);
      var mid := RunTxs(st, chainId, txs[..n]).value.0;
      var next := TxStep(mid, chainId, txs[n]).st;
      TxNonces(mid, chainId, txs[n]);
      TypedStep(mid, next);
      forall a ensures Forward(NonceOf(start, a), NonceOf(next, a)) <= room + |txs| {
        ForwardStep(NonceOf(start, a), NonceOf(mid, a), NonceOf(next, a));
      }
    }
  }

  lemma {:induction false} PaySharesNonces(accounts: map<Address, Account>, holders: seq<Holder>, fees: nat, total: nat)
    requires total > 0
    ensures forall a :: AccountOrNew(PayShares(accounts, holders, fees, total), a).nonce
                        == AccountOrNew(accounts, a).nonce
  {
    if holders != [] {
      PaySharesNonces(accounts, holders[..|holders| - 1], fees, total);
    }
  }

  lemma DistributeNonces(st: State, fees: nat)
    requires DistributeFees(st, fees).Some?
    ensures forall a :: NonceOf(DistributeFees(st, fees).value, a) == NonceOf(st, a)
  {
    var holders := Holders(st, st.activeSet);
    var total := SatTotal(holders);
    if total > 0 {
      PaySharesNonces(st.accounts, Sort(holders, PaidBefore), fees, total);
    }
  }

  ghost predicate SameNonces(st: State, next: State) {
    forall a :: NonceOf(next, a) == NonceOf(st, a)
  }

  /** The nonces at the end of the event are those after its transactions, if any. */
  ghost predicate MovesByTxsOnly(st: State, ev: Event, next: State) {
    if ev.NewBlock? then
      && RunTxs(st, ev.block.chainId, ev.block.transactions).Some?
      && SameNonces(RunTxs(st, ev.block.chainId, ev.block.transactions).value.0, next)
    else SameNonces(st, next)
  }

  /** Outside transactions no nonce moves. */
  lemma EventNonces(st: State, ev: Event)
    requires LifecycleOk(st) && Handle(st, ev).Some?
    ensures MovesByTxsOnly(st, ev, Handle(st, ev).value)
  {
    match ev {
      case NewBlock(block) =>
        var (mid, tally) := RunTxs(st, block.chainId, block.transactions).value;
        DistributeNonces(mid, tally.fees);
      case ThawMany(addrs, era) => ThawKeepsLifecycle(st, addrs, era);
      case ElectFrom(candidates, max, era) => ElectionEffect(st, candidates, max, era);
      case _ =>
    }
  }

  lemma LogSame(st: State, next: State, log: seq<Done>, room: nat)
    requires LogOk(st, log, room) && SameNonces(st, next)
    ensures LogOk(next, log, room)
  {
    forall i | 0 <= i < |log| && room < U64_MOD ensures NoncesTyped(next) && UsedWithin(next, log[i], room) {
      assert UsedWithin(st, log[i], room);
    }
  }

  lemma EventExtendsLog(st: State, ev: Event, log: seq<Done>, room: nat)
    requires SupplyOk(st) && Handle(st, ev).Some?
    requires LogOk(st, log, room) && room + EventSize(ev) <= U64_MOD
    ensures LogOk(Handle(st, ev).value, log + EventLog(st, ev), room + EventSize(ev))
  {
    EventNonces(st, ev);
    if ev.NewBlock? {
      TxsExtendLog(st, ev.block.chainId, ev.block.transactions, log, room);
      var mid := RunTxs(st, ev.block.chainId, ev.block.transactions).value.0;
      LogSame(mid, Handle(st, ev).value, log + EventLog(st, ev), room + EventSize(ev));
    } else {
      assert log + [] == log;
      LogSame(st, Handle(st, ev).value, log, room);
    }
  }

  lemma EventForward(start: State, st: State, ev: Event, room: nat)
    requires SupplyOk(st) && Handle(st, ev).Some?
    requires NoncesTyped(start) && NoncesTyped(st) && NoncesForward(start, st, room) && room + EventSize(ev) < U64_MOD
    ensures NoncesTyped(Handle(st, ev).value)
    ensures NoncesForward(start, Handle(st, ev).value, room + EventSize(ev))
  {
    EventNonces(st, ev);
    if ev.NewBlock? {
      TxsForward(start, st, ev.block.chainId, ev.block.transactions, room);
    }
  }

  lemma {:induction false} RunExtendsLog(st: State, events: seq<Event>)
    requires SupplyOk(st) && NoncesTyped(st) && RunSize(events) <= U64_MOD && Run(st, events).Some?
    requires forall i :: 0 <= i < |events| ==> Installable(events[i])
    ensures LogOk(Run(st, events).value, RunLog(st, events), RunSize(events))
  {
    if events != [] {
      var n := |events| - 1;
      RunExtendsLog(st, events[..n]);
      NoMinting(st, events[..n]);
      EventExtendsLog(Run(st, events[..n]).value, events[n], RunLog(st, events[..n]), RunSize(events[..n]));
    }
  }

  /** Replay safety: in any run of at most 2^64 transactions no (sender, nonce) pair
      succeeds twice, wherever the nonces start. */
  lemma ReplaySafety(st: State, events: seq<Event>)
    requires SupplyOk(st) && NoncesTyped(st) && RunSize(events) <= U64_MOD && Run(st, events).Some?
    requires forall i :: 0 <= i < |events| ==> Installable(events[i])
    ensures Distinct(RunLog(st, events))
  {
    RunExtendsLog(st, events);
  }

  lemma {:induction false} RunForward(st: State, events: seq<Event>)
    requires SupplyOk(st) && NoncesTyped(st) && RunSize(events) < U64_MOD && Run(st, events).Some?
    requires forall i :: 0 <= i < |events| ==> Installable(events[i])
    ensures NoncesTyped(Run(st, events).value)
    ensures NoncesForward(st, Run(st, events).value, RunSize(events))
  {
    if events != [] {
      var n := |events| - 1;
      RunForward(st, events[..n]);
      NoMinting(st, events[..n]);
      EventForward(st, Run(st, events[..n]).value, events[n], RunSize(events[..n]));
    }
  }

  /** A nonce that the run cannot wrap around never decreases, and grows by at
      most the number of transactions. */
  lemma NonceNeverDecreases(st: State, events: seq<Event>, a: Address)
    requires SupplyOk(st) && NoncesTyped(st) && Run(st, events).Some?
    requires forall i :: 0 <= i < |events| ==> Installable(events[i])
    requires NonceOf(st, a) + RunSize(events) < U64_MOD
    ensures NonceOf(st, a) <= NonceOf(Run(st, events).value, a) <= NonceOf(st, a) + RunSize(events)
  {
    RunForward(st, events);
    assert Forward(NonceOf(st, a), NonceOf(Run(st, events).value, a)) <= RunSize(events);
  }

  // ---------------------------------------------------------------------
  // The limit is sharp
  // ---------------------------------------------------------------------

  /** One account without money. */
  function Idler(nonce: nat): State {
    State(map[9 := Account(0, nonce, None)], map[], [], {})
  }

  /** A block with one free transaction of that account. */
  function FreeBlock(nonce: nat): Event {
    NewBlock(Block(0, [Transaction(0, nonce, 9, 0, Propose)]))
  }

  /** One such block after the other, nonce by nonce. */
  function FreeBlocks(n: nat): seq<Event> {
    seq(n, i requires 0 <= i < n => FreeBlock(i % U64_MOD))
  }

  lemma FreeStep(nonce: nat)
    requires nonce < U64_MOD
    ensures TxStep(Idler(nonce), 0, Transaction(0, nonce, 9, 0, Propose)) == Stepped(Idler(Add64(nonce, 1)), Applied)
  {
  }

  lemma {:induction false} FreeTxs(nonce: nat, txs: seq<Transaction>)
    requires nonce < U64_MOD && txs == [Transaction(0, nonce, 9, 0, Propose)]
    ensures RunTxs(Idler(nonce), 0, txs) == Some((Idler(Add64(nonce, 1)), Tally(0, 1, 0)))
    ensures TxLog(Idler(nonce), 0, txs) == [Done(9, nonce)]
  {
    FreeStep(nonce);
    hide TxStep;
    assert txs[..|txs| - 1] == [];
    assert RunTxs(Idler(nonce), 0, []) == Some((Idler(nonce), Tally(0, 0, 0)));
  }

  lemma {:induction false} FreeEvent(nonce: nat)
    requires nonce < U64_MOD
    ensures Handle(Idler(nonce), FreeBlock(nonce)) == Some(Idler(Add64(nonce, 1)))
    ensures EventLog(Idler(nonce), FreeBlock(nonce)) == [Done(9, nonce)]
    ensures EventSize(FreeBlock(nonce)) == 1
  {
    var txs := [Transaction(0, nonce, 9, 0, Propose)];
    FreeTxs(nonce, txs);
    hide RunTxs;
    hide TxLog;
    assert DistributeFees(Idler(Add64(nonce, 1)), 0) == Some(Idler(Add64(nonce, 1)));
  }

  lemma NextNonce(n: nat)
    ensures Add64(n % U64_MOD, 1) == (n + 1) % U64_MOD
  {
  }

  /** The `n` blocks have all run, and their transactions have all succeeded. */
  ghost predicate AllSucceed(n: nat, events: seq<Event>) {
    && Run(Idler(0), events) == Some(Idler(n % U64_MOD))
    && RunSize(events) == n
    && |RunLog(Idler(0), events)| == n
    && (forall i :: 0 <= i < n ==> RunLog(Idler(0), events)[i] == Done(9, i % U64_MOD))
  }

  /** One more event at the end of a run. */
  lemma {:induction false} RunMore(st: State, events: seq<Event>, mid: State, ev: Event)
    requires Run(st, events) == Some(mid)
    ensures Run(st, events + [ev]) == Handle(mid, ev)
    ensures RunLog(st, events + [ev]) == RunLog(st, events) + EventLog(mid, ev)
    ensures RunSize(events + [ev]) == RunSize(events) + EventSize(ev)
  {
    var all := events + [ev];
    assert all[..|all| - 1] == events;
  }

  lemma {:induction false} FreeExtends(n: nat, events: seq<Event>)
    requires AllSucceed(n, events)
    ensures AllSucceed(n + 1, events + [FreeBlock(n % U64_MOD)])
  {
    hide Run;
    hide RunLog;
    hide RunSize;
    hide Handle;
    hide EventLog;
    hide EventSize;
    var nonce := n % U64_MOD;
    RunMore(Idler(0), events, Idler(nonce), FreeBlock(nonce));
    FreeEvent(nonce);
    NextNonce(n);
  }

  lemma FreeNext(n: nat)
    requires n > 0
    ensures FreeBlocks(n) == FreeBlocks(n - 1) + [FreeBlock((n - 1) % U64_MOD)]
  {
  }

  lemma {:induction false} FreeRun(n: nat)
    ensures AllSucceed(n, FreeBlocks(n))
  {
    if n == 0 {
      assert FreeBlocks(0) == [];
    } else {
      hide AllSucceed;
      hide FreeBlocks;
      FreeRun(n - 1);
      FreeExtends(n - 1, FreeBlocks(n - 1));
      FreeNext(n);
    }
  }

  lemma IdlerOk()
    ensures SupplyOk(Idler(0)) && NoncesTyped(Idler(0))
  {
    assert Balances(Idler(0).accounts) == map[][9 := 0] && Stakes(Idler(0).validators) == map[];
    SumUpdate<Address>(map[], 9, 0);
  }

  /** Sound starting points and runs of at most `limit` transactions. */
  ghost predicate RunWithin(st: State, events: seq<Event>, limit: nat) {
    && SupplyOk(st) && NoncesTyped(st) && Run(st, events).Some?
    && (forall i :: 0 <= i < |events| ==> Installable(events[i]))
    && RunSize(events) <= limit
  }

  /** One transaction more than there are nonces uses the first pair twice. */
  lemma {:induction false} LongRunReplays(n: nat)
    requires n == U64_MOD + 1
    ensures RunWithin(Idler(0), FreeBlocks(n), n) && !Distinct(RunLog(Idler(0), FreeBlocks(n)))
  {
    FreeRun(n);
    IdlerOk();
    var log := RunLog(Idler(0), FreeBlocks(n));
    assert log[0] == Done(9, 0) && log[n - 1] == Done(9, 0);
  }

  /** Replay safety holds for all runs of at most `limit` transactions if and only
      if `limit` is at most 2^64. */
  lemma ReplaySafeIff(limit: nat)
    ensures (forall st, events :: RunWithin(st, events, limit) ==> Distinct(RunLog(st, events))) <==> limit <= U64_MOD
  {
    if limit <= U64_MOD {
      forall st, events | RunWithin(st, events, limit) ensures Distinct(RunLog(st, events)) {
        ReplaySafety(st, events);
      }
    } else {
      LongRunReplays(U64_MOD + 1);
      assert RunWithin(Idler(0), FreeBlocks(U64_MOD + 1), limit);
    }
  }
}
