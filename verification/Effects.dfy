/** Who pays and who receives: the effect of a transaction and of a slash,
    address by address; and every credit of a run adds exactly its amount. */
module Effects {
  import opened Primitives
  import opened Sorting
  import opened Sums
  import opened State
  import opened Ledger
  import opened Lifecycle

  /** What an applied transaction gives to an account. */
  function Received(tx: Transaction, addr: Address): nat {
    if Destination(tx.body) == Some(addr) && (tx.body.Transfer? || tx.body.Burn?) then tx.body.amount else 0
  }

  /** What an applied transaction adds to a validator's stake. */
  function StakeAdded(tx: Transaction, addr: Address): nat {
    match tx.body
    case Stake(validator, amount) => if validator == addr then amount else 0
    case RegisterAndStake(validator, amount) => if validator == addr then amount else 0
    case _ => 0
  }

  ghost predicate Applies(st: State, chainId: nat, tx: Transaction) {
    TxStep(st, chainId, tx).Stepped? && TxStep(st, chainId, tx).verdict == Applied
  }

  /** Every balance and every stake after an applied transaction. A sender never
      receives: what it sends to itself is gone. */
  lemma AppliedEffect(st: State, chainId: nat, tx: Transaction)
    requires Applies(st, chainId, tx)
    ensures var next := TxStep(st, chainId, tx).st;
            && (forall a :: BalanceOf(next.accounts, a) + (if a == tx.sender then Debited(tx) else 0)
                            == BalanceOf(st.accounts, a) + (if a != tx.sender then Received(tx, a) else 0))
            && (forall v :: StakeAt(next, v) == StakeAt(st, v) + StakeAdded(tx, v))
  {
    SuccessEffect(st, tx);
    var e := ExecBody(st, st.accounts[tx.sender], tx);
    forall a ensures BalanceOf(PutAccount(e.st, tx.sender, e.sender).accounts, a)
                     == if a == tx.sender then e.sender.balance else BalanceOf(e.st.accounts, a) {}
  }

  /** The same before the sender's account is written back. */
  lemma SuccessEffect(st: State, tx: Transaction)
    requires tx.sender in st.accounts
    requires ExecBody(st, st.accounts[tx.sender], tx).outcome.Success?
    ensures var e := ExecBody(st, st.accounts[tx.sender], tx);
            && e.sender.balance + Debited(tx) == st.accounts[tx.sender].balance
            && (forall a :: BalanceOf(e.st.accounts, a) == BalanceOf(st.accounts, a) + Received(tx, a))
            && (forall v :: StakeAt(e.st, v) == StakeAt(st, v) + StakeAdded(tx, v))
  {
    var sender := st.accounts[tx.sender];
    var e := ExecBody(st, sender, tx);
    match tx.body {
      case Transfer(to, n) => assert e == ExecTransfer(st, sender, to, n, tx.fee, tx.nonce);
      case Burn(target, n) => assert e == ExecTransfer(st, sender, BurnDestination(target), n, tx.fee, tx.nonce);
      case RegisterValidator(k) => assert e == ExecRegister(st, sender, tx.sender, k, tx.fee, tx.nonce);
      case Stake(v, n) => assert e == ExecStake(st, sender, v, n, tx.fee, tx.nonce);
      case RegisterAndStake(v, n) => assert e == ExecRegisterAndStake(st, sender, tx.sender, v, n, tx.fee, tx.nonce);
      case Unstake(v, n) => assert e == ExecUnstake(st, sender, v, n, tx.fee, tx.nonce, 0);
      case _ => assert e == ExecFeeOnly(st, sender, tx.fee, tx.nonce);
    }
  }

  /** What a validator has pending for release. */
  function Pending(st: State, addr: Address): nat {
    if addr in st.validators && st.validators[addr].status.Unstaking? then st.validators[addr].status.amount else 0
  }

  /** Unstakes add up under the release era of the first; other validators keep their entries. */
  lemma UnstakeAccumulates(st: State, chainId: nat, tx: Transaction)
    requires tx.body.Unstake? && Applies(st, chainId, tx)
    ensures var next := TxStep(st, chainId, tx).st;
            var v := tx.body.validator;
            && v in st.validators && v in next.validators
            && next.validators[v].status.Unstaking?
            && Pending(next, v) == Pending(st, v) + tx.body.amount <= StakeAt(st, v)
            && next.validators[v].status.releaseEra
               == (if st.validators[v].status.Unstaking? then st.validators[v].status.releaseEra
                   else UNSTAKING_COOLDOWN_ERAS)
            && next.validators == st.validators[v := next.validators[v]]
  {
  }

  /** When a slash goes through: the offender is a validator that is not yet frozen,
      whatever else it is doing. Otherwise nothing changes. */
  lemma SlashOutcome(st: State, offender: Address, reporter: Address, era: nat)
    ensures var (end, result) := ApplySlash(st, offender, reporter, era);
            && (result.SlashNotFound? <==> offender !in st.validators)
            && (result.AlreadyFrozen? <==> offender in st.validators && st.validators[offender].status.Frozen?)
            && (result.Slashed? <==>
                  && offender in st.validators && !st.validators[offender].status.Frozen?
                  && 90 * st.validators[offender].stake < U256_MOD)
            && (!result.Slashed? ==> end == st)
  {
  }

  /** A slash pays the burn address and the reporter, one share each, and
      rewrites the offender's entry; all else stays as it was. */
  lemma SlashPayout(st: State, offender: Address, reporter: Address, era: nat)
    requires Money(st) < U256_MOD && ApplySlash(st, offender, reporter, era).1.Slashed?
    ensures var (end, result) := ApplySlash(st, offender, reporter, era);
            var a := result.amounts;
            && (forall x :: BalanceOf(end.accounts, x) == BalanceOf(st.accounts, x)
                  + (if x == 0 then a.burned else 0) + (if x == reporter then a.bounty else 0))
            && offender in st.validators && a.slashed <= st.validators[offender].stake
            && end == st.(
                 accounts := end.accounts,
                 index := st.index + {offender},
                 validators := st.validators[offender := st.validators[offender].(
                   stake := st.validators[offender].stake - a.slashed,
                   status := Frozen((era + 72) % U64_MOD))])
            && a.remaining == st.validators[offender].stake - a.slashed
            && 100 * a.slashed <= 90 * st.validators[offender].stake < 100 * a.slashed + 100
            && 10 * a.burned <= 9 * a.slashed < 10 * a.burned + 10
            && 10 * a.bounty <= a.slashed < 10 * a.bounty + 10
  {
    var a := ApplySlash(st, offender, reporter, era).1.amounts;
    StakeAtMostSum(st.validators, offender);
    SlashSplitExact(st.validators[offender].stake);
    SlashCredits(st, offender, reporter, era);
  }

  /** The two accounts paid exist afterwards, and nothing but balances changes. */
  lemma SlashAccounts(st: State, offender: Address, reporter: Address, era: nat)
    requires ApplySlash(st, offender, reporter, era).1.Slashed?
    ensures var paid := ApplySlash(st, offender, reporter, era).0.accounts;
            && paid.Keys == st.accounts.Keys + {0, reporter}
            && (forall x :: AccountOrNew(paid, x).(balance := 0) == AccountOrNew(st.accounts, x).(balance := 0))
  {
  }

  // ---------------------------------------------------------------------
  // Credits over runs
  // ---------------------------------------------------------------------

  /** The saturating credit adds exactly its amount. */
  predicate CreditsExactly(accounts: map<Address, Account>, addr: Address, amount: nat) {
    BalanceOf(Credit(accounts, addr, amount), addr) == BalanceOf(accounts, addr) + amount
  }

  /** Every share is credited exactly, and so is the remainder. */
  ghost predicate PaymentsExact(accounts: map<Address, Account>, sorted: seq<Holder>, fees: nat, total: nat)
    requires total > 0 && sorted != []
  {
    && (forall i :: 0 <= i < |sorted| ==>
          CreditsExactly(PayShares(accounts, sorted[..i], fees, total), sorted[i].addr,
                         Share(fees, sorted[i].stake, total)))
    && PaidOut(sorted, fees, total) <= fees
    && CreditsExactly(PayShares(accounts, sorted, fees, total), sorted[0].addr, fees - PaidOut(sorted, fees, total))
  }

  ghost predicate DistributionExact(st: State, fees: nat) {
    var holders := Holders(st, st.activeSet);
    var total := SatTotal(holders);
    total > 0 ==>
      && Sort(holders, PaidBefore) != []
      && PaymentsExact(st.accounts, Sort(holders, PaidBefore), fees, total)
  }

  /** A recipient other than the sender gains exactly the amount sent. */
  ghost predicate TransferExact(st: State, chainId: nat, tx: Transaction) {
    Applies(st, chainId, tx) ==>
      forall a :: a != tx.sender ==>
        BalanceOf(TxStep(st, chainId, tx).st.accounts, a) == BalanceOf(st.accounts, a) + Received(tx, a)
  }

  /** The transactions of a block before the given one have all run. */
  ghost predicate TransfersExact(st: State, block: Block) {
    forall i :: 0 <= i < |block.transactions| ==>
      match RunTxs(st, block.chainId, block.transactions[..i])
      case Some((mid, _)) => TransferExact(mid, block.chainId, block.transactions[i])
      case None => false
  }

  /** All credits of an event add exactly their amounts. */
  ghost predicate EventExact(st: State, ev: Event) {
    match ev
    case NewBlock(block) =>
      && TransfersExact(st, block)
      && (match RunTxs(st, block.chainId, block.transactions)
          case Some((mid, tally)) => DistributionExact(mid, tally.fees)
          case None => false)
    case Punish(offender, reporter, era) =>
      (match ApplySlash(st, offender, reporter, era).1
       case Slashed(a) =>
         && CreditsExactly(st.accounts, BURN_ADDRESS, a.burned)
         && CreditsExactly(Credit(st.accounts, BURN_ADDRESS, a.burned), reporter, a.bounty)
       case _ => true)
    case _ => true
  }

  lemma {:induction false} ShareSumPrefix(holders: seq<Holder>, fees: nat, total: nat, n: nat)
    requires total > 0 && n <= |holders|
    ensures ShareSum(holders[..n], fees, total) <= ShareSum(holders, fees, total)
  {
    if n == |holders| {
      assert holders[..n] == holders;
    } else {
      assert holders[..|holders| - 1][..n] == holders[..n];
      ShareSumPrefix(holders[..|holders| - 1], fees, total, n);
    }
  }

  lemma ShareCredit(accounts: map<Address, Account>, sorted: seq<Holder>, fees: nat, total: nat, i: nat)
    requires total > 0 && i < |sorted|
    requires Sum(Balances(accounts)) + ShareSum(sorted, fees, total) < U256_MOD
    ensures CreditsExactly(PayShares(accounts, sorted[..i], fees, total), sorted[i].addr,
                           Share(fees, sorted[i].stake, total))
  {
    ShareSumPrefix(sorted, fees, total, i + 1);
    assert sorted[..i + 1][..i] == sorted[..i];
    PaySharesLedger(accounts, sorted[..i], fees, total);
    CreditExact(PayShares(accounts, sorted[..i], fees, total), sorted[i].addr, Share(fees, sorted[i].stake, total));
  }

  lemma PaymentsStayExact(accounts: map<Address, Account>, sorted: seq<Holder>, fees: nat, total: nat)
    requires total > 0 && sorted != [] && total == SeqSum(sorted, StakeOf)
    requires Sum(Balances(accounts)) + fees < U256_MOD
    ensures PaymentsExact(accounts, sorted, fees, total)
  {
    ShareSumAtMostFees(sorted, fees, total);
    forall i | 0 <= i < |sorted|
      ensures CreditsExactly(PayShares(accounts, sorted[..i], fees, total), sorted[i].addr,
                           Share(fees, sorted[i].stake, total))
    {
      ShareCredit(accounts, sorted, fees, total, i);
    }
    PaySharesLedger(accounts, sorted, fees, total);
    CreditExact(PayShares(accounts, sorted, fees, total), sorted[0].addr, fees - ShareSum(sorted, fees, total));
  }

  lemma DistributionStaysExact(st: State, fees: nat)
    requires Money(st) + fees < U256_MOD && Distinct(st.activeSet)
    ensures DistributionExact(st, fees)
  {
    var holders := Holders(st, st.activeSet);
    ActiveStakeBound(st);
    SatTotalExact(holders);
    SortPermutes(holders, PaidBefore);
    SeqSumPermutation(holders, Sort(holders, PaidBefore), StakeOf);
    if SatTotal(holders) > 0 {
      PaymentsStayExact(st.accounts, Sort(holders, PaidBefore), fees, SatTotal(holders));
    }
  }

  lemma {:induction false} TransfersStayExact(st: State, block: Block)
    requires RunTxs(st, block.chainId, block.transactions).Some?
    ensures TransfersExact(st, block)
  {
    forall i | 0 <= i < |block.transactions|
      ensures RunTxs(st, block.chainId, block.transactions[..i]).Some?
      ensures TransferExact(RunTxs(st, block.chainId, block.transactions[..i]).value.0, block.chainId,
                            block.transactions[i])
    {
      RunTxsPrefix(st, block.chainId, block.transactions, i);
      var mid := RunTxs(st, block.chainId, block.transactions[..i]).value.0;
      if Applies(mid, block.chainId, block.transactions[i]) {
        AppliedEffect(mid, block.chainId, block.transactions[i]);
      }
    }
  }

  lemma EventStaysExact(st: State, ev: Event)
    requires SupplyOk(st) && Handle(st, ev).Some?
    ensures EventExact(st, ev)
  {
    match ev {
      case NewBlock(block) =>
        TransfersStayExact(st, block);
        TxsLedger(st, block.chainId, block.transactions);
        TxsKeepLifecycle(st, block.chainId, block.transactions);
        var (mid, tally) := RunTxs(st, block.chainId, block.transactions).value;
        DistributionStaysExact(mid, tally.fees);
      case Punish(offender, reporter, era) =>
        if ApplySlash(st, offender, reporter, era).1.Slashed? {
          SlashCredits(st, offender, reporter, era);
        }
      case _ =>
    }
  }

  lemma SlashCredits(st: State, offender: Address, reporter: Address, era: nat)
    requires Money(st) < U256_MOD && ApplySlash(st, offender, reporter, era).1.Slashed?
    ensures var a := ApplySlash(st, offender, reporter, era).1.amounts;
            && CreditsExactly(st.accounts, BURN_ADDRESS, a.burned)
            && CreditsExactly(Credit(st.accounts, BURN_ADDRESS, a.burned), reporter, a.bounty)
  {
    var a := ApplySlash(st, offender, reporter, era).1.amounts;
    StakeAtMostSum(st.validators, offender);
    SlashSplitExact(st.validators[offender].stake);
    assert a.burned + a.bounty <= st.validators[offender].stake;
    CreditExact(st.accounts, BURN_ADDRESS, a.burned);
    CreditExact(Credit(st.accounts, BURN_ADDRESS, a.burned), reporter, a.bounty);
  }

  lemma {:induction false} RunPrefix(st: State, events: seq<Event>, n: nat)
    requires n <= |events| && Run(st, events).Some?
    ensures Run(st, events[..n]).Some?
    decreases |events| - n
  {
    if n < |events| {
      RunPrefix(st, events, n + 1);
      assert events[..n + 1][..n] == events[..n];
    } else {
      assert events[..n] == events;
    }
  }

  /** In every run every credit of every event adds exactly its amount: nothing is
      ever lost to saturation. */
  lemma RunCreditsExact(st: State, events: seq<Event>, n: nat)
    requires SupplyOk(st) && Run(st, events).Some? && n < |events|
    requires forall i :: 0 <= i < |events| ==> Installable(events[i])
    ensures Run(st, events[..n]).Some?
    ensures EventExact(Run(st, events[..n]).value, events[n])
  {
    RunPrefix(st, events, n);
    RunPrefix(st, events, n + 1);
    assert events[..n + 1][..n] == events[..n];
    NoMinting(st, events[..n]);
    EventStaysExact(Run(st, events[..n]).value, events[n]);
  }
}
