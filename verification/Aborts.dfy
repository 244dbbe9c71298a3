/** When a transaction, a block or a run aborts the node: exactly, and under
    conditions that can be checked beforehand. */
module Aborts {
  import opened Primitives
  import opened Sorting
  import opened Sums
  import opened State
  import opened Ledger
  import opened Lifecycle
  import opened Fees

  // ---------------------------------------------------------------------
  // One transaction
  // ---------------------------------------------------------------------

  /** The checks that come before the sum let the transaction through. */
  predicate ReachesSum(st: State, tx: Transaction)
    requires tx.sender in st.accounts
  {
    && tx.nonce == st.accounts[tx.sender].nonce
    && match tx.body
       case Transfer(_, _) => true
       case Burn(_, _) => true
       case RegisterValidator(_) => tx.sender !in st.validators
       case Stake(validator, amount) =>
         && validator in st.validators && amount > 0
         && !st.validators[validator].status.Frozen? && !st.validators[validator].status.Unstaking?
       case RegisterAndStake(validator, amount) => validator == tx.sender && tx.sender !in st.validators && amount > 0
       case _ => false
  }

  /** The sum of amount, fee and deposit passes 256 bits; no balance is needed for that. */
  predicate SumOverflows(st: State, tx: Transaction)
    requires tx.sender in st.accounts
  {
    ReachesSum(st, tx) && Debited(tx) >= U256_MOD
  }

  /** An affordable transfer to oneself whose credit passes 256 bits. */
  predicate SelfCreditOverflows(st: State, tx: Transaction)
    requires tx.sender in st.accounts
  {
    && ReachesSum(st, tx)
    && Destination(tx.body) == Some(tx.sender)
    && Debited(tx) <= st.accounts[tx.sender].balance
    && st.accounts[tx.sender].balance + AmountOf(tx.body) >= U256_MOD
  }

  predicate TxOverflows(st: State, chainId: nat, tx: Transaction) {
    && tx.chainId == chainId && tx.sender in st.accounts
    && (SumOverflows(st, tx) || SelfCreditOverflows(st, tx))
  }

  function AmountOf(body: TxBody): nat {
    match body
    case Transfer(_, amount) => amount
    case Burn(_, amount) => amount
    case Stake(_, amount) => amount
    case RegisterAndStake(_, amount) => amount
    case Unstake(_, amount) => amount
    case _ => 0
  }

  /** Two accounts together hold no more than exists. */
  lemma TwoBalances(accounts: map<Address, Account>, a: Address, b: Address)
    requires a != b
    ensures BalanceOf(accounts, a) + BalanceOf(accounts, b) <= Sum(Balances(accounts))
  {
    if a in accounts {
      SumRemove(Balances(accounts), a);
      if b in accounts {
        SumAtLeast(Balances(accounts) - {a}, b);
      }
    } else {
      BalanceAtMostSum(accounts, b);
    }
  }

  /** Within the supply bound these overflows are the only ways for a transaction to abort the node. */
  lemma TxAbortsIff(st: State, chainId: nat, tx: Transaction)
    requires Money(st) < U256_MOD
    ensures TxStep(st, chainId, tx).Aborted? <==> TxOverflows(st, chainId, tx)
  {
    if tx.sender in st.accounts {
      BalanceAtMostSum(st.accounts, tx.sender);
      var to := Destination(tx.body);
      if to.Some? && to.value != tx.sender {
        TwoBalances(st.accounts, tx.sender, to.value);
      }
    }
  }

  /** Any account can abort the node, even without money: a transfer of 2^256 - 1
      with a fee overflows before its funds are looked at. */
  lemma PoorSenderAborts(st: State, chainId: nat, sender: Address, recipient: Address, fee: nat)
    requires sender in st.accounts && fee > 0
    ensures var tx := Transaction(chainId, st.accounts[sender].nonce, sender, fee, Transfer(recipient, U256_MOD - 1));
            TxStep(st, chainId, tx) == Aborted && RunBlock(st, Block(chainId, [tx])).None?
  {
    var tx := Transaction(chainId, st.accounts[sender].nonce, sender, fee, Transfer(recipient, U256_MOD - 1));
    var txs := [tx];
    assert txs[..|txs| - 1] == [];
    assert TxStep(st, chainId, tx) == Aborted;
    assert RunTxs(st, chainId, []) == Some((st, Tally(0, 0, 0)));
  }

  /** The amounts named by a transaction add up within 256 bits. */
  predicate SumsFit(tx: Transaction) {
    AmountOf(tx.body) + tx.fee + ANTI_SPAM_DEPOSIT < U256_MOD
  }

  /** A check before execution that rules the overflows out, in every state of
      less than 2^255 units. */
  lemma SumsFitPreventsAbort(st: State, chainId: nat, tx: Transaction)
    requires 2 * Money(st) < U256_MOD && SumsFit(tx)
    ensures TxStep(st, chainId, tx).Stepped?
  {
    TxAbortsIff(st, chainId, tx);
    if tx.sender in st.accounts {
      BalanceAtMostSum(st.accounts, tx.sender);
    }
  }

  // ---------------------------------------------------------------------
  // A block
  // ---------------------------------------------------------------------

  /** The transactions before the i-th all run, and the i-th then overflows. */
  predicate OverflowsAtTurn(st: State, chainId: nat, txs: seq<Transaction>, i: nat)
    requires i < |txs|
  {
    match RunTxs(st, chainId, txs[..i])
    case Some((mid, _)) => TxOverflows(mid, chainId, txs[i])
    case None => false
  }

  ghost predicate SomeTxOverflows(st: State, chainId: nat, txs: seq<Transaction>) {
    exists i :: 0 <= i < |txs| && OverflowsAtTurn(st, chainId, txs, i)
  }

  lemma OverflowInPrefix(st: State, chainId: nat, txs: seq<Transaction>, n: nat, i: nat)
    requires i < n <= |txs|
    ensures OverflowsAtTurn(st, chainId, txs[..n], i) <==> OverflowsAtTurn(st, chainId, txs, i)
  {
    assert txs[..n][..i] == txs[..i];
  }

  /** A list of transactions aborts exactly at the first one that overflows at its turn. */
  lemma {:induction false} TxsAbortIff(st: State, chainId: nat, txs: seq<Transaction>)
    requires Money(st) < U256_MOD
    ensures RunTxs(st, chainId, txs).None? <==> SomeTxOverflows(st, chainId, txs)
  {
    if txs != [] {
      var n := |txs| - 1;
      TxsAbortIff(st, chainId, txs[..n]);
      forall i | 0 <= i < n
        ensures OverflowsAtTurn(st, chainId, txs[..n], i) <==> OverflowsAtTurn(st, chainId, txs, i)
      {
        OverflowInPrefix(st, chainId, txs, n, i);
      }
      if RunTxs(st, chainId, txs[..n]).Some? {
        TxsLedger(st, chainId, txs[..n]);
        TxAbortsIff(RunTxs(st, chainId, txs[..n]).value.0, chainId, txs[n]);
        assert RunTxs(st, chainId, txs).None? <==> OverflowsAtTurn(st, chainId, txs, n);
      }
    }
  }

  /** The fee total times the stake of some active validator passes 256 bits. */
  ghost predicate FeeProductOverflows(st: State, fees: nat) {
    exists a :: a in st.activeSet && a in st.validators && fees * st.validators[a].stake >= U256_MOD
  }

  lemma DistributionAbortsIff(st: State, fees: nat)
    ensures DistributeFees(st, fees).None? <==> FeeProductOverflows(st, fees)
  {
    var holders := Holders(st, st.activeSet);
    HoldersStored(st, st.activeSet);
    SatTotalExact(holders);
    if a :| a in st.activeSet && a in st.validators && fees * st.validators[a].stake >= U256_MOD {
      var h := Holder(st.validators[a].stake, a);
      assert h in holders;
      var i :| 0 <= i < |holders| && holders[i] == h;
      SeqSumMember(holders, StakeOf, i);
      assert fees != 0 && h.stake != 0;
    }
    if !SharesFit(holders, fees) {
      var i :| 0 <= i < |holders| && fees * holders[i].stake >= U256_MOD;
      assert holders[i] in holders;
    }
  }

  /** The fee product overflows after the transactions of the block have run. */
  ghost predicate FeesOverflow(st: State, block: Block) {
    match RunTxs(st, block.chainId, block.transactions)
    case Some((mid, tally)) => FeeProductOverflows(mid, tally.fees)
    case None => false
  }

  /** A block aborts the node if and only if one of its transactions overflows at
      its turn, or all run and the fee total times some active stake overflows. */
  lemma BlockAbortsIff(st: State, block: Block)
    requires Money(st) < U256_MOD
    ensures RunBlock(st, block).None? <==>
              SomeTxOverflows(st, block.chainId, block.transactions) || FeesOverflow(st, block)
  {
    TxsAbortIff(st, block.chainId, block.transactions);
    if RunTxs(st, block.chainId, block.transactions).Some? {
      var (mid, tally) := RunTxs(st, block.chainId, block.transactions).value;
      DistributionAbortsIff(mid, tally.fees);
    }
  }

  lemma {:induction false} SumsFitAllRun(st: State, chainId: nat, txs: seq<Transaction>)
    requires 2 * Money(st) < U256_MOD
    requires forall i :: 0 <= i < |txs| ==> SumsFit(txs[i])
    ensures RunTxs(st, chainId, txs).Some?
  {
    if txs != [] {
      var n := |txs| - 1;
      SumsFitAllRun(st, chainId, txs[..n]);
      TxsLedger(st, chainId, txs[..n]);
      SumsFitPreventsAbort(RunTxs(st, chainId, txs[..n]).value.0, chainId, txs[n]);
    }
  }

  function FeeOf(tx: Transaction): nat {
    tx.fee
  }

  lemma {:induction false} ChargedAtMostBudget(st: State, chainId: nat, txs: seq<Transaction>)
    ensures ChargedBy(st, chainId, txs) <= SeqSum(txs, FeeOf)
  {
    if txs != [] {
      ChargedAtMostBudget(st, chainId, txs[..|txs| - 1]);
    }
  }

  lemma ProductBound(f: nat, s: nat, budget: nat, supply: nat)
    requires f <= budget && s <= supply
    ensures f * s <= budget * supply
  {
    MulMonotone(f, s, supply);
    MulMonotone(supply, f, budget);
  }

  /** The fee total and every stake stay within what was offered and what exists. */
  lemma FeesWithinBudget(st: State, block: Block, a: Address)
    requires Money(st) < U256_MOD && RunTxs(st, block.chainId, block.transactions).Some?
    ensures var (mid, tally) := RunTxs(st, block.chainId, block.transactions).value;
            && tally.fees <= SeqSum(block.transactions, FeeOf)
            && (a in mid.validators ==> mid.validators[a].stake <= Money(st))
  {
    var (mid, tally) := RunTxs(st, block.chainId, block.transactions).value;
    TxsLedger(st, block.chainId, block.transactions);
    ChargedAtMostBudget(st, block.chainId, block.transactions);
    if a in mid.validators {
      StakeAtMostSum(mid.validators, a);
    }
  }

  /** A limit a block builder can check: offered fees times supply below 2^256. */
  lemma FeeBudgetPreventsAbort(st: State, block: Block)
    requires 2 * Money(st) < U256_MOD
    requires forall i :: 0 <= i < |block.transactions| ==> SumsFit(block.transactions[i])
    requires SeqSum(block.transactions, FeeOf) * Money(st) < U256_MOD
    ensures RunBlock(st, block).Some?
  {
    SumsFitAllRun(st, block.chainId, block.transactions);
    TxsAbortIff(st, block.chainId, block.transactions);
    BlockAbortsIff(st, block);
    var (mid, tally) := RunTxs(st, block.chainId, block.transactions).value;
    forall a | a in mid.activeSet && a in mid.validators
      ensures tally.fees * mid.validators[a].stake < U256_MOD
    {
      FeesWithinBudget(st, block, a);
      ProductBound(tally.fees, mid.validators[a].stake, SeqSum(block.transactions, FeeOf), Money(st));
    }
  }

  const BASE_MAX_SUPPLY: nat := 1000000000000000000000000000000000000000000

  /** One account, and one active validator with stake. */
  function PayerAndValidator(balance: nat, stake: nat): State {
    State(map[9 := Account(balance, 0, None)], map[7 := Validator(7, [], stake, Active, 0)], [7], {7})
  }

  lemma PayerAndValidatorMoney(balance: nat, stake: nat)
    ensures Money(PayerAndValidator(balance, stake)) == balance + stake
  {
    var st := PayerAndValidator(balance, stake);
    assert Balances(st.accounts) == map[][9 := balance];
    assert Stakes(st.validators) == map[][7 := stake];
    SumUpdate<Address>(map[], 9, balance);
    SumUpdate<Address>(map[], 7, stake);
  }

  /** A block holding one fee-only transaction that spends the whole balance. */
  function FeeOnlyBlock(fee: nat): Block {
    Block(0, [Transaction(0, 0, 9, fee, Propose)])
  }

  lemma FeeOnlyRun(fee: nat, stake: nat)
    requires fee < U128_MOD
    ensures RunTxs(PayerAndValidator(fee, stake), 0, FeeOnlyBlock(fee).transactions).Some?
    ensures var (mid, tally) := RunTxs(PayerAndValidator(fee, stake), 0, FeeOnlyBlock(fee).transactions).value;
            && tally.fees == fee
            && mid.activeSet == [7] && mid.validators == PayerAndValidator(fee, stake).validators
  {
    var st, txs := PayerAndValidator(fee, stake), FeeOnlyBlock(fee).transactions;
    assert txs[..0] == [];
    assert TxStep(st, 0, txs[0]) == Stepped(PutAccount(st, 9, Account(0, 1, None)), Applied);
  }

  /** Such a block aborts as soon as fee times stake overflows. */
  lemma FeeTimesStakeAborts(fee: nat, stake: nat)
    requires 2 * (fee + stake) < U256_MOD && fee < U128_MOD && fee + ANTI_SPAM_DEPOSIT < U256_MOD
    requires fee * stake >= U256_MOD
    ensures RunBlock(PayerAndValidator(fee, stake), FeeOnlyBlock(fee)).None?
  {
    PayerAndValidatorMoney(fee, stake);
    FeeOnlyRun(fee, stake);
    BlockAbortsIff(PayerAndValidator(fee, stake), FeeOnlyBlock(fee));
    var mid := RunTxs(PayerAndValidator(fee, stake), 0, FeeOnlyBlock(fee).transactions).value.0;
    assert 7 in mid.activeSet && mid.validators[7].stake == stake;
  }

  /** A state within the maximum supply and a one-transaction block that aborts:
      2000 MONEX of fees against a stake of 9 000 000 000 MONEX. */
  lemma FeeProductCanAbort() returns (st: State, block: Block)
    ensures SupplyOk(st) && Money(st) <= BASE_MAX_SUPPLY
    ensures |block.transactions| == 1 && SumsFit(block.transactions[0])
    ensures RunBlock(st, block).None?
  {
    var fee, stake := 2000 * ONE_MONEX, 9000000000 * ONE_MONEX;
    st, block := PayerAndValidator(fee, stake), FeeOnlyBlock(fee);
    PayerAndValidatorMoney(fee, stake);
    FeeTimesStakeAborts(fee, stake);
  }

  // ---------------------------------------------------------------------
  // A run
  // ---------------------------------------------------------------------

  /** A slash aborts when ninety times the stake passes 256 bits. */
  predicate SlashOverflows(st: State, offender: Address) {
    && offender in st.validators
    && !st.validators[offender].status.Frozen?
    && st.validators[offender].stake * 90 >= U256_MOD
  }

  ghost predicate EventOverflows(st: State, ev: Event) {
    match ev
    case NewBlock(block) => SomeTxOverflows(st, block.chainId, block.transactions) || FeesOverflow(st, block)
    case Punish(offender, _, _) => SlashOverflows(st, offender)
    case _ => false
  }

  lemma EventAbortsIff(st: State, ev: Event)
    requires Money(st) < U256_MOD
    ensures Handle(st, ev).None? <==> EventOverflows(st, ev)
  {
    if ev.NewBlock? {
      BlockAbortsIff(st, ev.block);
    }
  }

  /** The events before the n-th all complete, and the n-th then overflows. */
  ghost predicate EventOverflowsAtTurn(st: State, events: seq<Event>, n: nat)
    requires n < |events|
  {
    Run(st, events[..n]).Some? && EventOverflows(Run(st, events[..n]).value, events[n])
  }

  /** A run stops short exactly when one of its events overflows at its turn. */
  lemma {:induction false} RunAbortsIff(st: State, events: seq<Event>)
    requires SupplyOk(st)
    requires forall i :: 0 <= i < |events| ==> Installable(events[i])
    ensures Run(st, events).None? <==> exists n :: 0 <= n < |events| && EventOverflowsAtTurn(st, events, n)
  {
    if events != [] {
      var n := |events| - 1;
      RunAbortsIff(st, events[..n]);
      forall i | 0 <= i < n
        ensures EventOverflowsAtTurn(st, events[..n], i) <==> EventOverflowsAtTurn(st, events, i)
      {
        assert events[..n][..i] == events[..i];
      }
      if Run(st, events[..n]).Some? {
        NoMinting(st, events[..n]);
        EventAbortsIff(Run(st, events[..n]).value, events[n]);
        assert Run(st, events).None? <==> EventOverflowsAtTurn(st, events, n);
      }
    }
  }

  /** What can be checked of an event before the run, given the supply at its start. */
  ghost predicate Modest(ev: Event, supply: nat) {
    && Installable(ev)
    && (ev.NewBlock? ==>
          && (forall i :: 0 <= i < |ev.block.transactions| ==> SumsFit(ev.block.transactions[i]))
          && SeqSum(ev.block.transactions, FeeOf) * supply < U256_MOD)
  }

  lemma ModestCompletes(st: State, ev: Event, supply: nat)
    requires 90 * supply < U256_MOD && Money(st) <= supply && Modest(ev, supply)
    ensures Handle(st, ev).Some?
  {
    match ev {
      case NewBlock(block) =>
        MulMonotone(SeqSum(block.transactions, FeeOf), Money(st), supply);
        FeeBudgetPreventsAbort(st, block);
      case Punish(offender, _, _) =>
        if offender in st.validators {
          StakeAtMostSum(st.validators, offender);
        }
      case _ =>
    }
  }

  /** Every run of modest events completes. */
  lemma {:induction false} RunCompletes(st: State, events: seq<Event>)
    requires SupplyOk(st) && 90 * Money(st) < U256_MOD
    requires forall i :: 0 <= i < |events| ==> Modest(events[i], Money(st))
    ensures Run(st, events).Some?
  {
    if events != [] {
      var n := |events| - 1;
      RunCompletes(st, events[..n]);
      NoMinting(st, events[..n]);
      ModestCompletes(Run(st, events[..n]).value, events[n], Money(st));
    }
  }
}
