/** The money ledger: where every unit goes in a transaction and in a block. */
module Ledger {
  import opened Primitives
  import opened Sorting
  import opened Sums
  import opened State

  ghost function Balances(accounts: map<Address, Account>): map<Address, nat> {
    map a | a in accounts :: accounts[a].balance
  }

  ghost function Stakes(validators: map<Address, Validator>): map<Address, nat> {
    map a | a in validators :: validators[a].stake
  }

  /** All balances and all stakes. */
  ghost function Money(st: State): nat {
    Sum(Balances(st.accounts)) + Sum(Stakes(st.validators))
  }

  lemma BalanceUpdate(accounts: map<Address, Account>, addr: Address, acct: Account)
    ensures Sum(Balances(accounts[addr := acct])) + AccountOrNew(accounts, addr).balance
            == Sum(Balances(accounts)) + acct.balance
  {
    assert Balances(accounts[addr := acct]) == Balances(accounts)[addr := acct.balance];
    SumUpdate(Balances(accounts), addr, acct.balance);
  }

  lemma StakeUpdate(validators: map<Address, Validator>, addr: Address, entry: Validator)
    ensures Sum(Stakes(validators[addr := entry])) + (if addr in validators then validators[addr].stake else 0)
            == Sum(Stakes(validators)) + entry.stake
  {
    assert Stakes(validators[addr := entry]) == Stakes(validators)[addr := entry.stake];
    SumUpdate(Stakes(validators), addr, entry.stake);
  }

  lemma BalanceAtMostSum(accounts: map<Address, Account>, addr: Address)
    ensures AccountOrNew(accounts, addr).balance <= Sum(Balances(accounts))
  {
    if addr in accounts {
      SumAtLeast(Balances(accounts), addr);
    }
  }

  lemma StakeAtMostSum(validators: map<Address, Validator>, addr: Address)
    requires addr in validators
    ensures validators[addr].stake <= Sum(Stakes(validators))
  {
    SumAtLeast(Stakes(validators), addr);
  }

  /** A credit adds exactly its amount while the supply stays below 2^256. */
  lemma CreditExact(accounts: map<Address, Account>, addr: Address, amount: nat)
    requires Sum(Balances(accounts)) + amount < U256_MOD
    ensures Sum(Balances(Credit(accounts, addr, amount))) == Sum(Balances(accounts)) + amount
    ensures Credit(accounts, addr, amount)[addr].balance == AccountOrNew(accounts, addr).balance + amount
  {
    BalanceAtMostSum(accounts, addr);
    var acct := AccountOrNew(accounts, addr);
    BalanceUpdate(accounts, addr, acct.(balance := acct.balance + amount));
  }

  // ---------------------------------------------------------------------
  // One transaction
  // ---------------------------------------------------------------------

  /** The second unstake of a validator that would exceed its stake: refused
      only after the fee has been taken once. */
  ghost predicate CumulativeRejection(st: State, tx: Transaction) {
    && tx.body.Unstake?
    && tx.sender in st.accounts
    && st.accounts[tx.sender].nonce == tx.nonce
    && tx.fee <= st.accounts[tx.sender].balance
    && tx.body.validator in st.validators
    && st.validators[tx.body.validator].status.Unstaking?
    && 0 < tx.body.amount <= st.validators[tx.body.validator].stake
    && st.validators[tx.body.validator].status.amount + tx.body.amount > st.validators[tx.body.validator].stake
  }

  /** The recipient of a transfer or burn. */
  function Destination(body: TxBody): Option<Address> {
    match body
    case Transfer(recipient, _) => Some(recipient)
    case Burn(target, _) => Some(BurnDestination(target))
    case _ => None
  }

  /** What an applied transaction takes from its sender: fee, amount and deposit, added
      up before the sender's balance is looked at. */
  function Debited(tx: Transaction): nat {
    tx.fee + match tx.body
             case Transfer(_, amount) => amount
             case Burn(_, amount) => amount
             case RegisterValidator(_) => ANTI_SPAM_DEPOSIT
             case Stake(_, amount) => amount
             case RegisterAndStake(_, amount) => ANTI_SPAM_DEPOSIT + amount
             case _ => 0
  }

  /** What a transaction destroys besides its collected fee. */
  ghost function Lost(st: State, tx: Transaction, verdict: Verdict): nat {
    match verdict
    case Applied =>
      if tx.body.RegisterValidator? || tx.body.RegisterAndStake? then ANTI_SPAM_DEPOSIT
      else if (tx.body.Transfer? || tx.body.Burn?) && Destination(tx.body) == Some(tx.sender) then tx.body.amount
      else 0
    case FailedCharged => if CumulativeRejection(st, tx) then tx.fee else 0
    case _ => 0
  }

  function Charged(tx: Transaction, verdict: Verdict): nat {
    if PaysFee(verdict) then tx.fee else 0
  }

  /** A failing body leaves the state alone; the sender's account comes back
      untouched except after a cumulative-unstake rejection, which has taken one
      fee, and after a stake overflow, which the supply bound rules out. */
  lemma FailureFrame(st: State, tx: Transaction)
    requires Money(st) < U256_MOD && tx.sender in st.accounts
    ensures var sender := st.accounts[tx.sender];
            var e := ExecBody(st, sender, tx);
            e.outcome.Failure? ==>
              && e.st == st
              && e.sender == if CumulativeRejection(st, tx) then Debit(sender, tx.fee) else sender
  {
    var sender := st.accounts[tx.sender];
    BalanceAtMostSum(st.accounts, tx.sender);
    if tx.body.Stake? && tx.body.validator in st.validators {
      StakeAtMostSum(st.validators, tx.body.validator);
    }
    if tx.body.Unstake? && tx.body.validator in st.validators {
      StakeAtMostSum(st.validators, tx.body.validator);
    }
  }

  lemma TransferLedger(st: State, tx: Transaction)
    requires Money(st) < U256_MOD && tx.sender in st.accounts
    requires Destination(tx.body).Some?
    requires ExecBody(st, st.accounts[tx.sender], tx).outcome.Success?
    ensures var e := ExecBody(st, st.accounts[tx.sender], tx);
            Money(PutAccount(e.st, tx.sender, e.sender)) + tx.fee + Lost(st, tx, Applied) == Money(st)
  {
    var e := ExecBody(st, st.accounts[tx.sender], tx);
    var to := Destination(tx.body).value;
    BalanceUpdate(st.accounts, to, e.st.accounts[to]);
    BalanceUpdate(e.st.accounts, tx.sender, e.sender);
  }

  lemma RegistrationLedger(st: State, tx: Transaction)
    requires Money(st) < U256_MOD && tx.sender in st.accounts
    requires tx.body.RegisterValidator? || tx.body.RegisterAndStake?
    requires ExecBody(st, st.accounts[tx.sender], tx).outcome.Success?
    ensures var e := ExecBody(st, st.accounts[tx.sender], tx);
            Money(PutAccount(e.st, tx.sender, e.sender)) + tx.fee + Lost(st, tx, Applied) == Money(st)
  {
    var e := ExecBody(st, st.accounts[tx.sender], tx);
    BalanceUpdate(st.accounts, tx.sender, e.sender);
    StakeUpdate(st.validators, tx.sender, e.st.validators[tx.sender]);
  }

  lemma StakingLedger(st: State, tx: Transaction)
    requires Money(st) < U256_MOD && tx.sender in st.accounts
    requires tx.body.Stake? || tx.body.Unstake?
    requires ExecBody(st, st.accounts[tx.sender], tx).outcome.Success?
    ensures var e := ExecBody(st, st.accounts[tx.sender], tx);
            Money(PutAccount(e.st, tx.sender, e.sender)) + tx.fee + Lost(st, tx, Applied) == Money(st)
  {
    var e := ExecBody(st, st.accounts[tx.sender], tx);
    BalanceUpdate(st.accounts, tx.sender, e.sender);
    StakeUpdate(st.validators, tx.body.validator, e.st.validators[tx.body.validator]);
  }

  lemma FeeOnlyLedger(st: State, tx: Transaction)
    requires tx.sender in st.accounts
    requires tx.body.Propose? || tx.body.GovVote? || tx.body.CancelProposal?
    requires ExecBody(st, st.accounts[tx.sender], tx).outcome.Success?
    ensures var e := ExecBody(st, st.accounts[tx.sender], tx);
            Money(PutAccount(e.st, tx.sender, e.sender)) + tx.fee + Lost(st, tx, Applied) == Money(st)
  {
    BalanceUpdate(st.accounts, tx.sender, ExecBody(st, st.accounts[tx.sender], tx).sender);
  }

  lemma SuccessLedger(st: State, tx: Transaction)
    requires Money(st) < U256_MOD && tx.sender in st.accounts
    requires ExecBody(st, st.accounts[tx.sender], tx).outcome.Success?
    ensures var e := ExecBody(st, st.accounts[tx.sender], tx);
            Money(PutAccount(e.st, tx.sender, e.sender)) + tx.fee + Lost(st, tx, Applied) == Money(st)
  {
    match tx.body {
      case Transfer(_, _) => TransferLedger(st, tx);
      case Burn(_, _) => TransferLedger(st, tx);
      case RegisterValidator(_) => RegistrationLedger(st, tx);
      case RegisterAndStake(_, _) => RegistrationLedger(st, tx);
      case Stake(_, _) => StakingLedger(st, tx);
      case Unstake(_, _) => StakingLedger(st, tx);
      case _ => FeeOnlyLedger(st, tx);
    }
  }

  /** The exact ledger of one transaction. */
  lemma TxLedger(st: State, chainId: nat, tx: Transaction)
    requires Money(st) < U256_MOD
    requires TxStep(st, chainId, tx).Stepped?
    ensures var step := TxStep(st, chainId, tx);
            Money(step.st) + Charged(tx, step.verdict) + Lost(st, tx, step.verdict) == Money(st)
  {
    if tx.chainId == chainId && tx.sender in st.accounts {
      var e := ExecBody(st, st.accounts[tx.sender], tx);
      if e.outcome.Success? {
        SuccessLedger(st, tx);
      } else {
        FailureFrame(st, tx);
        if tx.fee <= e.sender.balance {
          BalanceUpdate(st.accounts, tx.sender, e.sender.(balance := e.sender.balance - tx.fee));
        }
      }
    }
  }

  // ---------------------------------------------------------------------
  // A list of transactions
  // ---------------------------------------------------------------------

  /** All fees taken from senders by a list of transactions. */
  ghost function ChargedBy(st: State, chainId: nat, txs: seq<Transaction>): nat {
    if txs == [] then 0
    else
      var n := |txs| - 1;
      match RunTxs(st, chainId, txs[..n])
      case None => 0
      case Some((mid, _)) =>
        match TxStep(mid, chainId, txs[n])
        case Aborted => 0
        case Stepped(_, verdict) => ChargedBy(st, chainId, txs[..n]) + Charged(txs[n], verdict)
  }

  /** All other money destroyed by a list of transactions. */
  ghost function LostBy(st: State, chainId: nat, txs: seq<Transaction>): nat {
    if txs == [] then 0
    else
      var n := |txs| - 1;
      match RunTxs(st, chainId, txs[..n])
      case None => 0
      case Some((mid, _)) =>
        match TxStep(mid, chainId, txs[n])
        case Aborted => 0
        case Stepped(_, verdict) => LostBy(st, chainId, txs[..n]) + Lost(mid, txs[n], verdict)
  }

  lemma {:induction false} TxsLedger(st: State, chainId: nat, txs: seq<Transaction>)
    requires Money(st) < U256_MOD && RunTxs(st, chainId, txs).Some?
    ensures var (mid, tally) := RunTxs(st, chainId, txs).value;
            && Money(mid) + ChargedBy(st, chainId, txs) + LostBy(st, chainId, txs) == Money(st)
            && tally.fees <= ChargedBy(st, chainId, txs)
            && (ChargedBy(st, chainId, txs) < U128_MOD ==> tally.fees == ChargedBy(st, chainId, txs))
  {
    if txs != [] {
      var n := |txs| - 1;
      TxsLedger(st, chainId, txs[..n]);
      var (mid, tally) := RunTxs(st, chainId, txs[..n]).value;
      var step := TxStep(mid, chainId, txs[n]);
      TxLedger(mid, chainId, txs[n]);
      CountFees(tally, step.verdict, txs[n].fee);
    }
  }

  /** The 128-bit total never exceeds what was charged, and is exact below 2^128. */
  lemma CountFees(tally: Tally, verdict: Verdict, fee: nat)
    ensures Count(tally, verdict, fee).fees <= tally.fees + (if PaysFee(verdict) then fee else 0)
    ensures tally.fees + (if PaysFee(verdict) then fee else 0) < U128_MOD ==>
              Count(tally, verdict, fee).fees == tally.fees + (if PaysFee(verdict) then fee else 0)
  {
  }

  // ---------------------------------------------------------------------
  // Fee distribution
  // ---------------------------------------------------------------------

  function StakeOf(holder: Holder): nat {
    holder.stake
  }

  /** The stake of the active set, counted as often as an address is listed. */
  ghost function ActiveStake(st: State): nat {
    SeqSum(Holders(st, st.activeSet), StakeOf)
  }

  /** The running total saturates, so it is the true total cut off at 2^256 - 1. */
  lemma {:induction false} SatTotalExact(holders: seq<Holder>)
    ensures SatTotal(holders) == Min(SeqSum(holders, StakeOf), U256_MOD - 1)
  {
    if holders != [] {
      SatTotalExact(holders[..|holders| - 1]);
    }
  }

  /** The sum of the proportional shares. */
  ghost function ShareSum(holders: seq<Holder>, fees: nat, total: nat): nat
    requires total > 0
  {
    if holders == [] then 0
    else ShareSum(holders[..|holders| - 1], fees, total) + Share(fees, holders[|holders| - 1].stake, total)
  }

  lemma ShareBounds(fees: nat, stake: nat, total: nat)
    requires total > 0
    ensures total * Share(fees, stake, total) <= fees * stake < total * Share(fees, stake, total) + total
  {
    var x := fees * stake;
    assert x == total * (x / total) + x % total;
  }

  /** Rounding down never hands out more than the pot, and keeps back less
      than one unit per holder. */
  lemma {:induction false} ShareSumBounds(holders: seq<Holder>, fees: nat, total: nat)
    requires total > 0
    ensures total * ShareSum(holders, fees, total) <= fees * SeqSum(holders, StakeOf)
    ensures fees * SeqSum(holders, StakeOf) <= total * ShareSum(holders, fees, total) + total * |holders|
    ensures holders != [] ==>
              fees * SeqSum(holders, StakeOf) < total * ShareSum(holders, fees, total) + total * |holders|
  {
    if holders != [] {
      var n := |holders| - 1;
      var rest, stake := holders[..n], holders[n].stake;
      ShareSumBounds(rest, fees, total);
      ShareBounds(fees, stake, total);
      Distribute(fees, SeqSum(rest, StakeOf), stake);
      Distribute(total, ShareSum(rest, fees, total), Share(fees, stake, total));
      Distribute(total, n, 1);
    }
  }

  lemma ShareSumAtMostFees(holders: seq<Holder>, fees: nat, total: nat)
    requires total > 0 && total == SeqSum(holders, StakeOf)
    ensures ShareSum(holders, fees, total) <= fees
    ensures holders != [] ==> fees - ShareSum(holders, fees, total) < |holders|
  {
    ShareSumBounds(holders, fees, total);
    var sum := ShareSum(holders, fees, total);
    if sum > fees {
      MulMonotone(total, fees + 1, sum);
      Distribute(total, fees, 1);
      assert false;
    }
    if holders != [] && fees >= sum + |holders| {
      MulMonotone(total, sum + |holders|, fees);
      Distribute(total, sum, |holders|);
      assert false;
    }
  }

  lemma {:induction false} PaySharesLedger(accounts: map<Address, Account>, holders: seq<Holder>, fees: nat, total: nat)
    requires total > 0
    requires Sum(Balances(accounts)) + ShareSum(holders, fees, total) < U256_MOD
    ensures Sum(Balances(PayShares(accounts, holders, fees, total)))
            == Sum(Balances(accounts)) + ShareSum(holders, fees, total)
    ensures PaidOut(holders, fees, total) == ShareSum(holders, fees, total)
  {
    if holders != [] {
      var n := |holders| - 1;
      PaySharesLedger(accounts, holders[..n], fees, total);
      var share := Share(fees, holders[n].stake, total);
      if share != 0 {
        CreditExact(PayShares(accounts, holders[..n], fees, total), holders[n].addr, share);
      }
    }
  }

  /** Shares and remainder together are the whole pot. */
  lemma PayFeesLedger(accounts: map<Address, Account>, sorted: seq<Holder>, fees: nat, total: nat)
    requires total > 0 && sorted != [] && ShareSum(sorted, fees, total) <= fees
    requires Sum(Balances(accounts)) + fees < U256_MOD
    ensures Sum(Balances(PayFees(accounts, sorted, fees, total))) == Sum(Balances(accounts)) + fees
  {
    PaySharesLedger(accounts, sorted, fees, total);
    var sum := ShareSum(sorted, fees, total);
    if sum < fees {
      CreditExact(PayShares(accounts, sorted, fees, total), sorted[0].addr, fees - sum);
    }
  }

  /** Distribution hands out exactly the collected fees, or nothing when
      nobody in the active set has stake. */
  lemma DistributeLedger(st: State, fees: nat)
    requires Money(st) + fees < U256_MOD && ActiveStake(st) < U256_MOD
    requires DistributeFees(st, fees).Some?
    ensures Money(DistributeFees(st, fees).value) == Money(st) + (if ActiveStake(st) > 0 then fees else 0)
  {
    var holders := Holders(st, st.activeSet);
    var total := SatTotal(holders);
    SatTotalExact(holders);
    if fees != 0 && st.activeSet != [] && total != 0 {
      var sorted := Sort(holders, PaidBefore);
      SortPermutes(holders, PaidBefore);
      SeqSumPermutation(holders, sorted, StakeOf);
      ShareSumAtMostFees(sorted, fees, total);
      PayFeesLedger(st.accounts, sorted, fees, total);
    }
  }

  // ---------------------------------------------------------------------
  // A block
  // ---------------------------------------------------------------------

  /** The exact ledger of a block: the collected fees come back in full when
      the active set has stake, and everything else that is taken is lost. */
  lemma BlockLedger(st: State, block: Block)
    requires Money(st) < U256_MOD && RunBlock(st, block).Some?
    requires ActiveStake(RunTxs(st, block.chainId, block.transactions).value.0) < U256_MOD
    ensures var (mid, tally) := RunTxs(st, block.chainId, block.transactions).value;
            var end := RunBlock(st, block).value.0;
            var charged := ChargedBy(st, block.chainId, block.transactions);
            var lost := LostBy(st, block.chainId, block.transactions);
            && Money(end) + charged + lost == Money(st) + (if ActiveStake(mid) > 0 then tally.fees else 0)
            && (charged < U128_MOD && ActiveStake(mid) > 0 ==> Money(end) + lost == Money(st))
            && Money(end) <= Money(st)
  {
    var (mid, tally) := RunTxs(st, block.chainId, block.transactions).value;
    TxsLedger(st, block.chainId, block.transactions);
    DistributeLedger(mid, tally.fees);
  }
}
