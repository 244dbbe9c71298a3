/** The rules of a transaction in terms of the state before it: when it is
    skipped, applied, charged, refused free or aborts the node, and exactly what it
    leaves behind. The rules name fields and amounts only. */
module TxRules {
  import opened Primitives
  import opened Sums
  import opened State
  import opened Ledger
  import Aborts

  /** Addresses of the two burn targets. */
  function Target(target: BurnTarget): Address {
    match target
    case Permanent => 0
    case CapRefill => 1
  }

  predicate Addressed(st: State, chainId: nat, tx: Transaction) {
    tx.chainId == chainId && tx.sender in st.accounts
  }

  /** What the body asks of the state, funds included. */
  predicate BodyAccepts(st: State, sender: Account, tx: Transaction) {
    match tx.body
    case Transfer(recipient, amount) =>
      && sender.balance >= amount + tx.fee
      && Receivable(st, recipient, amount)
    case Burn(target, amount) =>
      && sender.balance >= amount + tx.fee
      && Receivable(st, Target(target), amount)
    case RegisterValidator(_) =>
      && tx.sender !in st.validators
      && sender.balance >= tx.fee + ANTI_SPAM_DEPOSIT
    case Stake(v, amount) =>
      && v in st.validators
      && !st.validators[v].status.Frozen? && !st.validators[v].status.Unstaking?
      && amount > 0
      && sender.balance >= tx.fee + amount
      && st.validators[v].stake + amount < U256_MOD
    case RegisterAndStake(v, amount) =>
      && v == tx.sender && tx.sender !in st.validators
      && amount > 0
      && sender.balance >= tx.fee + ANTI_SPAM_DEPOSIT + amount
    case Unstake(v, amount) =>
      && v in st.validators
      && !st.validators[v].status.Frozen?
      && 0 < amount <= st.validators[v].stake
      && sender.balance >= tx.fee
      && (st.validators[v].status.Unstaking? ==> st.validators[v].status.amount + amount <= st.validators[v].stake)
    case _ => sender.balance >= tx.fee
  }

  /** The credit does not pass 256 bits; an address without account starts at zero. */
  predicate Receivable(st: State, addr: Address, amount: nat) {
    (if addr in st.accounts then st.accounts[addr].balance else 0) + amount < U256_MOD
  }

  predicate Accepted(st: State, chainId: nat, tx: Transaction) {
    && Addressed(st, chainId, tx)
    && tx.nonce == st.accounts[tx.sender].nonce
    && BodyAccepts(st, st.accounts[tx.sender], tx)
  }

  /** What a transaction that is not accepted costs: the fee, or twice the fee when
      it is a cumulative unstake beyond the stake. */
  ghost function Price(st: State, tx: Transaction): nat {
    if CumulativeRejection(st, tx) then 2 * tx.fee else tx.fee
  }

  /** Applied exactly when accepted. */
  lemma AppliedIff(st: State, chainId: nat, tx: Transaction)
    requires Money(st) < U256_MOD
    ensures Accepted(st, chainId, tx) <==>
              TxStep(st, chainId, tx).Stepped? && TxStep(st, chainId, tx).verdict == Applied
  {
    if Addressed(st, chainId, tx) {
      BalanceAtMostSum(st.accounts, tx.sender);
      BodyAppliedIff(st, tx);
    }
  }

  lemma BodyAppliedIff(st: State, tx: Transaction)
    requires Money(st) < U256_MOD && tx.sender in st.accounts
    ensures ExecBody(st, st.accounts[tx.sender], tx).outcome.Success? <==>
              tx.nonce == st.accounts[tx.sender].nonce && BodyAccepts(st, st.accounts[tx.sender], tx)
  {
    var sender := st.accounts[tx.sender];
    BalanceAtMostSum(st.accounts, tx.sender);
    if tx.body.Unstake? && tx.body.validator in st.validators {
      StakeAtMostSum(st.validators, tx.body.validator);
    }
    var e := ExecBody(st, sender, tx);
    match tx.body {
      case Transfer(to, n) => assert e == ExecTransfer(st, sender, to, n, tx.fee, tx.nonce);
      case Burn(target, n) => assert e == ExecTransfer(st, sender, Target(target), n, tx.fee, tx.nonce);
      case RegisterValidator(k) => assert e == ExecRegister(st, sender, tx.sender, k, tx.fee, tx.nonce);
      case Stake(v, n) => assert e == ExecStake(st, sender, v, n, tx.fee, tx.nonce);
      case RegisterAndStake(v, n) => assert e == ExecRegisterAndStake(st, sender, tx.sender, v, n, tx.fee, tx.nonce);
      case Unstake(v, n) => assert e == ExecUnstake(st, sender, v, n, tx.fee, tx.nonce, 0);
      case _ => assert e == ExecFeeOnly(st, sender, tx.fee, tx.nonce);
    }
  }

  /** Every other outcome: skipped without sender or on another chain; charged when
      the price is affordable, refused free otherwise. */
  lemma RefusalRules(st: State, chainId: nat, tx: Transaction)
    requires Money(st) < U256_MOD
    requires !Accepted(st, chainId, tx) && !Aborts.TxOverflows(st, chainId, tx)
    ensures TxStep(st, chainId, tx).Stepped?
    ensures TxStep(st, chainId, tx).verdict
            == if !Addressed(st, chainId, tx) then Skipped
               else if Price(st, tx) <= st.accounts[tx.sender].balance then FailedCharged
               else FailedFree
    ensures TxStep(st, chainId, tx).st
            == if Addressed(st, chainId, tx) && Price(st, tx) <= st.accounts[tx.sender].balance
               then st.(accounts := st.accounts[tx.sender := PayPrice(st, st.accounts[tx.sender], tx)])
               else st
  {
    Aborts.TxAbortsIff(st, chainId, tx);
    AppliedIff(st, chainId, tx);
    if Addressed(st, chainId, tx) {
      FailureFrame(st, tx);
    }
  }

  /** The sender after paying: the second fee of a cumulative unstake comes with a nonce. */
  ghost function PayPrice(st: State, sender: Account, tx: Transaction): Account
    requires Price(st, tx) <= sender.balance
  {
    sender.(balance := sender.balance - Price(st, tx),
            nonce := if CumulativeRejection(st, tx) then (sender.nonce + 1) % U64_MOD else sender.nonce)
  }

  // ---------------------------------------------------------------------
  // What an accepted transaction leaves behind
  // ---------------------------------------------------------------------

  /** Amount, fee and deposit. */
  function Cost(tx: Transaction): nat {
    match tx.body
    case Transfer(_, amount) => amount + tx.fee
    case Burn(_, amount) => amount + tx.fee
    case RegisterValidator(_) => tx.fee + ANTI_SPAM_DEPOSIT
    case Stake(_, amount) => tx.fee + amount
    case RegisterAndStake(_, amount) => tx.fee + ANTI_SPAM_DEPOSIT + amount
    case _ => tx.fee
  }

  /** The accounts after the credit; a new account starts with nonce 0. */
  function Credited(accounts: map<Address, Account>, addr: Address, amount: nat): map<Address, Account> {
    if addr in accounts then accounts[addr := accounts[addr].(balance := accounts[addr].balance + amount)]
    else accounts[addr := Account(amount, 0, None)]
  }

  /** The sender's account, written last: a credit to itself is overwritten. */
  function AccountsAfter(st: State, tx: Transaction): map<Address, Account>
    requires tx.sender in st.accounts && Cost(tx) <= st.accounts[tx.sender].balance
  {
    var sender := st.accounts[tx.sender];
    var paid := sender.(balance := sender.balance - Cost(tx), nonce := (sender.nonce + 1) % U64_MOD);
    match tx.body
    case Transfer(recipient, amount) => Credited(st.accounts, recipient, amount)[tx.sender := paid]
    case Burn(target, amount) => Credited(st.accounts, Target(target), amount)[tx.sender := paid]
    case _ => st.accounts[tx.sender := paid]
  }

  /** The address whose entry a body writes, if any. */
  function Written(tx: Transaction): Option<Address> {
    match tx.body
    case RegisterValidator(_) => Some(tx.sender)
    case RegisterAndStake(_, _) => Some(tx.sender)
    case Stake(v, _) => Some(v)
    case Unstake(v, _) => Some(v)
    case _ => None
  }

  /** The entry written, by the entry before it. */
  predicate EntryAfter(before: Option<Validator>, tx: Transaction, after: Validator) {
    match tx.body
    case RegisterValidator(key) => after == Validator(tx.sender, key, 0, Registered, 0)
    case RegisterAndStake(_, amount) =>
      && after == Validator(tx.sender, after.publicKey, amount, Staked(amount), 0)
      && |after.publicKey| == 897 && (forall i :: 0 <= i < 897 ==> after.publicKey[i] == 0)
    case Stake(_, amount) =>
      && before.Some?
      && after == before.value.(
           stake := before.value.stake + amount,
           status := if before.value.status.Registered? then Staked(before.value.stake + amount)
                     else before.value.status)
    case Unstake(_, amount) =>
      && before.Some?
      && after == before.value.(
           status := match before.value.status
                     case Unstaking(release, pending) => Unstaking(release, pending + amount)
                     case _ => Unstaking(168, amount))
    case _ => false
  }

  function EntryAt(st: State, addr: Address): Option<Validator> {
    if addr in st.validators then Some(st.validators[addr]) else None
  }

  /** The validators and the index after an accepted transaction. */
  predicate ValidatorsAfter(st: State, tx: Transaction, next: State) {
    match Written(tx)
    case None => next.validators == st.validators && next.index == st.index
    case Some(addr) =>
      && addr in next.validators
      && EntryAfter(EntryAt(st, addr), tx, next.validators[addr])
      && next.validators == st.validators[addr := next.validators[addr]]
      && next.index == st.index + {addr}
  }

  lemma BodyState(st: State, tx: Transaction)
    requires Money(st) < U256_MOD && tx.sender in st.accounts
    requires ExecBody(st, st.accounts[tx.sender], tx).outcome.Success?
    ensures Cost(tx) <= st.accounts[tx.sender].balance
    ensures var e := ExecBody(st, st.accounts[tx.sender], tx);
            && e.st.accounts[tx.sender := e.sender] == AccountsAfter(st, tx)
            && e.st.activeSet == st.activeSet
            && ValidatorsAfter(st, tx, e.st)
  {
    var sender := st.accounts[tx.sender];
    var e := ExecBody(st, sender, tx);
    match tx.body {
      case Transfer(to, n) => assert e == ExecTransfer(st, sender, to, n, tx.fee, tx.nonce);
      case Burn(target, n) => assert e == ExecTransfer(st, sender, Target(target), n, tx.fee, tx.nonce);
      case RegisterValidator(k) => assert e == ExecRegister(st, sender, tx.sender, k, tx.fee, tx.nonce);
      case Stake(v, n) => assert e == ExecStake(st, sender, v, n, tx.fee, tx.nonce);
      case RegisterAndStake(v, n) => assert e == ExecRegisterAndStake(st, sender, tx.sender, v, n, tx.fee, tx.nonce);
      case Unstake(v, n) => assert e == ExecUnstake(st, sender, v, n, tx.fee, tx.nonce, 0);
      case _ => assert e == ExecFeeOnly(st, sender, tx.fee, tx.nonce);
    }
  }

  /** The whole state after an accepted transaction. */
  lemma AppliedState(st: State, chainId: nat, tx: Transaction)
    requires Money(st) < U256_MOD && Accepted(st, chainId, tx)
    ensures Cost(tx) <= st.accounts[tx.sender].balance && TxStep(st, chainId, tx).Stepped?
    ensures var next := TxStep(st, chainId, tx).st;
            && next.accounts == AccountsAfter(st, tx)
            && next.activeSet == st.activeSet
            && ValidatorsAfter(st, tx, next)
  {
    AppliedIff(st, chainId, tx);
    BodyState(st, tx);
  }

  // ---------------------------------------------------------------------
  // Lists of transactions
  // ---------------------------------------------------------------------

  /** The transactions one after the other, first to last, and the verdict of each. */
  function InOrder(st: State, chainId: nat, txs: seq<Transaction>): Option<(State, seq<Verdict>)>
    decreases |txs|
  {
    if txs == [] then Some((st, []))
    else
      match TxStep(st, chainId, txs[0])
      case Aborted => None
      case Stepped(next, verdict) =>
        match InOrder(next, chainId, txs[1..])
        case None => None
        case Some((end, verdicts)) => Some((end, [verdict] + verdicts))
  }

  /** How many transactions were applied, or were not. */
  function HowMany(verdicts: seq<Verdict>, applied: bool): nat {
    if verdicts == [] then 0
    else (if (verdicts[0] == Applied) == applied then 1 else 0) + HowMany(verdicts[1..], applied)
  }

  /** The fees of the transactions that pay, each cut off at 2^128 - 1. */
  function FeesOf(txs: seq<Transaction>, verdicts: seq<Verdict>): nat
    requires |txs| == |verdicts|
  {
    if txs == [] then 0
    else
      (if verdicts[0] == Applied || verdicts[0] == FailedCharged
       then if txs[0].fee < U128_MOD then txs[0].fee else U128_MOD - 1
       else 0)
      + FeesOf(txs[1..], verdicts[1..])
  }

  lemma {:induction false} InOrderLast(st: State, chainId: nat, txs: seq<Transaction>, tx: Transaction)
    ensures InOrder(st, chainId, txs + [tx]) ==
              match InOrder(st, chainId, txs)
              case None => None
              case Some((mid, verdicts)) =>
                match TxStep(mid, chainId, tx)
                case Aborted => None
                case Stepped(next, verdict) => Some((next, verdicts + [verdict]))
    decreases |txs|
  {
    var all := txs + [tx];
    if txs == [] {
      var only := TxStep(st, chainId, tx);
      assert all[0] == tx && all[1..] == [];
      if only.Stepped? {
        assert InOrder(only.st, chainId, []) == Some((only.st, []));
        assert [only.verdict] + [] == [] + [only.verdict];
      }
    } else {
      assert all[1..] == txs[1..] + [tx];
      var first := TxStep(st, chainId, txs[0]);
      if first.Stepped? {
        InOrderLast(first.st, chainId, txs[1..], tx);
        if InOrder(first.st, chainId, all[1..]).Some? {
          var (mid, verdicts) := InOrder(first.st, chainId, txs[1..]).value;
          var last := TxStep(mid, chainId, tx).verdict;
          assert [first.verdict] + (verdicts + [last]) == [first.verdict] + verdicts + [last];
        }
      }
    }
  }

  lemma {:induction false} HowManyLast(verdicts: seq<Verdict>, last: Verdict, applied: bool)
    ensures HowMany(verdicts + [last], applied)
            == HowMany(verdicts, applied) + (if (last == Applied) == applied then 1 else 0)
  {
    if verdicts != [] {
      assert (verdicts + [last])[1..] == verdicts[1..] + [last];
      HowManyLast(verdicts[1..], last, applied);
    }
  }

  lemma {:induction false} FeesOfLast(txs: seq<Transaction>, verdicts: seq<Verdict>, tx: Transaction, verdict: Verdict)
    requires |txs| == |verdicts|
    ensures FeesOf(txs + [tx], verdicts + [verdict]) == FeesOf(txs, verdicts) + FeesOf([tx], [verdict])
  {
    if txs != [] {
      assert (txs + [tx])[1..] == txs[1..] + [tx] && (verdicts + [verdict])[1..] == verdicts[1..] + [verdict];
      FeesOfLast(txs[1..], verdicts[1..], tx, verdict);
    }
  }

  /** What a run over a list amounts to: the state of the transactions taken in
      order; the fees paid, modulo 2^128; and how many were applied and how many not. */
  ghost predicate RunIs(st: State, chainId: nat, txs: seq<Transaction>) {
    match InOrder(st, chainId, txs)
    case None => RunTxs(st, chainId, txs).None?
    case Some((end, verdicts)) =>
      |verdicts| == |txs| && RunTxs(st, chainId, txs) == Some((end, TallyOf(txs, verdicts)))
  }

  function TallyOf(txs: seq<Transaction>, verdicts: seq<Verdict>): Tally
    requires |txs| == |verdicts|
  {
    Tally(FeesOf(txs, verdicts) % U128_MOD, HowMany(verdicts, true), HowMany(verdicts, false))
  }

  lemma ModAdd(a: nat, b: nat)
    ensures (a % U128_MOD + b) % U128_MOD == (a + b) % U128_MOD
  {
    assert a == U128_MOD * (a / U128_MOD) + a % U128_MOD;
  }

  lemma TallyLast(txs: seq<Transaction>, verdicts: seq<Verdict>, tx: Transaction, verdict: Verdict)
    requires |txs| == |verdicts|
    ensures TallyOf(txs + [tx], verdicts + [verdict]) == Count(TallyOf(txs, verdicts), verdict, tx.fee)
  {
    HowManyLast(verdicts, verdict, true);
    HowManyLast(verdicts, verdict, false);
    FeesOfLast(txs, verdicts, tx, verdict);
    assert [tx][1..] == [] && [verdict][1..] == [];
    ModAdd(FeesOf(txs, verdicts), FeesOf([tx], [verdict]));
  }

  lemma {:induction false} RunTxsIsInOrder(st: State, chainId: nat, txs: seq<Transaction>)
    ensures RunIs(st, chainId, txs)
  {
    if txs != [] {
      var n := |txs| - 1;
      var rest, tx := txs[..n], txs[n];
      assert txs == rest + [tx];
      RunTxsIsInOrder(st, chainId, rest);
      InOrderLast(st, chainId, rest, tx);
      RunLast(st, chainId, rest, tx);
    }
  }

  lemma RunLast(st: State, chainId: nat, rest: seq<Transaction>, tx: Transaction)
    requires RunIs(st, chainId, rest)
    requires InOrder(st, chainId, rest + [tx]) ==
               match InOrder(st, chainId, rest)
               case None => None
               case Some((mid, verdicts)) =>
                 match TxStep(mid, chainId, tx)
                 case Aborted => None
                 case Stepped(next, verdict) => Some((next, verdicts + [verdict]))
    ensures RunIs(st, chainId, rest + [tx])
  {
    hide InOrder;
    hide TxStep;
    hide TallyOf;
    hide Count;
    var all := rest + [tx];
    assert all[..|all| - 1] == rest;
    if InOrder(st, chainId, all).Some? {
      var (mid, verdicts) := InOrder(st, chainId, rest).value;
      TallyLast(rest, verdicts, tx, TxStep(mid, chainId, tx).verdict);
    }
  }

  /** A block is its transactions in order, and then the fees they paid handed out to
      the active set as it is then; handing out fees changes accounts only. */
  lemma BlockIsInOrder(st: State, block: Block)
    ensures InOrder(st, block.chainId, block.transactions).None? ==> RunBlock(st, block).None?
    ensures InOrder(st, block.chainId, block.transactions).Some? ==>
              var (mid, verdicts) := InOrder(st, block.chainId, block.transactions).value;
              |verdicts| == |block.transactions|
              && BlockEnds(mid, TallyOf(block.transactions, verdicts), RunBlock(st, block))
  {
    RunTxsIsInOrder(st, block.chainId, block.transactions);
  }

  ghost predicate BlockEnds(mid: State, tally: Tally, result: Option<(State, Tally)>) {
    match DistributeFees(mid, tally.fees)
    case None => result.None?
    case Some(end) => end == mid.(accounts := end.accounts) && result == Some((end, tally))
  }
}
