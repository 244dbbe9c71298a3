/** On-chain state and the meaning of every state transition, as functions on
    values. `StateMachine` is the object that computes them in place. */
module State {
  import opened Primitives
  import opened Sorting

  const ONE_MONEX: nat := 100000000000000000000000000000000
  const MIN_STAKE: nat := ONE_MONEX
  const ANTI_SPAM_DEPOSIT: nat := 33000000000000003752417363492864
  const UNSTAKING_COOLDOWN_ERAS: nat := 168
  const FREEZE_ERAS: nat := 72

  const BURN_ADDRESS: Address := 0
  const CAP_REFILL_ADDRESS: Address := 1

  // ---------------------------------------------------------------------
  // Entities
  // ---------------------------------------------------------------------

  datatype Account = Account(balance: nat, nonce: nat, codeHash: Option<Bytes>)

  datatype Status =
    | Registered
    | Staked(staked: nat)
    | Active
    | Unstaking(releaseEra: nat, amount: nat)
    | Frozen(frozenUntil: nat)
    | Thawed

  datatype Validator = Validator(
    address: Address, publicKey: Bytes, stake: nat, status: Status, registrationEra: nat)

  /** The two SMT namespaces, the active set and the address index. */
  datatype State = State(
    accounts: map<Address, Account>,
    validators: map<Address, Validator>,
    activeSet: seq<Address>,
    index: set<Address>)

  datatype BurnTarget = Permanent | CapRefill

  datatype TxBody =
    | Transfer(recipient: Address, amount: nat)
    | RegisterValidator(publicKey: Bytes)
    | Stake(validator: Address, amount: nat)
    | RegisterAndStake(validator: Address, amount: nat)
    | Unstake(validator: Address, amount: nat)
    | Burn(target: BurnTarget, amount: nat)
    | Propose
    | GovVote
    | CancelProposal

  datatype Transaction = Transaction(chainId: nat, nonce: nat, sender: Address, fee: nat, body: TxBody)

  datatype Block = Block(chainId: nat, transactions: seq<Transaction>)

  // ---------------------------------------------------------------------
  // Reads and writes
  // ---------------------------------------------------------------------

  function NewAccount(balance: nat): Account {
    Account(balance, 0, None)
  }

  function AccountOrNew(accounts: map<Address, Account>, addr: Address): Account {
    if addr in accounts then accounts[addr] else NewAccount(0)
  }

  function BalanceOf(accounts: map<Address, Account>, addr: Address): nat {
    AccountOrNew(accounts, addr).balance
  }

  function StakeAt(st: State, addr: Address): nat {
    if addr in st.validators then st.validators[addr].stake else 0
  }

  function Credit(accounts: map<Address, Account>, addr: Address, amount: nat): map<Address, Account> {
    var acct := AccountOrNew(accounts, addr);
    accounts[addr := acct.(balance := SatAdd(acct.balance, amount))]
  }

  function PutAccount(st: State, addr: Address, acct: Account): State {
    st.(accounts := st.accounts[addr := acct])
  }

  function PutValidator(st: State, addr: Address, entry: Validator): State {
    st.(validators := st.validators[addr := entry], index := st.index + {addr})
  }

  // ---------------------------------------------------------------------
  // Transactions
  // ---------------------------------------------------------------------

  datatype TxError =
    | InvalidNonce
    | InsufficientBalance
    | ValidatorNotFound
    | AlreadyRegistered
    | FrozenOrUnstaking
    | ZeroAmount
    | StakeOverflow
    | NotSelf
    | ValidatorFrozen
    | ExceedsStake
    | CumulativeExceedsStake

  /** `Panic` is an arithmetic overflow of a 256-bit amount, which aborts the node. */
  datatype Outcome = Success | Failure(error: TxError) | Panic

  /** The result of executing a transaction body: the outcome, the sender's
      account as the handler left it (not yet written back), and the state. */
  datatype Exec = Exec(outcome: Outcome, sender: Account, st: State)

  function Debit(sender: Account, amount: nat): Account
    requires amount <= sender.balance
  {
    sender.(balance := sender.balance - amount, nonce := Add64(sender.nonce, 1))
  }

  function ExecTransfer(st: State, sender: Account, recipient: Address, amount: nat, fee: nat, nonce: nat): Exec {
    if sender.nonce != nonce then Exec(Failure(InvalidNonce), sender, st)
    else if amount + fee >= U256_MOD then Exec(Panic, sender, st)
    else if sender.balance < amount + fee then Exec(Failure(InsufficientBalance), sender, st)
    else
      var acct := AccountOrNew(st.accounts, recipient);
      if acct.balance + amount >= U256_MOD then Exec(Panic, sender, st)
      else Exec(Success, Debit(sender, amount + fee),
                PutAccount(st, recipient, acct.(balance := acct.balance + amount)))
  }

  function ExecFeeOnly(st: State, sender: Account, fee: nat, nonce: nat): Exec {
    if sender.nonce != nonce then Exec(Failure(InvalidNonce), sender, st)
    else if sender.balance < fee then Exec(Failure(InsufficientBalance), sender, st)
    else Exec(Success, Debit(sender, fee), st)
  }

  function ExecRegister(st: State, sender: Account, addr: Address, publicKey: Bytes, fee: nat, nonce: nat): Exec {
    if addr in st.validators then Exec(Failure(AlreadyRegistered), sender, st)
    else if sender.nonce != nonce then Exec(Failure(InvalidNonce), sender, st)
    else if fee + ANTI_SPAM_DEPOSIT >= U256_MOD then Exec(Panic, sender, st)
    else if sender.balance < fee + ANTI_SPAM_DEPOSIT then Exec(Failure(InsufficientBalance), sender, st)
    else Exec(Success, Debit(sender, fee + ANTI_SPAM_DEPOSIT),
              PutValidator(st, addr, Validator(addr, publicKey, 0, Registered, 0)))
  }

  function ExecStake(st: State, sender: Account, validator: Address, amount: nat, fee: nat, nonce: nat): Exec {
    if sender.nonce != nonce then Exec(Failure(InvalidNonce), sender, st)
    else if validator !in st.validators then Exec(Failure(ValidatorNotFound), sender, st)
    else
      var entry := st.validators[validator];
      if entry.status.Frozen? || entry.status.Unstaking? then Exec(Failure(FrozenOrUnstaking), sender, st)
      else if amount == 0 then Exec(Failure(ZeroAmount), sender, st)
      else if fee + amount >= U256_MOD then Exec(Panic, sender, st)
      else if sender.balance < fee + amount then Exec(Failure(InsufficientBalance), sender, st)
      else if entry.stake + amount >= U256_MOD then
        Exec(Failure(StakeOverflow), Debit(sender, fee + amount), st)
      else
        var newStake := entry.stake + amount;
        Exec(Success, Debit(sender, fee + amount),
             PutValidator(st, validator, entry.(
               stake := newStake,
               status := if entry.status == Registered then Staked(newStake) else entry.status)))
  }

  /** The all-zero key a combined registration stores. */
  function PlaceholderKey(): Bytes {
    seq(897, _ => 0)
  }

  function ExecRegisterAndStake(st: State, sender: Account, addr: Address, validator: Address,
                                amount: nat, fee: nat, nonce: nat): Exec {
    if validator != addr then Exec(Failure(NotSelf), sender, st)
    else if sender.nonce != nonce then Exec(Failure(InvalidNonce), sender, st)
    else if addr in st.validators then Exec(Failure(AlreadyRegistered), sender, st)
    else if amount == 0 then Exec(Failure(ZeroAmount), sender, st)
    else if fee + ANTI_SPAM_DEPOSIT + amount >= U256_MOD then Exec(Panic, sender, st)
    else if sender.balance < fee + ANTI_SPAM_DEPOSIT + amount then
      Exec(Failure(InsufficientBalance), sender, st)
    else Exec(Success, Debit(sender, fee + ANTI_SPAM_DEPOSIT + amount),
              PutValidator(st, addr, Validator(addr, PlaceholderKey(), amount, Staked(amount), 0)))
  }

  function ExecUnstake(st: State, sender: Account, validator: Address, amount: nat,
                       fee: nat, nonce: nat, era: nat): Exec {
    if sender.nonce != nonce then Exec(Failure(InvalidNonce), sender, st)
    else if validator !in st.validators then Exec(Failure(ValidatorNotFound), sender, st)
    else
      var entry := st.validators[validator];
      if entry.status.Frozen? then Exec(Failure(ValidatorFrozen), sender, st)
      else if amount == 0 then Exec(Failure(ZeroAmount), sender, st)
      else if amount > entry.stake then Exec(Failure(ExceedsStake), sender, st)
      else if sender.balance < fee then Exec(Failure(InsufficientBalance), sender, st)
      else
        var paid := Debit(sender, fee);
        match entry.status
        case Unstaking(existingEra, existingAmount) =>
          if existingAmount + amount >= U256_MOD then Exec(Failure(StakeOverflow), paid, st)
          else if existingAmount + amount > entry.stake then Exec(Failure(CumulativeExceedsStake), paid, st)
          else Exec(Success, paid, PutValidator(st, validator,
                 entry.(status := Unstaking(existingEra, existingAmount + amount))))
        case _ =>
          Exec(Success, paid, PutValidator(st, validator,
            entry.(status := Unstaking(Add64(era, UNSTAKING_COOLDOWN_ERAS), amount))))
  }

  function BurnDestination(target: BurnTarget): Address {
    match target
    case Permanent => BURN_ADDRESS
    case CapRefill => CAP_REFILL_ADDRESS
  }

  function ExecBody(st: State, sender: Account, tx: Transaction): Exec {
    match tx.body
    case Transfer(recipient, amount) => ExecTransfer(st, sender, recipient, amount, tx.fee, tx.nonce)
    case Burn(target, amount) => ExecTransfer(st, sender, BurnDestination(target), amount, tx.fee, tx.nonce)
    case RegisterValidator(publicKey) => ExecRegister(st, sender, tx.sender, publicKey, tx.fee, tx.nonce)
    case Stake(validator, amount) => ExecStake(st, sender, validator, amount, tx.fee, tx.nonce)
    case RegisterAndStake(validator, amount) =>
      ExecRegisterAndStake(st, sender, tx.sender, validator, amount, tx.fee, tx.nonce)
    case Unstake(validator, amount) => ExecUnstake(st, sender, validator, amount, tx.fee, tx.nonce, 0)
    case Propose => ExecFeeOnly(st, sender, tx.fee, tx.nonce)
    case GovVote => ExecFeeOnly(st, sender, tx.fee, tx.nonce)
    case CancelProposal => ExecFeeOnly(st, sender, tx.fee, tx.nonce)
  }

  // ---------------------------------------------------------------------
  // Blocks
  // ---------------------------------------------------------------------

  /** What became of a transaction: not looked at (wrong chain or no sender),
      applied, failed with its fee charged, or failed without a charge. */
  datatype Verdict = Skipped | Applied | FailedCharged | FailedFree

  datatype Step = Stepped(st: State, verdict: Verdict) | Aborted

  function TxStep(st: State, chainId: nat, tx: Transaction): Step {
    if tx.chainId != chainId || tx.sender !in st.accounts then Stepped(st, Skipped)
    else
      var e := ExecBody(st, st.accounts[tx.sender], tx);
      match e.outcome
      case Panic => Aborted
      case Success => Stepped(PutAccount(e.st, tx.sender, e.sender), Applied)
      case Failure(_) =>
        if tx.fee <= e.sender.balance then
          Stepped(PutAccount(e.st, tx.sender, e.sender.(balance := e.sender.balance - tx.fee)), FailedCharged)
        else Stepped(e.st, FailedFree)
  }

  /** A fee as it enters the block's 128-bit total. */
  function FeeAsU128(fee: nat): nat {
    Min(fee, U128_MOD - 1)
  }

  predicate PaysFee(verdict: Verdict) {
    verdict == Applied || verdict == FailedCharged
  }

  datatype Tally = Tally(fees: nat, applied: nat, failed: nat)

  function Count(tally: Tally, verdict: Verdict, fee: nat): Tally {
    Tally(
      if PaysFee(verdict) then (tally.fees + FeeAsU128(fee)) % U128_MOD else tally.fees,
      if verdict == Applied then tally.applied + 1 else tally.applied,
      if verdict == Applied then tally.failed else tally.failed + 1)
  }

  /** The state and tally after a list of transactions; `None` once one of them panics. */
  function RunTxs(st: State, chainId: nat, txs: seq<Transaction>): Option<(State, Tally)> {
    if txs == [] then Some((st, Tally(0, 0, 0)))
    else
      var n := |txs| - 1;
      match RunTxs(st, chainId, txs[..n])
      case None => None
      case Some((mid, tally)) =>
        match TxStep(mid, chainId, txs[n])
        case Aborted => None
        case Stepped(next, verdict) => Some((next, Count(tally, verdict, txs[n].fee)))
  }

  /** A run that does not panic has no panicking prefix, and extends step by step. */
  lemma {:induction false} RunTxsPrefix(st: State, chainId: nat, txs: seq<Transaction>, n: nat)
    requires n <= |txs| && RunTxs(st, chainId, txs).Some?
    ensures RunTxs(st, chainId, txs[..n]).Some?
    decreases |txs| - n
  {
    if n < |txs| {
      RunTxsPrefix(st, chainId, txs, n + 1);
      assert txs[..n + 1][..n] == txs[..n];
    } else {
      assert txs[..n] == txs;
    }
  }

  lemma RunTxsNext(st: State, chainId: nat, txs: seq<Transaction>, i: nat)
    requires i < |txs| && RunTxs(st, chainId, txs).Some?
    ensures RunTxs(st, chainId, txs[..i]).Some?
    ensures var (mid, tally) := RunTxs(st, chainId, txs[..i]).value;
            var step := TxStep(mid, chainId, txs[i]);
            && step.Stepped?
            && RunTxs(st, chainId, txs[..i + 1]) == Some((step.st, Count(tally, step.verdict, txs[i].fee)))
  {
    RunTxsPrefix(st, chainId, txs, i);
    RunTxsPrefix(st, chainId, txs, i + 1);
    assert txs[..i + 1][..i] == txs[..i];
  }

  function RunBlock(st: State, block: Block): Option<(State, Tally)> {
    match RunTxs(st, block.chainId, block.transactions)
    case None => None
    case Some((mid, tally)) =>
      match DistributeFees(mid, tally.fees)
      case None => None
      case Some(end) => Some((end, tally))
  }

  // ---------------------------------------------------------------------
  // Fee distribution
  // ---------------------------------------------------------------------

  datatype Holder = Holder(stake: nat, addr: Address)

  /** Larger stake first, then smaller address. */
  predicate PaidBefore(a: Holder, b: Holder) {
    a.stake > b.stake || (a.stake == b.stake && a.addr <= b.addr)
  }

  /** The members of the active set that have a validator entry. */
  function Holders(st: State, active: seq<Address>): seq<Holder> {
    if active == [] then []
    else
      var n := |active| - 1;
      var rest := Holders(st, active[..n]);
      if active[n] in st.validators then rest + [Holder(st.validators[active[n]].stake, active[n])] else rest
  }

  function SatTotal(holders: seq<Holder>): nat {
    if holders == [] then 0
    else SatAdd(SatTotal(holders[..|holders| - 1]), holders[|holders| - 1].stake)
  }

  function Share(fees: nat, stake: nat, total: nat): nat
    requires total > 0
  {
    fees * stake / total
  }

  /** Balances after paying the proportional shares in list order. */
  function PayShares(accounts: map<Address, Account>, holders: seq<Holder>, fees: nat, total: nat)
    : map<Address, Account>
    requires total > 0
  {
    if holders == [] then accounts
    else
      var n := |holders| - 1;
      var paid := PayShares(accounts, holders[..n], fees, total);
      var share := Share(fees, holders[n].stake, total);
      if share == 0 then paid else Credit(paid, holders[n].addr, share)
  }

  function PaidOut(holders: seq<Holder>, fees: nat, total: nat): nat
    requires total > 0
  {
    if holders == [] then 0
    else
      var n := |holders| - 1;
      SatAdd(PaidOut(holders[..n], fees, total), Share(fees, holders[n].stake, total))
  }

  predicate SharesFit(holders: seq<Holder>, fees: nat) {
    forall i :: 0 <= i < |holders| ==> fees * holders[i].stake < U256_MOD
  }

  function PayFees(accounts: map<Address, Account>, sorted: seq<Holder>, fees: nat, total: nat): map<Address, Account>
    requires total > 0 && sorted != []
  {
    var paid := PayShares(accounts, sorted, fees, total);
    var distributed := PaidOut(sorted, fees, total);
    if distributed < fees then Credit(paid, sorted[0].addr, fees - distributed) else paid
  }

  function DistributeFees(st: State, fees: nat): Option<State> {
    var holders := Holders(st, st.activeSet);
    var total := SatTotal(holders);
    if fees == 0 || st.activeSet == [] || total == 0 then Some(st)
    else
      SortPermutes(holders, PaidBefore);
      var sorted := Sort(holders, PaidBefore);
      if !SharesFit(holders, fees) then None
      else Some(st.(accounts := PayFees(st.accounts, sorted, fees, total)))
  }

  // ---------------------------------------------------------------------
  // Era boundary
  // ---------------------------------------------------------------------

  function ProcessCooldown(st: State, addr: Address, era: nat): State {
    if addr !in st.validators then st
    else
      var entry := st.validators[addr];
      match entry.status
      case Unstaking(releaseEra, amount) =>
        if releaseEra > era then st
        else if amount >= entry.stake then PutValidator(st, addr, entry.(stake := 0, status := Registered))
        else
          var left := entry.stake - amount;
          PutValidator(st, addr, entry.(
            stake := left, status := if left >= MIN_STAKE then Staked(left) else Registered))
      case _ => st
  }

  predicate ThawDue(st: State, addr: Address, era: nat) {
    && addr in st.validators
    && st.validators[addr].status.Frozen?
    && st.validators[addr].status.frozenUntil <= era
  }

  function ProcessThaw(st: State, addr: Address, era: nat): State {
    if !ThawDue(st, addr, era) then st
    else
      var entry := st.validators[addr];
      PutValidator(st, addr, entry.(status := if entry.stake >= MIN_STAKE then Thawed else Registered))
  }

  /** Thaw a list of validators; also the number actually thawed. */
  function ThawAll(st: State, addrs: seq<Address>, era: nat): (State, nat) {
    if addrs == [] then (st, 0)
    else
      var n := |addrs| - 1;
      var (mid, count) := ThawAll(st, addrs[..n], era);
      (ProcessThaw(mid, addrs[n], era), if ThawDue(mid, addrs[n], era) then count + 1 else count)
  }

  predicate Electable(entry: Validator) {
    !entry.status.Frozen? && !entry.status.Unstaking?
  }

  function Eligible(st: State, candidates: seq<Address>): seq<Validator> {
    if candidates == [] then []
    else
      var n := |candidates| - 1;
      var rest := Eligible(st, candidates[..n]);
      if candidates[n] in st.validators && Electable(st.validators[candidates[n]])
      then rest + [st.validators[candidates[n]]]
      else rest
  }

  /** Larger stake first, then earlier registration. */
  predicate RanksBefore(a: Validator, b: Validator) {
    a.stake > b.stake || (a.stake == b.stake && a.registrationEra <= b.registrationEra)
  }

  predicate MeetsMinimum(entry: Validator) {
    entry.stake >= MIN_STAKE
  }

  function Take<T>(s: seq<T>, max: nat): seq<T> {
    if |s| <= max then s else s[..max]
  }

  function Elect(eligible: seq<Validator>, max: nat, era: nat): seq<Validator> {
    if era == 0 then Take(eligible, max)
    else Take(Filter(Sort(eligible, RanksBefore), MeetsMinimum), max)
  }

  function ElectedStatus(status: Status): Status {
    if status.Registered? || status.Staked? || status.Thawed? then Active else status
  }

  function ActivateAll(st: State, elected: seq<Validator>): State {
    if elected == [] then st
    else
      var n := |elected| - 1;
      var mid := ActivateAll(st, elected[..n]);
      PutValidator(mid, elected[n].address, elected[n].(status := ElectedStatus(elected[n].status)))
  }

  function Addresses(entries: seq<Validator>): seq<Address> {
    seq(|entries|, i requires 0 <= i < |entries| => entries[i].address)
  }

  function RunElection(st: State, candidates: seq<Address>, max: nat, era: nat): (State, seq<Address>) {
    var elected := Elect(Eligible(st, candidates), max, era);
    (ActivateAll(st, elected), Addresses(elected))
  }

  // ---------------------------------------------------------------------
  // Slashing
  // ---------------------------------------------------------------------

  datatype SlashAmounts = SlashAmounts(slashed: nat, burned: nat, bounty: nat, remaining: nat)

  datatype SlashResult =
    | Slashed(amounts: SlashAmounts)
    | SlashNotFound
    | AlreadyFrozen
    | SlashPanic

  function SlashSplit(stake: nat): SlashAmounts {
    var slashed := stake * 90 / 100;
    SlashAmounts(slashed, slashed * 90 / 100, slashed * 10 / 100, stake - slashed)
  }

  function ApplySlash(st: State, offender: Address, reporter: Address, era: nat): (State, SlashResult) {
    if offender !in st.validators then (st, SlashNotFound)
    else
      var entry := st.validators[offender];
      if entry.status.Frozen? then (st, AlreadyFrozen)
      else if entry.stake * 90 >= U256_MOD then (st, SlashPanic)
      else
        var amounts := SlashSplit(entry.stake);
        var paid := Credit(Credit(st.accounts, BURN_ADDRESS, amounts.burned), reporter, amounts.bounty);
        (PutValidator(st.(accounts := paid), offender,
           entry.(stake := amounts.remaining, status := Frozen(Add64(era, FREEZE_ERAS)))),
         Slashed(amounts))
  }
}
