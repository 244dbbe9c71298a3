/** The state machine object: every handler rewrites the stored maps in place
    and is proved to compute the transition function of `State`. */
module StateMachineObject {
  import opened Primitives
  import opened Sorting
  import opened State
  import opened Hashing
  import opened StateKeys
  import opened Trie

  /** The accounts a list of pairs stores; later pairs replace earlier ones. */
  function Initial(pairs: seq<(Address, Account)>): map<Address, Account> {
    if pairs == [] then map[]
    else
      var n := |pairs| - 1;
      Initial(pairs[..n])[pairs[n].0 := pairs[n].1]
  }

  /** Every tree holding the items has this root. */
  ghost predicate IsRootOf(h: Hash, items: Items, root: Digest) {
    forall leaves :: Holds(h, leaves, items) ==> root == MerkleRoot(h, leaves)
  }

  lemma EmptyLedger(c: Codec)
    ensures LedgerItems(c, map[], map[], map[]) == map[]
  {
    var items := LedgerItems(c, map[], map[], map[]);
    forall k: StateKey ensures ItemIn(items, k) == ItemIn(map[], k) {
      assert ItemIn(items, k) == ItemOf(c, map[], map[], map[], k);
    }
    SameItems(items, map[]);
  }

  /** Writing one item to the tree keeps it in step with the items. */
  lemma WriteKeepsSync(h: Hash, leaves: map<Digest, Bytes>, items: Items, k: StateKey, value: Bytes)
    requires Separated(h, items.Keys) ==> Holds(h, leaves, items)
    ensures Separated(h, items[k := value].Keys) ==> Holds(h, leaves[h(FullKey(k)) := value], items[k := value])
  {
    assert items[k := value].Keys == items.Keys + {k};
    SeparatedPart(h, items.Keys + {k}, items.Keys);
    if Separated(h, items.Keys) {
      WriteRefines(h, leaves, items, k, value);
    }
  }

  class StateMachine {
    const h: Hash
    const codec: Codec
    const tree: SparseMerkleTree
    var accounts: map<Address, Account>
    var validators: map<Address, Validator>
    var activeSet: seq<Address>
    var index: set<Address>
    var rest: Items

    function View(): State
      reads this
    {
      State(accounts, validators, activeSet, index)
    }

    /** What the tree is to store: the ledger, beside the items of other namespaces. */
    ghost function Contents(): Items
      requires OtherNamespaces(rest)
      reads this
    {
      LedgerItems(codec, accounts, validators, rest)
    }

    /** The tree holds exactly the current ledger, as long as no two keys of it have the same hash. */
    ghost predicate Synced()
      reads this, tree
    {
      && OtherNamespaces(rest)
      && tree.h == h && tree.Valid()
      && (Separated(h, Contents().Keys) ==> Holds(h, tree.leaves, Contents()))
    }

    constructor (h: Hash, codec: Codec, initial: seq<(Address, Account)>)
      ensures Synced() && fresh(tree)
      ensures this.h == h && this.codec == codec && rest == map[]
      ensures View() == State(Initial(initial), map[], [], {})
    {
      this.h, this.codec := h, codec;
      tree := new SparseMerkleTree(h);
      accounts, validators, activeSet, index, rest := map[], map[], [], {}, map[];
      new;
      EmptyLedger(codec);
      for i := 0 to |initial|
        invariant Synced() && fresh(tree) && rest == map[]
        invariant View() == State(Initial(initial[..i]), map[], [], {})
      {
        assert initial[..i + 1][..i] == initial[..i];
        SetAccount(initial[i].0, initial[i].1);
      }
      assert initial[..|initial|] == initial;
    }

    method SetAccount(addr: Address, acct: Account)
      requires Synced()
      modifies this`accounts, tree
      ensures Synced()
      ensures View() == PutAccount(old(View()), addr, acct)
    {
      AccountItem(codec, accounts, validators, rest, addr, acct);
      WriteKeepsSync(h, tree.leaves, Contents(), AccountKey(addr), codec.account(acct));
      tree.Insert(FullKey(AccountKey(addr)), codec.account(acct));
      accounts := accounts[addr := acct];
    }

    method SetValidator(addr: Address, entry: Validator)
      requires Synced()
      modifies this`validators, this`index, tree
      ensures Synced()
      ensures View() == PutValidator(old(View()), addr, entry)
    {
      ValidatorItem(codec, accounts, validators, rest, addr, entry);
      WriteKeepsSync(h, tree.leaves, Contents(), ValidatorKey(addr), codec.validator(entry));
      tree.Insert(FullKey(ValidatorKey(addr)), codec.validator(entry));
      validators := validators[addr := entry];
      index := index + {addr};
    }

    /** Write an item of another namespace; the ledger is not touched. */
    method GovernanceInsert(k: StateKey, value: Bytes)
      requires Synced() && !k.AccountKey? && !k.ValidatorKey?
      modifies this`rest, tree
      ensures Synced() && rest == old(rest)[k := value]
    {
      OtherItem(codec, accounts, validators, rest, k, value);
      WriteKeepsSync(h, tree.leaves, Contents(), k, value);
      tree.Insert(FullKey(k), value);
      rest := rest[k := value];
    }

    /** The root of the tree; with separated keys a function of the ledger and the other items. */
    method StateRoot() returns (root: Digest)
      requires Synced()
      modifies tree
      ensures Synced()
      ensures Separated(h, Contents().Keys) ==> IsRootOf(h, Contents(), root)
    {
      root := tree.Root();
      forall leaves | Separated(h, Contents().Keys) && Holds(h, leaves, Contents())
        ensures root == MerkleRoot(h, leaves)
      {
        ItemsDetermineLeaves(h, tree.leaves, leaves, Contents());
      }
    }

    method CreditBalance(addr: Address, amount: nat)
      requires Synced()
      modifies this`accounts, tree
      ensures Synced()
      ensures View() == old(View()).(accounts := Credit(old(accounts), addr, amount))
    {
      hide Synced;
      var acct := AccountOrNew(accounts, addr);
      SetAccount(addr, acct.(balance := SatAdd(acct.balance, amount)));
    }

    // -------------------------------------------------------------------
    // Transactions
    // -------------------------------------------------------------------

    method TryTransfer(sender: Account, recipient: Address, amount: nat, fee: nat, nonce: nat)
      returns (outcome: Outcome, acct: Account)
      requires Synced()
      requires !ExecTransfer(View(), sender, recipient, amount, fee, nonce).outcome.Panic?
      modifies this`accounts, this`validators, this`index, tree
      ensures Synced()
      ensures Exec(outcome, acct, View()) == ExecTransfer(old(View()), sender, recipient, amount, fee, nonce)
    {
      hide Synced;
      acct := sender;
      if acct.nonce != nonce {
        return Failure(InvalidNonce), acct;
      }
      var totalDebit := amount + fee;
      if acct.balance < totalDebit {
        return Failure(InsufficientBalance), acct;
      }
      acct := acct.(balance := acct.balance - totalDebit);
      acct := acct.(nonce := Add64(acct.nonce, 1));
      var credited := AccountOrNew(accounts, recipient);
      SetAccount(recipient, credited.(balance := credited.balance + amount));
      outcome := Success;
    }

    method TryDeductFeeOnly(sender: Account, fee: nat, nonce: nat) returns (outcome: Outcome, acct: Account)
      ensures Exec(outcome, acct, View()) == ExecFeeOnly(View(), sender, fee, nonce)
    {
      acct := sender;
      if acct.nonce != nonce {
        return Failure(InvalidNonce), acct;
      }
      if acct.balance < fee {
        return Failure(InsufficientBalance), acct;
      }
      acct := acct.(balance := acct.balance - fee);
      acct := acct.(nonce := Add64(acct.nonce, 1));
      outcome := Success;
    }

    method ApplyRegisterValidator(sender: Account, addr: Address, publicKey: Bytes, fee: nat, nonce: nat)
      returns (outcome: Outcome, acct: Account)
      requires Synced()
      requires !ExecRegister(View(), sender, addr, publicKey, fee, nonce).outcome.Panic?
      modifies this`accounts, this`validators, this`index, tree
      ensures Synced()
      ensures Exec(outcome, acct, View()) == ExecRegister(old(View()), sender, addr, publicKey, fee, nonce)
    {
      hide Synced;
      acct := sender;
      if addr in validators {
        return Failure(AlreadyRegistered), acct;
      }
      if acct.nonce != nonce {
        return Failure(InvalidNonce), acct;
      }
      var totalDebit := fee + ANTI_SPAM_DEPOSIT;
      if acct.balance < totalDebit {
        return Failure(InsufficientBalance), acct;
      }
      acct := acct.(balance := acct.balance - totalDebit);
      acct := acct.(nonce := Add64(acct.nonce, 1));
      SetValidator(addr, Validator(addr, publicKey, 0, Registered, 0));
      outcome := Success;
    }

    method ApplyStake(sender: Account, validator: Address, amount: nat, fee: nat, nonce: nat)
      returns (outcome: Outcome, acct: Account)
      requires Synced()
      requires !ExecStake(View(), sender, validator, amount, fee, nonce).outcome.Panic?
      modifies this`accounts, this`validators, this`index, tree
      ensures Synced()
      ensures Exec(outcome, acct, View()) == ExecStake(old(View()), sender, validator, amount, fee, nonce)
    {
      hide Synced;
      acct := sender;
      if acct.nonce != nonce {
        return Failure(InvalidNonce), acct;
      }
      if validator !in validators {
        return Failure(ValidatorNotFound), acct;
      }
      var entry := validators[validator];
      if entry.status.Frozen? || entry.status.Unstaking? {
        return Failure(FrozenOrUnstaking), acct;
      }
      if amount == 0 {
        return Failure(ZeroAmount), acct;
      }
      var totalDebit := fee + amount;
      if acct.balance < totalDebit {
        return Failure(InsufficientBalance), acct;
      }
      acct := acct.(balance := acct.balance - totalDebit);
      acct := acct.(nonce := Add64(acct.nonce, 1));
      if entry.stake + amount >= U256_MOD {
        return Failure(StakeOverflow), acct;
      }
      entry := entry.(stake := entry.stake + amount);
      if entry.status == Registered {
        entry := entry.(status := Staked(entry.stake));
      }
      SetValidator(validator, entry);
      outcome := Success;
    }

    method ApplyRegisterAndStake(sender: Account, addr: Address, validator: Address, amount: nat, fee: nat, nonce: nat)
      returns (outcome: Outcome, acct: Account)
      requires Synced()
      requires !ExecRegisterAndStake(View(), sender, addr, validator, amount, fee, nonce).outcome.Panic?
      modifies this`accounts, this`validators, this`index, tree
      ensures Synced()
      ensures Exec(outcome, acct, View()) ==
              ExecRegisterAndStake(old(View()), sender, addr, validator, amount, fee, nonce)
    {
      hide Synced;
      acct := sender;
      if validator != addr {
        return Failure(NotSelf), acct;
      }
      if acct.nonce != nonce {
        return Failure(InvalidNonce), acct;
      }
      if addr in validators {
        return Failure(AlreadyRegistered), acct;
      }
      if amount == 0 {
        return Failure(ZeroAmount), acct;
      }
      var totalDebit := fee + ANTI_SPAM_DEPOSIT + amount;
      if acct.balance < totalDebit {
        return Failure(InsufficientBalance), acct;
      }
      acct := acct.(balance := acct.balance - totalDebit);
      acct := acct.(nonce := Add64(acct.nonce, 1));
      SetValidator(addr, Validator(addr, PlaceholderKey(), amount, Staked(amount), 0));
      outcome := Success;
    }

    method ApplyUnstake(sender: Account, validator: Address, amount: nat, fee: nat, nonce: nat, era: nat)
      returns (outcome: Outcome, acct: Account)
      requires Synced()
      modifies this`accounts, this`validators, this`index, tree
      ensures Synced()
      ensures Exec(outcome, acct, View()) == ExecUnstake(old(View()), sender, validator, amount, fee, nonce, era)
    {
      hide Synced;
      acct := sender;
      if acct.nonce != nonce {
        return Failure(InvalidNonce), acct;
      }
      if validator !in validators {
        return Failure(ValidatorNotFound), acct;
      }
      var entry := validators[validator];
      if entry.status.Frozen? {
        return Failure(ValidatorFrozen), acct;
      }
      if amount == 0 {
        return Failure(ZeroAmount), acct;
      }
      if amount > entry.stake {
        return Failure(ExceedsStake), acct;
      }
      if acct.balance < fee {
        return Failure(InsufficientBalance), acct;
      }
      acct := acct.(balance := acct.balance - fee);
      acct := acct.(nonce := Add64(acct.nonce, 1));
      var releaseEra := Add64(era, UNSTAKING_COOLDOWN_ERAS);
      match entry.status {
        case Unstaking(existingEra, existingAmount) =>
          var newAmount := existingAmount + amount;
          if newAmount >= U256_MOD {
            return Failure(StakeOverflow), acct;
          }
          if newAmount > entry.stake {
            return Failure(CumulativeExceedsStake), acct;
          }
          entry := entry.(status := Unstaking(existingEra, newAmount));
        case _ =>
          entry := entry.(status := Unstaking(releaseEra, amount));
      }
      SetValidator(validator, entry);
      outcome := Success;
    }

    method Execute(sender: Account, tx: Transaction) returns (outcome: Outcome, acct: Account)
      requires Synced()
      requires !ExecBody(View(), sender, tx).outcome.Panic?
      modifies this`accounts, this`validators, this`index, tree
      ensures Synced()
      ensures Exec(outcome, acct, View()) == ExecBody(old(View()), sender, tx)
    {
      hide Synced;
      match tx.body {
        case Transfer(recipient, amount) =>
          outcome, acct := TryTransfer(sender, recipient, amount, tx.fee, tx.nonce);
        case Burn(target, amount) =>
          outcome, acct := TryTransfer(sender, BurnDestination(target), amount, tx.fee, tx.nonce);
        case RegisterValidator(publicKey) =>
          outcome, acct := ApplyRegisterValidator(sender, tx.sender, publicKey, tx.fee, tx.nonce);
        case Stake(validator, amount) =>
          outcome, acct := ApplyStake(sender, validator, amount, tx.fee, tx.nonce);
        case RegisterAndStake(validator, amount) =>
          outcome, acct := ApplyRegisterAndStake(sender, tx.sender, validator, amount, tx.fee, tx.nonce);
        case Unstake(validator, amount) =>
          outcome, acct := ApplyUnstake(sender, validator, amount, tx.fee, tx.nonce, 0);
        case _ =>
          outcome, acct := TryDeductFeeOnly(sender, tx.fee, tx.nonce);
      }
    }

    /** One iteration of the block loop, for a transaction that does not panic. */
    method ApplyTx(chainId: nat, tx: Transaction) returns (verdict: Verdict)
      requires Synced()
      requires TxStep(View(), chainId, tx).Stepped?
      modifies this`accounts, this`validators, this`index, tree
      ensures Synced()
      ensures TxStep(old(View()), chainId, tx) == Stepped(View(), verdict)
    {
      hide Synced;
      if tx.chainId != chainId {
        return Skipped;
      }
      if tx.sender !in accounts {
        return Skipped;
      }
      var outcome, sender := Execute(accounts[tx.sender], tx);
      if outcome.Success? {
        SetAccount(tx.sender, sender);
        return Applied;
      }
      if sender.balance >= tx.fee {
        SetAccount(tx.sender, sender.(balance := sender.balance - tx.fee));
        return FailedCharged;
      }
      return FailedFree;
    }

    /** Execute the transactions, distribute the fees and report the new root. */
    method ApplyBlock(block: Block) returns (tally: Tally, stateRoot: Digest)
      requires Synced()
      requires RunBlock(View(), block).Some?
      modifies this`accounts, this`validators, this`index, tree
      ensures Synced()
      ensures RunBlock(old(View()), block) == Some((View(), tally))
      ensures Separated(h, Contents().Keys) ==> IsRootOf(h, Contents(), stateRoot)
    {
      hide Synced;
      tally := ApplyTxs(block.chainId, block.transactions);
      Distribute(tally.fees);
      stateRoot := StateRoot();
    }

    method ApplyTxs(chainId: nat, txs: seq<Transaction>) returns (tally: Tally)
      requires Synced()
      requires RunTxs(View(), chainId, txs).Some?
      modifies this`accounts, this`validators, this`index, tree
      ensures Synced()
      ensures RunTxs(old(View()), chainId, txs) == Some((View(), tally))
    {
      hide Synced;
      ghost var start := View();
      tally := Tally(0, 0, 0);
      for i := 0 to |txs|
        invariant Synced()
        invariant RunTxs(start, chainId, txs[..i]) == Some((View(), tally))
      {
        tally := ApplyNext(start, chainId, txs, i, tally);
      }
      assert txs[..|txs|] == txs;
    }

    /** One iteration of the block loop: execute, then count fee and outcome. */
    method ApplyNext(ghost start: State, chainId: nat, txs: seq<Transaction>, i: nat, before: Tally)
      returns (tally: Tally)
      requires Synced()
      requires i < |txs| && RunTxs(start, chainId, txs).Some?
      requires RunTxs(start, chainId, txs[..i]) == Some((View(), before))
      modifies this`accounts, this`validators, this`index, tree
      ensures Synced()
      ensures RunTxs(start, chainId, txs[..i + 1]) == Some((View(), tally))
    {
      hide Synced;
      RunTxsNext(start, chainId, txs, i);
      var verdict := ApplyTx(chainId, txs[i]);
      tally := CountVerdict(before, verdict, txs[i].fee);
    }

    static method CountVerdict(before: Tally, verdict: Verdict, fee: nat) returns (tally: Tally)
      ensures tally == Count(before, verdict, fee)
    {
      tally := before;
      if PaysFee(verdict) {
        tally := tally.(fees := (tally.fees + FeeAsU128(fee)) % U128_MOD);
      }
      if verdict == Applied {
        tally := tally.(applied := tally.applied + 1);
      } else {
        tally := tally.(failed := tally.failed + 1);
      }
    }

    // -------------------------------------------------------------------
    // Fee distribution
    // -------------------------------------------------------------------

    method Distribute(fees: nat)
      requires Synced()
      requires DistributeFees(View(), fees).Some?
      modifies this`accounts, this`validators, this`index, tree
      ensures Synced()
      ensures DistributeFees(old(View()), fees) == Some(View())
    {
      hide Synced;
      if fees == 0 || activeSet == [] {
        return;
      }
      var pairs, totalStake := CollectHolders();
      if totalStake == 0 {
        return;
      }
      SortPermutes(pairs, PaidBefore);
      pairs := Sort(pairs, PaidBefore);
      PayHolders(pairs, fees, totalStake);
    }

    /** The stakes of the active set, and their saturating sum. */
    method CollectHolders() returns (pairs: seq<Holder>, totalStake: nat)
      ensures pairs == Holders(View(), activeSet) && totalStake == SatTotal(pairs)
    {
      pairs, totalStake := [], 0;
      for i := 0 to |activeSet|
        invariant pairs == Holders(View(), activeSet[..i]) && totalStake == SatTotal(pairs)
      {
        assert activeSet[..i + 1][..i] == activeSet[..i];
        if activeSet[i] in validators {
          var v := validators[activeSet[i]];
          assert (pairs + [Holder(v.stake, activeSet[i])])[..|pairs|] == pairs;
          totalStake := SatAdd(totalStake, v.stake);
          pairs := pairs + [Holder(v.stake, activeSet[i])];
        }
      }
      assert activeSet[..|activeSet|] == activeSet;
    }

    /** Pay the shares in list order, then the remainder to the first. */
    method PayHolders(pairs: seq<Holder>, fees: nat, totalStake: nat)
      requires Synced()
      requires totalStake > 0 && pairs != []
      modifies this`accounts, tree
      ensures Synced()
      ensures View() == old(View()).(accounts := PayFees(old(accounts), pairs, fees, totalStake))
    {
      hide Synced;
      var distributed := 0;
      for i := 0 to |pairs|
        invariant Synced()
        invariant accounts == PayShares(old(accounts), pairs[..i], fees, totalStake)
        invariant distributed == PaidOut(pairs[..i], fees, totalStake)
      {
        assert pairs[..i + 1][..i] == pairs[..i];
        var share := Share(fees, pairs[i].stake, totalStake);
        PaidOutBound(pairs[..i], fees, totalStake);
        if share != 0 {
          CreditBalance(pairs[i].addr, share);
          distributed := SatAdd(distributed, share);
        }
      }
      assert pairs[..|pairs|] == pairs;
      if distributed < fees {
        CreditBalance(pairs[0].addr, fees - distributed);
      }
    }

    // -------------------------------------------------------------------
    // Era boundary and slashing
    // -------------------------------------------------------------------

    method ProcessUnstakingCooldown(addr: Address, era: nat)
      requires Synced()
      modifies this`accounts, this`validators, this`index, tree
      ensures Synced()
      ensures View() == ProcessCooldown(old(View()), addr, era)
    {
      hide Synced;
      if addr !in validators {
        return;
      }
      var entry := validators[addr];
      if !entry.status.Unstaking? {
        return;
      }
      if entry.status.releaseEra > era {
        return;
      }
      var amount := entry.status.amount;
      if amount >= entry.stake {
        SetValidator(addr, entry.(stake := 0, status := Registered));
      } else {
        var newStake := entry.stake - amount;
        var status := Registered;
        if newStake >= MIN_STAKE {
          status := Staked(newStake);
        }
        SetValidator(addr, entry.(stake := newStake, status := status));
      }
    }

    method Thaw(addr: Address, era: nat) returns (thawed: bool)
      requires Synced()
      modifies this`accounts, this`validators, this`index, tree
      ensures Synced()
      ensures View() == ProcessThaw(old(View()), addr, era)
      ensures thawed == ThawDue(old(View()), addr, era)
    {
      hide Synced;
      if addr !in validators {
        return false;
      }
      var entry := validators[addr];
      if !entry.status.Frozen? {
        return false;
      }
      if entry.status.frozenUntil > era {
        return false;
      }
      var status := Registered;
      if entry.stake >= MIN_STAKE {
        status := Thawed;
      }
      SetValidator(addr, entry.(status := status));
      return true;
    }

    method ThawEach(addrs: seq<Address>, era: nat) returns (count: nat)
      requires Synced()
      modifies this`accounts, this`validators, this`index, tree
      ensures Synced()
      ensures (View(), count) == ThawAll(old(View()), addrs, era)
    {
      hide Synced;
      count := 0;
      for i := 0 to |addrs|
        invariant Synced()
        invariant (View(), count) == ThawAll(old(View()), addrs[..i], era)
      {
        assert addrs[..i + 1][..i] == addrs[..i];
        var thawed := Thaw(addrs[i], era);
        if thawed {
          count := count + 1;
        }
      }
      assert addrs[..|addrs|] == addrs;
    }

    method Election(candidates: seq<Address>, max: nat, era: nat) returns (elected: seq<Address>)
      requires Synced()
      modifies this`accounts, this`validators, this`index, tree
      ensures Synced()
      ensures (View(), elected) == RunElection(old(View()), candidates, max, era)
    {
      hide Synced;
      var eligible: seq<Validator> := [];
      for i := 0 to |candidates|
        invariant Synced()
        invariant View() == old(View())
        invariant eligible == Eligible(View(), candidates[..i])
      {
        assert candidates[..i + 1][..i] == candidates[..i];
        if candidates[i] in validators {
          var entry := validators[candidates[i]];
          if !(entry.status.Frozen? || entry.status.Unstaking?) {
            eligible := eligible + [entry];
          }
        }
      }
      assert candidates[..|candidates|] == candidates;
      var chosen: seq<Validator>;
      if era == 0 {
        chosen := Take(eligible, max);
      } else {
        eligible := Sort(eligible, RanksBefore);
        chosen := Take(Filter(eligible, MeetsMinimum), max);
      }
      for i := 0 to |chosen|
        invariant Synced()
        invariant View() == ActivateAll(old(View()), chosen[..i])
      {
        assert chosen[..i + 1][..i] == chosen[..i];
        var entry := chosen[i];
        var status := entry.status;
        match entry.status {
          case Registered => status := Active;
          case Staked(_) => status := Active;
          case Thawed => status := Active;
          case _ =>
        }
        SetValidator(entry.address, entry.(status := status));
      }
      assert chosen[..|chosen|] == chosen;
      elected := Addresses(chosen);
    }

    method SetActiveSet(active: seq<Address>)
      requires Synced()
      modifies this`activeSet, tree
      ensures Synced()
      ensures View() == old(View()).(activeSet := active)
    {
      activeSet := active;
    }

    method Slash(offender: Address, reporter: Address, era: nat) returns (result: SlashResult)
      requires Synced()
      requires !ApplySlash(View(), offender, reporter, era).1.SlashPanic?
      modifies this`accounts, this`validators, this`index, tree
      ensures Synced()
      ensures (View(), result) == ApplySlash(old(View()), offender, reporter, era)
    {
      hide Synced;
      if offender !in validators {
        return SlashNotFound;
      }
      var entry := validators[offender];
      if entry.status.Frozen? {
        return AlreadyFrozen;
      }
      var slashed := entry.stake * 90 / 100;
      var burned := slashed * 90 / 100;
      var bounty := slashed * 10 / 100;
      var remaining := entry.stake - slashed;
      CreditBalance(BURN_ADDRESS, burned);
      CreditBalance(reporter, bounty);
      SetValidator(offender, entry.(stake := remaining, status := Frozen(Add64(era, FREEZE_ERAS))));
      return Slashed(SlashAmounts(slashed, burned, bounty, remaining));
    }
  }

  lemma {:induction false} PaidOutBound(holders: seq<Holder>, fees: nat, total: nat)
    requires total > 0
    ensures PaidOut(holders, fees, total) < U256_MOD
  {
  }
}
