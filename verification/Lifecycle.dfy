/** Whole runs of the state machine: the validator life cycle, freezing and the
    supply, each kept by every event and so by every run. */
module Lifecycle {
  import opened Primitives
  import opened Sorting
  import opened Sums
  import opened State
  import opened Ledger

  datatype Event =
    | NewBlock(block: Block)
    | Cooldown(addr: Address, era: nat)
    | ThawMany(addrs: seq<Address>, era: nat)
    | ElectFrom(candidates: seq<Address>, max: nat, era: nat)
    | InstallActive(active: seq<Address>)
    | Punish(offender: Address, reporter: Address, era: nat)

  function Handle(st: State, ev: Event): Option<State> {
    match ev
    case NewBlock(block) =>
      var r := RunBlock(st, block);
      if r.Some? then Some(r.value.0) else None
    case Cooldown(addr, era) => Some(ProcessCooldown(st, addr, era))
    case ThawMany(addrs, era) => Some(ThawAll(st, addrs, era).0)
    case ElectFrom(candidates, max, era) => Some(RunElection(st, candidates, max, era).0)
    case InstallActive(active) => Some(st.(activeSet := active))
    case Punish(offender, reporter, era) =>
      var r := ApplySlash(st, offender, reporter, era);
      if r.1.SlashPanic? then None else Some(r.0)
  }

  /** The state after a run of events; `None` once one of them panics. */
  function Run(st: State, events: seq<Event>): Option<State> {
    if events == [] then Some(st)
    else
      match Run(st, events[..|events| - 1])
      case None => None
      case Some(mid) => Handle(mid, events[|events| - 1])
  }

  /** The consensus loop only installs election results, which are distinct. */
  ghost predicate Installable(ev: Event) {
    ev.InstallActive? ==> Distinct(ev.active)
  }

  // ---------------------------------------------------------------------
  // The life-cycle invariant
  // ---------------------------------------------------------------------

  ghost predicate EntryOk(addr: Address, entry: Validator) {
    && entry.address == addr
    && (entry.status.Staked? ==> 0 < entry.status.staked <= entry.stake)
    && (entry.status.Unstaking? ==> 0 < entry.status.amount <= entry.stake)
  }

  ghost predicate LifecycleOk(st: State) {
    && st.index == st.validators.Keys
    && (forall a :: a in st.validators ==> EntryOk(a, st.validators[a]))
  }

  lemma TxKeepsLifecycle(st: State, chainId: nat, tx: Transaction)
    requires LifecycleOk(st) && TxStep(st, chainId, tx).Stepped?
    ensures LifecycleOk(TxStep(st, chainId, tx).st)
    ensures TxStep(st, chainId, tx).st.activeSet == st.activeSet
  {
    if tx.chainId == chainId && tx.sender in st.accounts {
      var sender := st.accounts[tx.sender];
      var e := ExecBody(st, sender, tx);
      assert LifecycleOk(e.st) && e.st.activeSet == st.activeSet by {
        match tx.body {
          case RegisterValidator(k) => assert e == ExecRegister(st, sender, tx.sender, k, tx.fee, tx.nonce);
          case Stake(v, n) => assert e == ExecStake(st, sender, v, n, tx.fee, tx.nonce);
          case RegisterAndStake(v, n) =>
            assert e == ExecRegisterAndStake(st, sender, tx.sender, v, n, tx.fee, tx.nonce);
          case Unstake(v, n) => assert e == ExecUnstake(st, sender, v, n, tx.fee, tx.nonce, 0);
          case _ =>
        }
      }
    }
  }

  lemma {:induction false} TxsKeepLifecycle(st: State, chainId: nat, txs: seq<Transaction>)
    requires LifecycleOk(st) && RunTxs(st, chainId, txs).Some?
    ensures LifecycleOk(RunTxs(st, chainId, txs).value.0)
    ensures RunTxs(st, chainId, txs).value.0.activeSet == st.activeSet
  {
    if txs != [] {
      var n := |txs| - 1;
      TxsKeepLifecycle(st, chainId, txs[..n]);
      TxKeepsLifecycle(RunTxs(st, chainId, txs[..n]).value.0, chainId, txs[n]);
    }
  }

  lemma {:induction false} ThawKeepsLifecycle(st: State, addrs: seq<Address>, era: nat)
    requires LifecycleOk(st)
    ensures LifecycleOk(ThawAll(st, addrs, era).0)
    ensures ThawAll(st, addrs, era).0.activeSet == st.activeSet
    ensures ThawAll(st, addrs, era).0.accounts == st.accounts
  {
    if addrs != [] {
      ThawKeepsLifecycle(st, addrs[..|addrs| - 1], era);
    }
  }

  lemma {:induction false} EligibleStored(st: State, candidates: seq<Address>)
    requires LifecycleOk(st)
    ensures forall e :: e in Eligible(st, candidates) <==>
              e.address in candidates && e.address in st.validators && st.validators[e.address] == e && Electable(e)
  {
    if candidates != [] {
      var n := |candidates| - 1;
      EligibleStored(st, candidates[..n]);
      assert candidates == candidates[..n] + [candidates[n]];
    }
  }

  /** Only eligible entries are ever elected. */
  lemma ElectedEligible(eligible: seq<Validator>, max: nat, era: nat)
    ensures forall e :: e in Elect(eligible, max, era) ==> e in eligible
  {
    SortPermutes(eligible, RanksBefore);
    SameMembers(eligible, Sort(eligible, RanksBefore));
    FilterMembers(Sort(eligible, RanksBefore), MeetsMinimum);
  }

  /** Activation rewrites the status of the elected entries and nothing else. */
  lemma {:induction false} ActivateEffect(st: State, elected: seq<Validator>)
    requires LifecycleOk(st)
    requires forall e :: e in elected ==> e.address in st.validators && st.validators[e.address] == e && Electable(e)
    ensures var end := ActivateAll(st, elected);
            && LifecycleOk(end)
            && end.accounts == st.accounts && end.activeSet == st.activeSet
            && end.validators.Keys == st.validators.Keys
            && (forall a :: a in st.validators ==>
                  end.validators[a] == if st.validators[a] in elected then st.validators[a].(status := Active)
                                       else st.validators[a])
  {
    if elected != [] {
      var n := |elected| - 1;
      assert elected == elected[..n] + [elected[n]];
      ActivateEffect(st, elected[..n]);
      var e := elected[n];
      assert e in elected;
      var mid, end := ActivateAll(st, elected[..n]), ActivateAll(st, elected);
      assert e.status.Active? || ElectedStatus(e.status) == Active;
      assert end.validators == mid.validators[e.address := e.(status := Active)];
      forall a | a in st.validators
        ensures end.validators[a] == if st.validators[a] in elected then st.validators[a].(status := Active)
                                     else st.validators[a]
      {
        if a != e.address {
          assert st.validators[a] != e;
        }
      }
    }
  }

  lemma ElectionEffect(st: State, candidates: seq<Address>, max: nat, era: nat)
    requires LifecycleOk(st)
    ensures var elected := Elect(Eligible(st, candidates), max, era);
            var end := RunElection(st, candidates, max, era).0;
            && LifecycleOk(end)
            && end.accounts == st.accounts && end.activeSet == st.activeSet
            && end.validators.Keys == st.validators.Keys
            && (forall a :: a in st.validators ==>
                  end.validators[a] == if st.validators[a] in elected then st.validators[a].(status := Active)
                                       else st.validators[a])
            && (forall e :: e in elected ==>
                  e.address in st.validators && st.validators[e.address] == e && Electable(e))
  {
    EligibleStored(st, candidates);
    ElectedEligible(Eligible(st, candidates), max, era);
    ActivateEffect(st, Elect(Eligible(st, candidates), max, era));
  }

  /** Distribution pays accounts only. */
  lemma DistributeFrame(st: State, fees: nat)
    requires DistributeFees(st, fees).Some?
    ensures DistributeFees(st, fees).value == st.(accounts := DistributeFees(st, fees).value.accounts)
  {
  }

  lemma EventKeepsLifecycle(st: State, ev: Event)
    requires LifecycleOk(st) && Handle(st, ev).Some?
    ensures LifecycleOk(Handle(st, ev).value)
    ensures Handle(st, ev).value.activeSet == if ev.InstallActive? then ev.active else st.activeSet
  {
    match ev {
      case NewBlock(block) =>
        TxsKeepLifecycle(st, block.chainId, block.transactions);
        var (mid, tally) := RunTxs(st, block.chainId, block.transactions).value;
        DistributeFrame(mid, tally.fees);
      case ThawMany(addrs, era) => ThawKeepsLifecycle(st, addrs, era);
      case ElectFrom(candidates, max, era) => ElectionEffect(st, candidates, max, era);
      case _ =>
    }
  }

  // ---------------------------------------------------------------------
  // Freeze safety
  // ---------------------------------------------------------------------

  ghost predicate FrozenUntil(st: State, addr: Address, era: nat) {
    addr in st.validators && st.validators[addr].status == Frozen(era)
  }

  /** The event is handled before era `limit`; blocks carry no era. */
  ghost predicate BeforeEra(ev: Event, limit: nat) {
    match ev
    case Cooldown(_, era) => era < limit
    case ThawMany(_, era) => era < limit
    case ElectFrom(_, _, era) => era < limit
    case Punish(_, _, era) => era < limit
    case _ => true
  }

  lemma TxKeepsFrozen(st: State, chainId: nat, tx: Transaction, addr: Address, limit: nat)
    requires FrozenUntil(st, addr, limit) && TxStep(st, chainId, tx).Stepped?
    ensures var next := TxStep(st, chainId, tx).st;
            addr in next.validators && next.validators[addr] == st.validators[addr]
  {
  }

  lemma {:induction false} TxsKeepFrozen(st: State, chainId: nat, txs: seq<Transaction>, addr: Address, limit: nat)
    requires FrozenUntil(st, addr, limit) && RunTxs(st, chainId, txs).Some?
    ensures var mid := RunTxs(st, chainId, txs).value.0;
            addr in mid.validators && mid.validators[addr] == st.validators[addr]
  {
    if txs != [] {
      hide TxStep;
      var n := |txs| - 1;
      TxsKeepFrozen(st, chainId, txs[..n], addr, limit);
      TxKeepsFrozen(RunTxs(st, chainId, txs[..n]).value.0, chainId, txs[n], addr, limit);
    }
  }

  lemma {:induction false} ThawKeepsFrozen(st: State, addrs: seq<Address>, era: nat, addr: Address, limit: nat)
    requires FrozenUntil(st, addr, limit) && era < limit
    ensures var mid := ThawAll(st, addrs, era).0;
            addr in mid.validators && mid.validators[addr] == st.validators[addr]
  {
    if addrs != [] {
      ThawKeepsFrozen(st, addrs[..|addrs| - 1], era, addr, limit);
    }
  }

  /** A frozen validator is elected by no election, whatever its era. */
  lemma FrozenNotElected(st: State, candidates: seq<Address>, max: nat, era: nat, addr: Address, limit: nat)
    requires LifecycleOk(st) && FrozenUntil(st, addr, limit)
    ensures addr !in RunElection(st, candidates, max, era).1
  {
    ElectionEffect(st, candidates, max, era);
  }

  lemma EventKeepsFrozen(st: State, ev: Event, addr: Address, limit: nat)
    requires LifecycleOk(st) && FrozenUntil(st, addr, limit) && BeforeEra(ev, limit)
    requires Handle(st, ev).Some?
    ensures addr in Handle(st, ev).value.validators
    ensures Handle(st, ev).value.validators[addr] == st.validators[addr]
  {
    match ev {
      case NewBlock(block) =>
        TxsKeepFrozen(st, block.chainId, block.transactions, addr, limit);
        var (mid, tally) := RunTxs(st, block.chainId, block.transactions).value;
        DistributeFrame(mid, tally.fees);
      case ThawMany(addrs, era) => ThawKeepsFrozen(st, addrs, era, addr, limit);
      case ElectFrom(candidates, max, era) => ElectionEffect(st, candidates, max, era);
      case _ =>
    }
  }

  /** Freeze safety: until era `limit`, no run of events touches the entry. */
  lemma {:induction false} FreezeSafety(st: State, events: seq<Event>, addr: Address, limit: nat)
    requires LifecycleOk(st) && FrozenUntil(st, addr, limit)
    requires forall i :: 0 <= i < |events| ==> BeforeEra(events[i], limit)
    requires Run(st, events).Some?
    ensures LifecycleOk(Run(st, events).value)
    ensures addr in Run(st, events).value.validators
    ensures Run(st, events).value.validators[addr] == st.validators[addr]
  {
    if events != [] {
      var n := |events| - 1;
      FreezeSafety(st, events[..n], addr, limit);
      var mid := Run(st, events[..n]).value;
      EventKeepsLifecycle(mid, events[n]);
      EventKeepsFrozen(mid, events[n], addr, limit);
    }
  }

  // ---------------------------------------------------------------------
  // Supply over runs
  // ---------------------------------------------------------------------

  /** A duplicate-free list of validators holds at most all the stake. */
  lemma {:induction false} HoldersWeight(st: State, active: seq<Address>)
    requires Distinct(active)
    ensures SeqSum(Holders(st, active), StakeOf)
            == Weight(Stakes(st.validators), set i | 0 <= i < |active| :: active[i])
  {
    var members := set i | 0 <= i < |active| :: active[i];
    if active == [] {
      assert members == {};
      WeightEmpty(Stakes(st.validators));
    } else {
      var n := |active| - 1;
      HoldersWeight(st, active[..n]);
      var before := set i | 0 <= i < |active[..n]| :: active[..n][i];
      assert members == before + {active[n]};
      WeightAdd(Stakes(st.validators), before, active[n]);
      var rest := Holders(st, active[..n]);
      if active[n] in st.validators {
        var last := Holder(st.validators[active[n]].stake, active[n]);
        assert (rest + [last])[..|rest|] == rest;
      }
    }
  }

  lemma ActiveStakeBound(st: State)
    requires Distinct(st.activeSet)
    ensures ActiveStake(st) <= Sum(Stakes(st.validators))
  {
    HoldersWeight(st, st.activeSet);
    WeightAtMostSum(Stakes(st.validators), set i | 0 <= i < |st.activeSet| :: st.activeSet[i]);
  }

  lemma {:induction false} ThawLedger(st: State, addrs: seq<Address>, era: nat)
    ensures Money(ThawAll(st, addrs, era).0) == Money(st)
  {
    if addrs != [] {
      var n := |addrs| - 1;
      ThawLedger(st, addrs[..n], era);
      var mid := ThawAll(st, addrs[..n], era).0;
      if ThawDue(mid, addrs[n], era) {
        StakeUpdate(mid.validators, addrs[n], ProcessThaw(mid, addrs[n], era).validators[addrs[n]]);
      }
    }
  }

  /** The freeze of the validator is over. */
  predicate FreezeOver(st: State, a: Address, era: nat) {
    a in st.validators && st.validators[a].status.Frozen? && st.validators[a].status.frozenUntil <= era
  }

  ghost function DueIn(st: State, addrs: seq<Address>, era: nat): set<Address> {
    set a | a in addrs && FreezeOver(st, a, era)
  }

  /** Exactly the validators of the set are thawed, by their stake. */
  ghost predicate ThawedAre(st: State, due: set<Address>, end: State) {
    && end == st.(validators := end.validators, index := st.index + due)
    && end.validators.Keys == st.validators.Keys
    && (forall a :: a in st.validators ==>
          end.validators[a] == if a in due
                               then st.validators[a].(status :=
                                      if st.validators[a].stake >= MIN_STAKE then Thawed else Registered)
                               else st.validators[a])
  }

  lemma ThawOne(st: State, before: set<Address>, mid: State, a: Address, era: nat)
    requires ThawedAre(st, before, mid) && forall x :: x in before ==> FreezeOver(st, x, era)
    ensures ThawDue(mid, a, era) <==> FreezeOver(st, a, era) && a !in before
    ensures ThawedAre(st, before + (if FreezeOver(st, a, era) then {a} else {}), ProcessThaw(mid, a, era))
  {
  }

  /** Thawing a list, repeats included, thaws each listed validator that is due
      once and counts it once: to Thawed with the minimum stake, else to Registered. */
  lemma {:induction false} ThawEffect(st: State, addrs: seq<Address>, era: nat)
    ensures ThawedAre(st, DueIn(st, addrs, era), ThawAll(st, addrs, era).0)
    ensures ThawAll(st, addrs, era).1 == |DueIn(st, addrs, era)|
  {
    if addrs == [] {
      assert DueIn(st, addrs, era) == {};
    } else {
      var n := |addrs| - 1;
      ThawEffect(st, addrs[..n], era);
      DueInLast(st, addrs, era);
      hide ThawedAre;
      hide ProcessThaw;
      ThawOne(st, DueIn(st, addrs[..n], era), ThawAll(st, addrs[..n], era).0, addrs[n], era);
    }
  }

  lemma DueInLast(st: State, addrs: seq<Address>, era: nat)
    requires addrs != []
    ensures var n := |addrs| - 1;
            && DueIn(st, addrs, era)
               == DueIn(st, addrs[..n], era) + (if FreezeOver(st, addrs[n], era) then {addrs[n]} else {})
            && |DueIn(st, addrs, era)|
               == |DueIn(st, addrs[..n], era)|
                  + (if FreezeOver(st, addrs[n], era) && addrs[n] !in DueIn(st, addrs[..n], era) then 1 else 0)
  {
    var n := |addrs| - 1;
    assert addrs == addrs[..n] + [addrs[n]];
    var before, all := DueIn(st, addrs[..n], era), DueIn(st, addrs, era);
    assert all == before + (if FreezeOver(st, addrs[n], era) then {addrs[n]} else {});
    if addrs[n] in before {
      assert all == before;
    }
  }

  lemma ElectionLedger(st: State, candidates: seq<Address>, max: nat, era: nat)
    requires LifecycleOk(st)
    ensures Money(RunElection(st, candidates, max, era).0) == Money(st)
  {
    ElectionEffect(st, candidates, max, era);
    assert Stakes(RunElection(st, candidates, max, era).0.validators) == Stakes(st.validators);
  }

  ghost predicate CooldownDue(st: State, addr: Address, era: nat) {
    && addr in st.validators
    && st.validators[addr].status.Unstaking?
    && st.validators[addr].status.releaseEra <= era
  }

  /** Released stake leaves the ledger: it is credited to no account. What is
      left is staked when it meets the minimum. */
  lemma CooldownLedger(st: State, addr: Address, era: nat)
    requires LifecycleOk(st)
    ensures ProcessCooldown(st, addr, era).accounts == st.accounts
    ensures Money(ProcessCooldown(st, addr, era))
            + (if CooldownDue(st, addr, era) then st.validators[addr].status.amount else 0) == Money(st)
    ensures ProcessCooldown(st, addr, era)
            == if !CooldownDue(st, addr, era) then st
               else
                 var entry := st.validators[addr];
                 var left := entry.stake - entry.status.amount;
                 st.(validators := st.validators[addr := entry.(
                       stake := left, status := if left >= MIN_STAKE then Staked(left) else Registered)])
  {
    if CooldownDue(st, addr, era) {
      StakeUpdate(st.validators, addr, ProcessCooldown(st, addr, era).validators[addr]);
    }
  }

  /** Blocks hand the unstake handler era 0, so a first unstake is released from
      era 168 on, whatever the era of the block: the documented wait of 168 eras
      from the current era holds exactly when the block is of era 0. */
  lemma BlockUnstakeRelease(st: State, chainId: nat, tx: Transaction, blockEra: nat)
    requires tx.body.Unstake? && TxStep(st, chainId, tx).Stepped? && TxStep(st, chainId, tx).verdict == Applied
    requires !st.validators[tx.body.validator].status.Unstaking?
    ensures var v := tx.body.validator;
            var next := TxStep(st, chainId, tx).st;
            && v in next.validators
            && next.validators[v].status == Unstaking(UNSTAKING_COOLDOWN_ERAS, tx.body.amount)
            && (forall era: nat :: CooldownDue(next, v, era) <==> era >= UNSTAKING_COOLDOWN_ERAS)
            && ((forall era: nat :: CooldownDue(next, v, era) ==> era >= blockEra + UNSTAKING_COOLDOWN_ERAS)
                <==> blockEra == 0)
  {
    var v := tx.body.validator;
    var next := TxStep(st, chainId, tx).st;
    assert CooldownDue(next, v, UNSTAKING_COOLDOWN_ERAS);
  }

  /** The four parts of a slashed stake: 90% is slashed, of which 90% burns and
      10% rewards, each rounded down; at most one unit falls between them. */
  lemma SlashSplitExact(stake: nat)
    ensures var a := SlashSplit(stake);
            && a.slashed + a.remaining == stake
            && a.burned + a.bounty + (if a.slashed % 10 == 0 then 0 else 1) == a.slashed
            && 100 * a.slashed <= 90 * stake < 100 * a.slashed + 100
            && 10 * a.burned <= 9 * a.slashed < 10 * a.burned + 10
            && 10 * a.bounty <= a.slashed < 10 * a.bounty + 10
  {
    var slashed := stake * 90 / 100;
    var q, r := slashed / 10, slashed % 10;
    assert slashed == 10 * q + r;
    assert slashed * 90 == 100 * (9 * q) + 90 * r;
    assert slashed * 10 == 100 * q + 10 * r;
    DivideRest(9 * q, 90 * r);
    DivideRest(q, 10 * r);
  }

  lemma DivideRest(q: nat, r: nat)
    ensures (100 * q + r) / 100 == q + r / 100
  {
  }

  /** A slash splits the stake among burn address, reporter and validator; one
      unit is lost exactly when the slashed amount is not a multiple of ten.
      The reporter may be anyone, the burn address included. */
  lemma SlashLedger(st: State, offender: Address, reporter: Address, era: nat)
    requires Money(st) < U256_MOD
    ensures var (end, result) := ApplySlash(st, offender, reporter, era);
            if result.Slashed? then
              Money(end) + (if result.amounts.slashed % 10 == 0 then 0 else 1) == Money(st)
            else end == st
  {
    var (end, result) := ApplySlash(st, offender, reporter, era);
    if result.Slashed? {
      SlashMoves(st, offender, reporter, era, result.amounts);
      SlashSplitExact(st.validators[offender].stake);
    }
  }

  lemma SlashMoves(st: State, offender: Address, reporter: Address, era: nat, a: SlashAmounts)
    requires Money(st) < U256_MOD && ApplySlash(st, offender, reporter, era).1 == Slashed(a)
    ensures Money(ApplySlash(st, offender, reporter, era).0) + st.validators[offender].stake
            == Money(st) + a.burned + a.bounty + a.remaining
  {
    var stake := st.validators[offender].stake;
    StakeAtMostSum(st.validators, offender);
    SlashSplitExact(stake);
    assert a.burned + a.bounty <= stake;
    CreditExact(st.accounts, BURN_ADDRESS, a.burned);
    CreditExact(Credit(st.accounts, BURN_ADDRESS, a.burned), reporter, a.bounty);
    StakeUpdate(st.validators, offender,
                st.validators[offender].(stake := a.remaining, status := Frozen(Add64(era, FREEZE_ERAS))));
  }

  ghost predicate SupplyOk(st: State) {
    LifecycleOk(st) && Distinct(st.activeSet) && Money(st) < U256_MOD
  }

  lemma EventNeverMints(st: State, ev: Event)
    requires SupplyOk(st) && Installable(ev) && Handle(st, ev).Some?
    ensures SupplyOk(Handle(st, ev).value)
    ensures Money(Handle(st, ev).value) <= Money(st)
  {
    EventKeepsLifecycle(st, ev);
    match ev {
      case NewBlock(block) =>
        TxsKeepLifecycle(st, block.chainId, block.transactions);
        TxsLedger(st, block.chainId, block.transactions);
        ActiveStakeBound(RunTxs(st, block.chainId, block.transactions).value.0);
        BlockLedger(st, block);
      case Cooldown(addr, era) => CooldownLedger(st, addr, era);
      case ThawMany(addrs, era) => ThawLedger(st, addrs, era);
      case ElectFrom(candidates, max, era) => ElectionLedger(st, candidates, max, era);
      case InstallActive(_) =>
      case Punish(offender, reporter, era) => SlashLedger(st, offender, reporter, era);
    }
  }

  /** No minting: over every run the supply never grows, and the life-cycle
      invariant holds at its end. */
  lemma {:induction false} NoMinting(st: State, events: seq<Event>)
    requires SupplyOk(st) && Run(st, events).Some?
    requires forall i :: 0 <= i < |events| ==> Installable(events[i])
    ensures SupplyOk(Run(st, events).value)
    ensures Money(Run(st, events).value) <= Money(st)
  {
    if events != [] {
      var n := |events| - 1;
      NoMinting(st, events[..n]);
      EventNeverMints(Run(st, events[..n]).value, events[n]);
    }
  }

  /** From genesis, which has accounts only, every reachable state is in order. */
  lemma ReachableOk(initial: map<Address, Account>, events: seq<Event>)
    requires Sum(Balances(initial)) < U256_MOD
    requires forall i :: 0 <= i < |events| ==> Installable(events[i])
    requires Run(State(initial, map[], [], {}), events).Some?
    ensures SupplyOk(Run(State(initial, map[], [], {}), events).value)
    ensures Money(Run(State(initial, map[], [], {}), events).value) <= Sum(Balances(initial))
  {
    var genesis := State(initial, map[], [], {});
    assert Stakes(genesis.validators) == map[];
    NoMinting(genesis, events);
  }
}
