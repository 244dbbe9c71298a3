/** Who gets what when a block's fees are distributed. */
module Fees {
  import opened Primitives
  import opened Sorting
  import opened Sums
  import opened State
  import opened Ledger
  import opened Lifecycle

  /** Everything paid to one address by the proportional shares. */
  ghost function PayoutTo(holders: seq<Holder>, addr: Address, fees: nat, total: nat): nat
    requires total > 0
  {
    if holders == [] then 0
    else
      var n := |holders| - 1;
      PayoutTo(holders[..n], addr, fees, total)
      + (if holders[n].addr == addr then Share(fees, holders[n].stake, total) else 0)
  }

  /** Accounts differ in their balance only. */
  ghost predicate SameButBalance(a: map<Address, Account>, b: map<Address, Account>) {
    forall x :: AccountOrNew(a, x).(balance := 0) == AccountOrNew(b, x).(balance := 0)
  }

  lemma {:induction false} SharesBalances(accounts: map<Address, Account>, holders: seq<Holder>, fees: nat, total: nat)
    requires total > 0
    requires Sum(Balances(accounts)) + ShareSum(holders, fees, total) < U256_MOD
    ensures var paid := PayShares(accounts, holders, fees, total);
            && SameButBalance(accounts, paid)
            && (forall a :: BalanceOf(paid, a) == BalanceOf(accounts, a) + PayoutTo(holders, a, fees, total))
  {
    if holders != [] {
      var n := |holders| - 1;
      SharesBalances(accounts, holders[..n], fees, total);
      PaySharesLedger(accounts, holders[..n], fees, total);
      var before := PayShares(accounts, holders[..n], fees, total);
      var share := Share(fees, holders[n].stake, total);
      CreditExact(before, holders[n].addr, share);
      forall a ensures BalanceOf(PayShares(accounts, holders, fees, total), a)
                       == BalanceOf(before, a) + (if holders[n].addr == a then share else 0) {}
    }
  }

  /** No address is listed twice. */
  ghost predicate DistinctAddresses(holders: seq<Holder>) {
    forall i, j :: 0 <= i < j < |holders| ==> holders[i].addr != holders[j].addr
  }

  lemma {:induction false} PayoutToHolder(holders: seq<Holder>, addr: Address, fees: nat, total: nat)
    requires total > 0 && DistinctAddresses(holders)
    ensures forall h :: h in holders && h.addr == addr ==>
              PayoutTo(holders, addr, fees, total) == Share(fees, h.stake, total)
    ensures (forall h :: h in holders ==> h.addr != addr) ==> PayoutTo(holders, addr, fees, total) == 0
  {
    if holders != [] {
      var n := |holders| - 1;
      assert holders == holders[..n] + [holders[n]];
      PayoutToHolder(holders[..n], addr, fees, total);
    }
  }

  lemma {:induction false} HoldersStored(st: State, active: seq<Address>)
    ensures forall h :: h in Holders(st, active) <==>
              h.addr in active && h.addr in st.validators && h.stake == st.validators[h.addr].stake
    ensures Distinct(active) ==> DistinctAddresses(Holders(st, active))
  {
    if active != [] {
      var n := |active| - 1;
      assert active == active[..n] + [active[n]];
      HoldersStored(st, active[..n]);
      if Distinct(active) {
        assert active[n] !in active[..n];
      }
    }
  }

  /** Each holder's stake is fixed by its address, so sorting keeps addresses distinct. */
  lemma SortedHolders(st: State, active: seq<Address>)
    requires Distinct(active)
    ensures var sorted := Sort(Holders(st, active), PaidBefore);
            && DistinctAddresses(sorted)
            && (forall h :: h in sorted <==> h in Holders(st, active))
            && |sorted| == |Holders(st, active)|
            && Sorted(sorted, PaidBefore)
  {
    var holders := Holders(st, active);
    var sorted := Sort(holders, PaidBefore);
    HoldersStored(st, active);
    SortPermutes(holders, PaidBefore);
    SortSorts(holders, PaidBefore);
    SameMembers(holders, sorted);
    DistinctPermutation(holders, sorted);
    forall i, j | 0 <= i < j < |sorted| ensures sorted[i].addr != sorted[j].addr {
      assert sorted[i] in holders && sorted[j] in holders;
    }
  }

  /** Balances after distribution, address by address. */
  lemma DistributedBalances(st: State, fees: nat)
    requires Distinct(st.activeSet) && Money(st) + fees < U256_MOD
    requires fees > 0 && ActiveStake(st) > 0 && DistributeFees(st, fees).Some?
    ensures var sorted := Sort(Holders(st, st.activeSet), PaidBefore);
            var total := ActiveStake(st);
            var paid := DistributeFees(st, fees).value.accounts;
            && sorted != []
            && ShareSum(sorted, fees, total) <= fees < ShareSum(sorted, fees, total) + |sorted|
            && SameButBalance(st.accounts, paid)
            && (forall a :: BalanceOf(paid, a) == BalanceOf(st.accounts, a) + PayoutTo(sorted, a, fees, total)
                  + (if a == sorted[0].addr then fees - ShareSum(sorted, fees, total) else 0))
  {
    var holders := Holders(st, st.activeSet);
    var total := ActiveStake(st);
    ActiveStakeBound(st);
    SatTotalExact(holders);
    var sorted := Sort(holders, PaidBefore);
    SortPermutes(holders, PaidBefore);
    SeqSumPermutation(holders, sorted, StakeOf);
    ShareSumAtMostFees(sorted, fees, total);
    PaySharesLedger(st.accounts, sorted, fees, total);
    SharesBalances(st.accounts, sorted, fees, total);
    var remainder := fees - ShareSum(sorted, fees, total);
    var shared := PayShares(st.accounts, sorted, fees, total);
    assert DistributeFees(st, fees).value.accounts
        == if remainder > 0 then Credit(shared, sorted[0].addr, remainder) else shared;
    if remainder > 0 {
      RemainderBalances(st.accounts, shared, sorted[0].addr, remainder);
    }
  }

  lemma RemainderBalances(accounts: map<Address, Account>, shared: map<Address, Account>, addr: Address, amount: nat)
    requires SameButBalance(accounts, shared) && Sum(Balances(shared)) + amount < U256_MOD
    ensures SameButBalance(accounts, Credit(shared, addr, amount))
    ensures forall a :: BalanceOf(Credit(shared, addr, amount), a)
                        == BalanceOf(shared, a) + (if a == addr then amount else 0)
  {
    CreditExact(shared, addr, amount);
    forall a ensures AccountOrNew(accounts, a).(balance := 0)
                     == AccountOrNew(Credit(shared, addr, amount), a).(balance := 0) {
      assert AccountOrNew(accounts, a).(balance := 0) == AccountOrNew(shared, a).(balance := 0);
    }
  }

  /** Exact and fair: every holder receives its rounded-down proportional share;
      the remainder, smaller than the number of holders, goes to the holder with
      the largest stake and then the smallest address; nobody else is touched. */
  lemma FairPayout(st: State, fees: nat) returns (top: Holder, remainder: nat)
    requires Distinct(st.activeSet) && Money(st) + fees < U256_MOD
    requires fees > 0 && ActiveStake(st) > 0 && DistributeFees(st, fees).Some?
    ensures var holders := Holders(st, st.activeSet);
            var paid := DistributeFees(st, fees).value.accounts;
            && top in holders
            && (forall h :: h in holders ==> top.stake >= h.stake && (top.stake == h.stake ==> top.addr <= h.addr))
            && remainder < |holders|
            && SameButBalance(st.accounts, paid)
            && (forall h :: h in holders ==>
                  BalanceOf(paid, h.addr) == BalanceOf(st.accounts, h.addr)
                    + fees * h.stake / ActiveStake(st) + (if h == top then remainder else 0))
            && (forall a :: (forall h :: h in holders ==> h.addr != a) ==>
                  BalanceOf(paid, a) == BalanceOf(st.accounts, a))
  {
    var holders := Holders(st, st.activeSet);
    var sorted := Sort(holders, PaidBefore);
    var total := ActiveStake(st);
    DistributedBalances(st, fees);
    SortedHolders(st, st.activeSet);
    HoldersStored(st, st.activeSet);
    top, remainder := sorted[0], fees - ShareSum(sorted, fees, total);
    assert top in sorted;
    var paid := DistributeFees(st, fees).value.accounts;
    forall h | h in holders
      ensures BalanceOf(paid, h.addr) == BalanceOf(st.accounts, h.addr)
                + fees * h.stake / total + (if h == top then remainder else 0)
    {
      PayoutToHolder(sorted, h.addr, fees, total);
      assert h in sorted;
      assert Share(fees, h.stake, total) == fees * h.stake / total;
    }
    forall h | h in holders ensures top.stake >= h.stake && (top.stake == h.stake ==> top.addr <= h.addr) {
      TopFirst(sorted, h);
    }
    forall a | forall h :: h in holders ==> h.addr != a ensures BalanceOf(paid, a) == BalanceOf(st.accounts, a) {
      PayoutToHolder(sorted, a, fees, total);
    }
  }

  lemma TopFirst(sorted: seq<Holder>, h: Holder)
    requires Sorted(sorted, PaidBefore) && h in sorted
    ensures sorted[0].stake >= h.stake && (sorted[0].stake == h.stake ==> sorted[0].addr <= h.addr)
  {
    var i :| 0 <= i < |sorted| && sorted[i] == h;
    assert i == 0 || PaidBefore(sorted[0], sorted[i]);
  }

  ghost function ActiveMembers(st: State): set<Address> {
    set a | a in st.activeSet
  }

  /** The same by address, over the members of the active set that have an entry. */
  lemma FairPayoutByAddress(st: State, fees: nat) returns (top: Address, remainder: nat)
    requires Distinct(st.activeSet) && Money(st) + fees < U256_MOD
    requires fees > 0 && DistributeFees(st, fees).Some?
    requires Weight(Stakes(st.validators), ActiveMembers(st)) > 0
    ensures var total := Weight(Stakes(st.validators), ActiveMembers(st));
            var paid := DistributeFees(st, fees).value.accounts;
            && top in st.activeSet && top in st.validators
            && (forall a :: a in st.activeSet && a in st.validators ==>
                  && StakeAt(st, top) >= StakeAt(st, a)
                  && (StakeAt(st, top) == StakeAt(st, a) ==> top <= a))
            && (forall a :: BalanceOf(paid, a) == BalanceOf(st.accounts, a)
                  + (if a in st.activeSet && a in st.validators then fees * StakeAt(st, a) / total else 0)
                  + (if a == top then remainder else 0))
  {
    ActiveStakeIsWeight(st);
    HoldersStored(st, st.activeSet);
    hide DistributeFees;
    hide Holders;
    hide ActiveStake;
    var holders, paid := Holders(st, st.activeSet), DistributeFees(st, fees).value.accounts;
    var first: Holder;
    first, remainder := FairPayout(st, fees);
    top := first.addr;
    forall a
      ensures BalanceOf(paid, a) == BalanceOf(st.accounts, a)
              + (if a in st.activeSet && a in st.validators then fees * StakeAt(st, a) / ActiveStake(st) else 0)
              + (if a == top then remainder else 0)
    {
      if a in st.activeSet && a in st.validators {
        assert Holder(StakeAt(st, a), a) in holders;
      }
    }
    forall a | a in st.activeSet && a in st.validators
      ensures StakeAt(st, top) >= StakeAt(st, a) && (StakeAt(st, top) == StakeAt(st, a) ==> top <= a)
    {
      assert Holder(StakeAt(st, a), a) in holders;
    }
  }

  lemma ActiveStakeIsWeight(st: State)
    requires Distinct(st.activeSet)
    ensures ActiveStake(st) == Weight(Stakes(st.validators), ActiveMembers(st))
  {
    HoldersWeight(st, st.activeSet);
    assert ActiveMembers(st) == set i | 0 <= i < |st.activeSet| :: st.activeSet[i];
  }

  /** Without fees or without active stake nothing happens. */
  lemma NothingPaid(st: State, fees: nat)
    requires fees == 0 || ActiveStake(st) == 0
    ensures DistributeFees(st, fees) == Some(st)
  {
    SatTotalExact(Holders(st, st.activeSet));
  }

  lemma {:induction false} SharesKeys(accounts: map<Address, Account>, holders: seq<Holder>, fees: nat, total: nat)
    requires total > 0
    ensures PayShares(accounts, holders, fees, total).Keys
            == accounts.Keys + set h | h in holders && fees * h.stake / total > 0 :: h.addr
  {
    if holders != [] {
      var n := |holders| - 1;
      assert holders == holders[..n] + [holders[n]];
      SharesKeys(accounts, holders[..n], fees, total);
      assert Share(fees, holders[n].stake, total) == fees * holders[n].stake / total;
    }
  }

  /** Only who is paid something gets an account. */
  lemma PaidAccounts(st: State, fees: nat) returns (top: Address)
    requires DistributeFees(st, fees).Some? && fees > 0 && 0 < ActiveStake(st) < U256_MOD
    ensures var holders := Holders(st, st.activeSet);
            var shared := st.accounts.Keys + set h | h in holders && fees * h.stake / ActiveStake(st) > 0 :: h.addr;
            shared <= DistributeFees(st, fees).value.accounts.Keys <= shared + {top}
  {
    var holders := Holders(st, st.activeSet);
    var sorted := Sort(holders, PaidBefore);
    SatTotalExact(holders);
    SortPermutes(holders, PaidBefore);
    SameMembers(holders, sorted);
    SharesKeys(st.accounts, sorted, fees, ActiveStake(st));
    top := sorted[0].addr;
  }

  // ---------------------------------------------------------------------
  // Order independence
  // ---------------------------------------------------------------------

  lemma {:induction false} HoldersAppend(st: State, a: seq<Address>, b: seq<Address>)
    ensures Holders(st, a + b) == Holders(st, a) + Holders(st, b)
  {
    if b == [] {
      assert a + b == a;
    } else {
      assert (a + b)[..|a + b| - 1] == a + b[..|b| - 1];
      HoldersAppend(st, a, b[..|b| - 1]);
    }
  }

  lemma {:induction false} HoldersPermutation(st: State, a: seq<Address>, b: seq<Address>)
    requires multiset(a) == multiset(b)
    ensures multiset(Holders(st, a)) == multiset(Holders(st, b))
  {
    if a == [] {
      assert |b| == |multiset(b)| == 0;
    } else {
      var p, q := TakeOut(a, b);
      HoldersPermutation(st, a[1..], p + q);
      assert a == [a[0]] + a[1..];
      HoldersAppend(st, [a[0]], a[1..]);
      HoldersAppend(st, p + [a[0]], q);
      HoldersAppend(st, p, [a[0]]);
      HoldersAppend(st, p, q);
    }
  }

  /** The order in which the active set is listed never matters. */
  lemma DistributionOrderIndependent(st: State, active: seq<Address>, fees: nat)
    requires multiset(active) == multiset(st.activeSet)
    ensures var other := DistributeFees(st.(activeSet := active), fees);
            var mine := DistributeFees(st, fees);
            && other.Some? == mine.Some?
            && (mine.Some? ==> other.value.accounts == mine.value.accounts)
  {
    var st' := st.(activeSet := active);
    var mine, other := Holders(st, st.activeSet), Holders(st', active);
    SameView(st, st', active);
    HoldersPermutation(st, st.activeSet, active);
    SatTotalExact(mine);
    SatTotalExact(other);
    SeqSumPermutation(mine, other, StakeOf);
    SortOrderIndependent(mine, other, PaidBefore);
    SameMembers(mine, other);
    assert |active| == |multiset(active)| == |st.activeSet|;
    assert SharesFit(mine, fees) <==> forall h :: h in mine ==> fees * h.stake < U256_MOD;
    assert SharesFit(other, fees) <==> forall h :: h in other ==> fees * h.stake < U256_MOD;
  }

  lemma {:induction false} SameView(st: State, st': State, active: seq<Address>)
    requires st.validators == st'.validators
    ensures Holders(st, active) == Holders(st', active)
  {
    if active != [] {
      SameView(st, st', active[..|active| - 1]);
    }
  }

  // ---------------------------------------------------------------------
  // Frozen holders
  // ---------------------------------------------------------------------

  /** Distribution looks at no status: a frozen validator that is still listed as
      active is paid its share like every other holder. */
  lemma FrozenHolderPaid(st: State, fees: nat, a: Address, until: nat)
    requires Distinct(st.activeSet) && Money(st) + fees < U256_MOD
    requires fees > 0 && ActiveStake(st) > 0 && DistributeFees(st, fees).Some?
    requires a in st.activeSet && FrozenUntil(st, a, until)
    ensures var share := fees * st.validators[a].stake / ActiveStake(st);
            BalanceOf(DistributeFees(st, fees).value.accounts, a) >= BalanceOf(st.accounts, a) + share
  {
    var top, remainder := FairPayout(st, fees);
    HoldersStored(st, st.activeSet);
    assert Holder(st.validators[a].stake, a) in Holders(st, st.activeSet);
  }

  /** A slash freezes its offender and leaves it in the active set, so the fees of
      the following blocks still reach it. */
  lemma SlashedHolderPaid(st: State, offender: Address, reporter: Address, era: nat, fees: nat)
    requires SupplyOk(st) && ApplySlash(st, offender, reporter, era).1.Slashed? && offender in st.activeSet
    requires var end := ApplySlash(st, offender, reporter, era).0;
             Money(end) + fees < U256_MOD && fees > 0 && ActiveStake(end) > 0 && DistributeFees(end, fees).Some?
    ensures var end := ApplySlash(st, offender, reporter, era).0;
            && FrozenUntil(end, offender, Add64(era, FREEZE_ERAS))
            && BalanceOf(DistributeFees(end, fees).value.accounts, offender)
               >= BalanceOf(end.accounts, offender) + fees * end.validators[offender].stake / ActiveStake(end)
  {
    FrozenHolderPaid(ApplySlash(st, offender, reporter, era).0, fees, offender, Add64(era, FREEZE_ERAS));
  }
}
