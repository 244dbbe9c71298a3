/** Validator elections: optimality, and when they depend on candidate order. */
module Election {
  import opened Primitives
  import opened Sorting
  import opened State
  import Ledger
  import Sums
  import opened Lifecycle

  /** The ranked electable candidates with at least the minimum stake. */
  function Ranked(eligible: seq<Validator>): seq<Validator> {
    Filter(Sort(eligible, RanksBefore), MeetsMinimum)
  }

  lemma {:induction false} EligibleDistinct(st: State, candidates: seq<Address>)
    requires LifecycleOk(st) && Distinct(candidates)
    ensures Distinct(Eligible(st, candidates))
  {
    if candidates != [] {
      var n := |candidates| - 1;
      EligibleDistinct(st, candidates[..n]);
      EligibleStored(st, candidates[..n]);
      assert candidates[n] !in candidates[..n];
    }
  }

  lemma {:induction false} FilterDistinct<T>(s: seq<T>, p: T -> bool)
    requires Distinct(s)
    ensures Distinct(Filter(s, p))
  {
    if s != [] {
      FilterDistinct(s[1..], p);
      FilterMembers(s[1..], p);
      assert s[0] !in s[1..];
      assert s[0] !in Filter(s[1..], p);
    }
  }

  /** Stored, neither frozen nor unstaking. */
  ghost predicate MayStand(st: State, a: Address) {
    a in st.validators && !st.validators[a].status.Frozen? && !st.validators[a].status.Unstaking?
  }

  /** And with the minimum stake of one MONEX. */
  ghost predicate Qualified(st: State, a: Address) {
    MayStand(st, a) && st.validators[a].stake >= ONE_MONEX
  }

  ghost function QualifiedIn(st: State, candidates: seq<Address>): set<Address> {
    set a | a in candidates && Qualified(st, a)
  }

  /** The ranking is a sorted, duplicate-free list of exactly the qualified candidates. */
  lemma RankedList(st: State, candidates: seq<Address>)
    requires LifecycleOk(st) && Distinct(candidates)
    ensures var ranked := Ranked(Eligible(st, candidates));
            && Sorted(ranked, RanksBefore) && Distinct(ranked)
            && |ranked| == |Filter(Eligible(st, candidates), MeetsMinimum)|
            && (forall e :: e in ranked <==>
                  e.address in candidates && Qualified(st, e.address) && st.validators[e.address] == e)
  {
    var eligible := Eligible(st, candidates);
    var sorted := Sort(eligible, RanksBefore);
    EligibleStored(st, candidates);
    EligibleDistinct(st, candidates);
    SortPermutes(eligible, RanksBefore);
    SortSorts(eligible, RanksBefore);
    DistinctPermutation(eligible, sorted);
    SameMembers(eligible, sorted);
    FilterMembers(sorted, MeetsMinimum);
    FilterSorted(sorted, MeetsMinimum, RanksBefore);
    FilterDistinct(sorted, MeetsMinimum);
    FilterPermutation(sorted, eligible, MeetsMinimum);
  }

  /** Who is seated first: more stake, then earlier registration, then earlier in
      the list of candidates. */
  ghost predicate Ahead(st: State, candidates: seq<Address>, a: Address, c: Address) {
    && a in st.validators && c in st.validators
    && var x, y := st.validators[a], st.validators[c];
       || x.stake > y.stake
       || (x.stake == y.stake && x.registrationEra < y.registrationEra)
       || (x.stake == y.stake && x.registrationEra == y.registrationEra && Before(candidates, a, c))
  }

  /** As many seats as possible, all qualified, in the order of precedence, and
      every qualified candidate left out comes after every seated one. */
  ghost predicate BestSeats(st: State, candidates: seq<Address>, max: nat, seats: seq<Address>) {
    && |seats| == Min(max, |QualifiedIn(st, candidates)|)
    && Distinct(seats)
    && (forall a :: a in seats ==> a in candidates && Qualified(st, a))
    && (forall i, j :: 0 <= i < j < |seats| ==> Ahead(st, candidates, seats[i], seats[j]))
    && (forall a, c :: a in seats && c in candidates && c !in seats && Qualified(st, c) ==> Ahead(st, candidates, a, c))
  }

  /** The entry of the i-th seat is the i-th ranked entry. */
  lemma SeatEntries(st: State, candidates: seq<Address>, max: nat, era: nat)
    requires LifecycleOk(st) && Distinct(candidates) && era >= 1
    ensures var ranked := Ranked(Eligible(st, candidates));
            var seats := RunElection(st, candidates, max, era).1;
            && |seats| == Min(max, |ranked|)
            && (forall i :: 0 <= i < |seats| ==>
                  ranked[i].address == seats[i] && seats[i] in st.validators && st.validators[seats[i]] == ranked[i])
  {
    var ranked := Ranked(Eligible(st, candidates));
    RankedList(st, candidates);
    forall i | 0 <= i < Min(max, |ranked|)
      ensures ranked[i].address in st.validators && st.validators[ranked[i].address] == ranked[i]
    {
      assert ranked[i] in ranked;
    }
  }

  /** Eligible entries stand in the order of their candidates. */
  lemma {:induction false} EligibleOrder(st: State, candidates: seq<Address>, x: Validator, y: Validator)
    requires LifecycleOk(st) && Before(Eligible(st, candidates), x, y)
    ensures Before(candidates, x.address, y.address)
  {
    var n := |candidates| - 1;
    var rest, eligible := Eligible(st, candidates[..n]), Eligible(st, candidates);
    var i, j :| 0 <= i < j < |eligible| && eligible[i] == x && eligible[j] == y;
    EligibleStored(st, candidates[..n]);
    if j < |rest| {
      assert rest[i] == x && rest[j] == y;
      EligibleOrder(st, candidates[..n], x, y);
      var p, q :| 0 <= p < q < n && candidates[..n][p] == x.address && candidates[..n][q] == y.address;
      assert candidates[p] == x.address && candidates[q] == y.address;
    } else {
      assert rest[i] == x && x in rest;
      assert x.address in candidates[..n];
      var p :| 0 <= p < n && candidates[..n][p] == x.address;
      assert candidates[p] == x.address && candidates[n] == y.address;
    }
  }

  /** The ranking follows the order of precedence. */
  lemma RankedAhead(st: State, candidates: seq<Address>, i: nat, j: nat)
    requires LifecycleOk(st) && Distinct(candidates)
    requires i < j < |Ranked(Eligible(st, candidates))|
    ensures var ranked := Ranked(Eligible(st, candidates));
            Ahead(st, candidates, ranked[i].address, ranked[j].address)
  {
    var eligible := Eligible(st, candidates);
    var ranked := Ranked(eligible);
    RankedList(st, candidates);
    var x, y := ranked[i], ranked[j];
    assert x in ranked && y in ranked;
    assert RanksBefore(x, y);
    if RanksBefore(y, x) {
      RanksOrder();
      SortPermutes(eligible, RanksBefore);
      FilterKeepsOrder(Sort(eligible, RanksBefore), MeetsMinimum, x, y);
      TiesKeepOrder(eligible, RanksBefore, x, y);
      EligibleOrder(st, candidates, x, y);
    }
  }

  lemma RanksOrder()
    ensures TotalPreorder(RanksBefore)
  {
  }

  /** The ranking has one entry for each qualified candidate. */
  lemma RankedSize(st: State, candidates: seq<Address>)
    requires LifecycleOk(st) && Distinct(candidates)
    ensures |Ranked(Eligible(st, candidates))| == |QualifiedIn(st, candidates)|
  {
    var ranked := Ranked(Eligible(st, candidates));
    RankedList(st, candidates);
    hide Ranked;
    hide Eligible;
    hide Qualified;
    forall i, j | 0 <= i < j < |ranked| ensures ranked[i].address != ranked[j].address {
      assert ranked[i] in ranked && ranked[j] in ranked;
    }
    forall i | 0 <= i < |ranked| ensures ranked[i].address in QualifiedIn(st, candidates) {
      assert ranked[i] in ranked;
    }
    forall a | a in QualifiedIn(st, candidates) ensures exists i :: 0 <= i < |ranked| && ranked[i].address == a {
      QualifiedEntry(st, a);
      assert st.validators[a] in ranked;
      var i :| 0 <= i < |ranked| && ranked[i] == st.validators[a];
    }
    NamesCount(ranked, QualifiedIn(st, candidates));
  }

  lemma NamesCount(entries: seq<Validator>, names: set<Address>)
    requires forall i, j :: 0 <= i < j < |entries| ==> entries[i].address != entries[j].address
    requires forall i :: 0 <= i < |entries| ==> entries[i].address in names
    requires forall a :: a in names ==> exists i :: 0 <= i < |entries| && entries[i].address == a
    ensures |entries| == |names|
  {
    var list := Addresses(entries);
    forall a | a in names ensures a in list {
      var i :| 0 <= i < |entries| && entries[i].address == a;
      assert list[i] == a;
    }
    DistinctCount(list, names);
  }

  lemma QualifiedEntry(st: State, a: Address)
    requires LifecycleOk(st) && Qualified(st, a)
    ensures a in st.validators && st.validators[a].address == a
  {
  }

  /** A Top-N election seats exactly the first in the order of precedence. */
  lemma TopNOptimal(st: State, candidates: seq<Address>, max: nat, era: nat)
    requires LifecycleOk(st) && Distinct(candidates) && era >= 1
    ensures BestSeats(st, candidates, max, RunElection(st, candidates, max, era).1)
  {
    var ranked := Ranked(Eligible(st, candidates));
    var seats := RunElection(st, candidates, max, era).1;
    RankedList(st, candidates);
    RankedSize(st, candidates);
    SeatEntries(st, candidates, max, era);
    hide Ranked;
    hide Eligible;
    hide RunElection;
    hide Ahead;
    hide Qualified;
    forall a | a in seats ensures a in candidates && Qualified(st, a) {
      var i :| 0 <= i < |seats| && seats[i] == a;
      assert ranked[i] in ranked;
    }
    forall i, j | 0 <= i < j < |seats|
      ensures seats[i] != seats[j] && Ahead(st, candidates, seats[i], seats[j])
    {
      RankedAhead(st, candidates, i, j);
    }
    forall a, c | a in seats && c in candidates && c !in seats && Qualified(st, c)
      ensures Ahead(st, candidates, a, c)
    {
      var i :| 0 <= i < |seats| && seats[i] == a;
      LeftOut(st, candidates, max, era, i, c);
    }
  }

  /** A qualified candidate without a seat comes after every seat. */
  lemma LeftOut(st: State, candidates: seq<Address>, max: nat, era: nat, i: nat, c: Address)
    requires LifecycleOk(st) && Distinct(candidates) && era >= 1
    requires i < |RunElection(st, candidates, max, era).1|
    requires c in candidates && c !in RunElection(st, candidates, max, era).1 && Qualified(st, c)
    ensures Ahead(st, candidates, RunElection(st, candidates, max, era).1[i], c)
  {
    var ranked := Ranked(Eligible(st, candidates));
    var seats := RunElection(st, candidates, max, era).1;
    RankedList(st, candidates);
    SeatEntries(st, candidates, max, era);
    QualifiedEntry(st, c);
    hide Ranked;
    hide Eligible;
    hide RunElection;
    hide Ahead;
    hide Qualified;
    assert st.validators[c] in ranked;
    var j :| 0 <= j < |ranked| && ranked[j] == st.validators[c];
    forall m | 0 <= m < |seats| ensures ranked[m] != ranked[j] {
      assert seats[m] in seats;
    }
    assert i < |seats| <= j;
    RankedAhead(st, candidates, i, j);
  }

  /** In era 0 the seats go to the first candidates that may stand, in list order. */
  lemma {:induction false} EraZeroSeats(st: State, candidates: seq<Address>, max: nat)
    requires LifecycleOk(st)
    ensures var standing := StandingIn(st, candidates);
            RunElection(st, candidates, max, 0).1 == if |standing| <= max then standing else standing[..max]
  {
    StandingEligible(st, candidates);
  }

  /** The candidates that may stand, in order. */
  ghost function StandingIn(st: State, candidates: seq<Address>): seq<Address> {
    if candidates == [] then []
    else
      var n := |candidates| - 1;
      StandingIn(st, candidates[..n]) + (if MayStand(st, candidates[n]) then [candidates[n]] else [])
  }

  lemma {:induction false} StandingEligible(st: State, candidates: seq<Address>)
    requires LifecycleOk(st)
    ensures |StandingIn(st, candidates)| == |Eligible(st, candidates)|
    ensures forall i :: 0 <= i < |Eligible(st, candidates)| ==>
              StandingIn(st, candidates)[i] == Eligible(st, candidates)[i].address
  {
    if candidates != [] {
      StandingEligible(st, candidates[..|candidates| - 1]);
    }
  }

  /** The seated validators become Active; everything else stays as it was. */
  lemma TopNEffect(st: State, candidates: seq<Address>, max: nat, era: nat)
    requires LifecycleOk(st)
    ensures var (end, seats) := RunElection(st, candidates, max, era);
            && end.validators.Keys == st.validators.Keys
            && end.accounts == st.accounts && end.activeSet == st.activeSet
            && (forall a :: a in st.validators ==>
                  end.validators[a] == if a in seats then st.validators[a].(status := Active) else st.validators[a])
  {
    ElectionEffect(st, candidates, max, era);
    var chosen := Elect(Eligible(st, candidates), max, era);
    var seats := RunElection(st, candidates, max, era).1;
    forall a | a in st.validators ensures a in seats <==> st.validators[a] in chosen {
      if a in seats {
        var i :| 0 <= i < |seats| && seats[i] == a;
        assert chosen[i] in chosen;
      }
      if st.validators[a] in chosen {
        var i :| 0 <= i < |chosen| && chosen[i] == st.validators[a];
        assert seats[i] == a;
      }
    }
  }

  /** The candidates for seats before the election, in the order seats are given out. */
  function Contenders(st: State, candidates: seq<Address>, era: nat): seq<Validator> {
    if era == 0 then Eligible(st, candidates) else Ranked(Eligible(st, candidates))
  }

  ghost predicate AmongFirst(s: seq<Validator>, max: nat, entry: Validator) {
    exists i :: 0 <= i < max && i < |s| && s[i] == entry
  }

  lemma SeatedIff(st: State, candidates: seq<Address>, max: nat, era: nat, a: Address)
    requires LifecycleOk(st) && a in st.validators
    ensures a in RunElection(st, candidates, max, era).1 <==>
              AmongFirst(Contenders(st, candidates, era), max, st.validators[a])
  {
    ElectionEffect(st, candidates, max, era);
    var contenders, chosen := Contenders(st, candidates, era), Elect(Eligible(st, candidates), max, era);
    var seats := RunElection(st, candidates, max, era).1;
    assert chosen == Take(contenders, max) && |seats| == |chosen|;
    if a in seats {
      var i :| 0 <= i < |seats| && seats[i] == a;
      assert chosen[i] in chosen && contenders[i] == chosen[i];
    }
    if i :| 0 <= i < max && i < |contenders| && contenders[i] == st.validators[a] {
      assert chosen[i] in chosen && seats[i] == chosen[i].address;
    }
  }

  /** No election demotes: afterwards the Active validators are the seated ones
      exactly when before it every Active validator stands among the first `max`
      contenders. */
  lemma ActiveMeansSeatedIff(st: State, candidates: seq<Address>, max: nat, era: nat)
    requires LifecycleOk(st)
    ensures var (end, seats) := RunElection(st, candidates, max, era);
            (forall a :: a in end.validators ==> (end.validators[a].status.Active? <==> a in seats)) <==>
            (forall a :: a in st.validators && st.validators[a].status.Active? ==>
               AmongFirst(Contenders(st, candidates, era), max, st.validators[a]))
  {
    TopNEffect(st, candidates, max, era);
    forall a | a in st.validators
      ensures a in RunElection(st, candidates, max, era).1
              <==> AmongFirst(Contenders(st, candidates, era), max, st.validators[a])
    {
      SeatedIff(st, candidates, max, era, a);
    }
  }

  // ---------------------------------------------------------------------
  // The era boundary
  // ---------------------------------------------------------------------

  const MAX_VALIDATORS: nat := 101

  /** Thaw everybody due, elect, and install the result as the active set. */
  function EraBoundary(st: State, addrs: seq<Address>, era: nat): State {
    var thawed := ThawAll(st, addrs, era).0;
    var (elected, seats) := RunElection(thawed, addrs, MAX_VALIDATORS, era);
    elected.(activeSet := seats)
  }

  /** After a boundary the active set is duplicate-free, within the cap and all
      Active with the minimum stake; nobody frozen past this era is in it; no
      money moved. */
  lemma EraBoundaryEffect(st: State, addrs: seq<Address>, era: nat)
    requires SupplyOk(st) && Distinct(addrs) && era >= 1
    ensures var end := EraBoundary(st, addrs, era);
            && SupplyOk(end) && Ledger.Money(end) == Ledger.Money(st) && end.accounts == st.accounts
            && |end.activeSet| <= MAX_VALIDATORS
            && (forall a :: a in end.activeSet ==>
                  a in end.validators && end.validators[a].status == Active && end.validators[a].stake >= MIN_STAKE)
            && (forall a, until :: FrozenUntil(st, a, until) && era < until ==>
                  a !in end.activeSet && a in end.validators && end.validators[a] == st.validators[a])
  {
    ThawKeepsLifecycle(st, addrs, era);
    ThawLedger(st, addrs, era);
    var thawed := ThawAll(st, addrs, era).0;
    TopNOptimal(thawed, addrs, MAX_VALIDATORS, era);
    TopNEffect(thawed, addrs, MAX_VALIDATORS, era);
    ElectionEffect(thawed, addrs, MAX_VALIDATORS, era);
    ElectionLedger(thawed, addrs, MAX_VALIDATORS, era);
    forall a, until | FrozenUntil(st, a, until) && era < until
      ensures a !in EraBoundary(st, addrs, era).activeSet
      ensures a in EraBoundary(st, addrs, era).validators
      ensures EraBoundary(st, addrs, era).validators[a] == st.validators[a]
    {
      ThawKeepsFrozen(st, addrs, era, a, until);
    }
  }

  /** The boundary in order: the freezes that are over end first, the election runs
      on the result, and its seats are installed. */
  lemma EraBoundaryInOrder(st: State, addrs: seq<Address>, era: nat) returns (thawed: State)
    requires LifecycleOk(st) && Distinct(addrs) && era >= 1
    ensures ThawedAre(st, DueIn(st, addrs, era), thawed)
    ensures var end := EraBoundary(st, addrs, era);
            && BestSeats(thawed, addrs, 101, end.activeSet)
            && end.accounts == st.accounts && end.validators.Keys == st.validators.Keys
            && (forall a :: a in st.validators ==>
                  end.validators[a] == if a in end.activeSet then thawed.validators[a].(status := Active)
                                       else thawed.validators[a])
  {
    thawed := ThawAll(st, addrs, era).0;
    ThawEffect(st, addrs, era);
    ThawKeepsLifecycle(st, addrs, era);
    TopNOptimal(thawed, addrs, MAX_VALIDATORS, era);
    TopNEffect(thawed, addrs, MAX_VALIDATORS, era);
  }

  // ---------------------------------------------------------------------
  // Dependence on the order of candidates
  // ---------------------------------------------------------------------

  /** Two lists of the same addresses; the validator index hands them out as a
      hash set, in no fixed order. */
  ghost predicate SameAddresses(a: seq<Address>, b: seq<Address>) {
    Distinct(a) && Distinct(b) && forall x :: x in a <==> x in b
  }

  /** Nobody ties with the next in rank at or before the last seat. */
  ghost predicate NoTieAtCut(ranked: seq<Validator>, max: nat) {
    forall i :: 0 <= i < max && i + 1 < |ranked| ==> !RanksBefore(ranked[i + 1], ranked[i])
  }

  lemma TieFromOvertaking(s: seq<Validator>, i: nat, j: nat)
    requires Sorted(s, RanksBefore) && i < j < |s| && RanksBefore(s[j], s[i])
    ensures RanksBefore(s[i + 1], s[i])
  {
    assert j == i + 1 || RanksBefore(s[i + 1], s[j]);
  }

  /** Two sorted lists of the same elements agree as far as one of them is tie-free. */
  lemma {:induction false} SortedAgree(a: seq<Validator>, b: seq<Validator>, max: nat, k: nat)
    requires Sorted(a, RanksBefore) && Sorted(b, RanksBefore) && Distinct(a) && Distinct(b)
    requires |a| == |b| && forall e :: e in a <==> e in b
    requires NoTieAtCut(a, max) && k <= max && k <= |a|
    ensures a[..k] == b[..k]
  {
    if k > 0 {
      SortedAgree(a, b, max, k - 1);
      var n := k - 1;
      forall m | 0 <= m < n ensures a[m] == b[m] {
        assert a[..n][m] == b[..n][m];
      }
      assert b[n] in a && a[n] in b;
      var j :| 0 <= j < |a| && a[j] == b[n];
      var i :| 0 <= i < |b| && b[i] == a[n];
      assert j >= n && i >= n;
      assert RanksBefore(b[n], b[i]);
      if j > n {
        TieFromOvertaking(a, n, j);
        assert false;
      }
      assert a[..k] == a[..n] + [a[n]] && b[..k] == b[..n] + [b[n]];
    }
  }

  lemma {:induction false} SameLength<T>(a: seq<T>, b: seq<T>)
    requires Distinct(a) && Distinct(b) && forall x :: x in a <==> x in b
    ensures |a| == |b|
  {
    var s, t := set x | x in a, set x | x in b;
    assert s == t;
    DistinctSize(a);
    DistinctSize(b);
  }

  lemma DistinctCount<T>(a: seq<T>, names: set<T>)
    requires Distinct(a) && forall x :: x in names <==> x in a
    ensures |a| == |names|
  {
    DistinctSize(a);
    assert names == set x | x in a;
  }

  lemma {:induction false} DistinctSize<T>(a: seq<T>)
    requires Distinct(a)
    ensures |set x | x in a| == |a|
  {
    if a != [] {
      var n := |a| - 1;
      DistinctSize(a[..n]);
      assert a == a[..n] + [a[n]];
      assert a[n] !in a[..n];
      assert (set x | x in a) == (set x | x in a[..n]) + {a[n]};
    }
  }

  /** Exchange two entries. */
  function Swap(a: Validator, b: Validator, x: Validator): Validator {
    if x == a then b else if x == b then a else x
  }

  function SwapAll(a: Validator, b: Validator, s: seq<Validator>): seq<Validator> {
    if s == [] then [] else [Swap(a, b, s[0])] + SwapAll(a, b, s[1..])
  }

  ghost predicate Tied(a: Validator, b: Validator) {
    a.stake == b.stake && a.registrationEra == b.registrationEra
  }

  lemma {:induction false} SwapAllAt(a: Validator, b: Validator, s: seq<Validator>, i: nat)
    requires i < |s|
    ensures |SwapAll(a, b, s)| == |s| && SwapAll(a, b, s)[i] == Swap(a, b, s[i])
  {
    if |s| > 1 {
      SwapAllAt(a, b, s[1..], if i == 0 then 0 else i - 1);
    }
  }

  lemma {:induction false} SwapAllLength(a: Validator, b: Validator, s: seq<Validator>)
    ensures |SwapAll(a, b, s)| == |s|
  {
    if s != [] {
      SwapAllLength(a, b, s[1..]);
    }
  }

  lemma {:induction false} SwapInsert(a: Validator, b: Validator, x: Validator, s: seq<Validator>)
    requires Tied(a, b)
    ensures Insert(Swap(a, b, x), SwapAll(a, b, s), RanksBefore) == SwapAll(a, b, Insert(x, s, RanksBefore))
  {
    if s != [] {
      SwapInsert(a, b, x, s[1..]);
      assert SwapAll(a, b, s)[1..] == SwapAll(a, b, s[1..]);
      if RanksBefore(x, s[0]) {
        assert ([x] + s)[1..] == s;
      } else {
        assert ([s[0]] + Insert(x, s[1..], RanksBefore))[1..] == Insert(x, s[1..], RanksBefore);
      }
    }
  }

  /** Exchanging tied entries in the input exchanges them in the ranking. */
  lemma {:induction false} SwapSort(a: Validator, b: Validator, s: seq<Validator>)
    requires Tied(a, b)
    ensures Sort(SwapAll(a, b, s), RanksBefore) == SwapAll(a, b, Sort(s, RanksBefore))
  {
    if s != [] {
      SwapSort(a, b, s[1..]);
      assert SwapAll(a, b, s)[1..] == SwapAll(a, b, s[1..]);
      SwapInsert(a, b, s[0], Sort(s[1..], RanksBefore));
    }
  }

  lemma {:induction false} SwapFilter(a: Validator, b: Validator, s: seq<Validator>)
    requires Tied(a, b)
    ensures Filter(SwapAll(a, b, s), MeetsMinimum) == SwapAll(a, b, Filter(s, MeetsMinimum))
  {
    if s != [] {
      SwapFilter(a, b, s[1..]);
      assert SwapAll(a, b, s)[1..] == SwapAll(a, b, s[1..]);
      assert MeetsMinimum(s[0]) ==> ([s[0]] + Filter(s[1..], MeetsMinimum))[1..] == Filter(s[1..], MeetsMinimum);
    }
  }

  lemma {:induction false} SwapAppend(a: Validator, b: Validator, s: seq<Validator>, x: Validator)
    ensures SwapAll(a, b, s + [x]) == SwapAll(a, b, s) + [Swap(a, b, x)]
  {
    if s != [] {
      assert (s + [x])[1..] == s[1..] + [x];
      SwapAppend(a, b, s[1..], x);
    }
  }

  function SwapAddresses(p: Address, q: Address, s: seq<Address>): seq<Address> {
    if s == [] then []
    else
      var n := |s| - 1;
      SwapAddresses(p, q, s[..n]) + [if s[n] == p then q else if s[n] == q then p else s[n]]
  }

  /** Exchanging two electable addresses exchanges their entries. */
  lemma {:induction false} SwapEligible(st: State, p: Address, q: Address, s: seq<Address>)
    requires LifecycleOk(st)
    requires p in st.validators && q in st.validators
    requires Electable(st.validators[p]) && Electable(st.validators[q])
    ensures Eligible(st, SwapAddresses(p, q, s)) == SwapAll(st.validators[p], st.validators[q], Eligible(st, s))
  {
    if s != [] {
      var n := |s| - 1;
      SwapEligible(st, p, q, s[..n]);
      var t := SwapAddresses(p, q, s);
      assert t[..|t| - 1] == SwapAddresses(p, q, s[..n]);
      var a, b := st.validators[p], st.validators[q];
      if s[n] in st.validators && Electable(st.validators[s[n]]) {
        SwapAppend(a, b, Eligible(st, s[..n]), st.validators[s[n]]);
      }
    }
  }

  lemma {:induction false} SwapAddressesAt(p: Address, q: Address, s: seq<Address>)
    ensures |SwapAddresses(p, q, s)| == |s|
    ensures forall i :: 0 <= i < |s| ==>
              SwapAddresses(p, q, s)[i] == if s[i] == p then q else if s[i] == q then p else s[i]
  {
    if s != [] {
      SwapAddressesAt(p, q, s[..|s| - 1]);
    }
  }

  lemma SwapSameAddresses(p: Address, q: Address, s: seq<Address>)
    requires Distinct(s) && p in s && q in s
    ensures SameAddresses(s, SwapAddresses(p, q, s))
  {
    SwapAddressesAt(p, q, s);
    var t := SwapAddresses(p, q, s);
    forall x ensures x in s <==> x in t {
      var y := if x == p then q else if x == q then p else x;
      if x in s {
        assert y in s;
        var i :| 0 <= i < |s| && s[i] == y;
        assert t[i] == x;
      }
      if x in t {
        var i :| 0 <= i < |t| && t[i] == x;
        assert s[i] == y && y in s;
      }
    }
  }

  ghost predicate OrderIndependent(st: State, candidates: seq<Address>, max: nat, era: nat) {
    forall other :: SameAddresses(candidates, other) ==>
      RunElection(st, other, max, era).1 == RunElection(st, candidates, max, era).1
  }

  lemma TieFreeIsIndependent(st: State, candidates: seq<Address>, max: nat, era: nat)
    requires LifecycleOk(st) && Distinct(candidates) && era >= 1
    requires NoTieAtCut(Ranked(Eligible(st, candidates)), max)
    ensures OrderIndependent(st, candidates, max, era)
  {
    forall other | SameAddresses(candidates, other)
      ensures RunElection(st, other, max, era).1 == RunElection(st, candidates, max, era).1
    {
      var a, b := Ranked(Eligible(st, candidates)), Ranked(Eligible(st, other));
      RankedList(st, candidates);
      RankedList(st, other);
      SameLength(a, b);
      SortedAgree(a, b, max, Min(max, |a|));
      assert Take(a, max) == a[..Min(max, |a|)] && Take(b, max) == b[..Min(max, |b|)];
    }
  }

  /** Exchanging two tied candidates exchanges their entries in the ranking. */
  lemma SwapRanked(st: State, candidates: seq<Address>, p: Address, q: Address)
    requires LifecycleOk(st) && Distinct(candidates) && p in candidates && q in candidates
    requires p in st.validators && Electable(st.validators[p])
    requires q in st.validators && Electable(st.validators[q])
    requires Tied(st.validators[p], st.validators[q])
    ensures SameAddresses(candidates, SwapAddresses(p, q, candidates))
    ensures Ranked(Eligible(st, SwapAddresses(p, q, candidates)))
            == SwapAll(st.validators[p], st.validators[q], Ranked(Eligible(st, candidates)))
  {
    var a, b := st.validators[p], st.validators[q];
    SwapSameAddresses(p, q, candidates);
    SwapEligible(st, p, q, candidates);
    SwapSort(a, b, Eligible(st, candidates));
    SwapFilter(a, b, Sort(Eligible(st, candidates), RanksBefore));
  }

  lemma TieIsDependent(st: State, candidates: seq<Address>, max: nat, era: nat, i: nat)
    requires LifecycleOk(st) && Distinct(candidates) && era >= 1
    requires i < max && i + 1 < |Ranked(Eligible(st, candidates))|
    requires var ranked := Ranked(Eligible(st, candidates)); RanksBefore(ranked[i + 1], ranked[i])
    ensures !OrderIndependent(st, candidates, max, era)
  {
    var ranked := Ranked(Eligible(st, candidates));
    RankedList(st, candidates);
    var a, b := ranked[i], ranked[i + 1];
    assert a in ranked && b in ranked && a != b;
    assert RanksBefore(a, b);
    var p, q := a.address, b.address;
    var other := SwapAddresses(p, q, candidates);
    SwapRanked(st, candidates, p, q);
    SwapAllAt(a, b, ranked, i);
    SeatEntries(st, candidates, max, era);
    SeatEntries(st, other, max, era);
    assert RunElection(st, candidates, max, era).1[i] == p;
    assert RunElection(st, other, max, era).1[i] == q;
  }

  /** The list of seats, which the proposer schedule follows, is a function of the
      candidate set exactly when no tie reaches a seat. */
  lemma OrderIndependentIff(st: State, candidates: seq<Address>, max: nat, era: nat)
    requires LifecycleOk(st) && Distinct(candidates) && era >= 1
    ensures OrderIndependent(st, candidates, max, era) <==>
            NoTieAtCut(Ranked(Eligible(st, candidates)), max)
  {
    var ranked := Ranked(Eligible(st, candidates));
    if NoTieAtCut(ranked, max) {
      TieFreeIsIndependent(st, candidates, max, era);
    } else {
      var i :| 0 <= i < max && i + 1 < |ranked| && RanksBefore(ranked[i + 1], ranked[i]);
      TieIsDependent(st, candidates, max, era, i);
    }
  }

  // ---------------------------------------------------------------------
  // Dependence of the seated set on the order of candidates
  // ---------------------------------------------------------------------

  /** The last seat and the first place without one are tied. */
  predicate TieAcrossCut(ranked: seq<Validator>, max: nat) {
    0 < max < |ranked| && RanksBefore(ranked[max], ranked[max - 1])
  }

  ghost function SeatSet(st: State, candidates: seq<Address>, max: nat, era: nat): set<Address> {
    set a | a in RunElection(st, candidates, max, era).1
  }

  ghost predicate SetIndependent(st: State, candidates: seq<Address>, max: nat, era: nat) {
    forall other :: SameAddresses(candidates, other) ==>
      SeatSet(st, other, max, era) == SeatSet(st, candidates, max, era)
  }

  /** Without a tie across the cut, whoever is in front of it in one sorted order
      is in front of it in every other. */
  lemma FrontStays(a: seq<Validator>, b: seq<Validator>, max: nat, x: Validator)
    requires Sorted(a, RanksBefore) && Sorted(b, RanksBefore) && Distinct(a) && Distinct(b)
    requires |a| == |b| && forall e :: e in a <==> e in b
    requires 0 < max < |a| && !TieAcrossCut(a, max) && x in a[..max]
    ensures x in b[..max]
  {
    if x !in b[..max] {
      forall e | e in b[..max] ensures e in a[..max] && e != x {
        AheadOfCut(a, b, max, x, e);
      }
      FrontSize(a, max);
      FrontSize(b, max);
      var front, other := set e | e in a[..max], set e | e in b[..max];
      assert other <= front - {x};
      Sums.SubsetSize(other, front - {x});
    }
  }

  lemma FrontSize(s: seq<Validator>, max: nat)
    requires Distinct(s) && max <= |s|
    ensures |set e | e in s[..max]| == max
  {
    DistinctSize(s[..max]);
  }

  /** What `b` puts in front of an element in front of the cut of `a` is in front of that cut too. */
  lemma AheadOfCut(a: seq<Validator>, b: seq<Validator>, max: nat, x: Validator, e: Validator)
    requires Sorted(a, RanksBefore) && Sorted(b, RanksBefore)
    requires |a| == |b| && forall e :: e in a <==> e in b
    requires 0 < max < |a| && !TieAcrossCut(a, max) && x in a[..max]
    requires x !in b[..max] && e in b[..max]
    ensures e in a[..max]
  {
    var i :| 0 <= i < max && a[..max][i] == x;
    assert x == a[i] && x in b;
    var k :| 0 <= k < |b| && b[k] == x;
    var m :| 0 <= m < max && b[..max][m] == e;
    assert k >= max && RanksBefore(b[m], b[k]);
    assert b[m] in b && e in a;
    CutSides(a, max, x);
    CutSides(a, max, e);
  }

  /** Elements in front of a cut rank before the last of them or are it; the
      first behind it ranks before the others behind it or is one of them. */
  lemma CutSides(s: seq<Validator>, max: nat, e: Validator)
    requires Sorted(s, RanksBefore) && 0 < max < |s| && e in s
    ensures if e in s[..max] then RanksBefore(e, s[max - 1]) else RanksBefore(s[max], e)
  {
    var j :| 0 <= j < |s| && s[j] == e;
    if j < max {
      assert s[..max][j] == e;
      assert j == max - 1 || RanksBefore(s[j], s[max - 1]);
    } else if e in s[..max] {
      var i :| 0 <= i < max && s[..max][i] == e;
      assert i == max - 1 || RanksBefore(s[i], s[max - 1]);
    } else {
      assert j == max || RanksBefore(s[max], s[j]);
    }
  }

  lemma SeatSetOfRanked(st: State, candidates: seq<Address>, max: nat, era: nat, a: Address)
    requires LifecycleOk(st) && Distinct(candidates) && era >= 1
    ensures var ranked := Ranked(Eligible(st, candidates));
            a in SeatSet(st, candidates, max, era) <==>
              a in st.validators && st.validators[a] in ranked[..Min(max, |ranked|)]
  {
    var ranked := Ranked(Eligible(st, candidates));
    SeatEntries(st, candidates, max, era);
    var seats := RunElection(st, candidates, max, era).1;
    if a in seats {
      var i :| 0 <= i < |seats| && seats[i] == a;
      assert ranked[..|seats|][i] == ranked[i];
    }
    if a in st.validators && st.validators[a] in ranked[..Min(max, |ranked|)] {
      var i :| 0 <= i < |seats| && ranked[..|seats|][i] == st.validators[a];
      RankedList(st, candidates);
      assert ranked[i] in ranked && seats[i] == ranked[i].address;
    }
  }

  lemma SeatedStaySeated(st: State, candidates: seq<Address>, other: seq<Address>, max: nat, era: nat, a: Address)
    requires LifecycleOk(st) && SameAddresses(candidates, other) && era >= 1
    requires !TieAcrossCut(Ranked(Eligible(st, candidates)), max)
    requires a in SeatSet(st, candidates, max, era)
    ensures a in SeatSet(st, other, max, era)
  {
    var r, s := Ranked(Eligible(st, candidates)), Ranked(Eligible(st, other));
    RankedList(st, candidates);
    RankedList(st, other);
    SameLength(r, s);
    SeatSetOfRanked(st, candidates, max, era, a);
    SeatSetOfRanked(st, other, max, era, a);
    if max < |r| {
      FrontStays(r, s, max, st.validators[a]);
    } else {
      assert r[..|r|] == r && s[..|s|] == s;
    }
  }

  lemma SeatSetSize(st: State, candidates: seq<Address>, max: nat, era: nat)
    requires LifecycleOk(st) && Distinct(candidates) && era >= 1
    ensures |SeatSet(st, candidates, max, era)| == Min(max, |Ranked(Eligible(st, candidates))|)
  {
    TopNOptimal(st, candidates, max, era);
    SeatEntries(st, candidates, max, era);
    DistinctSize(RunElection(st, candidates, max, era).1);
  }

  lemma NoTieAcrossIsIndependent(st: State, candidates: seq<Address>, max: nat, era: nat)
    requires LifecycleOk(st) && Distinct(candidates) && era >= 1
    requires !TieAcrossCut(Ranked(Eligible(st, candidates)), max)
    ensures SetIndependent(st, candidates, max, era)
  {
    forall other | SameAddresses(candidates, other)
      ensures SeatSet(st, other, max, era) == SeatSet(st, candidates, max, era)
    {
      var mine, theirs := SeatSet(st, candidates, max, era), SeatSet(st, other, max, era);
      forall a | a in mine ensures a in theirs {
        SeatedStaySeated(st, candidates, other, max, era, a);
      }
      RankedList(st, candidates);
      RankedList(st, other);
      SameLength(Ranked(Eligible(st, candidates)), Ranked(Eligible(st, other)));
      SeatSetSize(st, candidates, max, era);
      SeatSetSize(st, other, max, era);
      SubsetSameSize(mine, theirs);
    }
  }

  lemma SubsetSameSize<T>(a: set<T>, b: set<T>)
    requires a <= b && |a| == |b|
    ensures a == b
  {
    assert b == a + (b - a);
  }

  /** With a tie across the cut, exchanging the two tied candidates exchanges who is seated. */
  lemma TieAcrossIsDependent(st: State, candidates: seq<Address>, max: nat, era: nat)
    requires LifecycleOk(st) && Distinct(candidates) && era >= 1
    requires TieAcrossCut(Ranked(Eligible(st, candidates)), max)
    ensures !SetIndependent(st, candidates, max, era)
  {
    var ranked := Ranked(Eligible(st, candidates));
    RankedList(st, candidates);
    var a, b := ranked[max - 1], ranked[max];
    assert a in ranked && b in ranked && RanksBefore(a, b);
    var other := SwapAddresses(a.address, b.address, candidates);
    SwapRanked(st, candidates, a.address, b.address);
    SwapAllLength(a, b, ranked);
    SeatEntries(st, candidates, max, era);
    assert RunElection(st, candidates, max, era).1[max - 1] == a.address;
    assert a.address in SeatSet(st, candidates, max, era);
    SeatSetOfRanked(st, other, max, era, a.address);
    var swapped := Ranked(Eligible(st, other));
    forall i | 0 <= i < max ensures swapped[i] != a {
      SwapAllAt(a, b, ranked, i);
    }
    assert a.address !in SeatSet(st, other, max, era);
  }

  /** The seated set is a function of the candidate set exactly when the last seat
      is not tied with the first place without one. */
  lemma SetIndependentIff(st: State, candidates: seq<Address>, max: nat, era: nat)
    requires LifecycleOk(st) && Distinct(candidates) && era >= 1
    ensures SetIndependent(st, candidates, max, era) <==>
            !TieAcrossCut(Ranked(Eligible(st, candidates)), max)
  {
    if TieAcrossCut(Ranked(Eligible(st, candidates)), max) {
      TieAcrossIsDependent(st, candidates, max, era);
    } else {
      NoTieAcrossIsIndependent(st, candidates, max, era);
    }
  }

  // ---------------------------------------------------------------------
  // The standalone Top-N strategy
  // ---------------------------------------------------------------------

  datatype Candidate = Candidate(address: Address, stake: nat)

  /** Larger stake first, then smaller address: a total order. */
  predicate Preferred(a: Candidate, b: Candidate) {
    a.stake > b.stake || (a.stake == b.stake && a.address <= b.address)
  }

  function ElectTopN(candidates: seq<Candidate>, max: nat): seq<Candidate> {
    if candidates == [] || max == 0 then []
    else Take(Sort(candidates, Preferred), max)
  }

  /** The strategy sees the candidates as a multiset. */
  lemma ElectTopNDeterministic(candidates: seq<Candidate>, other: seq<Candidate>, max: nat)
    requires multiset(candidates) == multiset(other)
    ensures ElectTopN(candidates, max) == ElectTopN(other, max)
  {
    assert |candidates| == |multiset(candidates)| == |multiset(other)| == |other|;
    PreferredOrder();
    SortOrderIndependent(candidates, other, Preferred);
  }

  lemma PreferredOrder()
    ensures TotalPreorder(Preferred) && AntiSymmetric(Preferred)
  {
  }

  /** The strategy returns the best candidates, best first; what it leaves out comes after. */
  lemma ElectTopNOptimal(candidates: seq<Candidate>, max: nat) returns (left: seq<Candidate>)
    ensures |ElectTopN(candidates, max)| == Min(max, |candidates|)
    ensures forall i, j :: 0 <= i < j < |ElectTopN(candidates, max)| ==>
              var c, d := ElectTopN(candidates, max)[i], ElectTopN(candidates, max)[j];
              c.stake >= d.stake && (c.stake == d.stake ==> c.address <= d.address)
    ensures multiset(candidates) == multiset(ElectTopN(candidates, max)) + multiset(left)
    ensures forall c, d :: c in ElectTopN(candidates, max) && d in left ==>
              c.stake >= d.stake && (c.stake == d.stake ==> c.address <= d.address)
  {
    hide ElectTopN;
    hide Sort;
    FrontReturned(candidates, max);
    var sorted, k := Sort(candidates, Preferred), Min(max, |candidates|);
    left := sorted[k..];
    PreferredFirst(candidates, k, ElectTopN(candidates, max), left);
  }

  lemma FrontReturned(candidates: seq<Candidate>, max: nat)
    ensures var sorted, k := Sort(candidates, Preferred), Min(max, |candidates|);
            && |sorted| == |candidates| && ElectTopN(candidates, max) == sorted[..k]
            && multiset(candidates) == multiset(sorted[..k]) + multiset(sorted[k..])
  {
    var sorted, k := Sort(candidates, Preferred), Min(max, |candidates|);
    SortPermutes(candidates, Preferred);
    hide Sort;
    assert sorted == sorted[..k] + sorted[k..];
  }

  lemma PreferredFirst(candidates: seq<Candidate>, k: nat, front: seq<Candidate>, rest: seq<Candidate>)
    requires var sorted := Sort(candidates, Preferred); k <= |sorted| && front == sorted[..k] && rest == sorted[k..]
    ensures forall i, j :: 0 <= i < j < |front| ==>
              front[i].stake >= front[j].stake
              && (front[i].stake == front[j].stake ==> front[i].address <= front[j].address)
    ensures forall c, d :: c in front && d in rest ==>
              c.stake >= d.stake && (c.stake == d.stake ==> c.address <= d.address)
  {
    var sorted := Sort(candidates, Preferred);
    PreferredOrder();
    SortSorts(candidates, Preferred);
    SortedCut(sorted, k, Preferred);
    hide Sort;
    forall i, j | 0 <= i < j < |front| ensures Preferred(front[i], front[j]) {
      assert front[i] == sorted[i] && front[j] == sorted[j];
    }
    forall c, d | c in front && d in rest ensures Preferred(c, d) {}
  }
}
