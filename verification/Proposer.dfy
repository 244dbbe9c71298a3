/** The round-robin proposer schedule of an era. */
module Proposer {
  import opened Primitives
  import opened Sorting

  datatype Schedule = Schedule(activeSet: seq<Address>, era: nat, startHeight: nat)

  function Slot(s: Schedule, height: nat): nat {
    if height < s.startHeight then 0 else height - s.startHeight
  }

  function ProposerForHeight(s: Schedule, height: nat): Address
    requires s.activeSet != []
  {
    s.activeSet[Slot(s, height) % |s.activeSet|]
  }

  /** The start height belongs to the first seat, every later height to the next seat,
      the first again after the last; earlier heights belong to the first seat. */
  lemma SeatOfHeight(s: Schedule, k: nat)
    requires s.activeSet != []
    ensures ProposerForHeight(s, s.startHeight + k) == s.activeSet[k % |s.activeSet|]
    ensures ProposerForHeight(s, s.startHeight + k + |s.activeSet|) == ProposerForHeight(s, s.startHeight + k)
    ensures k <= s.startHeight ==> ProposerForHeight(s, k) == s.activeSet[0]
  {
    var n := |s.activeSet|;
    assert k == n * (k / n) + k % n;
    assert n * (k / n + 1) == n * (k / n) + n;
    DivModUnique(k + n, n, k / n + 1, k % n);
    DivModUnique(0, n, 0, 0);
  }

  /** How often a validator is scheduled in `len` heights starting at `from`. */
  function Turns(s: Schedule, v: Address, from: nat, len: nat): nat
    requires s.activeSet != []
  {
    if len == 0 then 0
    else Turns(s, v, from, len - 1) + (if ProposerForHeight(s, from + len - 1) == v then 1 else 0)
  }

  /** The first turn at or after `from` of the validator in seat `i`. */
  function Wait(slot: nat, i: nat, n: nat): nat
    requires i < n
  {
    if slot % n <= i then i - slot % n else i + n - slot % n
  }

  lemma SeatAfter(slot: nat, i: nat, n: nat, d: nat)
    requires i < n && d < n
    ensures (slot + d) % n == i <==> d == Wait(slot, i, n)
  {
    var r := slot % n;
    assert slot == n * (slot / n) + r;
    if r + d < n {
      DivModUnique(slot + d, n, slot / n, r + d);
    } else {
      MulNext(n, slot / n, slot / n + 1);
      assert n * (slot / n + 1) == n * (slot / n) + n;
      DivModUnique(slot + d, n, slot / n + 1, r + d - n);
    }
  }

  lemma MulNext(n: nat, q: nat, q': nat)
    requires q < q'
    ensures n * q + n <= n * q'
  {
    assert n * q' == n * q + n * (q' - q);
    assert n * (q' - q) == n + n * (q' - q - 1);
  }

  lemma DivModUnique(x: nat, n: nat, q: nat, r: nat)
    requires r < n && x == n * q + r
    ensures x / n == q && x % n == r
  {
    var q', r' := x / n, x % n;
    assert x == n * q' + r';
    if q < q' {
      MulNext(n, q, q');
    } else if q' < q {
      MulNext(n, q', q);
    }
  }

  /** Within one round a seat comes up once, after its wait. */
  lemma {:induction false} TurnsInRound(s: Schedule, i: nat, from: nat, len: nat)
    requires i < |s.activeSet| && Distinct(s.activeSet) && from >= s.startHeight && len <= |s.activeSet|
    ensures Turns(s, s.activeSet[i], from, len)
            == if len > Wait(from - s.startHeight, i, |s.activeSet|) then 1 else 0
  {
    if len > 0 {
      TurnsInRound(s, i, from, len - 1);
      var n := |s.activeSet|;
      SeatAfter(Slot(s, from), i, n, len - 1);
      var k := Slot(s, from + len - 1) % n;
      assert Slot(s, from + len - 1) == Slot(s, from) + (len - 1);
      assert s.activeSet[k] == s.activeSet[i] <==> k == i;
    }
  }

  lemma {:induction false} TurnsSplit(s: Schedule, v: Address, from: nat, a: nat, b: nat)
    requires s.activeSet != []
    ensures Turns(s, v, from, a + b) == Turns(s, v, from, a) + Turns(s, v, from + a, b)
  {
    if b > 0 {
      TurnsSplit(s, v, from, a, b - 1);
      assert from + a + b - 1 == from + (a + b) - 1;
    }
  }

  /** Fairness: from the start of the era on, in any stretch of `len` heights every
      validator has its share of turns, rounded down or up. */
  lemma {:induction false} RoundRobinFair(s: Schedule, v: Address, from: nat, len: nat)
    requires Distinct(s.activeSet) && v in s.activeSet && from >= s.startHeight
    ensures len / |s.activeSet| <= Turns(s, v, from, len) <= (len + |s.activeSet| - 1) / |s.activeSet|
    decreases len
  {
    var n := |s.activeSet|;
    var i :| 0 <= i < n && s.activeSet[i] == v;
    if len <= n {
      TurnsInRound(s, i, from, len);
      SmallShare(len, n);
    } else {
      TurnsSplit(s, v, from, n, len - n);
      TurnsInRound(s, i, from, n);
      RoundRobinFair(s, v, from + n, len - n);
      OneRoundMore(len, n);
      OneRoundMore(len + n - 1, n);
    }
  }

  lemma SmallShare(len: nat, n: nat)
    requires 0 < n && len <= n
    ensures len / n == (if len == n then 1 else 0)
    ensures (len + n - 1) / n == (if len == 0 then 0 else 1)
  {
  }

  lemma OneRoundMore(x: nat, n: nat)
    requires 0 < n <= x
    ensures x / n == (x - n) / n + 1
  {
    var q, r := (x - n) / n, (x - n) % n;
    assert x - n == n * q + r;
    assert n * (q + 1) == n * q + n;
    DivModUnique(x, n, q + 1, r);
  }
}
