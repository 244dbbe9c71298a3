/** The per-peer message limiter. Times are nanoseconds on the monotonic clock. */
module RateLimiting {
  import opened Primitives

  type Peer = nat

  /** One second. */
  const WINDOW: nat := 1000000000

  datatype Window = Window(count: nat, start: nat)

  type Counters = map<Peer, Window>

  /** The peer's window as seen at `now`: created when missing, restarted when over. */
  function Opened(counters: Counters, peer: Peer, now: nat): Window {
    var w := if peer in counters then counters[peer] else Window(0, now);
    if w.start + WINDOW <= now then Window(0, now) else w
  }

  function Checked(counters: Counters, peer: Peer, now: nat): Counters {
    counters[peer := Opened(counters, peer, now)]
  }

  function Incremented(counters: Counters, peer: Peer, now: nat): Counters {
    var w := Opened(counters, peer, now);
    counters[peer := w.(count := (w.count + 1) % (U32_MAX + 1))]
  }

  /** Check at one clock reading, count at a later one. */
  function Allowed(counters: Counters, max: nat, peer: Peer, checkedAt: nat, countedAt: nat): (Counters, bool) {
    var checked := Checked(counters, peer, checkedAt);
    if checked[peer].count < max then (Incremented(checked, peer, countedAt), true) else (checked, false)
  }

  /** The peer's window as long as less than 10^9 ns have passed since its start; a
      new one from now on otherwise. */
  ghost function WindowAt(counters: Counters, peer: Peer, now: nat): Window {
    if peer in counters && now < counters[peer].start + 1000000000 then counters[peer] else Window(0, now)
  }

  class RateLimiter {
    const maxPerWindow: nat
    var counters: Counters

    constructor (max: nat)
      ensures maxPerWindow == max && counters == map[]
    {
      maxPerWindow, counters := max, map[];
    }

    method Check(peer: Peer, now: nat) returns (allowed: bool)
      modifies this`counters
      ensures counters == Checked(old(counters), peer, now)
      ensures counters == old(counters)[peer := WindowAt(old(counters), peer, now)]
      ensures allowed == (WindowAt(old(counters), peer, now).count < maxPerWindow)
    {
      var entry := if peer in counters then counters[peer] else Window(0, now);
      if (if now >= entry.start then now - entry.start else 0) >= WINDOW {
        entry := Window(0, now);
      }
      counters := counters[peer := entry];
      allowed := entry.count < maxPerWindow;
    }

    method Increment(peer: Peer, now: nat)
      modifies this`counters
      ensures counters == Incremented(old(counters), peer, now)
      ensures var w := WindowAt(old(counters), peer, now);
              counters == old(counters)[peer := Window((w.count + 1) % 0x1_0000_0000, w.start)]
    {
      var entry := if peer in counters then counters[peer] else Window(0, now);
      if (if now >= entry.start then now - entry.start else 0) >= WINDOW {
        entry := Window(0, now);
      }
      counters := counters[peer := entry.(count := (entry.count + 1) % (U32_MAX + 1))];
    }

    method Allow(peer: Peer, checkedAt: nat, countedAt: nat) returns (allowed: bool)
      modifies this`counters
      ensures (counters, allowed) == Allowed(old(counters), maxPerWindow, peer, checkedAt, countedAt)
    {
      allowed := Check(peer, checkedAt);
      if allowed {
        Increment(peer, countedAt);
      }
    }
  }

  // ---------------------------------------------------------------------
  // Runs of calls
  // ---------------------------------------------------------------------

  datatype Call = Call(peer: Peer, checkedAt: nat, countedAt: nat)

  /** Clock readings never go back, within a call or from one call to the next. */
  ghost predicate Monotone(calls: seq<Call>) {
    && (forall i :: 0 <= i < |calls| ==> calls[i].checkedAt <= calls[i].countedAt)
    && (forall i, j :: 0 <= i < j < |calls| ==> calls[i].countedAt <= calls[j].checkedAt)
  }

  function Run(max: nat, calls: seq<Call>): Counters {
    if calls == [] then map[]
    else
      var n := |calls| - 1;
      Allowed(Run(max, calls[..n]), max, calls[n].peer, calls[n].checkedAt, calls[n].countedAt).0
  }

  /** The times at which messages of one peer were let through. */
  function Admitted(max: nat, calls: seq<Call>, peer: Peer): seq<nat> {
    if calls == [] then []
    else
      var n := |calls| - 1;
      var before := Admitted(max, calls[..n], peer);
      if calls[n].peer == peer
         && Allowed(Run(max, calls[..n]), max, peer, calls[n].checkedAt, calls[n].countedAt).1
      then before + [calls[n].countedAt]
      else before
  }

  /** One more call at the end of a run. */
  lemma RunNext(max: nat, calls: seq<Call>, call: Call, peer: Peer)
    ensures var (next, allowed) := Allowed(Run(max, calls), max, call.peer, call.checkedAt, call.countedAt);
            && Run(max, calls + [call]) == next
            && Admitted(max, calls + [call], peer)
               == Admitted(max, calls, peer) + (if call.peer == peer && allowed then [call.countedAt] else [])
  {
    assert (calls + [call])[..|calls|] == calls;
  }

  /** How many of the times lie in [lo, hi). */
  function Between(times: seq<nat>, lo: int, hi: int): nat {
    if times == [] then 0
    else Between(times[..|times| - 1], lo, hi) + (if lo <= times[|times| - 1] < hi then 1 else 0)
  }

  lemma {:induction false} BetweenSplit(times: seq<nat>, lo: int, mid: int, hi: int)
    requires lo <= mid <= hi
    ensures Between(times, lo, hi) == Between(times, lo, mid) + Between(times, mid, hi)
  {
    if times != [] {
      BetweenSplit(times[..|times| - 1], lo, mid, hi);
    }
  }

  lemma {:induction false} BetweenMonotone(times: seq<nat>, lo: int, hi: int, lo': int, hi': int)
    requires lo' <= lo && hi <= hi'
    ensures Between(times, lo, hi) <= Between(times, lo', hi')
  {
    if times != [] {
      BetweenMonotone(times[..|times| - 1], lo, hi, lo', hi');
    }
  }

  lemma {:induction false} BetweenNone(times: seq<nat>, lo: int, hi: int)
    requires forall i :: 0 <= i < |times| ==> times[i] < lo
    ensures Between(times, lo, hi) == 0
  {
    if times != [] {
      BetweenNone(times[..|times| - 1], lo, hi);
    }
  }

  lemma BetweenAppend(times: seq<nat>, x: nat, lo: int, hi: int)
    ensures Between(times + [x], lo, hi) == Between(times, lo, hi) + (if lo <= x < hi then 1 else 0)
  {
    assert (times + [x])[..|times|] == times;
  }

  function InSpan(times: seq<nat>, t: int): nat {
    Between(times, t, t + WINDOW)
  }

  /** No span of one window length holds more than the bound. */
  ghost predicate SpansOk(times: seq<nat>, bound: nat) {
    forall t: int :: InSpan(times, t) <= bound
  }

  /** Check and count of every call read the same time. */
  ghost predicate Instant(calls: seq<Call>) {
    forall i :: 0 <= i < |calls| ==> calls[i].checkedAt == calls[i].countedAt
  }

  /** How many messages of one window can come after its start: all of them, or
      all but the first when check and count read the same time. */
  function Late(max: nat, instant: bool): nat {
    if instant && max > 0 then max - 1 else max
  }

  /** One peer's history against its current window: admissions lie before the
      window's end, the counter counts those inside it, at most `max`; few enough
      precede it closely; and every span is fine. */
  ghost predicate WindowOk(times: seq<nat>, w: Window, max: nat, instant: bool) {
    && (forall i :: 0 <= i < |times| ==> times[i] < w.start + WINDOW)
    && Between(times, w.start, w.start + WINDOW) == w.count <= max
    && (instant && w.count > 0 ==> Between(times, w.start + 1, w.start + WINDOW) < w.count)
    && Between(times, w.start - WINDOW + 1, w.start) <= Late(max, instant)
    && SpansOk(times, max + Late(max, instant))
  }

  ghost predicate Tracked(times: seq<nat>, counters: Counters, peer: Peer, max: nat, instant: bool, now: nat) {
    if peer in counters then WindowOk(times, counters[peer], max, instant) && counters[peer].start <= now
    else times == []
  }

  /** A stored window has let something through. */
  predicate Used(counters: Counters, peer: Peer, max: nat) {
    peer in counters && max > 0 ==> counters[peer].count > 0
  }

  lemma RestartKeeps(times: seq<nat>, w: Window, max: nat, instant: bool, now: nat)
    requires WindowOk(times, w, max, instant) && w.start + WINDOW <= now
    ensures WindowOk(times, Window(0, now), max, instant)
  {
    BetweenNone(times, now, now + WINDOW);
    BetweenMonotone(times, now - WINDOW + 1, now, w.start + 1, now);
    BetweenSplit(times, w.start + 1, w.start + WINDOW, now);
    BetweenNone(times, w.start + WINDOW, now);
    BetweenMonotone(times, w.start + 1, w.start + WINDOW, w.start, w.start + WINDOW);
  }

  lemma OpenKeeps(times: seq<nat>, counters: Counters, peer: Peer, max: nat, instant: bool, now: nat)
    requires Tracked(times, counters, peer, max, instant, now)
    ensures WindowOk(times, Opened(counters, peer, now), max, instant)
    ensures Opened(counters, peer, now).start <= now < Opened(counters, peer, now).start + WINDOW
  {
    if peer in counters && counters[peer].start + WINDOW <= now {
      RestartKeeps(times, counters[peer], max, instant, now);
    }
  }

  lemma AdmitKeeps(times: seq<nat>, w: Window, max: nat, instant: bool, now: nat)
    requires WindowOk(times, w, max, instant) && w.count < max && w.start <= now < w.start + WINDOW
    requires instant && w.count == 0 ==> now == w.start
    ensures WindowOk(times + [now], w.(count := w.count + 1), max, instant)
  {
    BetweenAppend(times, now, w.start, w.start + WINDOW);
    BetweenAppend(times, now, w.start + 1, w.start + WINDOW);
    BetweenMonotone(times, w.start + 1, w.start + WINDOW, w.start, w.start + WINDOW);
    BetweenAppend(times, now, w.start - WINDOW + 1, w.start);
    forall t: int ensures InSpan(times + [now], t) <= max + Late(max, instant) {
      BetweenAppend(times, now, t, t + WINDOW);
      if t <= now < t + WINDOW {
        SpanAround(times, w, t);
      }
      assert InSpan(times, t) <= max + Late(max, instant);
    }
  }

  /** A span reaching into the current window meets at most one earlier window,
      and not its start. */
  lemma SpanAround(times: seq<nat>, w: Window, t: int)
    requires forall i :: 0 <= i < |times| ==> times[i] < w.start + WINDOW
    requires w.start - WINDOW < t < w.start + WINDOW
    ensures Between(times, t, t + WINDOW)
            <= Between(times, w.start - WINDOW + 1, w.start) + Between(times, w.start, w.start + WINDOW)
  {
    BetweenMonotone(times, t, t + WINDOW, w.start - WINDOW + 1, w.start + 2 * WINDOW);
    BetweenSplit(times, w.start - WINDOW + 1, w.start, w.start + 2 * WINDOW);
    BetweenSplit(times, w.start, w.start + WINDOW, w.start + 2 * WINDOW);
    BetweenNone(times, w.start + WINDOW, w.start + 2 * WINDOW);
  }

  lemma AllowKeeps(times: seq<nat>, counters: Counters, max: nat, instant: bool, call: Call)
    requires max <= U32_MAX && call.checkedAt <= call.countedAt
    requires instant ==> call.checkedAt == call.countedAt
    requires Tracked(times, counters, call.peer, max, instant, call.checkedAt) && Used(counters, call.peer, max)
    ensures var (next, allowed) := Allowed(counters, max, call.peer, call.checkedAt, call.countedAt);
            && Tracked(if allowed then times + [call.countedAt] else times, next, call.peer, max, instant,
                       call.countedAt)
            && Used(next, call.peer, max)
  {
    hide WindowOk;
    OpenKeeps(times, counters, call.peer, max, instant, call.checkedAt);
    var checked := Checked(counters, call.peer, call.checkedAt);
    OpenKeeps(times, checked, call.peer, max, instant, call.countedAt);
    if checked[call.peer].count < max {
      AdmitKeeps(times, Opened(checked, call.peer, call.countedAt), max, instant, call.countedAt);
    }
  }

  lemma {:induction false} RunOk(max: nat, calls: seq<Call>, instant: bool, peer: Peer, now: nat)
    requires max <= U32_MAX && Monotone(calls) && (instant ==> Instant(calls))
    requires forall i :: 0 <= i < |calls| ==> calls[i].countedAt <= now
    ensures Tracked(Admitted(max, calls, peer), Run(max, calls), peer, max, instant, now)
    ensures Used(Run(max, calls), peer, max)
  {
    if calls != [] {
      var n := |calls| - 1;
      RunOk(max, calls[..n], instant, peer, calls[n].checkedAt);
      if calls[n].peer == peer {
        AllowKeeps(Admitted(max, calls[..n], peer), Run(max, calls[..n]), max, instant, calls[n]);
      }
    }
  }

  /** Each peer's counter stays within the limit, and no span of one window length
      lets through more than the limit and its late part together. */
  lemma RateBound(max: nat, calls: seq<Call>, instant: bool, peer: Peer)
    requires max <= U32_MAX && Monotone(calls) && (instant ==> Instant(calls))
    ensures peer in Run(max, calls) ==> Run(max, calls)[peer].count <= max
    ensures SpansOk(Admitted(max, calls, peer), max + Late(max, instant))
  {
    if calls == [] {
      forall t: int ensures InSpan(Admitted(max, calls, peer), t) == 0 {}
    } else {
      RunOk(max, calls, instant, peer, calls[|calls| - 1].countedAt);
      if peer !in Run(max, calls) {
        forall t: int ensures InSpan([], t) == 0 {}
      }
    }
  }

  /** A message is refused only inside a window that has already let the whole limit through. */
  lemma RefusedOnlyWhenFull(max: nat, calls: seq<Call>, next: Call) returns (start: nat)
    requires max <= U32_MAX && Monotone(calls + [next])
    requires !Allowed(Run(max, calls), max, next.peer, next.checkedAt, next.countedAt).1
    ensures start <= next.checkedAt < start + WINDOW
    ensures Between(Admitted(max, calls, next.peer), start, start + WINDOW) == max
  {
    var all := calls + [next];
    assert forall i :: 0 <= i < |calls| ==> all[i] == calls[i];
    assert all[|calls|] == next;
    RunOk(max, calls, false, next.peer, next.checkedAt);
    OpenKeeps(Admitted(max, calls, next.peer), Run(max, calls), next.peer, max, false, next.checkedAt);
    start := Opened(Run(max, calls), next.peer, next.checkedAt).start;
  }

  /** The calls of one peer, in order. */
  function CallsOf(calls: seq<Call>, peer: Peer): seq<Call> {
    if calls == [] then []
    else
      var n := |calls| - 1;
      if calls[n].peer == peer then CallsOf(calls[..n], peer) + [calls[n]] else CallsOf(calls[..n], peer)
  }

  ghost predicate SameWindow(a: Counters, b: Counters, peer: Peer) {
    (peer in a <==> peer in b) && (peer in a ==> a[peer] == b[peer])
  }

  /** A call reads and writes the window of its own peer only. */
  lemma AllowedIsLocal(a: Counters, b: Counters, max: nat, call: Call, peer: Peer)
    requires SameWindow(a, b, peer)
    ensures var (next, allowed) := Allowed(a, max, call.peer, call.checkedAt, call.countedAt);
            var (next', allowed') := Allowed(b, max, call.peer, call.checkedAt, call.countedAt);
            if call.peer == peer then SameWindow(next, next', peer) && allowed == allowed'
            else SameWindow(next, b, peer)
  {
  }

  /** Peers do not affect each other: a peer's window and admissions are those of
      its own calls alone. */
  lemma {:induction false} PeersIndependent(max: nat, calls: seq<Call>, peer: Peer)
    ensures Admitted(max, calls, peer) == Admitted(max, CallsOf(calls, peer), peer)
    ensures SameWindow(Run(max, calls), Run(max, CallsOf(calls, peer)), peer)
  {
    if calls != [] {
      var n := |calls| - 1;
      var before, own := calls[..n], CallsOf(calls[..n], peer);
      PeersIndependent(max, before, peer);
      AllowedIsLocal(Run(max, before), Run(max, own), max, calls[n], peer);
      if calls[n].peer == peer {
        RunNext(max, own, calls[n], peer);
      }
    }
  }

  // ---------------------------------------------------------------------
  // The bound is reached
  // ---------------------------------------------------------------------

  /** A window opened at 0 whose messages are counted just before it ends, followed
      by a full window just after. The first message is late only if its count may
      read the clock later than its check. */
  function BurstCall(max: nat, instant: bool, i: nat): Call {
    if i == 0 then Call(1, 0, if instant then 0 else WINDOW - 1)
    else if i < max then Call(1, WINDOW - 1, WINDOW - 1)
    else Call(1, WINDOW, WINDOW)
  }

  function Burst(max: nat, instant: bool, n: nat): seq<Call> {
    seq(n, i requires 0 <= i < n => BurstCall(max, instant, i))
  }

  /** The peer's window after the first `n` messages of the burst. */
  function BurstWindow(max: nat, n: nat): Window {
    if n <= max then Window(n, 0) else Window(n - max, WINDOW)
  }

  ghost predicate HasBurstWindow(max: nat, n: nat, counters: Counters) {
    if n == 0 then 1 !in counters else 1 in counters && counters[1] == BurstWindow(max, n)
  }

  lemma BurstStep(max: nat, instant: bool, n: nat, counters: Counters)
    requires 0 < max <= U32_MAX && n < 2 * max && HasBurstWindow(max, n, counters)
    ensures var call := BurstCall(max, instant, n);
            var (next, allowed) := Allowed(counters, max, 1, call.checkedAt, call.countedAt);
            allowed && HasBurstWindow(max, n + 1, next)
  {
  }

  /** The `n` calls have all been let through, all but perhaps the first within one span. */
  ghost predicate AllAdmitted(max: nat, instant: bool, n: nat, calls: seq<Call>) {
    && HasBurstWindow(max, n, Run(max, calls))
    && InSpan(Admitted(max, calls, 1), WINDOW - 1) == if instant && n > 0 then n - 1 else n
  }

  lemma BurstExtends(max: nat, instant: bool, n: nat, calls: seq<Call>, call: Call)
    requires 0 < max <= U32_MAX && n < 2 * max && call == BurstCall(max, instant, n)
    requires AllAdmitted(max, instant, n, calls)
    ensures AllAdmitted(max, instant, n + 1, calls + [call])
  {
    BurstStep(max, instant, n, Run(max, calls));
    RunNext(max, calls, call, 1);
    BetweenAppend(Admitted(max, calls, 1), call.countedAt, WINDOW - 1, 2 * WINDOW - 1);
  }

  lemma BurstRuns(max: nat, instant: bool, n: nat)
    ensures Monotone(Burst(max, instant, n)) && (instant ==> Instant(Burst(max, instant, n)))
  {
  }

  lemma BurstNext(max: nat, instant: bool, n: nat)
    requires n > 0
    ensures Burst(max, instant, n) == Burst(max, instant, n - 1) + [BurstCall(max, instant, n - 1)]
  {
  }

  lemma {:induction false} BurstAdmitted(max: nat, instant: bool, n: nat)
    requires 0 < max <= U32_MAX && n <= 2 * max
    ensures AllAdmitted(max, instant, n, Burst(max, instant, n))
  {
    if n == 0 {
      assert Burst(max, instant, 0) == [];
    } else {
      hide AllAdmitted;
      hide Burst;
      BurstAdmitted(max, instant, n - 1);
      BurstExtends(max, instant, n - 1, Burst(max, instant, n - 1), BurstCall(max, instant, n - 1));
      BurstNext(max, instant, n);
    }
  }

  /** No run of calls lets through more than the bound within one window length. */
  ghost predicate BoundsEveryRun(max: nat, instant: bool, bound: nat) {
    forall calls, peer :: Monotone(calls) && (instant ==> Instant(calls)) ==>
      SpansOk(Admitted(max, calls, peer), bound)
  }

  /** The real limit, exactly: a bound holds for every run if and only if it is at
      least twice the limit, or one less when each call reads the clock once. */
  lemma SharpBound(max: nat, instant: bool, bound: nat)
    requires max <= U32_MAX
    ensures BoundsEveryRun(max, instant, bound) <==> bound >= max + Late(max, instant)
  {
    if bound >= max + Late(max, instant) {
      forall calls, peer | Monotone(calls) && (instant ==> Instant(calls))
        ensures SpansOk(Admitted(max, calls, peer), bound)
      {
        RateBound(max, calls, instant, peer);
        forall t: int ensures InSpan(Admitted(max, calls, peer), t) <= bound {
          assert InSpan(Admitted(max, calls, peer), t) <= max + Late(max, instant);
        }
      }
    } else {
      var calls := Burst(max, instant, 2 * max);
      BurstAdmitted(max, instant, 2 * max);
      BurstRuns(max, instant, 2 * max);
      assert InSpan(Admitted(max, calls, 1), WINDOW - 1) > bound;
    }
  }
}
