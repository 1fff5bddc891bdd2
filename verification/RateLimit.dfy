/** The fixed-window rate limiter of a server session: twenty messages per window of at least one second. */
module RateLimit {

  /** Clock ticks per second (the steady clock counts nanoseconds). */
  const SECOND: nat := 1_000_000_000

  const QUOTA: nat := 20

  datatype Window = Window(start: int, used: nat)

  /** One arrival at time `now`: the window restarts once a second has passed, then the arrival is counted. */
  function Arrive(w: Window, now: int): Window {
    var current := if now - w.start >= SECOND then Window(now, 0) else w;
    current.(used := current.used + 1)
  }

  predicate Accepts(w: Window, now: int) {
    Arrive(w, now).used <= QUOTA
  }

  function AfterAll(w: Window, times: seq<int>): Window {
    if times == [] then w else Arrive(AfterAll(w, times[..|times| - 1]), times[|times| - 1])
  }

  /** How many of the arrivals at times in `[from, to)` are accepted. */
  function AcceptedIn(w: Window, times: seq<int>, from: int, to: int): nat {
    if times == [] then 0
    else
      var before, now := times[..|times| - 1], times[|times| - 1];
      AcceptedIn(w, before, from, to)
      + if from <= now < to && Accepts(AfterAll(w, before), now) then 1 else 0
  }

  ghost predicate Monotone(w: Window, times: seq<int>) {
    && (forall i :: 0 <= i < |times| ==> w.start <= times[i])
    && (forall i, j :: 0 <= i < j < |times| ==> times[i] <= times[j])
  }

  function Min(a: int, b: int): int { if a < b then a else b }

  /**
   `m` windows have started at or after `from`, so the current one started at least `m - 1` seconds after
   it; each of them, and the one that was open at `from`, accounts for at most twenty acceptances.
   */
  ghost predicate Accounted(w: Window, from: int, accepted: nat, m: nat) {
    && (m == 0 ==> accepted <= Min(w.used, QUOTA))
    && (m > 0 ==> w.start >= from + (m - 1) * SECOND && accepted <= QUOTA * m + Min(w.used, QUOTA))
  }

  lemma {:induction false} WindowsAccount(w: Window, times: seq<int>, from: int, to: int) returns (m: nat)
    requires Monotone(w, times)
    ensures Accounted(AfterAll(w, times), from, AcceptedIn(w, times, from, to), m)
    ensures times != [] ==> AfterAll(w, times).start <= times[|times| - 1]
    ensures m == 0 ==> AfterAll(w, times).start < from || AcceptedIn(w, times, from, to) == 0
    decreases |times|
  {
    if times == [] {
      m := 0;
    } else {
      var before, now := times[..|times| - 1], times[|times| - 1];
      m := WindowsAccount(w, before, from, to);
      if now - AfterAll(w, before).start >= SECOND && now >= from {
        assert AfterAll(w, times).start == now;
        assert m > 0 ==> now >= from + m * SECOND;
        m := m + 1;
      } else if now - AfterAll(w, before).start >= SECOND {
        EarlierCountsNothing(w, times, from, to);
        m := 0;
      } else if m == 0 && AfterAll(w, before).start >= from {
        m := 1;
      }
    }
  }

  /** Before `from` nothing is counted. */
  lemma {:induction false} EarlierCountsNothing(w: Window, times: seq<int>, from: int, to: int)
    requires Monotone(w, times)
    requires times != [] && times[|times| - 1] < from
    ensures AcceptedIn(w, times, from, to) == 0
    decreases |times|
  {
    var before := times[..|times| - 1];
    if before != [] {
      EarlierCountsNothing(w, before, from, to);
    }
  }

  /** Arrivals at or after the end of the interval do not count. */
  lemma LaterCountsNothing(w: Window, times: seq<int>, from: int, to: int)
    requires times != [] && times[|times| - 1] >= to
    ensures AcceptedIn(w, times, from, to) == AcceptedIn(w, times[..|times| - 1], from, to)
  {
  }

  /** In any half-open interval of `k` seconds at most `20 * (k + 1)` messages are accepted. */
  lemma {:induction false} BoundedRate(w: Window, times: seq<int>, from: int, k: nat)
    requires Monotone(w, times)
    requires k >= 1
    ensures AcceptedIn(w, times, from, from + k * SECOND) <= QUOTA * (k + 1)
    decreases |times|
  {
    var to := from + k * SECOND;
    if times == [] {
    } else if times[|times| - 1] >= to {
      LaterCountsNothing(w, times, from, to);
      BoundedRate(w, times[..|times| - 1], from, k);
    } else {
      var m := WindowsAccount(w, times, from, to);
      if m > 0 {
        assert from + (m - 1) * SECOND < from + k * SECOND;
        assert m - 1 < k;
      }
    }
  }

  // ---------------------------------------------------------------- nobody is refused without cause

  /** How many of the arrivals came at or after `from`. */
  function ArrivedSince(times: seq<int>, from: int): nat {
    if times == [] then 0
    else ArrivedSince(times[..|times| - 1], from) + if times[|times| - 1] >= from then 1 else 0
  }

  lemma {:induction false} SinceEarlier(times: seq<int>, from: int, to: int)
    requires from <= to
    ensures ArrivedSince(times, to) <= ArrivedSince(times, from)
    decreases |times|
  {
    if times != [] {
      SinceEarlier(times[..|times| - 1], from, to);
    }
  }

  /** A window counts arrivals since its start, refused ones included. */
  lemma {:induction false} UsedArrived(w: Window, times: seq<int>)
    requires Monotone(w, times) && w.used == 0
    ensures AfterAll(w, times).used <= ArrivedSince(times, AfterAll(w, times).start)
    decreases |times|
  {
    if times != [] {
      var before := times[..|times| - 1];
      UsedArrived(w, before);
      StartKept(w, before);
    }
  }

  lemma {:induction false} StartKept(w: Window, times: seq<int>)
    requires Monotone(w, times)
    ensures AfterAll(w, times).start == w.start || AfterAll(w, times).start in times
    decreases |times|
  {
    if times != [] {
      StartKept(w, times[..|times| - 1]);
    }
  }

  /** An arrival is refused only if at least twenty others came in the second that ends with it. */
  lemma RefusedOnlyWhenBusy(w: Window, times: seq<int>, now: int)
    requires Monotone(w, times + [now]) && w.used == 0 && !Accepts(AfterAll(w, times), now)
    ensures ArrivedSince(times, now - 999_999_999) >= 20
  {
    var all := times + [now];
    assert forall i :: 0 <= i < |times| ==> all[i] == times[i];
    UsedArrived(w, times);
    SinceEarlier(times, now - SECOND + 1, AfterAll(w, times).start);
  }

  // ---------------------------------------------------------------- the bound is attained

  /** `times` followed by `n` arrivals at one instant. */
  function Burst(times: seq<int>, now: int, n: nat): seq<int> {
    if n == 0 then times else Burst(times, now, n - 1) + [now]
  }

  /** Twenty arrivals at tick 1, then twenty at the start of each of the next `k` seconds. */
  function Bursts(k: nat): seq<int> {
    if k == 0 then Burst([], 1, QUOTA) else Burst(Bursts(k - 1), k * SECOND, QUOTA)
  }

  lemma OneMore(w: Window, times: seq<int>, now: int, from: int, to: int)
    requires from <= now < to
    ensures AfterAll(w, times + [now]) == Arrive(AfterAll(w, times), now)
    ensures AcceptedIn(w, times + [now], from, to)
            == AcceptedIn(w, times, from, to) + if Accepts(AfterAll(w, times), now) then 1 else 0
  {
    var all := times + [now];
    assert all[..|all| - 1] == times;
  }

  /** Up to twenty arrivals at one instant that finds its window unused are all accepted. */
  lemma {:induction false} BurstAccepted(w: Window, times: seq<int>, now: int, n: nat, from: int, to: int)
    requires from <= now < to
    requires now - AfterAll(w, times).start >= SECOND || AfterAll(w, times).used == 0
    requires n <= QUOTA
    ensures AcceptedIn(w, Burst(times, now, n), from, to) == AcceptedIn(w, times, from, to) + n
    ensures n > 0 ==> AfterAll(w, Burst(times, now, n)) == Arrive(AfterAll(w, times), now).(used := n)
    decreases n
  {
    if n > 0 {
      BurstAccepted(w, times, now, n - 1, from, to);
      OneMore(w, Burst(times, now, n - 1), now, from, to);
    }
  }

  lemma {:induction false} BurstsAccepted(k: nat, to: int)
    requires to > k * SECOND && to > 1
    ensures AcceptedIn(Window(0, 0), Bursts(k), 1, to) == QUOTA * (k + 1)
    ensures AfterAll(Window(0, 0), Bursts(k)) == Window(k * SECOND, QUOTA)
    decreases k
  {
    if k == 0 {
      BurstAccepted(Window(0, 0), [], 1, QUOTA, 1, to);
    } else {
      BurstsAccepted(k - 1, to);
      BurstAccepted(Window(0, 0), Bursts(k - 1), k * SECOND, QUOTA, 1, to);
    }
  }

  /** All of `times` lie between `lo` and `hi` and do not decrease. */
  ghost predicate Rising(times: seq<int>, lo: int, hi: int) {
    && (forall i :: 0 <= i < |times| ==> lo <= times[i] <= hi)
    && (forall i, j :: 0 <= i < j < |times| ==> times[i] <= times[j])
  }

  lemma {:induction false} BurstRising(times: seq<int>, now: int, n: nat, lo: int)
    requires lo <= now && Rising(times, lo, now)
    ensures Rising(Burst(times, now, n), lo, now)
    decreases n
  {
    if n > 0 {
      BurstRising(times, now, n - 1, lo);
    }
  }

  lemma {:induction false} BurstsRising(k: nat)
    ensures Rising(Bursts(k), 0, if k == 0 then 1 else k * SECOND)
    decreases k
  {
    if k == 0 {
      BurstRising([], 1, QUOTA, 0);
    } else {
      BurstsRising(k - 1);
      BurstRising(Bursts(k - 1), k * SECOND, QUOTA, 0);
    }
  }

  /** The bound is tight for every `k`: these monotone arrivals reach it. */
  lemma RateBoundIsTight(k: nat)
    requires k >= 1
    ensures Monotone(Window(0, 0), Bursts(k))
    ensures AcceptedIn(Window(0, 0), Bursts(k), 1, 1 + k * SECOND) == QUOTA * (k + 1)
  {
    BurstsRising(k);
    BurstsAccepted(k, 1 + k * SECOND);
  }
}
