/** The per-session frame-rate window (server.cpp). */
module RateWindow {

  // steady_clock counts nanoseconds; the code compares whole milliseconds.
  const NANOS_PER_MILLI: nat := 1_000_000
  const WINDOW_MILLIS: nat := 1000
  const SECOND: nat := 1_000_000_000

  // ---------- Specification ----------

  datatype Window = Window(count: nat, start: nat)

  /** duration_cast truncates toward zero. */
  function Millis(nanos: int): int {
    if nanos >= 0 then nanos / NANOS_PER_MILLI else -(-nanos / NANOS_PER_MILLI)
  }

  predicate Expired(w: Window, now: nat) { Millis(now - w.start) >= WINDOW_MILLIS }

  /** What one frame does to the window; refused frames count too. */
  function Count(w: Window, now: nat): Window {
    if Expired(w, now) then Window(1, now) else w.(count := w.count + 1)
  }

  /** One session's frames: its limit, when it was identified, and when each frame came. */
  datatype Run = Run(max: nat, start: nat, clocks: seq<nat>)

  ghost predicate Steady(r: Run) {
    && (forall i :: 0 <= i < |r.clocks| ==> r.start <= r.clocks[i])
    && (forall i, j :: 0 <= i <= j < |r.clocks| ==> r.clocks[i] <= r.clocks[j])
  }

  /** The window before frame n. */
  function WindowAt(r: Run, n: nat): Window
    requires n <= |r.clocks|
  {
    if n == 0 then Window(0, r.start) else Count(WindowAt(r, n - 1), r.clocks[n - 1])
  }

  predicate Resets(r: Run, n: nat)
    requires n < |r.clocks|
  {
    Expired(WindowAt(r, n), r.clocks[n])
  }

  predicate Dispatched(r: Run, n: nat)
    requires n < |r.clocks|
  {
    WindowAt(r, n + 1).count <= r.max
  }

  /** How many of the frames lo, ..., hi - 1 are dispatched. */
  function Passed(r: Run, lo: nat, hi: nat): nat
    requires lo <= hi <= |r.clocks|
    decreases hi
  {
    if lo == hi then 0 else Passed(r, lo, hi - 1) + if Dispatched(r, hi - 1) then 1 else 0
  }

  ghost predicate NoReset(r: Run, lo: nat, hi: nat)
    requires lo <= hi <= |r.clocks|
  {
    forall i :: lo <= i < hi ==> !Resets(r, i)
  }

  // ---------- Between two resets ----------

  /** Without a reset after frame lo, the count tells how many were let through. */
  lemma {:induction false} CountPassed(r: Run, lo: nat, hi: nat)
    requires lo < hi <= |r.clocks| && NoReset(r, lo + 1, hi)
    ensures
      var before := WindowAt(r, lo + 1).count - 1;
      && WindowAt(r, hi).count == before + (hi - lo) && WindowAt(r, hi).start == WindowAt(r, lo + 1).start
      && Passed(r, lo, hi) == if before >= r.max then 0 else if before + (hi - lo) <= r.max then hi - lo else r.max - before
    decreases hi
  {
    if hi == lo + 1 {
      assert Passed(r, lo, lo) == 0;
    } else {
      CountPassed(r, lo, hi - 1);
      assert !Resets(r, hi - 1);
    }
  }

  /** At most max frames are dispatched between two window resets. */
  lemma AtMostMax(r: Run, lo: nat, hi: nat)
    requires lo <= hi <= |r.clocks|
    requires forall i :: lo < i < hi ==> !Resets(r, i)
    ensures Passed(r, lo, hi) <= r.max
  {
    if lo < hi { CountPassed(r, lo, hi); }
  }

  /** The exact rule: after the reset at frame lo, a later frame of the same
      window is refused if and only if max frames have been dispatched since. */
  lemma RefusedIff(r: Run, lo: nat, n: nat)
    requires r.max > 0 && lo < n < |r.clocks| && Resets(r, lo) && NoReset(r, lo + 1, n + 1)
    ensures Dispatched(r, n) <==> Passed(r, lo, n) < r.max
  {
    CountPassed(r, lo, n);
    CountPassed(r, lo, n + 1);
  }

  // ---------- In any interval of time ----------

  lemma {:induction false} PassedSplits(r: Run, lo: nat, mid: nat, hi: nat)
    requires lo <= mid <= hi <= |r.clocks|
    ensures Passed(r, lo, hi) == Passed(r, lo, mid) + Passed(r, mid, hi)
    decreases hi
  {
    if mid < hi { PassedSplits(r, lo, mid, hi - 1); }
  }

  /** The first reset among the frames lo, ..., hi - 1; hi if there is none. */
  function FirstReset(r: Run, lo: nat, hi: nat): (n: nat)
    requires lo <= hi <= |r.clocks|
    ensures lo <= n <= hi && NoReset(r, lo, n) && (n < hi ==> Resets(r, n))
    decreases hi - lo
  {
    if lo == hi || Resets(r, lo) then lo else FirstReset(r, lo + 1, hi)
  }

  /** Two resets are at least a second apart. */
  lemma ResetsApart(r: Run, first: nat, next: nat)
    requires Steady(r) && first < next < |r.clocks| && Resets(r, first) && Resets(r, next) && NoReset(r, first + 1, next)
    ensures r.clocks[next] - r.clocks[first] >= SECOND
  {
    CountPassed(r, first, next);
    assert r.clocks[first] <= r.clocks[next];
  }

  lemma OneMore(k: nat, max: nat)
    requires k > 0
    ensures k * max == (k - 1) * max + max && k * max >= max
  {
    assert (k - 1) * max >= 0;
  }

  /** From a reset on, k seconds see at most k * max frames dispatched. */
  lemma {:induction false} AfterReset(r: Run, lo: nat, hi: nat, k: nat)
    requires Steady(r) && lo < hi <= |r.clocks| && Resets(r, lo)
    requires r.clocks[hi - 1] - r.clocks[lo] < k * SECOND
    ensures Passed(r, lo, hi) <= k * r.max
    decreases k
  {
    hide WindowAt, Resets, Dispatched, Passed, FirstReset;
    var next := FirstReset(r, lo + 1, hi);
    AtMostMax(r, lo, next);
    PassedSplits(r, lo, next, hi);
    assert r.clocks[lo] <= r.clocks[hi - 1];
    OneMore(k, r.max);
    if next < hi {
      ResetsApart(r, lo, next);
      AfterReset(r, next, hi, k - 1);
    }
  }

  /** For every steady clock: in any half-open interval of k seconds at most
      (k + 1) * max frames are dispatched, whatever came before it. */
  lemma IntervalBound(r: Run, lo: nat, hi: nat, from: int, k: nat)
    requires Steady(r) && lo <= hi <= |r.clocks|
    requires forall i :: lo <= i < hi ==> from <= r.clocks[i] < from + k * SECOND
    ensures Passed(r, lo, hi) <= (k + 1) * r.max
  {
    hide WindowAt, Resets, Dispatched, FirstReset;
    if lo < hi {
      var next := FirstReset(r, lo + 1, hi);
      AtMostMax(r, lo, next);
      PassedSplits(r, lo, next, hi);
      OneMore(k + 1, r.max);
      if next < hi {
        assert r.clocks[hi - 1] < from + k * SECOND && from <= r.clocks[next];
        AfterReset(r, next, hi, k);
      }
    }
  }

  /** Twice the limit in any second, as the two windows that can meet in it allow. */
  lemma TwicePerSecond(r: Run, lo: nat, hi: nat, from: int)
    requires Steady(r) && lo <= hi <= |r.clocks|
    requires forall i :: lo <= i < hi ==> from <= r.clocks[i] < from + SECOND
    ensures Passed(r, lo, hi) <= 2 * r.max
  {
    IntervalBound(r, lo, hi, from, 1);
  }

  // ---------- The bound is reached ----------

  /** max frames at the last nanosecond of a window and max at the next one. */
  function Burst(max: nat): Run {
    Run(max, 0, seq(2 * max, i requires 0 <= i < 2 * max => if i < max then SECOND - 1 else SECOND))
  }

  lemma {:induction false} BurstWindow(max: nat, n: nat)
    requires n <= 2 * max
    ensures WindowAt(Burst(max), n) == if n <= max then Window(n, 0) else Window(n - max, SECOND)
    ensures Passed(Burst(max), 0, n) == n
  {
    if n > 0 {
      BurstWindow(max, n - 1);
    }
  }

  /** Every frame of that burst is dispatched: 2 * max of them within two nanoseconds. */
  lemma TwiceIsReached(max: nat)
    ensures Steady(Burst(max)) && |Burst(max).clocks| == 2 * max
    ensures forall i :: 0 <= i < 2 * max ==> SECOND - 1 <= Burst(max).clocks[i] <= SECOND
    ensures Passed(Burst(max), 0, 2 * max) == 2 * max
  {
    BurstWindow(max, 2 * max);
  }

  // ---------- The fields ----------

  /** The window fields of an InternalSession. */
  class SessionWindow {
    var frameCount: nat
    var windowStart: nat

    ghost function Model(): Window
      reads this
    {
      Window(frameCount, windowStart)
    }

    constructor (now: nat)
      ensures Model() == Window(0, now)
    {
      frameCount, windowStart := 0, now;
    }

    /** Whether a frame that arrives now is dispatched; a limit of zero or less is no limit. */
    method Admit(now: nat, maxFramesPerSec: int) returns (dispatch: bool)
      modifies this
      ensures maxFramesPerSec <= 0 ==> dispatch && Model() == old(Model())
      ensures maxFramesPerSec > 0 ==>
        Model() == Count(old(Model()), now) && (dispatch <==> Model().count <= maxFramesPerSec)
    {
      if maxFramesPerSec <= 0 {
        return true;
      }
      var elapsed := Millis(now - windowStart);
      if elapsed >= WINDOW_MILLIS {
        frameCount := 0;
        windowStart := now;
      }
      frameCount := frameCount + 1;
      return frameCount <= maxFramesPerSec;
    }
  }

  /** A whole run through the fields: frame by frame it dispatches what Dispatched says. */
  method Replay(r: Run) returns (dispatched: seq<bool>)
    requires r.max > 0
    ensures |dispatched| == |r.clocks|
    ensures forall i :: 0 <= i < |r.clocks| ==> (dispatched[i] <==> Dispatched(r, i))
  {
    var w := new SessionWindow(r.start);
    dispatched := [];
    for i := 0 to |r.clocks|
      invariant |dispatched| == i && w.Model() == WindowAt(r, i)
      invariant forall j :: 0 <= j < i ==> (dispatched[j] <==> Dispatched(r, j))
    {
      var ok := w.Admit(r.clocks[i], r.max);
      dispatched := dispatched + [ok];
    }
  }
}
