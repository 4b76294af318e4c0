/** The sliding-window limiter: a deque of admission times per endpoint. */
module RateLimit {
  datatype Response = Admitted | Refused(retryAfter: int)

  /** The times that are left once everything before `cutoff` has been popped from the front. */
  function Pruned(times: seq<real>, cutoff: real): seq<real> {
    if times != [] && times[0] < cutoff then Pruned(times[1..], cutoff) else times
  }

  /** `int(period - (now - oldest)) + 1`; the operand is not negative, so `int` rounds down. */
  function RetryAfter(period: real, now: real, oldest: real): int { (period - (now - oldest)).Floor + 1 }

  predicate Sorted(times: seq<real>) { forall i, j :: 0 <= i < j < |times| ==> times[i] <= times[j] }

  /** How many of `times` lie in the closed interval from `lo` to `hi`. */
  function CountIn(times: seq<real>, lo: real, hi: real): nat {
    if times == [] then 0
    else CountIn(times[..|times| - 1], lo, hi) + (if lo <= times[|times| - 1] <= hi then 1 else 0)
  }

  /** Any `max + 1` consecutive admissions span more than a period. */
  predicate Spaced(admitted: seq<real>, max: nat, period: real) {
    forall i :: 0 <= i && i + max < |admitted| ==> admitted[i + max] - admitted[i] > period
  }

  lemma {:induction false} PrunedIsSuffix(times: seq<real>, cutoff: real) returns (k: nat)
    requires Sorted(times)
    ensures k <= |times| && Pruned(times, cutoff) == times[k..]
    ensures forall i :: 0 <= i < |times| ==> (i < k <==> times[i] < cutoff)
  {
    if times != [] && times[0] < cutoff {
      k := PrunedIsSuffix(times[1..], cutoff);
      assert times[1..][k..] == times[k + 1..];
      assert forall i :: 1 <= i < |times| ==> times[i] == times[1..][i - 1];
      k := k + 1;
    } else {
      k := 0;
    }
  }

  lemma {:induction false} CountOfSlice(times: seq<real>, lo: real, hi: real, a: nat, b: nat)
    requires a <= b <= |times|
    requires forall i :: 0 <= i < |times| ==> (a <= i < b <==> lo <= times[i] <= hi)
    ensures CountIn(times, lo, hi) == b - a
  {
    if times != [] {
      var n := |times| - 1;
      var front := times[..n];
      assert forall i :: 0 <= i < n ==> front[i] == times[i];
      if a <= n < b {
        assert b == n + 1;
        CountOfSlice(front, lo, hi, a, n);
      } else {
        CountOfSlice(front, lo, hi, if a <= n then a else n, if b <= n then b else n);
      }
    }
  }

  /** The positions of a sorted sequence that fall in an interval are consecutive. */
  lemma SliceOfInterval(times: seq<real>, lo: real, hi: real) returns (a: nat, b: nat)
    requires Sorted(times) && lo <= hi
    ensures a <= b <= |times|
    ensures forall i :: 0 <= i < |times| ==> (a <= i < b <==> lo <= times[i] <= hi)
  {
    a := 0;
    while a < |times| && times[a] < lo
      invariant a <= |times| && forall i :: 0 <= i < a ==> times[i] < lo
    {
      a := a + 1;
    }
    b := a;
    while b < |times| && times[b] <= hi
      invariant a <= b <= |times| && forall i :: a <= i < b ==> lo <= times[i] <= hi
    {
      b := b + 1;
    }
  }

  /** Spacing bounds every window: no closed interval of one period holds more than `max` admissions. */
  lemma SpacedBoundsWindows(admitted: seq<real>, max: nat, period: real, lo: real, hi: real)
    requires Sorted(admitted) && Spaced(admitted, max, period) && lo <= hi <= lo + period
    ensures CountIn(admitted, lo, hi) <= max
  {
    var a, b := SliceOfInterval(admitted, lo, hi);
    CountOfSlice(admitted, lo, hi, a, b);
    assert a + max < |admitted| ==> admitted[a + max] - admitted[a] > period;
  }

  // ---------- The limiter as a step function ----------

  /** The deque, and every admission so far (history, not stored by the program). */
  datatype Limiter = Limiter(timestamps: seq<real>, admitted: seq<real>)

  function Call(l: Limiter, max: nat, period: real, now: real): (Limiter, Response)
    requires max >= 1
  {
    var left := Pruned(l.timestamps, now - period);
    if |left| >= max then (Limiter(left, l.admitted), Refused(RetryAfter(period, now, left[0])))
    else (Limiter(left + [now], l.admitted + [now]), Admitted)
  }

  function Calls(max: nat, period: real, times: seq<real>): Limiter
    requires max >= 1
  {
    if times == [] then Limiter([], [])
    else Call(Calls(max, period, times[..|times| - 1]), max, period, times[|times| - 1]).0
  }

  /** The deque is the end of the admission log; what it dropped is older than `cutoff`. */
  predicate Tracks(l: Limiter, cutoff: real) {
    && |l.timestamps| <= |l.admitted|
    && l.timestamps == l.admitted[|l.admitted| - |l.timestamps|..]
    && forall i :: 0 <= i < |l.admitted| - |l.timestamps| ==> l.admitted[i] < cutoff
  }

  predicate Inv(l: Limiter, max: nat, period: real, now: real) {
    && Sorted(l.admitted) && Spaced(l.admitted, max, period)
    && Tracks(l, now - period) && |l.timestamps| <= max
    && forall i :: 0 <= i < |l.admitted| ==> l.admitted[i] <= now
  }

  lemma SuffixPruned(log: seq<real>, d: nat, j: nat, cutoff: real)
    requires d <= |log| && j <= |log| - d
    requires forall i :: 0 <= i < d ==> log[i] < cutoff
    requires forall i :: 0 <= i < |log| - d ==> (i < j <==> log[d..][i] < cutoff)
    ensures forall i :: 0 <= i < |log| ==> (i < d + j <==> log[i] < cutoff)
    ensures log[d..][j..] == log[d + j..]
  {
    forall i | d <= i < |log| ensures i < d + j <==> log[i] < cutoff {
      assert log[d..][i - d] == log[i];
    }
  }

  lemma SuffixSorted(log: seq<real>, d: nat)
    requires d <= |log| && Sorted(log)
    ensures Sorted(log[d..])
  {
  }

  /** The whole log is pruned where the deque is. */
  lemma PruneLog(l: Limiter, max: nat, period: real, before: real, now: real) returns (k: nat)
    requires Inv(l, max, period, before) && before <= now
    ensures k <= |l.admitted| && Pruned(l.timestamps, now - period) == l.admitted[k..]
    ensures forall i :: 0 <= i < |l.admitted| ==> (i < k <==> l.admitted[i] < now - period)
  {
    var d := |l.admitted| - |l.timestamps|;
    SuffixSorted(l.admitted, d);
    var j := PrunedIsSuffix(l.admitted[d..], now - period);
    SuffixPruned(l.admitted, d, j, now - period);
    k := d + j;
  }

  /** An admission at `now` keeps the spacing when fewer than `max` admissions are left in the window. */
  lemma SpacedSnoc(admitted: seq<real>, max: nat, period: real, k: nat, now: real)
    requires Spaced(admitted, max, period) && k <= |admitted| && |admitted| - k < max
    requires forall i :: 0 <= i < k ==> admitted[i] < now - period
    ensures Spaced(admitted + [now], max, period)
  {
    var longer, n := admitted + [now], |admitted|;
    forall i | 0 <= i && i + max < |longer| ensures longer[i + max] - longer[i] > period {
      if i + max == n {
        assert i < k;
      } else {
        assert longer[i + max] == admitted[i + max] && longer[i] == admitted[i];
      }
    }
  }

  lemma AdmissionKeepsInv(admitted: seq<real>, max: nat, period: real, k: nat, now: real)
    requires period >= 0.0 && Sorted(admitted) && Spaced(admitted, max, period)
    requires k <= |admitted| && |admitted| - k < max
    requires forall i :: 0 <= i < |admitted| ==> admitted[i] <= now && (i < k <==> admitted[i] < now - period)
    ensures Inv(Limiter(admitted[k..] + [now], admitted + [now]), max, period, now)
  {
    SpacedSnoc(admitted, max, period, k, now);
    assert admitted[k..] + [now] == (admitted + [now])[k..];
  }

  lemma CallKeepsInv(l: Limiter, max: nat, period: real, before: real, now: real)
    requires max >= 1 && period >= 0.0 && Inv(l, max, period, before) && before <= now
    ensures Inv(Call(l, max, period, now).0, max, period, now)
  {
    var k := PruneLog(l, max, period, before, now);
    var left := Pruned(l.timestamps, now - period);
    if |left| < max {
      AdmissionKeepsInv(l.admitted, max, period, k, now);
      assert Call(l, max, period, now).0 == Limiter(l.admitted[k..] + [now], l.admitted + [now]);
    } else {
      assert Call(l, max, period, now).0 == Limiter(l.admitted[k..], l.admitted);
      assert |left| <= |l.timestamps| by { PrunedShrinks(l.timestamps, now - period); }
    }
  }

  /** A call is refused when the log holds `max` admissions from position `k` on, which is where the window starts. */
  lemma RefusedFromWindow(l: Limiter, max: nat, period: real, before: real, now: real) returns (k: nat)
    requires max >= 1 && Inv(l, max, period, before) && before <= now
    ensures k <= |l.admitted| && (Call(l, max, period, now).1.Refused? <==> |l.admitted| - k >= max)
    ensures forall i :: 0 <= i < |l.admitted| ==> (i < k <==> l.admitted[i] < now - period)
    ensures Call(l, max, period, now).1.Refused? ==>
      Call(l, max, period, now).1.retryAfter == RetryAfter(period, now, l.admitted[k])
  {
    k := PruneLog(l, max, period, before, now);
    var left := Pruned(l.timestamps, now - period);
    assert |left| == |l.admitted| - k;
    assert |left| >= max ==> left[0] == l.admitted[k];
  }

  /** From a position on, all of the log lies in the window. */
  lemma WindowCount(log: seq<real>, k: nat, lo: real, hi: real)
    requires k <= |log|
    requires forall i :: 0 <= i < |log| ==> log[i] <= hi && (i < k <==> log[i] < lo)
    ensures CountIn(log, lo, hi) == |log| - k
  {
    CountOfSlice(log, lo, hi, k, |log|);
  }

  /** Exactly the admissions of the closed preceding period decide a call. */
  lemma CallDecidedByWindow(l: Limiter, max: nat, period: real, before: real, now: real)
    requires max >= 1 && period >= 0.0 && Inv(l, max, period, before) && before <= now
    ensures Call(l, max, period, now).1.Refused? <==> CountIn(l.admitted, now - period, now) >= max
    ensures CountIn(l.admitted, now - period, now) <= max
  {
    var k := RefusedFromWindow(l, max, period, before, now);
    WindowCount(l.admitted, k, now - period, now);
    SpacedBoundsWindows(l.admitted, max, period, now - period, now);
  }

  lemma {:induction false} CallsKeepInv(max: nat, period: real, times: seq<real>, now: real)
    requires max >= 1 && period >= 0.0 && Sorted(times)
    requires forall i :: 0 <= i < |times| ==> times[i] <= now
    ensures Inv(Calls(max, period, times), max, period, now)
    decreases |times|
  {
    if times != [] {
      var front, last := times[..|times| - 1], times[|times| - 1];
      assert forall i :: 0 <= i < |front| ==> front[i] == times[i];
      CallsKeepInv(max, period, front, last);
      CallKeepsInv(Calls(max, period, front), max, period, last, last);
      LaterKeepsInv(Calls(max, period, times), max, period, last, now);
    }
  }

  lemma LaterKeepsInv(l: Limiter, max: nat, period: real, before: real, now: real)
    requires Inv(l, max, period, before) && before <= now
    ensures Inv(l, max, period, now)
  {
  }

  // ---------- Results over all runs with a monotone clock ----------

  /** In any run, no closed interval of one period contains more than `max` admitted calls. */
  lemma WindowNeverExceeded(max: nat, period: real, times: seq<real>, lo: real, hi: real)
    requires max >= 1 && period >= 0.0 && Sorted(times) && lo <= hi <= lo + period
    ensures CountIn(Calls(max, period, times).admitted, lo, hi) <= max
  {
    var now := if times == [] then 0.0 else times[|times| - 1];
    CallsKeepInv(max, period, times, now);
    SpacedBoundsWindows(Calls(max, period, times).admitted, max, period, lo, hi);
  }

  /** In any run, a call is refused exactly when the preceding period already holds `max` admissions. */
  lemma RefusedIffWindowFull(max: nat, period: real, times: seq<real>, now: real)
    requires max >= 1 && period >= 0.0 && Sorted(times) && forall i :: 0 <= i < |times| ==> times[i] <= now
    ensures var l := Calls(max, period, times);
            Call(l, max, period, now).1.Refused? <==> CountIn(l.admitted, now - period, now) == max
  {
    CallsKeepInv(max, period, times, now);
    CallDecidedByWindow(Calls(max, period, times), max, period, now, now);
  }

  /** With the log unchanged since a refusal at `now`, a later call is admitted iff the oldest of that window left. */
  lemma AdmittedOnceOldestLeft(l: Limiter, max: nat, period: real, k: nat, now: real, later: real)
    requires max >= 1 && Inv(l, max, period, later) && now <= later
    requires |l.admitted| - k == max && forall i :: 0 <= i < k ==> l.admitted[i] < now - period
    ensures Call(l, max, period, later).1.Admitted? <==> l.admitted[k] < later - period
  {
    var j := RefusedFromWindow(l, max, period, later, later);
    assert k < j <==> l.admitted[k] < later - period;
    assert k > 0 ==> l.admitted[k - 1] < later - period;
  }

  lemma LeastWait(period: real, now: real, oldest: real, wait: int)
    ensures oldest < now + wait as real - period <==> wait >= RetryAfter(period, now, oldest)
  {
  }

  /** What a refusal advises: between 1 and period + 1 seconds, counted from the oldest admission of the window. */
  lemma RefusalAdvice(l: Limiter, max: nat, period: real, now: real) returns (k: nat)
    requires max >= 1 && period >= 0.0 && Inv(l, max, period, now) && Call(l, max, period, now).1.Refused?
    ensures |l.admitted| - k == max && forall i :: 0 <= i < k ==> l.admitted[i] < now - period
    ensures var retry := Call(l, max, period, now).1.retryAfter;
            && retry == RetryAfter(period, now, l.admitted[k])
            && 1 <= retry && retry as real <= period + 1.0
  {
    k := RefusedFromWindow(l, max, period, now, now);
    WindowCount(l.admitted, k, now - period, now);
    CallDecidedByWindow(l, max, period, now, now);
    assert now - period <= l.admitted[k] <= now;
  }

  /** The advice of `l`, taken up at a limiter with the same log. */
  lemma AdviceExact(l: Limiter, l': Limiter, max: nat, period: real, now: real, wait: nat)
    requires max >= 1 && period >= 0.0 && Inv(l, max, period, now) && Call(l, max, period, now).1.Refused?
    requires Inv(l', max, period, now + wait as real) && l'.admitted == l.admitted
    ensures var retry := Call(l, max, period, now).1.retryAfter;
            && 1 <= retry && retry as real <= period + 1.0
            && (Call(l', max, period, now + wait as real).1.Admitted? <==> wait >= retry)
  {
    var k := RefusalAdvice(l, max, period, now);
    AdmittedOnceOldestLeft(l', max, period, k, now, now + wait as real);
    LeastWait(period, now, l.admitted[k], wait);
  }

  /**
   * The advice is exact: 1 <= retry <= period + 1, and after a refusal, whatever further calls were refused since, a
   * call after `wait` whole seconds is admitted if and only if `wait` is at least the advice.
   */
  lemma RetryAfterIsEnough(max: nat, period: real, times: seq<real>, now: real, all: seq<real>, wait: nat)
    requires max >= 1 && period >= 0.0 && Sorted(times) && forall i :: 0 <= i < |times| ==> times[i] <= now
    requires Call(Calls(max, period, times), max, period, now).1.Refused?
    requires Sorted(all) && forall i :: 0 <= i < |all| ==> all[i] <= now + wait as real
    requires Calls(max, period, all).admitted == Calls(max, period, times).admitted
    ensures var retry := Call(Calls(max, period, times), max, period, now).1.retryAfter;
            && 1 <= retry && retry as real <= period + 1.0
            && (Call(Calls(max, period, all), max, period, now + wait as real).1.Admitted? <==> wait >= retry)
  {
    CallsKeepInv(max, period, times, now);
    CallsKeepInv(max, period, all, now + wait as real);
    AdviceExact(Calls(max, period, times), Calls(max, period, all), max, period, now, wait);
  }

  lemma {:induction false} PrunedShrinks(times: seq<real>, cutoff: real)
    ensures |Pruned(times, cutoff)| <= |times|
    ensures times != [] && times[0] < cutoff ==> |Pruned(times, cutoff)| < |times|
  {
    if times != [] && times[0] < cutoff { PrunedShrinks(times[1..], cutoff); }
  }

  // ---------- The decorator ----------

  class RateLimiter {
    const maxCalls: nat
    const period: real
    var timestamps: seq<real>
    /** Every call's time, and the admissions among them. */
    ghost var calls: seq<real>
    ghost var admitted: seq<real>

    ghost predicate Valid()
      reads this
    {
      && maxCalls >= 1 && period >= 0.0 && Sorted(calls)
      && Limiter(timestamps, admitted) == Calls(maxCalls, period, calls)
    }

    constructor (maxCalls: nat, period: real)
      requires maxCalls >= 1 && period >= 0.0
      ensures Valid() && this.maxCalls == maxCalls && this.period == period && calls == [] && admitted == []
    {
      this.maxCalls, this.period := maxCalls, period;
      timestamps, calls, admitted := [], [], [];
    }

    /** Admissions older than `cutoff` leave from the front. */
    method Expire(cutoff: real)
      modifies this`timestamps
      ensures timestamps == Pruned(old(timestamps), cutoff)
    {
      while timestamps != [] && timestamps[0] < cutoff
        invariant Pruned(timestamps, cutoff) == Pruned(old(timestamps), cutoff)
        decreases |timestamps|
      {
        timestamps := timestamps[1..];
      }
    }

    /** The wrapper, at a time no earlier than the last call's. */
    method Handle(now: real) returns (r: Response)
      requires Valid() && forall i :: 0 <= i < |calls| ==> calls[i] <= now
      modifies this
      ensures Valid() && calls == old(calls) + [now]
      ensures r == Call(Limiter(old(timestamps), old(admitted)), maxCalls, period, now).1
      ensures admitted == if r.Admitted? then old(admitted) + [now] else old(admitted)
      ensures r.Refused? <==> CountIn(old(admitted), now - period, now) == maxCalls
    {
      RefusedIffWindowFull(maxCalls, period, calls, now);
      ghost var before := Limiter(timestamps, admitted);
      assert (calls + [now])[..|calls|] == calls;
      calls := calls + [now];
      Expire(now - period);
      if |timestamps| >= maxCalls {
        r := Refused((period - (now - timestamps[0])).Floor + 1);
      } else {
        timestamps := timestamps + [now];
        admitted := admitted + [now];
        r := Admitted;
      }
    }
  }
}
