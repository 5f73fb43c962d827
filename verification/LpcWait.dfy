/** The wait loop of src/comm-lpc.cc: it polls the EC's status after sleeps that start at five
    microseconds and double up to ten milliseconds.
 */
module LpcWait {

  const INITIAL_UDELAY: int := 5
  const MAXIMUM_UDELAY: int := 10000
  const INT_MAX: int := 0x7FFF_FFFF

  function Min(a: int, b: int): int {
    if a < b then a else b
  }

  /** The delay in effect at poll `k`, counted from zero: the first six polls are rapid. */
  function Delay(k: nat): (d: int)
    ensures INITIAL_UDELAY <= d <= MAXIMUM_UDELAY
  {
    if k <= 5 then INITIAL_UDELAY else Min(2 * Delay(k - 1), MAXIMUM_UDELAY)
  }

  /** The value of the loop counter at poll `k`. */
  function Counter(k: nat): int {
    if k == 0 then 0 else Counter(k - 1) + Delay(k)
  }

  function Total(sleeps: seq<int>): int {
    if sleeps == [] then 0 else Total(sleeps[..|sleeps| - 1]) + sleeps[|sleeps| - 1]
  }

  lemma {:induction false} CounterGrows(j: nat, k: nat)
    requires j <= k
    ensures Counter(j) + 5 * (k - j) <= Counter(k)
    decreases k
  {
    if j < k {
      CounterGrows(j, k - 1);
    }
  }

  lemma FirstCounters()
    ensures Counter(4) == 20 && Counter(5) == 25 && Counter(15) == 10255 && Delay(15) == 5120
  {
    assert Delay(6) == 10 && Delay(7) == 20 && Delay(8) == 40 && Delay(9) == 80 && Delay(10) == 160;
    assert Delay(11) == 320 && Delay(12) == 640 && Delay(13) == 1280 && Delay(14) == 2560;
    assert Counter(2) == 10 && Counter(4) == 20 && Counter(6) == 35 && Counter(8) == 95;
    assert Counter(10) == 335 && Counter(12) == 1295 && Counter(14) == 5135;
  }

  /** From poll 15 on the counter advances by the maximum delay. */
  lemma {:induction false} LateCounter(k: nat)
    requires k >= 15
    ensures Counter(k) == 10255 + 10000 * (k - 15)
    ensures k > 15 ==> Delay(k) == MAXIMUM_UDELAY
    decreases k
  {
    FirstCounters();
    if k > 15 {
      LateCounter(k - 1);
    }
  }

  /** The delay doubles exactly when the counter has passed 20. */
  lemma DelayStep(k: nat)
    ensures Delay(k + 1) == if Counter(k) > 20 then Min(2 * Delay(k), MAXIMUM_UDELAY) else Delay(k)
  {
    FirstCounters();
    if k <= 4 {
      CounterGrows(k, 4);
    } else {
      CounterGrows(5, k);
    }
  }

  /** Fewer than one poll in ten milliseconds, and at most fifteen more. */
  lemma PollBound(polls: nat, timeout: int)
    requires polls > 0 && Counter(polls - 1) < timeout
    ensures polls <= 15 + timeout / 10000
  {
    if polls > 15 {
      LateCounter(polls - 1);
    } else {
      CounterGrows(0, polls - 1);
    }
  }

  /** The argument of usleep before poll `k`: the delay, unless less time is left. */
  function Nap(k: nat, timeout: int): int {
    Min(Delay(k), timeout - Counter(k))
  }

  function Naps(n: nat, timeout: int): (s: seq<int>)
    ensures |s| == n && forall k :: 0 <= k < n ==> s[k] == Nap(k, timeout)
  {
    seq(n, k requires 0 <= k < n => Nap(k, timeout))
  }

  lemma NapsNext(n: nat, timeout: int)
    ensures Total(Naps(n + 1, timeout)) == Total(Naps(n, timeout)) + Nap(n, timeout)
    ensures Naps(n + 1, timeout) == Naps(n, timeout) + [Nap(n, timeout)]
  {
    hide Nap;
    assert Naps(n + 1, timeout)[..n] == Naps(n, timeout);
  }

  lemma CounterStep(k: nat)
    ensures Counter(k + 1) == Counter(k) + Delay(k + 1)
  {
  }

  /** Only the last sleep is ever cut short. */
  lemma OnlyLastClipped(n: nat, timeout: int, k: nat)
    requires k + 1 < n && Counter(n - 1) < timeout
    ensures Nap(k, timeout) == Delay(k)
  {
    CounterGrows(k + 1, n - 1);
    CounterStep(k);
    DelayStep(k);
    hide Counter, Delay;
  }

  lemma Start()
    ensures Counter(0) == 0 && Delay(0) == INITIAL_UDELAY && forall t :: Naps(0, t) == [] && Total(Naps(0, t)) == 0
  {
  }

  /** The counter runs ahead of the time slept by what the delay has grown. */
  lemma {:induction false} NapsTotal(n: nat, timeout: int)
    requires n > 0 ==> Counter(n - 1) < timeout
    ensures if Counter(n) < timeout
            then Total(Naps(n, timeout)) == Counter(n) - (Delay(n) - INITIAL_UDELAY)
            else n > 0 ==> timeout - 9995 <= Total(Naps(n, timeout)) <= timeout
    decreases n
  {
    hide Naps, Total, Counter, Delay, Min;
    Start();
    if n > 0 {
      if n > 1 {
        CounterGrows(n - 2, n - 1);
      }
      NapsTotal(n - 1, timeout);
      NapsNext(n - 1, timeout);
      CounterStep(n - 1);
      DelayGrows(n - 1);
      MinIs(Delay(n - 1), timeout - Counter(n - 1));
    }
  }

  lemma DelayGrows(k: nat)
    ensures Delay(k) <= Delay(k + 1)
  {
    DelayStep(k);
  }

  lemma MinIs(a: int, b: int)
    ensures Min(a, b) == a <= b || Min(a, b) == b < a
  {
  }

  /** Every poll that comes before the timeout finds the EC busy. */
  ghost predicate TimesOut(busy: nat -> bool, timeout: int) {
    forall k: nat :: Counter(k) < timeout ==> busy(k)
  }

  lemma TimesOutIff(busy: nat -> bool, timeout: int, n: nat)
    requires timeout <= Counter(n)
    requires forall k :: 0 <= k < n ==> busy(k)
    ensures TimesOut(busy, timeout)
  {
    forall k: nat | Counter(k) < timeout
      ensures busy(k)
    {
      if n <= k {
        CounterGrows(n, k);
      }
    }
  }

  lemma FoundIdle(busy: nat -> bool, timeout: int, k: nat)
    requires Counter(k) < timeout && !busy(k)
    ensures !TimesOut(busy, timeout)
  {
  }

  /** wait_for_ec. `busy` says what poll `k` finds; `sleeps` are the arguments given to usleep.
      It returns 0 at the first poll that finds the EC idle, and -1 if the polls whose counter
      is below the timeout all find it busy. */
  method WaitForEc(busy: nat -> bool, timeout: int) returns (ret: int, sleeps: seq<int>)
    requires timeout <= 0x7FFF_FFFF - 10000
    ensures ret == if TimesOut(busy, timeout) then -1 else 0
    ensures ret == 0 ==> |sleeps| > 0 && !busy(|sleeps| - 1)
    ensures forall k :: 0 <= k < |sleeps| && (ret == -1 || k < |sleeps| - 1) ==> busy(k)
    ensures |sleeps| > 0 ==> Counter(|sleeps| - 1) < timeout
    ensures ret == -1 ==> timeout <= Counter(|sleeps|)
    ensures sleeps == Naps(|sleeps|, timeout)
    ensures timeout > 0 ==> |sleeps| <= 15 + timeout / 10000 && Total(sleeps) <= timeout
    ensures timeout > 0 && ret == -1 ==> timeout - 9995 <= Total(sleeps)
  {
    Start();
    hide Naps, Total, Counter, Delay, TimesOut;
    var i := 0;
    var delay := INITIAL_UDELAY;
    sleeps := [];
    while i < timeout
      invariant i == Counter(|sleeps|) && delay == Delay(|sleeps|) && 0 <= i
      invariant |sleeps| > 0 ==> Counter(|sleeps| - 1) < timeout
      invariant forall k :: 0 <= k < |sleeps| ==> busy(k)
      invariant sleeps == Naps(|sleeps|, timeout)
      invariant i <= INT_MAX
      decreases timeout - i
    {
      NapsNext(|sleeps|, timeout);
      CounterStep(|sleeps|);
      DelayStep(|sleeps|);
      PollBound(|sleeps| + 1, timeout);
      NapsTotal(|sleeps| + 1, timeout);
      sleeps := sleeps + [Min(delay, timeout - i)];
      if !busy(|sleeps| - 1) {
        FoundIdle(busy, timeout, |sleeps| - 1);
        return 0, sleeps;
      }
      if i > 20 {
        delay := Min(delay * 2, MAXIMUM_UDELAY);
      }
      i := i + delay;
    }
    NapsTotal(|sleeps|, timeout);
    TimesOutIff(busy, timeout, |sleeps|);
    if |sleeps| > 0 {
      PollBound(|sleeps|, timeout);
    }
    ret := -1;
  }
}
