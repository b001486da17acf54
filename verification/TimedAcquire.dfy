/** AcquireSpinLock with a timeout: the time it measures from a counter that wraps
    and may count up or down. */
module TimedAcquire {
  import opened Memory

  const TWO63: int := 0x8000_0000_0000_0000

  type U64 = Addr
  type I64 = x: int | -TWO63 <= x < TWO63

  /** The conversions between the two, and both types' arithmetic, wrap. */
  function ToI64(x: int): I64 {
    Mod(x + TWO63, TWO64) - TWO63
  }

  lemma Converted(x: int)
    requires -TWO64 <= x < TWO64
    ensures ToI64(x) == if x < -TWO63 then x + TWO64 else if x >= TWO63 then x - TWO64 else x
  {
    var y := x + TWO63;
    assert y < 0 ==> Mod(y, TWO64) == Mod(y + TWO64, TWO64);
    assert y >= TWO64 ==> Mod(y, TWO64) == Mod(y - TWO64, TWO64);
  }

  // ----- The code -----

  function Cycle(start: U64, end: U64): I64 {
    var cycle: int := ToI64(end - start);
    ToI64((if cycle < 0 then ToI64(-cycle) else cycle) + 1)
  }

  /** What one poll adds to Total. */
  function Delta(start: U64, end: U64, previous: U64, current: U64): I64 {
    var raw: int := ToI64(current - previous);
    var delta: int := if start > end then ToI64(-raw) else raw;
    if delta < 0 then ToI64(delta + Cycle(start, end)) else delta
  }

  /** Total after k polls, where ticks[0] is read before the loop. */
  function Total(start: U64, end: U64, ticks: seq<U64>, k: nat): U64
    requires k < |ticks|
  {
    if k == 0 then 0 else Wrap64(Total(start, end, ticks, k - 1) + Delta(start, end, ticks[k - 1], ticks[k]))
  }

  /** Ticks to the timeout: frequency times microseconds over a million. */
  function Timeout(frequency: U64, microseconds: nat): U64 {
    Wrap64(frequency * microseconds) / 1_000_000
  }

  /** Acquired at attempt k, stopped by the assertion of poll k, or still waiting
      when the given attempts are over. */
  datatype Outcome = Acquired(k: nat) | TimedOut(k: nat) | Waiting

  /** free[k] says whether attempt k gets the lock; ticks[k] is the counter read
      after it (after attempt 0: before the loop). */
  method AcquireSpinLock(microseconds: nat, frequency: U64, start: U64, end: U64, free: seq<bool>, ticks: seq<U64>)
      returns (r: Outcome)
    requires |ticks| == |free|
    ensures r.Acquired? ==> r.k < |free| && free[r.k] && !Attempted(free, r.k)
                            && (microseconds != 0 ==> InTime(microseconds, frequency, start, end, ticks, r.k))
    ensures r.TimedOut? ==> microseconds != 0 && 0 < r.k < |free| && !Attempted(free, r.k + 1)
                            && InTime(microseconds, frequency, start, end, ticks, r.k)
                            && Total(start, end, ticks, r.k) >= Timeout(frequency, microseconds)
    ensures r.Waiting? ==> !Attempted(free, |free|)
                           && (microseconds != 0 ==> InTime(microseconds, frequency, start, end, ticks, |free|))
  {
    hide ToI64, Wrap64, Timeout;
    var k := 0;
    if microseconds == 0 {
      while k < |free| && !free[k]
        invariant 0 <= k <= |free| && !Attempted(free, k)
      {
        k := k + 1;
      }
      return if k < |free| then Acquired(k) else Waiting;
    }
    if |free| == 0 {
      return Waiting;
    }
    if free[0] {
      return Acquired(0);
    }
    var current: U64 := ticks[0];
    var total: U64 := 0;
    var timeout := Timeout(frequency, microseconds);
    var cycle: int := ToI64(end - start);
    if cycle < 0 {
      cycle := ToI64(-cycle);
    }
    cycle := ToI64(cycle + 1);
    k := 1;
    while k < |free| && !free[k]
      invariant 1 <= k <= |free| && !Attempted(free, k)
      invariant current == ticks[k - 1] && total == Total(start, end, ticks, k - 1)
      invariant InTime(microseconds, frequency, start, end, ticks, k)
    {
      var previous := current;
      current := ticks[k];
      var delta: int := ToI64(current - previous);
      if start > end {
        delta := ToI64(-delta);
      }
      if delta < 0 {
        delta := ToI64(delta + cycle);
      }
      total := Wrap64(total + delta);
      if !(total < timeout) {
        return TimedOut(k);
      }
      k := k + 1;
    }
    return if k < |free| then Acquired(k) else Waiting;
  }

  /** One of the first n attempts gets the lock. */
  predicate Attempted(free: seq<bool>, n: nat)
    requires n <= |free|
  {
    exists k | 0 <= k < n :: free[k]
  }

  /** The assertion holds at every poll before number n. */
  predicate InTime(microseconds: nat, frequency: U64, start: U64, end: U64, ticks: seq<U64>, n: nat)
    requires n <= |ticks|
  {
    forall k: nat | 0 < k < n :: Total(start, end, ticks, k) < Timeout(frequency, microseconds)
  }

  // ----- True time -----

  /** The number of values the counter goes through before it rolls over. */
  function Period(start: U64, end: U64): nat {
    if start <= end then end - start + 1 else start - end + 1
  }

  /** The counter e ticks after it stood at `start`. */
  function Reading(start: U64, end: U64, e: nat): U64 {
    if start <= end then start + Mod(e, Period(start, end)) else start - Mod(e, Period(start, end))
  }

  /** The counter rolls over in the d ticks after e. */
  predicate RollsOver(start: U64, end: U64, e: nat, d: nat) {
    Mod(e, Period(start, end)) + d >= Period(start, end)
  }

  lemma AdvanceMod(e: nat, d: nat, p: nat)
    requires d < p
    ensures Mod(e + d, p) == if Mod(e, p) + d >= p then Mod(e, p) + d - p else Mod(e, p) + d
  {
    ModIsRemainder(e, p);
    ModIsRemainder(e + d, p);
    var q, x := e / p, e % p;
    assert e == p * q + x;
    if x + d >= p {
      assert p * (q + 1) == p * q + p;
      QuotientUnique(e + d, p, q + 1, x + d - p);
    } else {
      QuotientUnique(e + d, p, q, x + d);
    }
  }

  /** For a period p of at most 2^64 values other than the three whose computation
      overflows a signed number, a poll fewer than p ticks after the last one adds
      the ticks that passed if and only if p is below 2^63, or fewer than 2^63
      ticks passed and the counter has not rolled over or uses all 64 bits. */
  lemma DeltaIsElapsedIff(start: U64, end: U64, e: nat, d: nat)
    requires d < Period(start, end)
    requires Period(start, end) < TWO63 || Period(start, end) > TWO63 + 2
    ensures Delta(start, end, Reading(start, end, e), Reading(start, end, e + d)) == d
       <==> Period(start, end) < TWO63
            || (d < TWO63 && (!RollsOver(start, end, e, d) || Period(start, end) == TWO64))
  {
    hide ToI64, RollsOver, Reading;
    var p := Period(start, end);
    RawDelta(start, end, e, d);
    var moved: int := Reading(start, end, e + d) - Reading(start, end, e);
    CycleIs(start, end);
    Converted(moved);
    Converted(-moved);
    var raw: int := ToI64(moved);
    Converted(-raw);
    var delta: int := if start > end then ToI64(-raw) else raw;
    Converted(delta + Cycle(start, end));
  }

  lemma CycleIs(start: U64, end: U64)
    requires Period(start, end) < TWO63 || Period(start, end) > TWO63 + 2
    ensures var p := Period(start, end);
            Cycle(start, end) == if p < TWO63 then p else TWO64 + 2 - p
  {
    hide ToI64;
    var span: int := end - start;
    Converted(span);
    var cycle: int := ToI64(span);
    Converted(-cycle);
    Converted(cycle + 1);
    Converted(-cycle + 1);
  }

  /** The difference of two readings, before the roll-over is corrected. */
  lemma RawDelta(start: U64, end: U64, e: nat, d: nat)
    requires d < Period(start, end)
    ensures var p := Period(start, end);
            var moved := Reading(start, end, e + d) - Reading(start, end, e);
            (if start > end then -moved else moved) == if RollsOver(start, end, e, d) then d - p else d
  {
    AdvanceMod(e, d, Period(start, end));
  }

  /** ticks are the readings at the true times e, each fewer than a period after
      the one before it. */
  ghost predicate Sampled(start: U64, end: U64, e: seq<nat>, ticks: seq<U64>) {
    && |e| == |ticks|
    && (forall i | 0 <= i < |e| :: ticks[i] == Reading(start, end, e[i]))
    && (forall i | 0 < i < |e| :: e[i - 1] <= e[i] < e[i - 1] + Period(start, end))
  }

  /** For counters up or down and over any number of roll-overs Total is the number
      of ticks since the first reading. */
  lemma {:induction false} TotalIsElapsed(start: U64, end: U64, e: seq<nat>, ticks: seq<U64>, k: nat)
    requires Period(start, end) < TWO63 && Sampled(start, end, e, ticks) && k < |e|
    requires e[k] - e[0] < TWO64
    ensures e[0] <= e[k] && Total(start, end, ticks, k) == e[k] - e[0]
    decreases k
  {
    hide Delta, Reading, Period;
    if k > 0 {
      assert e[k - 1] <= e[k];
      TotalIsElapsed(start, end, e, ticks, k - 1);
      var d := e[k] - e[k - 1];
      assert e[k - 1] + d == e[k];
      DeltaIsElapsedIff(start, end, e[k - 1], d);
    }
  }

  /** What the ticks are compared with is the product divided by a million exactly
      when the product fits 64 bits, and too little when it does not. */
  lemma TimeoutIsExactIff(frequency: U64, microseconds: nat)
    ensures Timeout(frequency, microseconds) == frequency * microseconds / 1_000_000
       <==> frequency * microseconds < TWO64
    ensures Timeout(frequency, microseconds) <= frequency * microseconds / 1_000_000
  {
    var x := frequency * microseconds;
    assert x >= 0;
    WrappedQuotient(x);
  }

  lemma WrappedQuotient(x: nat)
    ensures Wrap64(x) / 1_000_000 <= x / 1_000_000
    ensures Wrap64(x) / 1_000_000 == x / 1_000_000 <==> x < TWO64
  {
    NoWraps(x);
    ModIsRemainder(x, TWO64);
    hide Wrap64;
    if x >= TWO64 {
      assert Wrap64(x) == x % TWO64 <= x - TWO64;
    }
  }

  /** A counter of 2^60 ticks a second and a timeout of 16 microseconds: the
      assertion fails at the first poll. */
  lemma TimeoutWraps()
    ensures Timeout(0x1000_0000_0000_0000, 16) == 0
  {
    assert Mod(TWO64, TWO64) == Mod(0, TWO64) == 0;
  }

  /** The assertion of a poll fails exactly when the ticks since the first reading
      have reached floor(frequency * microseconds / 1000000), if and only if the
      product fits 64 bits or that many ticks tell nothing of the wrap: they are
      fewer than it leaves, or enough without it. */
  lemma AssertionMeasuresTime(microseconds: nat, frequency: U64, start: U64, end: U64, e: seq<nat>,
      ticks: seq<U64>, k: nat)
    requires Period(start, end) < TWO63 && Sampled(start, end, e, ticks) && k < |e|
    requires e[k] - e[0] < TWO64
    ensures e[0] <= e[k]
    ensures var elapsed := e[k] - e[0];
            var due := frequency * microseconds / 1_000_000;
            (Total(start, end, ticks, k) >= Timeout(frequency, microseconds) <==> elapsed >= due)
            <==> frequency * microseconds < TWO64 || elapsed < Timeout(frequency, microseconds) || elapsed >= due
  {
    hide Period, Total, Timeout;
    TotalIsElapsed(start, end, e, ticks, k);
    TimeoutIsExactIff(frequency, microseconds);
  }
}
