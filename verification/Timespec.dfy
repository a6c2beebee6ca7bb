/** Deadlines as seconds and nanoseconds, and the milliseconds left until one. A clock reading
    counts units of 100 ns. */
module Timespecs {
  import opened Numbers

  const NANOS_PER_SEC := 1_000_000_000
  const TICKS_PER_SEC := 10_000_000

  /** The number of milliseconds that SleepConditionVariableCS takes for an unbounded wait. */
  const INFINITE: nat := 0xFFFF_FFFF

  datatype Stamp = Stamp(sec: int, nsec: int)

  function Nanos(s: Stamp): int {
    s.sec * NANOS_PER_SEC + s.nsec
  }

  predicate Normal(s: Stamp) {
    0 <= s.nsec < NANOS_PER_SEC
  }

  /** An unsigned 64-bit result. */
  function Ulonglong(x: int): nat {
    x % DOUBLE_LIMIT
  }

  /** What the code stores for a clock reading and a delay, both unsigned 64-bit. */
  function Deadline(clock: nat, nsec: nat): Stamp {
    var now := Ulonglong(clock + nsec / 100);
    Stamp(now / TICKS_PER_SEC, now % TICKS_PER_SEC * 100 + nsec % 100)
  }

  class Timespec {
    var tvSec: int
    var tvNsec: int

    function View(): Stamp
      reads this
    {
      Stamp(tvSec, tvNsec)
    }

    method SetTimespecNsec(clock: nat, nsec: nat)
      requires clock < DOUBLE_LIMIT && nsec < DOUBLE_LIMIT
      modifies this
      ensures View() == Deadline(clock, nsec) && Normal(View()) && tvSec >= 0
      ensures Nanos(View()) == 100 * clock + nsec <==> clock + nsec / 100 < DOUBLE_LIMIT
    {
      DeadlineIsExact(clock, nsec);
      var now := (clock + nsec / 100) % DOUBLE_LIMIT;
      tvSec := now / TICKS_PER_SEC;
      tvNsec := now % TICKS_PER_SEC * 100 + nsec % 100;
    }

    /** The delay is exact when neither the product nor the sum leaves 64 bits. */
    method SetTimespec(clock: nat, sec: nat)
      requires clock < DOUBLE_LIMIT && sec < DOUBLE_LIMIT
      modifies this
      ensures Normal(View()) && View() == Deadline(clock, Ulonglong(sec * NANOS_PER_SEC))
      ensures Nanos(View()) == 100 * clock + sec * NANOS_PER_SEC <==>
              sec * NANOS_PER_SEC < DOUBLE_LIMIT && clock + sec * TICKS_PER_SEC < DOUBLE_LIMIT
    {
      var nsec := sec * NANOS_PER_SEC % DOUBLE_LIMIT;
      DeadlineIsExact(clock, nsec);
      DeadlineIsBounded(clock, nsec);
      SetTimespecNsec(clock, nsec);
    }
  }

  /** The stored deadline is the reading plus the delay exactly when their sum fits 64 bits. */
  lemma DeadlineIsExact(clock: nat, nsec: nat)
    requires clock < DOUBLE_LIMIT && nsec < DOUBLE_LIMIT
    ensures Normal(Deadline(clock, nsec)) && Deadline(clock, nsec).sec >= 0
    ensures Nanos(Deadline(clock, nsec)) == 100 * clock + nsec <==> clock + nsec / 100 < DOUBLE_LIMIT
  {
  }

  lemma DeadlineIsBounded(clock: nat, nsec: nat)
    ensures Nanos(Deadline(clock, nsec)) <= 100 * clock + nsec
  {
  }

  // ---------- Comparing ----------

  function Compare(s1: Stamp, s2: Stamp): int {
    if s1.sec > s2.sec || (s1.sec == s2.sec && s1.nsec > s2.nsec) then 1
    else if s1.sec < s2.sec || (s1.sec == s2.sec && s1.nsec < s2.nsec) then -1
    else 0
  }

  function Difference(s1: Stamp, s2: Stamp): nat {
    Ulonglong((s1.sec - s2.sec) * NANOS_PER_SEC + s1.nsec - s2.nsec)
  }

  /** On normalised stamps the comparison is that of the instants, and the difference is theirs
      exactly when the first is not the earlier one and they are less than 2^64 ns apart. */
  lemma ComparesInstants(s1: Stamp, s2: Stamp)
    requires Normal(s1) && Normal(s2)
    ensures Compare(s1, s2) == 1 <==> Nanos(s1) > Nanos(s2)
    ensures Compare(s1, s2) == -1 <==> Nanos(s1) < Nanos(s2)
    ensures Compare(s1, s2) == 0 <==> s1 == s2
    ensures Difference(s1, s2) == Nanos(s1) - Nanos(s2) <==>
            Compare(s1, s2) >= 0 && Nanos(s1) - Nanos(s2) < DOUBLE_LIMIT
  {
  }

  // ---------- Milliseconds left ----------

  function GetMilliseconds(deadline: Stamp, clock: nat): nat {
    var future := Ulonglong(deadline.sec * 1000 + deadline.nsec / 1_000_000);
    var now := clock / 10_000;
    if future < now then 0 else (future - now) % WORD_LIMIT
  }

  /** The difference of two whole milliseconds that the 32-bit result should hold. */
  function MillisLeft(deadline: Stamp, clock: nat): int {
    Nanos(deadline) / 1_000_000 - clock / 10_000
  }

  function AtLeastZero(x: int): nat {
    if x < 0 then 0 else x
  }

  lemma WholeMillis(deadline: Stamp)
    requires Normal(deadline) && deadline.sec >= 0
    ensures Nanos(deadline) / 1_000_000 == deadline.sec * 1000 + deadline.nsec / 1_000_000
  {
  }

  /** The result is the time left, or 0 when none is, cut to 32 bits. It is the value that means an
      unbounded wait exactly when the time left is not negative and one below a multiple of 2^32. */
  lemma MillisecondsAreCut(deadline: Stamp, clock: nat)
    requires Normal(deadline) && 0 <= Nanos(deadline) < 100 * DOUBLE_LIMIT
    ensures GetMilliseconds(deadline, clock) == AtLeastZero(MillisLeft(deadline, clock)) % WORD_LIMIT
    ensures GetMilliseconds(deadline, clock) == INFINITE <==>
            MillisLeft(deadline, clock) >= 0 && MillisLeft(deadline, clock) % WORD_LIMIT == INFINITE
  {
    WholeMillis(deadline);
  }

  /** Nothing is cut off exactly when the time left fits 32 bits. */
  lemma MillisecondsAreExact(deadline: Stamp, clock: nat)
    requires Normal(deadline) && 0 <= Nanos(deadline) < 100 * DOUBLE_LIMIT
    ensures GetMilliseconds(deadline, clock) == AtLeastZero(MillisLeft(deadline, clock)) <==>
            MillisLeft(deadline, clock) < WORD_LIMIT
  {
    hide GetMilliseconds, MillisLeft;
    MillisecondsAreCut(deadline, clock);
  }

  // ---------- From setting a deadline to waiting for it ----------

  function Left(clock: nat, nsec: nat, later: nat): nat {
    GetMilliseconds(Deadline(clock, nsec), later)
  }

  function LeftUncut(clock: nat, nsec: nat, later: nat): int {
    MillisLeft(Deadline(clock, nsec), later)
  }

  /** The facts the laws below rest on: the cut, and how far whole milliseconds are from the
      100 ns units they were taken from. */
  lemma LeftIsCut(clock: nat, nsec: nat, later: nat)
    requires clock + nsec / 100 < DOUBLE_LIMIT
    ensures Left(clock, nsec, later) == AtLeastZero(LeftUncut(clock, nsec, later)) % WORD_LIMIT
    ensures LeftUncut(clock, nsec, later) == (100 * clock + nsec) / 1_000_000 - 100 * later / 1_000_000
  {
    InstantOfDeadline(clock, nsec);
    MillisecondsAreCut(Deadline(clock, nsec), later);
    WholeTicks(later);
  }

  /** At every later reading the result is at most one millisecond more than the delay, and 0 once
      the deadline has passed; at the same reading it is at least the whole milliseconds of the
      delay exactly when the time left fits 32 bits. */
  lemma TimeoutsAreBounded(clock: nat, nsec: nat, later: nat)
    requires clock <= later && clock + nsec / 100 < DOUBLE_LIMIT
    ensures Left(clock, nsec, later) <= nsec / 1_000_000 + 1
    ensures 100 * later >= 100 * clock + nsec ==> Left(clock, nsec, later) == 0
    ensures Left(clock, nsec, clock) >= nsec / 1_000_000 <==> LeftUncut(clock, nsec, clock) < WORD_LIMIT
  {
    hide Left, LeftUncut;
    LeftIsCut(clock, nsec, later);
    LeftIsCut(clock, nsec, clock);
    SumOfMillis(100 * clock, nsec);
  }

  predicate NotEarly(now: nat, left: nat, deadline: nat) {
    100 * now + left * 1_000_000 > deadline - 1_000_000
  }

  predicate NotLate(now: nat, left: nat, deadline: nat) {
    left > 0 ==> 100 * now + left * 1_000_000 < deadline + 1_000_000
  }

  /** A bounded wait that ends within one millisecond of the deadline on either side. */
  predicate EndsOnTime(now: nat, left: nat, deadline: nat) {
    left != INFINITE && NotEarly(now, left, deadline) && NotLate(now, left, deadline)
  }

  /** A bounded wait is never late, and not early exactly when the time left fits 32 bits. The wait
      is bounded and ends on time exactly when the time left is below 2^32 - 1 ms. */
  lemma WaitEndsOnTime(clock: nat, nsec: nat, later: nat)
    requires clock <= later && clock + nsec / 100 < DOUBLE_LIMIT
    ensures
      var left, uncut, deadline := Left(clock, nsec, later), LeftUncut(clock, nsec, later), 100 * clock + nsec;
      && (left != INFINITE ==> NotLate(later, left, deadline))
      && (left != INFINITE ==> (NotEarly(later, left, deadline) <==> uncut < WORD_LIMIT))
      && (EndsOnTime(later, left, deadline) <==> uncut < INFINITE)
  {
    hide Left, LeftUncut;
    LeftIsCut(clock, nsec, later);
  }

  // ---------- The conditions on the delay alone ----------

  /** The most milliseconds that a delay can span, over all clock readings. */
  function MillisSpanned(nsec: nat): nat {
    nsec / 1_000_000 + (if nsec % 1_000_000 >= 100 then 1 else 0)
  }

  lemma SpanIsAttained(clock: nat, nsec: nat)
    requires clock + nsec / 100 < DOUBLE_LIMIT
    ensures LeftUncut(clock, nsec, clock) <= MillisSpanned(nsec)
    ensures clock == 9_999 ==> LeftUncut(clock, nsec, clock) == MillisSpanned(nsec)
  {
    hide LeftUncut;
    LeftIsCut(clock, nsec, clock);
    TickPhase(clock, nsec);
  }

  /** A reading is a whole number of 100 ns units, so it adds at most 999,900 ns to a fraction. */
  lemma TickPhase(clock: nat, nsec: nat)
    ensures (100 * clock + nsec) / 1_000_000 - 100 * clock / 1_000_000 <= MillisSpanned(nsec)
    ensures clock == 9_999 ==> (100 * clock + nsec) / 1_000_000 - 100 * clock / 1_000_000 == MillisSpanned(nsec)
  {
    var q, r := clock / 10_000, clock % 10_000;
    assert 100 * clock == 1_000_000 * q + 100 * r;
    assert (100 * clock + nsec) / 1_000_000 == q + nsec / 1_000_000 + (100 * r + nsec % 1_000_000) / 1_000_000;
  }

  /** At every clock reading the result keeps the whole milliseconds of a delay if and only if the
      delay cannot span 2^32 ms. */
  lemma DelayIsKept(nsec: nat)
    requires nsec < DOUBLE_LIMIT
    ensures (forall clock: nat | clock + nsec / 100 < DOUBLE_LIMIT :: Left(clock, nsec, clock) >= nsec / 1_000_000) <==>
            MillisSpanned(nsec) < WORD_LIMIT
  {
    hide Left, LeftUncut, MillisSpanned;
    forall clock: nat | clock + nsec / 100 < DOUBLE_LIMIT
      ensures MillisSpanned(nsec) < WORD_LIMIT ==> Left(clock, nsec, clock) >= nsec / 1_000_000
    {
      SpanIsAttained(clock, nsec);
      TimeoutsAreBounded(clock, nsec, clock);
    }
    SpanIsAttained(9_999, nsec);
    TimeoutsAreBounded(9_999, nsec, 9_999);
  }

  /** At every clock reading, and however much later the time left is read, the wait is bounded and
      ends on time, if and only if the delay cannot span 2^32 - 1 ms. */
  lemma DelayAlwaysEndsOnTime(nsec: nat)
    requires nsec < DOUBLE_LIMIT
    ensures (forall clock: nat, later: nat | clock <= later && clock + nsec / 100 < DOUBLE_LIMIT ::
               EndsOnTime(later, Left(clock, nsec, later), 100 * clock + nsec)) <==>
            MillisSpanned(nsec) < INFINITE
  {
    hide Left, EndsOnTime, MillisSpanned;
    forall clock: nat, later: nat | clock <= later && clock + nsec / 100 < DOUBLE_LIMIT
      ensures MillisSpanned(nsec) < INFINITE ==> EndsOnTime(later, Left(clock, nsec, later), 100 * clock + nsec)
    {
      SpanIsAttained(clock, nsec);
      LeftShrinks(clock, nsec, later);
      WaitEndsOnTime(clock, nsec, later);
    }
    SpanIsAttained(9_999, nsec);
    WaitEndsOnTime(9_999, nsec, 9_999);
  }

  lemma LeftShrinks(clock: nat, nsec: nat, later: nat)
    requires clock <= later && clock + nsec / 100 < DOUBLE_LIMIT
    ensures LeftUncut(clock, nsec, later) <= LeftUncut(clock, nsec, clock)
  {
    hide LeftUncut;
    LeftIsCut(clock, nsec, later);
    LeftIsCut(clock, nsec, clock);
  }

  // ---------- Inputs at which the laws fail ----------

  /** A delay under 2^32 ms of which nothing is left at the very reading it was set. */
  lemma DelayUnderTheLimitIsLost()
    ensures 4_294_967_295_999_999 / 1_000_000 < WORD_LIMIT
    ensures Left(9_999, 4_294_967_295_999_999, 9_999) == 0
    ensures LeftUncut(9_999, 4_294_967_295_999_999, 9_999) == WORD_LIMIT
  {
    hide Left, LeftUncut;
    LeftIsCut(9_999, 4_294_967_295_999_999, 9_999);
  }

  /** A delay of 2^32 ms is lost at any reading that is a whole millisecond, 0 among them. */
  lemma LongDelayIsLost()
    ensures Left(0, 4_294_967_296_000_000, 0) == 0
    ensures LeftUncut(0, 4_294_967_296_000_000, 0) == WORD_LIMIT
  {
    hide Left, LeftUncut;
    LeftIsCut(0, 4_294_967_296_000_000, 0);
  }

  /** A delay of 2^32 - 1 ms that turns into a wait without end. */
  lemma DelayBecomesUnbounded()
    ensures Left(0, 4_294_967_295_000_000, 0) == INFINITE
    ensures LeftUncut(0, 4_294_967_295_000_000, 0) < WORD_LIMIT
  {
    hide Left, LeftUncut;
    LeftIsCut(0, 4_294_967_295_000_000, 0);
  }

  // ---------- Arithmetic ----------

  lemma InstantOfDeadline(clock: nat, nsec: nat)
    requires clock + nsec / 100 < DOUBLE_LIMIT
    ensures Nanos(Deadline(clock, nsec)) == 100 * clock + nsec && Normal(Deadline(clock, nsec))
  {
  }

  lemma WholeTicks(clock: nat)
    ensures clock / 10_000 == 100 * clock / 1_000_000
  {
  }

  lemma SumOfMillis(x: nat, y: nat)
    ensures x / 1_000_000 + y / 1_000_000 <= (x + y) / 1_000_000 <= x / 1_000_000 + y / 1_000_000 + 1
  {
  }
}
