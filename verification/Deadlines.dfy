/**
  Deadlines for timed waits: `set_timespec_nsec`, `set_timespec`, `cmp_timespec`,
  `diff_timespec` and `get_milliseconds`, in the two representations of
  `struct timespec`. Clock readings count ticks of 100 ns.
 */
module Deadlines {
  import opened Bits
  import opened Bytes
  import opened ByteOrder

  const INT_MAX32: nat := 0x7FFF_FFFF
  const UINT_MAX: nat := 0xFFFF_FFFF
  const INFINITE: nat := 0xFFFF_FFFF
  const TWO31: nat := 0x8000_0000
  const TWO63: int := 0x8000_0000_0000_0000

  function Min(a: int, b: int): int { if a < b then a else b }
  function Max(a: int, b: int): int { if a < b then b else a }
  function Sign(a: int): int { if a > 0 then 1 else if a < 0 then -1 else 0 }

  /** C division: the quotient is truncated toward zero. */
  function TruncDiv(a: int, b: nat): int
    requires b > 0
  {
    if a >= 0 then a / b else -(-a / b)
  }

  // ---------- seconds and nanoseconds (HAVE_STRUCT_TIMESPEC) ----------

  /** The fields of a `struct timespec`. */
  datatype Instant = Instant(sec: int, nsec: int)

  function Nanos(i: Instant): int {
    i.sec * 1000000000 + i.nsec
  }

  predicate Normal(i: Instant) {
    0 <= i.nsec < 1000000000
  }

  /** The clock plus the timeout fits 64 bits, and its seconds fit `time_t`. */
  predicate DeadlineFits(clock: nat, nsec: nat, timeT32: bool) {
    && clock + nsec / 100 < TWO64
    && (timeT32 ==> (clock + nsec / 100) / 10000000 <= INT_MAX32)
  }

  /** The instant `nsec` nanoseconds after `clock`, split into seconds and nanoseconds; ticks wrap at 64 bits. */
  function StructDeadline(clock: Uint64, nsec: Uint64, timeT32: bool): Instant {
    var nanos := (100 * clock + nsec) % 0x64_0000_0000_0000_0000;
    var sec := nanos / 1000000000;
    Instant(if timeT32 then Min(sec, INT_MAX32) else sec, nanos % 1000000000)
  }

  /** The fields are always normal, and exact if and only if nothing overflows. */
  lemma StructDeadlineExact(clock: Uint64, nsec: Uint64, timeT32: bool)
    ensures Normal(StructDeadline(clock, nsec, timeT32))
    ensures Nanos(StructDeadline(clock, nsec, timeT32)) == 100 * clock + nsec <==> DeadlineFits(clock, nsec, timeT32)
  {
    TickFields(clock, nsec);
    var now := U64(clock + nsec / 100);
    assert 100 * now + nsec % 100 == 100 * clock + nsec <==> clock + nsec / 100 < TWO64;
  }

  /** Overflow and the cap only make a deadline earlier. */
  lemma StructDeadlineAtMost(clock: Uint64, nsec: Uint64, timeT32: bool)
    ensures Nanos(StructDeadline(clock, nsec, timeT32)) <= 100 * clock + nsec
  {
    TickFields(clock, nsec);
  }

  lemma ProductWraps(x: nat)
    ensures ToU64(x) == x <==> x < TWO64
    ensures x >= TWO64 ==> ToU64(x) <= x - TWO64
  {
  }

  /** The two fields are computed in ticks. */
  lemma TickFields(clock: Uint64, nsec: Uint64)
    ensures var now := U64(clock + nsec / 100);
            var nanos := (100 * clock + nsec) % 0x64_0000_0000_0000_0000;
            && nanos == 100 * now + nsec % 100
            && nanos / 1000000000 == now / 10000000
            && nanos % 1000000000 == now % 10000000 * 100 + nsec % 100
  {
    var sum := clock + nsec / 100;
    var now := U64(sum);
    assert now == if sum < TWO64 then sum else sum - TWO64;
    var nanos := 100 * now + nsec % 100;
    assert 100 * clock + nsec == 100 * sum + nsec % 100;
    DivModUnique(100 * clock + nsec, 0x64_0000_0000_0000_0000, if sum < TWO64 then 0 else 1, nanos);
    DivModUnique(nanos, 1000000000, now / 10000000, now % 10000000 * 100 + nsec % 100);
  }

  /** `cmp_timespec` on the fields. */
  function CmpInstant(a: Instant, b: Instant): (r: int)
    ensures Normal(a) && Normal(b) ==> r == Sign(Nanos(a) - Nanos(b))
  {
    if a.sec > b.sec || (a.sec == b.sec && a.nsec > b.nsec) then 1
    else if a.sec < b.sec || (a.sec == b.sec && a.nsec < b.nsec) then -1
    else 0
  }

  /** Conversion to `ulonglong`. */
  function ToU64(x: int): Uint64 { x % 0x1_0000_0000_0000_0000 }

  /** `diff_timespec` on the fields, in unsigned 64-bit arithmetic. */
  function DiffInstant(a: Instant, b: Instant): (r: Uint64)
    ensures r == ToU64(Nanos(a) - Nanos(b))
  {
    DiffWraps(a.sec - b.sec, a.nsec, b.nsec);
    ToU64(ToU64(ToU64(ToU64(a.sec - b.sec) * 1000000000) + ToU64(a.nsec)) - ToU64(b.nsec))
  }

  lemma DiffWraps(sec: int, n1: int, n2: int)
    ensures ToU64(ToU64(ToU64(ToU64(sec) * 1000000000) + ToU64(n1)) - ToU64(n2)) == ToU64(sec * 1000000000 + n1 - n2)
  {
    var s := ToU64(sec);
    Congruent(s * 1000000000, sec * 1000000000, s - sec, 1000000000);
    var a := ToU64(s * 1000000000);
    WrapAdd(sec * 1000000000, n1);
    var b := ToU64(a + ToU64(n1));
    WrapSub(sec * 1000000000 + n1, n2);
  }

  lemma Congruent(x: int, y: int, d: int, k: nat)
    requires x - y == d * k && d % TWO64 == 0
    ensures ToU64(x) == ToU64(y)
  {
    var q := d / TWO64;
    assert x == y + TWO64 * (q * k) by {
      MulAssoc(TWO64, q, k);
    }
    ShiftWord(y, q * k);
  }

  lemma ShiftWord(y: int, q: int)
    ensures ToU64(y + TWO64 * q) == ToU64(y)
  {
    var m := 0x1_0000_0000_0000_0000;
    DivModUnique(y + m * q, m, y / m + q, y % m);
  }

  lemma WrapAdd(x: int, y: int)
    ensures ToU64(ToU64(x) + ToU64(y)) == ToU64(x + y)
  {
    var m := 0x1_0000_0000_0000_0000;
    ShiftWord(x % m + y % m, x / m + y / m);
  }

  lemma WrapSub(x: int, y: int)
    ensures ToU64(ToU64(x) - ToU64(y)) == ToU64(x - y)
  {
    var m := 0x1_0000_0000_0000_0000;
    ShiftWord(x % m - y % m, x / m - y / m);
  }

  /**
    The difference is exact if and only if it is representable: `cmp_timespec`
    must not say -1, and the instants must be less than 2^64 ns apart.
   */
  lemma DiffExact(a: Instant, b: Instant)
    requires Normal(a) && Normal(b)
    ensures DiffInstant(a, b) == Nanos(a) - Nanos(b) <==> CmpInstant(a, b) != -1 && Nanos(a) - Nanos(b) < TWO64
  {
    var d := Nanos(a) - Nanos(b);
    if 0 <= d < TWO64 {
      DivModUnique(d, 0x1_0000_0000_0000_0000, 0, d);
    }
  }

  /**
    Deadlines compare as the instants they stand for, whenever each was set, and
    their difference is exact if and only if it is not negative and below 2^64 ns.
   */
  lemma StructDeadlineOrder(c1: Uint64, n1: Uint64, c2: Uint64, n2: Uint64, timeT32: bool)
    requires DeadlineFits(c1, n1, timeT32) && DeadlineFits(c2, n2, timeT32)
    ensures var d1, d2 := StructDeadline(c1, n1, timeT32), StructDeadline(c2, n2, timeT32);
            var apart := (100 * c1 + n1) - (100 * c2 + n2);
            && CmpInstant(d1, d2) == Sign(apart)
            && (DiffInstant(d1, d2) == apart <==> 0 <= apart < TWO64)
  {
    StructDeadlineExact(c1, n1, timeT32);
    StructDeadlineExact(c2, n2, timeT32);
    DiffExact(StructDeadline(c1, n1, timeT32), StructDeadline(c2, n2, timeT32));
  }

  class StructTimespec {
    var tv_sec: int
    var tv_nsec: int

    function Value(): Instant
      reads this
    {
      Instant(tv_sec, tv_nsec)
    }

    /** The fields are normal, and stand for the clock plus the timeout if and only if nothing overflows. */
    method SetNsec(clock: Uint64, nsec: Uint64, timeT32: bool)
      modifies this
      ensures Normal(Value()) && tv_sec >= 0 && (timeT32 ==> tv_sec <= INT_MAX32)
      ensures Nanos(Value()) == 100 * clock + nsec <==> DeadlineFits(clock, nsec, timeT32)
      ensures clock + nsec / 100 < TWO64 ==>
                var sec := (100 * clock + nsec) / 1000000000;
                && tv_nsec == (100 * clock + nsec) % 1000000000
                && tv_sec == if timeT32 && sec > 0x7FFF_FFFF then 0x7FFF_FFFF else sec
      ensures Value() == StructDeadline(clock, nsec, timeT32)
    {
      var now := U64(clock + nsec / 100);
      var sec := now / 10000000;
      if timeT32 {
        sec := Min(sec, INT_MAX32);
      }
      tv_sec := sec;
      tv_nsec := now % 10000000 * 100 + nsec % 100;
      TickFields(clock, nsec);
      StructDeadlineExact(clock, nsec, timeT32);
    }

    /** The deadline is `sec` seconds away if and only if neither the product nor the deadline overflows. */
    method SetSec(clock: Uint64, sec: Uint64, timeT32: bool)
      modifies this
      ensures Normal(Value())
      ensures Nanos(Value()) == 100 * clock + sec * 1000000000 <==>
                sec * 1000000000 < TWO64 && DeadlineFits(clock, sec * 1000000000, timeT32)
      ensures Value() == StructDeadline(clock, ToU64(sec * 1000000000), timeT32)
    {
      var nsec := ToU64(sec * 1000000000);
      SetNsec(clock, nsec, timeT32);
      StructDeadlineAtMost(clock, nsec, timeT32);
      ProductWraps(sec * 1000000000);
    }

    /**
      `get_milliseconds`; `clock` is the reading at the time of the wait. With a
      64-bit `time_t` it is the time left in milliseconds, modulo 2^32.
     */
    method GetMilliseconds(clock: Uint64, timeT32: bool) returns (r: nat)
      ensures r == StructWait(Value(), clock, timeT32)
      ensures InEra(Value()) && !timeT32 ==> r == Max(0, MillisLeftUntil(Value(), clock)) % TWO32
      ensures InEra(Value()) && timeT32 ==> r == WrappedWait(Nanos(Value()) / 1000000, clock / 10000)
    {
      WaitMeanings(Value(), clock);
      var future := ToU64(DeadlineMillis(Value(), timeT32));
      var now := clock / 10000;
      if future < now {
        return 0;
      }
      r := U32(future - now);
    }

    /** A deadline is set at one reading of the clock and waited for at another. */
    method TimedWait(clock: Uint64, nsec: Uint64, now: Uint64, timeT32: bool) returns (r: nat)
      modifies this
      ensures !timeT32 && DeadlineFits(clock, nsec, false) ==>
                var ms := nsec / 1000000 + CarryOf(clock, nsec) + clock / 10000 - now / 10000;
                r == Max(0, ms) % TWO32
                && (r <= nsec / 1000000 <==> ms - nsec / 1000000 <= Max(0, ms) / TWO32 * TWO32)
                && (ms < TWO32 ==> (r <= nsec / 1000000 <==> clock / 10000 + CarryOf(clock, nsec) <= now / 10000))
      ensures !timeT32 && DeadlineFits(clock, nsec, false) && nsec / 1000000 < INFINITE && clock <= now ==>
                var left := Max(0, 100 * clock + nsec - 100 * now) / 1000000;
                left <= r <= left + 1 <= nsec / 1000000 + 1
      ensures timeT32 && DeadlineFits(clock, nsec, true) ==>
                r == WrappedWait((100 * clock + nsec) / 1000000, now / 10000)
    {
      SetNsec(clock, nsec, timeT32);
      r := GetMilliseconds(now, timeT32);
      if !timeT32 && DeadlineFits(clock, nsec, false) {
        StructWaitWithinTimeout(clock, nsec, now);
        if nsec / 1000000 < INFINITE && clock <= now {
          StructWaitNoStepBack(clock, nsec, now);
        }
      }
    }
  }

  /** The milliseconds of the deadline as `get_milliseconds` computes them, in the type of `tv_sec`. */
  function DeadlineMillis(d: Instant, timeT32: bool): int {
    var part := TruncDiv(d.nsec, 1000000);
    if timeT32 then I32(I32(d.sec * 1000) + part) else d.sec * 1000 + part
  }

  /** The milliseconds from the clock to the deadline, as a `DWORD`. */
  function StructWait(d: Instant, clock: Uint64, timeT32: bool): nat {
    var left := ToU64(DeadlineMillis(d, timeT32)) - clock / 10000;
    if left < 0 then 0 else U32(left)
  }

  /** The deadline is not before the epoch, and its milliseconds fit 64 bits. */
  predicate InEra(d: Instant) {
    Normal(d) && 0 <= d.sec && d.sec * 1000 + 1000 <= TWO64
  }

  /** The difference of two instants that are each rounded down to milliseconds. */
  function MillisLeftUntil(d: Instant, clock: Uint64): int {
    Nanos(d) / 1000000 - 100 * clock / 1000000
  }

  lemma MillisOf(sec: nat, nsec: nat)
    requires nsec < 1000000000
    ensures sec * 1000 + nsec / 1000000 == (sec * 1000000000 + nsec) / 1000000
  {
    DivModUnique(sec * 1000000000 + nsec, 1000000, sec * 1000 + nsec / 1000000, nsec % 1000000);
  }

  lemma TicksToMillis(clock: nat)
    ensures clock / 10000 == 100 * clock / 1000000
  {
    DivModUnique(100 * clock, 1000000, clock / 10000, clock % 10000 * 100);
  }

  /** With a 64-bit `time_t` the wait is the difference of the two instants, modulo 2^32, and not negative. */
  lemma StructWaitMeaning(d: Instant, clock: Uint64)
    requires InEra(d)
    ensures StructWait(d, clock, false) == Max(0, MillisLeftUntil(d, clock)) % TWO32
  {
    MillisOf(d.sec, d.nsec);
    TicksToMillis(clock);
    FitsWord(d.sec * 1000 + d.nsec / 1000000);
  }

  lemma FitsWord(x: nat)
    requires x < TWO64
    ensures ToU64(x) == x
  {
  }

  /**
    The wait is the time left rounded to milliseconds, down or up, if and only if
    less than 2^32 ms are left; a deadline that has passed is not waited for. The
    wait is `INFINITE` exactly when the low 32 bits of the time left are all ones.
   */
  lemma StructWaitAccuracy(d: Instant, clock: Uint64)
    requires InEra(d)
    ensures var w, left, ms := StructWait(d, clock, false), Nanos(d) - 100 * clock, MillisLeftUntil(d, clock);
            && (left <= 0 ==> w == 0)
            && (left >= 0 ==> (left / 1000000 <= w <= left / 1000000 + 1 <==> ms < TWO32))
            && (w == INFINITE <==> ms >= 0 && (ms - INFINITE) % TWO32 == 0)
  {
    StructWaitMeaning(d, clock);
    WaitAccuracy(Nanos(d), 100 * clock);
  }

  /** The same for two instants in nanoseconds. */
  lemma WaitAccuracy(x: nat, y: nat)
    ensures var ms := x / 1000000 - y / 1000000;
            var w := Max(0, ms) % TWO32;
            && (x <= y ==> w == 0)
            && (x >= y ==> ((x - y) / 1000000 <= w <= (x - y) / 1000000 + 1 <==> ms < TWO32))
            && (w == INFINITE <==> ms >= 0 && (ms - INFINITE) % TWO32 == 0)
  {
    QuotientDifference(x, y);
    LowBits(Max(0, x / 1000000 - y / 1000000));
  }

  lemma QuotientDifference(x: nat, y: nat)
    ensures x <= y ==> x / 1000000 <= y / 1000000
    ensures x >= y ==> (x - y) / 1000000 <= x / 1000000 - y / 1000000 <= (x - y) / 1000000 + 1
  {
  }

  lemma LowBits(ms: nat)
    ensures ms < TWO32 ==> U32(ms) == ms
    ensures ms >= TWO32 ==> U32(ms) < ms - 1
    ensures U32(ms) == INFINITE <==> (ms - INFINITE) % TWO32 == 0
  {
  }

  /** 1 if the parts of the clock and of the timeout below a millisecond make a millisecond together. */
  function CarryOf(clock: nat, nsec: nat): nat {
    if clock % 10000 * 100 + nsec % 1000000 < 1000000 then 0 else 1
  }

  /**
    The wait for a deadline after its timeout was set, for all readings of the
    clock. It is within the timeout if and only if the milliseconds by which the
    clock stepped back, with the carry of the parts below one, are not more than
    what the truncation to 32 bits takes away; below 2^32 ms that is nothing.
   */
  lemma StructWaitWithinTimeout(clock: Uint64, nsec: Uint64, now: Uint64)
    requires DeadlineFits(clock, nsec, false)
    ensures var w := StructWait(StructDeadline(clock, nsec, false), now, false);
            var ms := nsec / 1000000 + CarryOf(clock, nsec) + clock / 10000 - now / 10000;
            && w == Max(0, ms) % TWO32
            && (w <= nsec / 1000000 <==> ms - nsec / 1000000 <= Max(0, ms) / TWO32 * TWO32)
            && (ms < TWO32 ==> (w <= nsec / 1000000 <==> clock / 10000 + CarryOf(clock, nsec) <= now / 10000))
  {
    MillisAfterTimeout(clock, nsec, now);
    var ms := nsec / 1000000 + CarryOf(clock, nsec) + clock / 10000 - now / 10000;
    LowBits(Max(0, ms));
  }

  lemma MillisAfterTimeout(clock: Uint64, nsec: Uint64, now: Uint64)
    requires DeadlineFits(clock, nsec, false)
    ensures var ms := nsec / 1000000 + CarryOf(clock, nsec) + clock / 10000 - now / 10000;
            StructWait(StructDeadline(clock, nsec, false), now, false) == Max(0, ms) % TWO32
  {
    var d := StructDeadline(clock, nsec, false);
    StructDeadlineExact(clock, nsec, false);
    StructWaitMeaning(d, now);
    TicksToMillis(now);
    MillisOfDeadline(clock, nsec);
    assert MillisLeftUntil(d, now) == (100 * clock + nsec) / 1000000 - now / 10000;
  }

  /** The millisecond in which a deadline falls. */
  lemma MillisOfDeadline(clock: nat, nsec: nat)
    ensures (100 * clock + nsec) / 1000000 == clock / 10000 + nsec / 1000000 + CarryOf(clock, nsec)
  {
    var part := clock % 10000 * 100 + nsec % 1000000;
    var q := clock / 10000 + nsec / 1000000;
    assert 100 * clock + nsec == q * 1000000 + part;
    if part < 1000000 {
      DivModUnique(100 * clock + nsec, 1000000, q, part);
    } else {
      DivModUnique(100 * clock + nsec, 1000000, q + 1, part - 1000000);
    }
  }

  /**
    Without a step back of the clock, and with a timeout below 2^32 - 1 ms, the
    wait is the time left, rounded down or up, and so at most 1 ms too long.
   */
  lemma StructWaitNoStepBack(clock: Uint64, nsec: Uint64, now: Uint64)
    requires DeadlineFits(clock, nsec, false) && nsec / 1000000 < INFINITE && clock <= now
    ensures var w := StructWait(StructDeadline(clock, nsec, false), now, false);
            var left := Max(0, 100 * clock + nsec - 100 * now);
            left / 1000000 <= w <= left / 1000000 + 1 <= nsec / 1000000 + 1
  {
    var d := StructDeadline(clock, nsec, false);
    StructDeadlineExact(clock, nsec, false);
    StructWaitAccuracy(d, now);
    QuotientDifference(Nanos(d), 100 * now);
  }

  /** After a step back of `k` ms to any time, a timeout of 0 waits `k` ms. */
  lemma StepBackWaits(t: Uint64, k: nat)
    requires k < TWO32 && t + 10000 * k < TWO64
    ensures StructWait(StructDeadline(t + 10000 * k, 0, false), t, false) == k
  {
    StructWaitWithinTimeout(t + 10000 * k, 0, t);
    assert (t + 10000 * k) / 10000 == t / 10000 + k;
  }

  /** A finite timeout of 2^32 - 1 ms is waited for without end, at any time. */
  lemma EndlessWait(t: Uint64)
    requires DeadlineFits(t, 4294967295000000, false)
    ensures StructWait(StructDeadline(t, 4294967295000000, false), t, false) == INFINITE
  {
    StructWaitWithinTimeout(t, 4294967295000000, t);
  }

  // ---------- a 32-bit time_t ----------

  /** The wait for a deadline at `x` ms, at `n` ms, when the milliseconds of the deadline wrap at 32 bits. */
  function WrappedWait(x: nat, n: nat): nat {
    var low := x % TWO32;
    if low >= TWO31 then (x - n) % TWO32 else if low < n then 0 else low - n
  }

  /** The product with 1000 has the type of `tv_sec`, so with 32 bits only its low bits are left. */
  lemma StructWait32(d: Instant, clock: Uint64)
    requires InEra(d)
    ensures StructWait(d, clock, true) == WrappedWait(Nanos(d) / 1000000, clock / 10000)
  {
    MillisOf(d.sec, d.nsec);
    WrapSum(d.nsec / 1000000, d.sec * 1000);
    assert Nanos(d) / 1000000 == d.sec * 1000 + d.nsec / 1000000;
    WrapMillis(d.sec * 1000 + d.nsec / 1000000, clock / 10000);
  }

  lemma WrapMillis(x: nat, n: nat)
    requires n < TWO63
    ensures var left := ToU64(I32(x)) - n;
            (if left < 0 then 0 else U32(left)) == WrappedWait(x, n)
  {
    var q, low := x / TWO32, x % TWO32;
    SignOfLow(x);
    if low >= TWO31 {
      DwordShift(x - n, 0x1_0000_0000 - 1 - q);
    }
  }

  lemma SignOfLow(x: nat)
    ensures var low := x % TWO32;
            ToU64(I32(x)) == if low >= TWO31 then low - TWO32 + TWO64 else low
  {
  }

  lemma DwordShift(y: int, q: int)
    ensures (y + 0x1_0000_0000 * q) % 0x1_0000_0000 == y % 0x1_0000_0000
  {
    DivModUnique(y + 0x1_0000_0000 * q, 0x1_0000_0000, y / 0x1_0000_0000 + q, y % 0x1_0000_0000);
  }

  /** The wait without the wrap. */
  function PlainWait(x: nat, n: nat): nat {
    Max(0, x - n) % TWO32
  }

  /**
    With the wrap the wait is still right if and only if, where bit 31 of the
    milliseconds of the deadline is set, the deadline has not passed; where it is
    clear, the deadline has passed, or the clock has not passed the low 32 bits;
    or the difference is a multiple of 2^32 anyway.
   */
  lemma WrappedWaitRight(x: nat, n: nat)
    ensures WrappedWait(x, n) == PlainWait(x, n)
       <==> || (x - n) % TWO32 == 0
            || (if x % TWO32 >= TWO31 then n <= x else x < n || n <= x % TWO32)
  {
    var low := x % TWO32;
    if n <= low {
      DwordShift(low - n, x / TWO32);
    }
  }

  /** The same for the wait for an instant. */
  lemma StructWait32Right(d: Instant, clock: Uint64)
    requires InEra(d)
    ensures var x, n := Nanos(d) / 1000000, clock / 10000;
            (StructWait(d, clock, true) == StructWait(d, clock, false) <==>
               (x - n) % TWO32 == 0 || (if x % TWO32 >= TWO31 then n <= x else x < n || n <= x % TWO32))
  {
    StructWait32(d, clock);
    StructWaitMeaning(d, clock);
    TicksToMillis(clock);
    WrappedWaitRight(Nanos(d) / 1000000, clock / 10000);
  }

  lemma WaitMeanings(d: Instant, clock: Uint64)
    ensures InEra(d) ==> StructWait(d, clock, false) == Max(0, MillisLeftUntil(d, clock)) % TWO32
    ensures InEra(d) ==> StructWait(d, clock, true) == WrappedWait(Nanos(d) / 1000000, clock / 10000)
  {
    if InEra(d) {
      StructWaitMeaning(d, clock);
      StructWait32(d, clock);
    }
  }

  /** One second before every multiple of 2^32 ms, a deadline one second ahead is not waited for at all. */
  lemma LostWait(k: nat)
    requires 0 < k && DeadlineFits(10000 * (k * 0x1_0000_0000 - 1000), 1000000000, true)
    ensures var t := 10000 * (k * 0x1_0000_0000 - 1000);
            var d := StructDeadline(t, 1000000000, true);
            StructWait(d, t, true) == 0 && StructWait(d, t, false) == 1000
  {
    var t := 10000 * (k * 0x1_0000_0000 - 1000);
    MillisOfLostWait(t, k * 0x1_0000_0000);
    LowOfMultiple(k);
  }

  /** The two waits for a deadline at `x` ms that is set 1000 ms before. */
  lemma MillisOfLostWait(t: Uint64, x: nat)
    requires x >= 1000 && t == 10000 * (x - 1000) && DeadlineFits(t, 1000000000, true)
    ensures var d := StructDeadline(t, 1000000000, true);
            StructWait(d, t, true) == WrappedWait(x, x - 1000) && StructWait(d, t, false) == 1000
  {
    var d := StructDeadline(t, 1000000000, true);
    StructDeadlineExact(t, 1000000000, true);
    assert Nanos(d) == 1000000 * x;
    StructWait32(d, t);
    StructWaitMeaning(d, t);
    TicksToMillis(t);
  }

  lemma LowOfMultiple(k: nat)
    requires k > 0
    ensures WrappedWait(k * 0x1_0000_0000, k * 0x1_0000_0000 - 1000) == 0
  {
  }

  // ---------- FILETIME (no HAVE_STRUCT_TIMESPEC) ----------

  /** The fields of the Windows form: the deadline in ticks, and the longest wait in milliseconds. */
  datatype FileDeadline = FileDeadline(tv: int, maxTimeoutMsec: int)

  function MakeFileDeadline(clock: nat, nsec: Uint64, long32: bool): FileDeadline {
    var limit := nsec / 1000000;
    FileDeadline(I64(clock + nsec / 100), if long32 then Min(limit, INT_MAX32) else limit)
  }

  class FileTimespec {
    var tv: int
    var max_timeout_msec: int

    function Value(): FileDeadline
      reads this
    {
      FileDeadline(tv, max_timeout_msec)
    }

    /** The deadline is exact if and only if the ticks fit 63 bits; the limit is the timeout, unless it is capped. */
    method SetNsec(clock: nat, nsec: Uint64, long32: bool)
      requires clock < TWO63
      modifies this
      ensures tv == clock + nsec / 100 <==> clock + nsec / 100 < TWO63
      ensures 0 <= max_timeout_msec <= nsec / 1000000 && (long32 ==> max_timeout_msec <= INT_MAX32)
      ensures max_timeout_msec == if long32 && nsec / 1000000 > 0x7FFF_FFFF then 0x7FFF_FFFF else nsec / 1000000
      ensures Value() == MakeFileDeadline(clock, nsec, long32)
    {
      var limit := nsec / 1000000;
      tv := I64(clock + nsec / 100);
      if long32 {
        limit := Min(limit, INT_MAX32);
      }
      max_timeout_msec := limit;
      if clock + nsec / 100 < TWO63 {
        InRange64(clock + nsec / 100);
      }
    }

    /** `set_timespec` is exact, in seconds, if and only if neither the product nor the ticks overflow. */
    method SetSec(clock: nat, sec: Uint64, long32: bool)
      requires clock < TWO63
      modifies this
      ensures tv == clock + sec * 10000000 <==> sec * 1000000000 < TWO64 && clock + sec * 10000000 < TWO63
      ensures Value() == MakeFileDeadline(clock, ToU64(sec * 1000000000), long32)
    {
      var nsec := ToU64(sec * 1000000000);
      SetNsec(clock, nsec, long32);
      ProductWraps(sec * 1000000000);
      TicksAtMost(clock + nsec / 100);
    }

    /** A deadline is set at one reading of the clock and waited for at another; `long` has 32 bits, as on Windows. */
    method TimedWait(clock: nat, nsec: Uint64, now: nat) returns (r: nat)
      requires clock < TWO63 && now < TWO63
      modifies this
      ensures 0 <= r <= Min(nsec / 1000000, INT_MAX32)
      ensures clock + nsec / 100 < TWO63 ==>
                r == Min(Max(0, 100 * clock + nsec - 100 * now) / 1000000, Min(nsec / 1000000, INT_MAX32))
      ensures clock + nsec / 100 < TWO63 && clock <= now && nsec / 1000000 <= INT_MAX32 ==>
                r == Max(0, 100 * clock + nsec - 100 * now) / 1000000
    {
      SetNsec(clock, nsec, true);
      r := GetMilliseconds(this, now);
      FileWaitWithinTimeout(clock, nsec, now);
      if clock + nsec / 100 < TWO63 {
        FileWaitExact(clock, nsec, now);
      }
    }
  }

  /**
    `get_milliseconds`; `now` is the reading at the time of the wait. Unless the
    deadline is null or has passed, the wait is the largest number of milliseconds
    that is within the time left and the two limits.
   */
  method GetMilliseconds(abstime: FileTimespec?, now: nat) returns (r: nat)
    requires now < TWO63
    ensures abstime == null ==> r == INFINITE
    ensures abstime != null && 0 <= abstime.tv < now && abstime.max_timeout_msec >= 0 ==> r == 0
    ensures abstime != null && now <= abstime.tv < TWO63 && abstime.max_timeout_msec >= 0 ==>
              IsLongestWait(r, abstime.tv - now, abstime.max_timeout_msec)
    ensures abstime != null ==> r == FileWait(abstime.Value(), now)
  {
    if abstime == null {
      return INFINITE;
    }
    var millis := TruncDiv(I64(abstime.tv - now), 10000);
    if 0 <= abstime.tv < TWO63 {
      InRange64(abstime.tv - now);
    }
    if millis < 0 {
      return 0;
    }
    if millis > abstime.max_timeout_msec {
      millis := abstime.max_timeout_msec;
    }
    if millis > UINT_MAX {
      millis := UINT_MAX;
    }
    r := millis % TWO32;
  }

  /** `w` fits the `ticks` that are left, the limit and `UINT_MAX`, and 1 ms more does not. */
  predicate IsLongestWait(w: nat, ticks: nat, limit: int) {
    && w * 10000 <= ticks && w <= limit && w <= UINT_MAX
    && ((w + 1) * 10000 > ticks || w == limit || w == UINT_MAX)
  }

  /** The wait for a deadline: the time left, within the two limits, as a `DWORD`. */
  function FileWait(d: FileDeadline, now: nat): nat {
    var left := TruncDiv(I64(d.tv - now), 10000);
    if left < 0 then 0 else Min(Min(left, d.maxTimeoutMsec), UINT_MAX) % TWO32
  }

  lemma InRange64(x: int)
    requires -TWO63 <= x < TWO63
    ensures I64(x) == x
  {
  }

  lemma TicksAtMost(x: nat)
    ensures I64(x) <= x
  {
  }

  /** The deadline in ticks is the clock plus the timeout; its limit fits a 32-bit `long`. */
  lemma FileDeadlineFields(clock: nat, nsec: Uint64, long32: bool)
    requires clock + nsec / 100 < TWO63
    ensures var d := MakeFileDeadline(clock, nsec, long32);
            && d.tv == clock + nsec / 100
            && 0 <= d.maxTimeoutMsec <= nsec / 1000000
            && (long32 ==> d.maxTimeoutMsec == Min(nsec / 1000000, INT_MAX32))
            && (!long32 ==> d.maxTimeoutMsec == nsec / 1000000)
  {
    InRange64(clock + nsec / 100);
  }

  /** Whole milliseconds left, counted in ticks or in nanoseconds. */
  lemma MillisLeft(clock: nat, nsec: nat, now: nat)
    requires clock + nsec / 100 >= now
    ensures (clock + nsec / 100 - now) / 10000 == (100 * clock + nsec - 100 * now) / 1000000
  {
    var ticks := clock + nsec / 100 - now;
    assert 100 * clock + nsec - 100 * now == 100 * ticks + nsec % 100;
    DivModUnique(100 * ticks + nsec % 100, 1000000, ticks / 10000, ticks % 10000 * 100 + nsec % 100);
  }

  /** Whatever the clock says, now or at wait time, the wait is at most the original timeout. */
  lemma FileWaitWithinTimeout(clock: nat, nsec: Uint64, now: nat)
    ensures 0 <= FileWait(MakeFileDeadline(clock, nsec, true), now) <= Min(nsec / 1000000, INT_MAX32)
  {
    var d := MakeFileDeadline(clock, nsec, true);
    var left := TruncDiv(I64(d.tv - now), 10000);
    if left >= 0 {
      FitsDword(Min(Min(left, d.maxTimeoutMsec), UINT_MAX));
    }
  }

  /**
    The wait is the time left, rounded down to milliseconds, but not longer than
    the timeout or its cap; these play no part if the clock did not move backwards
    and the timeout is not capped.
   */
  lemma FileWaitExact(clock: nat, nsec: Uint64, now: nat)
    requires clock + nsec / 100 < TWO63 && now < TWO63
    ensures var w := FileWait(MakeFileDeadline(clock, nsec, true), now);
            var left := Max(0, 100 * clock + nsec - 100 * now) / 1000000;
            && w == Min(left, Min(nsec / 1000000, INT_MAX32))
            && (clock <= now && nsec / 1000000 <= INT_MAX32 ==> w == left)
  {
    var d := MakeFileDeadline(clock, nsec, true);
    FileDeadlineFields(clock, nsec, true);
    InRange64(d.tv - now);
    if d.tv >= now {
      MillisLeft(clock, nsec, now);
      FitsDword(Min(Min((d.tv - now) / 10000, d.maxTimeoutMsec), UINT_MAX));
      if clock <= now {
        NoCap(nsec, d.tv - now);
      }
    } else {
      PassedDeadline(d, now);
      assert 100 * clock + nsec - 100 * now < 0;
    }
  }

  lemma FitsDword(x: nat)
    requires x <= UINT_MAX
    ensures x % TWO32 == x
  {
  }

  /** The time left cannot exceed the timeout, in milliseconds either. */
  lemma NoCap(nsec: nat, ticks: nat)
    requires ticks <= nsec / 100
    ensures ticks / 10000 <= nsec / 1000000
  {
    DivDiv(nsec, 100, 10000);
  }

  /** A deadline that has passed gives no wait, when the limit is not negative. */
  lemma PassedDeadline(d: FileDeadline, now: nat)
    requires now < TWO63 && 0 <= d.tv < now && d.maxTimeoutMsec >= 0
    ensures FileWait(d, now) == 0
  {
    InRange64(d.tv - now);
  }

  /**
    A finite timeout turns into an endless wait if and only if `long` has 64 bits,
    and both the timeout and the time left reach 2^32 - 1 ms; so with the 32-bit
    `long` of Windows only a null deadline waits for ever.
   */
  lemma FileWaitInfinite(clock: nat, nsec: Uint64, now: nat, long32: bool)
    requires clock + nsec / 100 < TWO63 && now < TWO63
    ensures FileWait(MakeFileDeadline(clock, nsec, long32), now) == INFINITE
       <==> !long32 && nsec / 1000000 >= INFINITE && 100 * clock + nsec - 100 * now >= INFINITE * 1000000
  {
    var d := MakeFileDeadline(clock, nsec, long32);
    FileDeadlineFields(clock, nsec, long32);
    InRange64(d.tv - now);
    if d.tv >= now {
      MillisLeft(clock, nsec, now);
      FitsDword(Min(Min((d.tv - now) / 10000, d.maxTimeoutMsec), UINT_MAX));
    } else {
      PassedDeadline(d, now);
    }
  }

  /**
    Deadlines compare as the ticks they stand for, whenever each was set, and their
    difference is exact if and only if it is not negative and below 2^64 ns.
   */
  lemma FileDeadlineOrder(c1: nat, n1: Uint64, c2: nat, n2: Uint64, long32: bool)
    requires c1 + n1 / 100 < TWO63 && c2 + n2 / 100 < TWO63
    ensures var d1, d2 := MakeFileDeadline(c1, n1, long32), MakeFileDeadline(c2, n2, long32);
            var apart := (c1 + n1 / 100) - (c2 + n2 / 100);
            && CmpFileDeadline(d1, d2) == Sign(apart)
            && (DiffFileDeadline(d1, d2) == 100 * apart <==> 0 <= 100 * apart < TWO64)
  {
    InRange64(c1 + n1 / 100);
    InRange64(c2 + n2 / 100);
    FileDiffExact(MakeFileDeadline(c1, n1, long32), MakeFileDeadline(c2, n2, long32));
  }

  /** `cmp_timespec` on the FILETIME form: the limit plays no part. */
  function CmpFileDeadline(a: FileDeadline, b: FileDeadline): int {
    if a.tv > b.tv then 1 else if a.tv < b.tv then -1 else 0
  }

  /** `diff_timespec` on the FILETIME form. */
  function DiffFileDeadline(a: FileDeadline, b: FileDeadline): Uint64 {
    ToU64(I64(I64(a.tv - b.tv) * 100))
  }

  /** The difference in nanoseconds is exact if and only if it is not negative and below 2^64. */
  lemma FileDiffExact(a: FileDeadline, b: FileDeadline)
    requires 0 <= a.tv < TWO63 && 0 <= b.tv < TWO63
    ensures DiffFileDeadline(a, b) == 100 * (a.tv - b.tv)
       <==> CmpFileDeadline(a, b) != -1 && 100 * (a.tv - b.tv) < TWO64
  {
    InRange64(a.tv - b.tv);
    var x := (a.tv - b.tv) * 100;
    var m := 0x1_0000_0000_0000_0000;
    var q := (x + 0x8000_0000_0000_0000) / m;
    assert I64(x) == x + m * -q;
    ShiftWord(x, -q);
    if 0 <= x < TWO64 {
      DivModUnique(x, m, 0, x);
    }
  }
}
