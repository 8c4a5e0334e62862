/** Timer arithmetic: division and saturating multiplication bit by bit, ticks to nanoseconds, and counter extension. */
module Hpet {
  import opened Arithmetic
  import opened Binary
  import opened Bytes

  const FEMTOSECONDS_PER_NANOSECOND: u32 := 1_000_000
  const MAX_PERIOD: u32 := 100_000_000
  const WRAP: nat := 0x1_0000_0000

  // ---------- Division by shifting and subtracting ----------

  /** Halving the quotient by a power of two is the quotient by twice that power. */
  lemma HalfQuotient(v: nat, p: nat)
    requires p > 0
    ensures v / p / 2 == v / (2 * p)
  {
    var a, b := v / p, v % p;
    var c, d := a / 2, a % 2;
    assert v == a * p + b;
    Spread(c, d, p);
    QuotientIs(v, 2 * p, c, d * p + b);
  }

  lemma Spread(c: nat, d: nat, p: nat)
    requires d < 2
    ensures (2 * c + d) * p == c * (2 * p) + d * p && d * p <= p
  {
    assert d == 0 || d == 1;
  }

  /** After the bits from the top down to `bit`: q is the quotient of the value's top part, in place in the result. */
  ghost predicate Divided(value: nat, divisor: nat, bit: nat, q: nat, quotient: nat, rest: nat) {
    divisor > 0 && quotient == q * Pow2(bit) && rest < divisor && PowPositive(bit) && value / Pow2(bit) == q * divisor + rest
  }

  ghost predicate PowPositive(bit: nat)
    ensures PowPositive(bit)
  {
    PowGrows(bit);
    Pow2(bit) > 0
  }

  lemma {:induction false} PowGrows(k: nat)
    ensures Pow2(k) > 0
  {
    if k > 0 {
      PowGrows(k - 1);
    }
  }

  /** Bit k of a number. */
  function Bit(value: nat, k: nat): (b: nat)
    ensures b < 2
  {
    PowGrows(k);
    value / Pow2(k) % 2
  }

  function ShiftedIn(rest: u32, b: nat): u32
    requires b < 2
  {
    rest * 2 % WRAP + b
  }

  lemma NoWrap(rest: u32, b: nat)
    requires b < 2 && rest < 0x8000_0000
    ensures ShiftedIn(rest, b) == 2 * rest + b
  {
  }

  lemma DivideStep(value: nat, divisor: nat, bit: nat, q: nat, quotient: nat, rest: nat)
    requires bit > 0 && Divided(value, divisor, bit, q, quotient, rest)
    ensures var r := 2 * rest + Bit(value, bit - 1);
            if r >= divisor then Divided(value, divisor, bit - 1, 2 * q + 1, quotient + Pow2(bit - 1), r - divisor)
            else Divided(value, divisor, bit - 1, 2 * q, quotient, r)
  {
    PowGrows(bit - 1);
    HalfQuotient(value, Pow2(bit - 1));
    StepSums(q, divisor, rest, Pow2(bit - 1));
  }

  /** Doubling the quotient so far, with or without one more, in the products that occur in a step. */
  lemma StepSums(q: nat, divisor: nat, rest: nat, p: nat)
    ensures q * (2 * p) == (2 * q) * p && (2 * q + 1) * p == q * (2 * p) + p
    ensures 2 * (q * divisor + rest) == (2 * q) * divisor + 2 * rest && (2 * q + 1) * divisor == (2 * q) * divisor + divisor
  {
    Spread(q, 0, p);
    Spread(q, 1, p);
    Spread(q, 0, divisor);
    Spread(q, 1, divisor);
    Doubled(q, divisor);
  }

  lemma Doubled(q: nat, d: nat)
    ensures q * (2 * d) == 2 * (q * d)
  {
  }

  lemma QuotientFits(value: nat, divisor: nat, bit: nat, q: nat, quotient: nat, rest: nat)
    requires Divided(value, divisor, bit, q, quotient, rest)
    ensures quotient <= value
  {
    var p := Pow2(bit);
    Times(divisor, q);
    Scaled(q, value / p, p);
    assert value == (value / p) * p + value % p;
  }

  lemma LongPow()
    ensures Pow2(64) == 0x1_0000_0000_0000_0000
  {
    WordPow();
    assert Pow2(40) == 0x100_0000_0000;
    assert Pow2(48) == 0x1_0000_0000_0000;
    assert Pow2(56) == 0x100_0000_0000_0000;
  }

  /** The rest of the bits above this one, which is shifted next, still has a free top bit. */
  predicate ShortAt(value: nat, divisor: nat, bit: nat)
    requires divisor > 0
  {
    PowGrows(bit);
    value / Pow2(bit) % divisor < 0x8000_0000
  }

  /** No rest on the way is shifted out of 32 bits. */
  predicate StaysShort(value: nat, divisor: nat)
    requires divisor > 0
  {
    forall bit :: 0 < bit <= 64 ==> ShortAt(value, divisor, bit)
  }

  /** Every division by a divisor stays short exactly when that is at most 2^31. */
  lemma ShortDivisors(divisor: u32)
    requires divisor > 0
    ensures (forall value: nat :: StaysShort(value, divisor)) <==> divisor <= 0x8000_0000
  {
    hide ShortAt, StaysShort;
    if divisor > 0x8000_0000 {
      LongRest(divisor);
      NotShort(0x1_0000_0000, divisor, 1);
    } else {
      forall value: nat ensures StaysShort(value, divisor) {
        forall bit | 0 < bit <= 64 ensures ShortAt(value, divisor, bit) {
          ShortRest(value, divisor, bit);
        }
        AllShort(value, divisor);
      }
    }
  }

  lemma LongRest(divisor: u32)
    requires divisor > 0x8000_0000
    ensures !ShortAt(0x1_0000_0000, divisor, 1)
  {
    assert Pow2(1) == 2;
    QuotientIs(0x8000_0000, divisor, 0, 0x8000_0000);
  }

  lemma ShortRest(value: nat, divisor: nat, bit: nat)
    requires 0 < divisor <= 0x8000_0000
    ensures ShortAt(value, divisor, bit)
  {
    PowGrows(bit);
  }

  /** A rest shifted out of 32 bits costs the quotient the bit that was due, and nothing makes up for it. */
  ghost predicate Behind(value: nat, divisor: nat, bit: nat, quotient: nat) {
    divisor > 0 && !StaysShort(value, divisor) && quotient + Pow2(bit) <= value / divisor
  }

  lemma RestIs(value: nat, divisor: nat, bit: nat, q: nat, quotient: nat, rest: nat)
    requires Divided(value, divisor, bit, q, quotient, rest)
    ensures ShortAt(value, divisor, bit) <==> rest < 0x8000_0000
  {
    PowGrows(bit);
    QuotientIs(value / Pow2(bit), divisor, q, rest);
  }

  lemma FallsBehind(value: nat, divisor: u32, bit: nat, q: nat, quotient: nat, rest: u32)
    requires 0 < bit <= 64 && Divided(value, divisor, bit, q, quotient, rest) && rest >= 0x8000_0000
    ensures ShiftedIn(rest, Bit(value, bit - 1)) < divisor && Behind(value, divisor, bit - 1, quotient)
  {
    hide Pow2, StaysShort, Bit;
    RestIs(value, divisor, bit, q, quotient, rest);
    assert !StaysShort(value, divisor) by {
      NotShort(value, divisor, bit);
    }
    DivideStep(value, divisor, bit, q, quotient, rest);
    var r := 2 * rest + Bit(value, bit - 1) - divisor;
    QuotientReaches(value, divisor, bit - 1, 2 * q + 1, quotient + Pow2(bit - 1), r);
  }

  lemma NotShort(value: nat, divisor: nat, bit: nat)
    requires divisor > 0 && 0 < bit <= 64 && !ShortAt(value, divisor, bit)
    ensures !StaysShort(value, divisor)
  {
  }

  /** The quotient so far is never above the true one. */
  lemma QuotientReaches(value: nat, divisor: nat, bit: nat, q: nat, quotient: nat, rest: nat)
    requires Divided(value, divisor, bit, q, quotient, rest)
    ensures quotient <= value / divisor
  {
    var p := Pow2(bit);
    Scaled(q * divisor, value / p, p);
    assert value >= (value / p) * p;
    assert (q * divisor) * p == (q * p) * divisor;
    QuotientGrows(quotient * divisor, value, divisor);
    QuotientIs(quotient * divisor, divisor, quotient, 0);
  }

  lemma StaysBehind(value: nat, divisor: nat, bit: nat, quotient: nat)
    requires bit > 0 && Behind(value, divisor, bit, quotient)
    ensures Behind(value, divisor, bit - 1, quotient) && Behind(value, divisor, bit - 1, quotient + Pow2(bit - 1))
    ensures quotient + Pow2(bit - 1) <= value
  {
    hide StaysShort;
    PowGrows(bit - 1);
    assert value / divisor <= value by {
      Times(divisor, value / divisor);
    }
  }

  /**
   * The quotient is built from its top bit down. It is right exactly when no rest on the way is shifted out of 32
   * bits, as is so for every divisor up to 2^31.
   */
  method Divide(value: u64, divisor: u32) returns (quotient: u64, rest: u32)
    requires divisor > 0
    ensures quotient == value / divisor <==> StaysShort(value, divisor)
    ensures StaysShort(value, divisor) ==> rest == value % divisor
  {
    hide Divided, Pow2, PowPositive, Bit, ShiftedIn, Behind, StaysShort, ShortAt;
    quotient, rest := 0, 0;
    ghost var q: nat, behind := 0, false;
    var bit := 64;
    DivideStart(value, divisor);
    while bit > 0
      invariant 0 <= bit <= 64
      invariant !behind ==> rest < divisor && Divided(value, divisor, bit, q, quotient, rest) && forall k :: bit < k <= 64 ==> ShortAt(value, divisor, k)
      invariant behind ==> Behind(value, divisor, bit, quotient)
    {
      ghost var before := rest;
      rest := ShiftedIn(rest, Bit(value, bit - 1));
      if behind {
        StaysBehind(value, divisor, bit, quotient);
      } else {
        RestIs(value, divisor, bit, q, quotient, before);
        if before < 0x8000_0000 {
          NoWrap(before, Bit(value, bit - 1));
          DivideStep(value, divisor, bit, q, quotient, before);
          if rest >= divisor {
            QuotientFits(value, divisor, bit - 1, 2 * q + 1, quotient + Pow2(bit - 1), rest - divisor);
          }
          q := if rest >= divisor then 2 * q + 1 else 2 * q;
        } else {
          FallsBehind(value, divisor, bit, q, quotient, before);
          behind := true;
        }
      }
      if rest >= divisor {
        rest := rest - divisor;
        quotient := quotient + Pow2(bit - 1);
      }
      bit := bit - 1;
    }
    if behind {
      EndsBehind(value, divisor, quotient);
    } else {
      DivideEnd(value, divisor, q, quotient, rest);
      AllShort(value, divisor);
    }
  }

  lemma AllShort(value: nat, divisor: nat)
    requires divisor > 0 && forall k :: 0 < k <= 64 ==> ShortAt(value, divisor, k)
    ensures StaysShort(value, divisor)
  {
  }

  lemma EndsBehind(value: nat, divisor: nat, quotient: nat)
    requires Behind(value, divisor, 0, quotient)
    ensures quotient < value / divisor && !StaysShort(value, divisor)
  {
  }

  lemma DivideStart(value: u64, divisor: nat)
    requires divisor > 0
    ensures Divided(value, divisor, 64, 0, 0, 0)
  {
    LongPow();
    QuotientIs(value, Pow2(64), 0, value);
  }

  lemma DivideEnd(value: nat, divisor: nat, q: nat, quotient: nat, rest: nat)
    requires Divided(value, divisor, 0, q, quotient, rest)
    ensures quotient == value / divisor && rest == value % divisor
  {
    QuotientIs(value, divisor, q, rest);
  }

  // ---------- Multiplication by doubling ----------

  function Saturated(n: nat): (r: u64)
    ensures r <= n
  {
    if n > U64_MAX then U64_MAX else n
  }

  /** One bit of the factor: the part still to come is doubled, an odd bit is added now. */
  lemma HalveFactor(v: nat, f: nat)
    requires f > 0
    ensures v * f == (v + v) * (f / 2) + v * (f % 2) && v * f >= v && (f / 2 > 0 ==> (v + v) * (f / 2) >= v + v)
  {
    var h := f / 2;
    assert f == 2 * h + f % 2;
    assert v * f == v * (2 * h) + v * (f % 2);
    assert v * (2 * h) == (v + v) * h;
    Times(f, v);
    Times(h, v + v);
  }

  ghost predicate Left(product: nat, result: nat, v: nat, f: nat) {
    product == result + v * f
  }

  lemma MultiplyStep(product: nat, result: nat, v: nat, f: nat)
    requires Left(product, result, v, f) && f > 0
    ensures var now := if f % 2 != 0 then result + v else result;
            now <= product && Left(product, now, if f / 2 > 0 then v + v else v, f / 2) && (f / 2 > 0 ==> v + v <= product)
  {
    HalveFactor(v, f);
  }

  method Multiply(value: u64, factor: u32) returns (result: u64)
    ensures result == Saturated(value * factor)
  {
    hide Left;
    MultiplyStart(value, factor);
    ghost var product: nat := value * factor;
    var v: nat, f: nat := value, factor;
    result := 0;
    while f != 0
      invariant v <= U64_MAX && Left(product, result, v, f)
    {
      MultiplyStep(product, result, v, f);
      if f % 2 != 0 {
        if result > U64_MAX - v {
          return U64_MAX;
        }
        result := result + v;
      }
      f := f / 2;
      if f != 0 {
        if v > U64_MAX - v {
          return U64_MAX;
        }
        v := v + v;
      }
    }
    MultiplyEnd(product, result, v);
  }

  lemma MultiplyStart(value: nat, factor: nat)
    ensures value * factor >= 0 && Left(value * factor, 0, value, factor)
  {
  }

  lemma MultiplyEnd(product: nat, result: nat, v: nat)
    requires Left(product, result, v, 0)
    ensures product == result
  {
  }

  // ---------- Ticks to nanoseconds ----------

  /** The exact time, cut off at the largest 64-bit number, which also answers for an illegal period. */
  function Nanoseconds(ticks: u64, period: u32): u64 {
    if period == 0 || period > MAX_PERIOD then U64_MAX else Saturated(ticks * period / FEMTOSECONDS_PER_NANOSECOND)
  }

  lemma SplitProduct(ticks: nat, period: nat)
    ensures var w, r := ticks / FEMTOSECONDS_PER_NANOSECOND, ticks % FEMTOSECONDS_PER_NANOSECOND;
            ticks * period / FEMTOSECONDS_PER_NANOSECOND == w * period + r * period / FEMTOSECONDS_PER_NANOSECOND
  {
    var d: nat := FEMTOSECONDS_PER_NANOSECOND;
    var w, r := ticks / d, ticks % d;
    var a, b := r * period / d, r * period % d;
    assert ticks == w * d + r;
    assert ticks * period == (w * d) * period + r * period;
    assert (w * d) * period == (w * period) * d;
    assert r * period == a * d + b;
    assert ticks * period == (w * period + a) * d + b;
    QuotientIs(ticks * period, d, w * period + a, b);
  }

  /** The two parts of the conversion add up, whether or not the whole part was cut off. */
  lemma PartsAddUp(ticks: u64, period: u32, whole: nat, part: nat)
    requires 0 < period <= MAX_PERIOD
    requires whole == Saturated(ticks / FEMTOSECONDS_PER_NANOSECOND * period)
    requires part == ticks % FEMTOSECONDS_PER_NANOSECOND * period / FEMTOSECONDS_PER_NANOSECOND
    ensures Nanoseconds(ticks, period) == if whole > U64_MAX - part then U64_MAX else whole + part
  {
    SplitProduct(ticks, period);
  }

  lemma FractionIsSmall(remainder: nat, period: nat)
    requires remainder < FEMTOSECONDS_PER_NANOSECOND && period <= MAX_PERIOD
    ensures 0 <= remainder * period <= U64_MAX
  {
    Scaled(period, MAX_PERIOD, remainder);
  }

  method TicksToNanoseconds(ticks: u64, period: u32) returns (ns: u64)
    ensures ns == Nanoseconds(ticks, period)
  {
    hide Saturated, Nanoseconds;
    if period == 0 || period > MAX_PERIOD {
      IllegalPeriod(ticks, period);
      return U64_MAX;
    }
    ShortDivisors(FEMTOSECONDS_PER_NANOSECOND);
    var wholeTicks, remainder := Divide(ticks, FEMTOSECONDS_PER_NANOSECOND);
    var whole := Multiply(wholeTicks, period);
    FractionIsSmall(remainder, period);
    SmallIsExact(remainder * period);
    var fraction := Multiply(remainder, period);
    var part, _ := Divide(fraction, FEMTOSECONDS_PER_NANOSECOND);
    PartsAddUp(ticks, period, whole, part);
    if whole > U64_MAX - part {
      return U64_MAX;
    }
    return whole + part;
  }

  lemma IllegalPeriod(ticks: u64, period: u32)
    requires period == 0 || period > MAX_PERIOD
    ensures Nanoseconds(ticks, period) == U64_MAX
  {
  }

  lemma SmallIsExact(n: nat)
    requires n <= U64_MAX
    ensures Saturated(n) == n
  {
  }

  /** Later readings never convert to earlier times. */
  lemma Monotone(early: u64, late: u64, period: u32)
    requires early <= late
    ensures Nanoseconds(early, period) <= Nanoseconds(late, period)
  {
    assert early * period <= late * period;
    QuotientGrows(early * period, late * period, FEMTOSECONDS_PER_NANOSECOND);
  }

  // ---------- A 64-bit counter from 32-bit samples ----------

  /** The wrap count after a sample; it is a 32-bit word and wraps itself. */
  function Wraps(low: u32, lastLow: u32, wraps: u32): u32 {
    if low < lastLow then (wraps + 1) % WRAP else wraps
  }

  /** What the stored words say: the true counter modulo 2^64. */
  ghost predicate Tracks(lastLow: u32, wraps: u32, time: nat) {
    lastLow == time % WRAP && wraps == time / WRAP % WRAP
  }

  class Counter {
    var lastLow: u32
    var wraps: u32

    constructor ()
      ensures lastLow == 0 && wraps == 0
    {
      lastLow, wraps := 0, 0;
    }

    /**
     * Takes a sample. If the stored words stood for the true counter at an earlier time and the sample is of a time
     * less than 2^32 ticks later, they stand for that time afterwards, and below 2^64 the value is that time.
     */
    method Extend(low: u32, ghost time: nat, ghost later: nat) returns (extended: u64)
      modifies this
      ensures lastLow == low && extended == wraps * WRAP + lastLow
      ensures old(Tracks(lastLow, wraps, time)) && time <= later < time + WRAP && low == later % WRAP ==>
                Tracks(lastLow, wraps, later) && (later < WRAP * WRAP ==> extended == later)
    {
      if Tracks(lastLow, wraps, time) && time <= later < time + WRAP && low == later % WRAP {
        SampleTracks(lastLow, wraps, time, later);
        if later < WRAP * WRAP {
          TracksValue(low, Wraps(low, lastLow, wraps), later);
        }
      }
      if low < lastLow {
        wraps := (wraps + 1) % WRAP;
      }
      lastLow := low;
      return wraps * WRAP + low;
    }
  }

  lemma TracksValue(lastLow: u32, wraps: u32, time: nat)
    requires Tracks(lastLow, wraps, time) && time < WRAP * WRAP
    ensures wraps * WRAP + lastLow == time
  {
  }

  /** A sample less than 2^32 ticks after the last one is placed exactly. */
  lemma SampleTracks(lastLow: u32, wraps: u32, time: nat, later: nat)
    requires Tracks(lastLow, wraps, time) && time <= later < time + WRAP
    ensures Tracks(later % WRAP, Wraps(later % WRAP, lastLow, wraps), later)
  {
    var t, u := time / WRAP, later / WRAP;
    assert time == t * WRAP + time % WRAP && later == u * WRAP + later % WRAP;
    assert u == t || u == t + 1;
    assert (t % WRAP + 1) % WRAP == (t + 1) % WRAP;
  }

  /** Below 2^64 the extended value is right exactly when less than 2^32 ticks have passed. */
  lemma ExtendsExactlyWhen(lastLow: u32, wraps: u32, time: nat, later: nat)
    requires Tracks(lastLow, wraps, time) && time <= later < WRAP * WRAP
    ensures Wraps(later % WRAP, lastLow, wraps) * WRAP + later % WRAP == later <==> later - time < WRAP
  {
    var t, u := time / WRAP, later / WRAP;
    assert time == t * WRAP + time % WRAP && later == u * WRAP + later % WRAP;
    assert t <= u < WRAP;
  }

  /** The state after a trace of samples, and the last extended value. */
  function Sampled(times: seq<nat>): (r: (u32, u32)) {
    if times == [] then (0, 0)
    else
      var (lastLow, wraps) := Sampled(times[..|times| - 1]);
      var low := times[|times| - 1] % WRAP;
      (low, Wraps(low, lastLow, wraps))
  }

  ghost predicate CloseTogether(times: seq<nat>) {
    && (times != [] ==> times[0] < WRAP)
    && forall i, j :: 0 <= i < |times| && j == i + 1 < |times| ==> times[i] <= times[j] < times[i] + WRAP
  }

  /** After any trace of samples less than 2^32 ticks apart, the extended counter is the true counter modulo 2^64. */
  lemma {:induction false} TraceTracks(times: seq<nat>)
    requires CloseTogether(times) && times != []
    ensures var (lastLow, wraps) := Sampled(times); var now := times[|times| - 1];
            Tracks(lastLow, wraps, now) && (now < WRAP * WRAP ==> wraps * WRAP + lastLow == now)
  {
    var front, now := times[..|times| - 1], times[|times| - 1];
    var (lastLow, wraps) := Sampled(front);
    if front == [] {
      SampleTracks(lastLow, wraps, 0, now);
    } else {
      TraceTracks(front);
      var i, j := |times| - 2, |times| - 1;
      assert times[i] <= times[j] < times[i] + WRAP;
      SampleTracks(lastLow, wraps, times[i], now);
    }
    var low := now % WRAP;
    assert Sampled(times) == (low, Wraps(low, lastLow, wraps));
    if now < WRAP * WRAP {
      TracksValue(low, Wraps(low, lastLow, wraps), now);
    }
  }
}
