/** settimeofday and gettimeofday: wall-clock time from a 32-bit tick count. The seconds and
    microseconds are signed 32-bit values, mixed with unsigned ones as the language rules say. */
module TimeOfDay {
  import opened Words

  const US := 1_000_000
  const ENOTSUP := 134

  datatype Tv = Tv(sec: int, usec: int)
  datatype Zone = Zone(minutesWest: int, dst: int)
  datatype Errno = NoError | ENOSYS

  /** The time of a pair in microseconds. */
  function Micros(t: Tv): int { t.sec * US + t.usec }

  /** Whole microseconds per tick; the division truncates. */
  function PerTick(rate: Word): nat
    requires rate > 0
  {
    US / rate
  }

  /** The microseconds part of the running time, from a 64-bit product. */
  function Micro64(n: Word, rate: Word): (r: nat)
    requires rate > 0
    ensures r < US
  {
    n * PerTick(rate) % US
  }

  /** The same from a 32-bit product, as used when the time is set. */
  function Micro32(n: Word, rate: Word): (r: nat)
    requires rate > 0
    ensures r < US
  {
    n * PerTick(rate) % U32 % US
  }

  /** The stored reset time after the time has been set to t. */
  function SetTime(t: Tv, n: Word, rate: Word): Tv
    requires rate > 0
  {
    Tv(Signed(t.sec - n / rate), Signed(t.usec - Micro32(n, rate)))
  }

  /** Reset time plus running time, before it is normalised. */
  function RawTime(reset: Tv, n: Word, rate: Word): Tv
    requires rate > 0
  {
    Tv(Signed(reset.sec + n / rate), Signed(reset.usec + Micro64(n, rate)))
  }

  /** The branch that gives up and reports zero: nothing is left to borrow from. */
  predicate Clamps(raw: Tv) { raw.usec < 0 && Micros(raw) < 0 }

  /** The reported time: the same instant with the microseconds in range. */
  function Normal(raw: Tv): Tv {
    if Clamps(raw) then Tv(0, 0) else Tv(Signed(Micros(raw) / US), Micros(raw) % US)
  }

  function GetTime(reset: Tv, n: Word, rate: Word): Tv
    requires rate > 0
  {
    Normal(RawTime(reset, n, rate))
  }

  // ---------------------------------------------------------------- the calls

  class Timeval {
    var sec: int
    var usec: int

    function Value(): Tv
      reads this
    {
      Tv(sec, usec)
    }

    /** Borrows seconds while the microseconds are negative. */
    method Borrow()
      modifies this
      ensures old(usec) >= 0 ==> Value() == old(Value())
      ensures old(usec) < 0 && Clamps(old(Value())) ==> Value() == Tv(0, 0)
      ensures old(usec) < 0 && !Clamps(old(Value())) ==>
              Micros(Value()) == Micros(old(Value())) && 0 <= usec < US && sec >= 0
    {
      while usec < 0
        invariant Micros(Value()) == Micros(old(Value()))
        invariant old(usec) >= 0 ==> Value() == old(Value())
        invariant old(usec) < 0 ==> usec < US && sec <= old(sec)
        invariant usec >= 0 && old(usec) < 0 ==> sec >= 0
        decreases -usec
      {
        if sec <= 0 {
          sec, usec := 0, 0;
          break;
        } else {
          sec := sec - 1;
          usec := usec + US;
        }
      }
    }

    /** Carries whole seconds out of the microseconds. */
    method Carry()
      requires usec >= 0 && Signed(sec) == sec
      modifies this
      ensures sec == Signed(Micros(old(Value())) / US) && usec == Micros(old(Value())) % US
    {
      ghost var carried := 0;
      while usec >= US
        invariant usec >= 0 && carried >= 0 && usec + carried * US == old(usec) && sec == Signed(old(sec) + carried)
        decreases usec
      {
        sec := Signed(sec + 1);
        usec := usec - US;
        carried := carried + 1;
      }
    }

    /** Both loops. */
    method Normalise()
      requires Signed(sec) == sec
      modifies this
      ensures Value() == Normal(old(Value()))
    {
      Borrow();
      Carry();
    }
  }

  class Timezone {
    var zone: Zone
  }

  class Clock {
    var reset: Tv
    var zone: Zone
    var errno: Errno

    constructor ()
      ensures reset == Tv(0, 0) && zone == Zone(0, 0) && errno == NoError
    {
      reset, zone, errno := Tv(0, 0), Zone(0, 0), NoError;
    }

    /** Sets the time; without a clock, fails and changes nothing but the error number. */
    method SetTimeOfDay(t: Tv, tz: Zone, nticks: Word, tickRate: Word) returns (result: int)
      modifies this
      ensures tickRate > 0 ==> result == 0 && reset == SetTime(t, nticks, tickRate) && zone == tz && errno == old(errno)
      ensures tickRate == 0 ==> result == -1 && reset == old(reset) && zone == old(zone) && errno == ENOSYS
    {
      if tickRate != 0 {
        var usec := nticks * (US / tickRate) % U32 % US;
        reset := Tv(Signed(t.sec - nticks / tickRate), Signed(t.usec - usec));
        zone := tz;
        return 0;
      }
      errno := ENOSYS;
      return -1;
    }

    /** Reports the time, and the zone when it is asked for; without a clock, fails and
        changes nothing. */
    method GetTimeOfDay(p: Timeval, z: Timezone?, nticks: Word, tickRate: Word) returns (result: int)
      modifies p, z
      ensures result == if tickRate > 0 then 0 else -ENOTSUP
      ensures p.Value() == if tickRate > 0 then GetTime(reset, nticks, tickRate) else old(p.Value())
      ensures z != null ==> z.zone == if tickRate > 0 then zone else old(z.zone)
    {
      if tickRate != 0 {
        p.sec := Signed(reset.sec + nticks / tickRate);
        p.usec := Signed(reset.usec + nticks * (US / tickRate) % US);
        assert p.Value() == RawTime(reset, nticks, tickRate);
        p.Normalise();
        if z != null {
          z.zone := zone;
        }
        return 0;
      }
      return -ENOTSUP;
    }
  }

  // ---------------------------------------------------------------- running time

  /** The running time the clock adds, in microseconds. */
  function Up(n: Word, rate: Word): nat
    requires rate > 0
  {
    n / rate * US + Micro64(n, rate)
  }

  lemma Split(n: nat, rate: nat, q: nat)
    requires rate > 0
    ensures n * q == n / rate * (rate * q) + n % rate * q
  {
    assert n == n / rate * rate + n % rate;
    assert n * q == (n / rate * rate) * q + n % rate * q;
  }

  /** No multiple of m but zero is closer to zero than m. */
  lemma Uncarried(a: int, m: int, r: int)
    requires m > 0 && a * m == r && -m < r < m
    ensures a == 0 && r == 0
  {
    if a > 0 { MulAtMost(1, a, m); }
  }

  lemma Remainder(a: int, m: int, r: int)
    requires m > 0 && 0 <= r < m
    ensures (a * m + r) % m == r && (a * m + r) / m == a
  {
    var x := a * m + r;
    assert x == x / m * m + x % m;
    Uncarried(x / m - a, m, r - x % m);
  }

  /** With a tick rate that divides a million, the running time is exact. */
  lemma UpExact(n: Word, rate: Word)
    requires rate > 0 && US % rate == 0
    ensures Up(n, rate) == n * PerTick(rate)
  {
    var q := PerTick(rate);
    assert rate * q == US;
    Split(n, rate, q);
    assert q > 0;
    MulAtMost(n % rate + 1, rate, q);
    assert (n % rate + 1) * q == n % rate * q + q;
    Remainder(n / rate, US, n % rate * q);
  }

  /** Rates at which the clock does not run backwards. */
  predicate Steady(rate: Word) { rate > US || (rate > 0 && US % rate == 0) }

  lemma NoMicros(n: Word, rate: Word)
    requires rate > US
    ensures PerTick(rate) == 0 && Micro64(n, rate) == 0
  {
    assert US / rate == 0;
  }

  lemma DivMonotone(a: nat, b: nat, d: nat)
    requires d > 0 && a <= b
    ensures a / d <= b / d
  {
    assert a == a / d * d + a % d && b == b / d * d + b % d;
    if b / d < a / d {
      MulAtMost(1, a / d - b / d, d);
    }
  }

  lemma SteadyGrows(n: Word, n': Word, rate: Word)
    requires Steady(rate) && n <= n'
    ensures Up(n, rate) <= Up(n', rate)
  {
    if rate > US {
      NoMicros(n, rate);
      NoMicros(n', rate);
      DivMonotone(n, n', rate);
    } else {
      UpExact(n, rate);
      UpExact(n', rate);
      MulAtMost(n, n', PerTick(rate));
    }
  }

  /** The first tick at which an unsteady clock falls back: the microseconds of the next
      second are complete before the second is. */
  function FallsAt(rate: Word): nat
    requires 0 < rate <= US
  {
    rate + (US % rate + PerTick(rate) - 1) / PerTick(rate)
  }

  /** The running time from a division by hand of the tick and of the product. */
  lemma UpIs(n: Word, rate: Word, sec: nat, over: nat, k: nat, usec: nat)
    requires over < rate && n == sec * rate + over
    requires usec < US && n * PerTick(rate) == k * US + usec
    ensures Up(n, rate) == sec * US + usec
  {
    Remainder(sec, rate, over);
    Remainder(k, US, usec);
  }

  lemma FallProducts(rate: nat, q: nat, left: nat, c: int)
    requires US == rate * q + left
    ensures (rate + c) * q == US - left + c * q && (rate + c - 1) * q == US - left + c * q - q
  {
    assert (rate + c) * q == rate * q + c * q;
    assert (rate + c - 1) * q == (rate + c) * q - q;
  }

  lemma UnsteadyRate(rate: Word)
    requires rate > 0 && !Steady(rate)
    ensures var q, left := PerTick(rate), US % rate;
            US == rate * q + left && 0 < q && 2 * q <= US && 0 < left < rate
  {
    var q := PerTick(rate);
    assert US == rate * q + US % rate;
    assert rate > 1;
    MulAtMost(2, rate, q);
  }

  lemma UnsteadyFallsBack(rate: Word)
    requires rate > 0 && !Steady(rate)
    ensures 0 < FallsAt(rate) < 2 * rate && Up(FallsAt(rate), rate) < Up(FallsAt(rate) - 1, rate)
  {
    UnsteadyRate(rate);
    var q, left := PerTick(rate), US % rate;
    var c := (left + q - 1) / q;
    Ceiling(left, q);
    FallProducts(rate, q, left, c);
    UpIs(rate + c, rate, 1, c, 1, c * q - left);
    UpIs(rate + c - 1, rate, 1, c - 1, 0, US - left + c * q - q);
  }

  lemma Ceiling(left: nat, q: nat)
    requires left > 0 && q > 0
    ensures var c := (left + q - 1) / q; 0 < c <= left && left <= c * q < left + q
  {
    var c := (left + q - 1) / q;
    assert left + q - 1 == c * q + (left + q - 1) % q;
    if c > left { MulAtMost(left + 1, c, q); MulAtMost(1, q, left); }
  }

  /** The clock never runs backwards if and only if the rate exceeds a million or divides it. */
  lemma MonotoneIff(rate: Word)
    requires rate > 0
    ensures Steady(rate) <==> forall n: Word, n': Word :: n <= n' ==> Up(n, rate) <= Up(n', rate)
  {
    if Steady(rate) {
      forall n: Word, n': Word | n <= n' ensures Up(n, rate) <= Up(n', rate) { SteadyGrows(n, n', rate); }
    } else {
      UnsteadyFallsBack(rate);
      var n: Word, n': Word := FallsAt(rate) - 1, FallsAt(rate);
      assert n <= n' && Up(n', rate) < Up(n, rate);
    }
  }

  /** A clock that was never set reports its running time. */
  lemma NeverSet(n: Word, rate: Word)
    requires rate > 0 && n / rate < 0x8000_0000
    ensures GetTime(Tv(0, 0), n, rate) == Tv(n / rate, Micro64(n, rate))
  {
    NeverSetAt(n, rate, n / rate, Micro64(n, rate));
  }

  lemma NeverSetAt(n: Word, rate: Word, sec: nat, usec: nat)
    requires rate > 0 && sec == n / rate < 0x8000_0000 && usec == Micro64(n, rate)
    ensures GetTime(Tv(0, 0), n, rate) == Tv(sec, usec)
  {
    assert RawTime(Tv(0, 0), n, rate) == Tv(sec, usec) by { RawNever(n, rate); }
    NormalAlready(Tv(sec, usec));
  }

  lemma Times(n: nat, q: nat, rate: nat, total: nat)
    requires q * rate == total
    ensures n * q * rate == n * total
  {
    assert n * q * rate == n * (q * rate);
  }

  /** With a rate that divides a million it reports a second for every `rate` ticks, to the
      microsecond. */
  lemma NeverSetExact(n: Word, rate: Word)
    requires rate > 0 && n / rate < 0x8000_0000 && 1_000_000 % rate == 0
    ensures var got := GetTime(Tv(0, 0), n, rate);
            (got.sec * 1_000_000 + got.usec) * rate == n * 1_000_000 && 0 <= got.usec < 1_000_000
  {
    NeverSet(n, rate);
    UpExact(n, rate);
    Times(n, PerTick(rate), rate, 1_000_000);
  }

  lemma RawNever(n: Word, rate: Word)
    requires rate > 0 && n / rate < 0x8000_0000
    ensures RawTime(Tv(0, 0), n, rate) == Tv(n / rate, Micro64(n, rate))
  {
    SignedSum(n / rate);
    SignedSum(Micro64(n, rate));
  }

  lemma SignedSum(x: nat)
    requires x < 0x8000_0000
    ensures Signed(0 + x) == x
  {
  }

  lemma NormalAlready(t: Tv)
    requires 0 <= t.sec < 0x8000_0000 && 0 <= t.usec < US
    ensures Normal(t) == t
  {
    Remainder(t.sec, US, t.usec);
    Rewrap(t.sec, 0);
  }

  // ---------------------------------------------------------------- set, then get

  /** The wraps of the 32-bit product that leave the microseconds right. */
  predicate Harmless(n: Word, rate: Word)
    requires rate > 0
  {
    n * PerTick(rate) / U32 % 15625 == 0
  }

  /** A product that does not wrap is harmless. */
  lemma NoWrapIsHarmless(n: Word, rate: Word)
    requires rate > 0 && n * PerTick(rate) < U32
    ensures Harmless(n, rate)
  {
  }

  lemma WholeWraps(k: nat, low: nat)
    requires k % 15625 == 0
    ensures (k * U32 + low) % US == low % US
  {
    var j := k / 15625;
    assert k * U32 == j * 0x400_0000 * US;
    Remainder(j * 0x400_0000 + low / US, US, low % US);
  }

  /** 12659 is the inverse of 2^26 modulo 5^6. */
  lemma OnlyWholeWraps(k: nat, c: int)
    requires k * U32 == c * US
    ensures k % 15625 == 0
  {
    assert k * 0x400_0000 == c * 15625;
    assert k == 15625 * (c * 12659 - k * 54369991);
  }

  /** Dropping multiples of 2^32 keeps the remainder by a million exactly when their number
      is a multiple of 5^6: 2^32 and 10^6 share the other factors. */
  lemma WrapsMatter(x: nat)
    ensures x % U32 % US == x % US <==> x / U32 % 15625 == 0
  {
    var k, low := x / U32, x % U32;
    assert x == k * U32 + low;
    if k % 15625 == 0 { WholeWraps(k, low); }
    if low % US == x % US { OnlyWholeWraps(k, x / US - low / US); }
  }

  /** What the clock should report at tick `later` when it was set to t at tick `now`. */
  function Expected(t: Tv, now: Word, later: Word, rate: Word): int
    requires rate > 0
  {
    Micros(t) + Up(later, rate) - Up(now, rate)
  }

  /** What the clock works out before it normalises. */
  function RawAfter(t: Tv, now: Word, later: Word, rate: Word): Tv
    requires rate > 0
  {
    RawTime(SetTime(t, now, rate), later, rate)
  }

  /** A time that can still be represented at tick `later`, normalised or not. */
  predicate InRange(t: Tv, now: Word, later: Word, rate: Word)
    requires rate > 0
  {
    && US - 0x8000_0000 <= t.usec < 0x8000_0000 - US
    && -0x8000_0000 <= t.sec + later / rate - now / rate
    && t.sec + later / rate - now / rate + (if t.usec > 0 then t.usec / US else 0) < 0x7FFF_FFFF
  }

  lemma RawAfterIs(t: Tv, now: Word, later: Word, rate: Word)
    requires rate > 0 && InRange(t, now, later, rate)
    ensures RawAfter(t, now, later, rate) ==
            Tv(t.sec - now / rate + later / rate, t.usec - Micro32(now, rate) + Micro64(later, rate))
    ensures Micros(RawAfter(t, now, later, rate)) ==
            Expected(t, now, later, rate) + Micro64(now, rate) - Micro32(now, rate)
  {
    Rewrap(t.sec - now / rate, later / rate);
    Rewrap(t.usec - Micro32(now, rate), Micro64(later, rate));
    Rewrap(t.sec - now / rate + later / rate, 0);
    Rewrap(t.usec - Micro32(now, rate) + Micro64(later, rate), 0);
  }

  /** Normalising gives the expected instant iff the raw time was right, or the clamp is. */
  lemma NormalIsRight(raw: Tv, expected: int, harm: int)
    requires -0x8000_0000 <= raw.sec && raw.sec + (if raw.usec > 0 then raw.usec / US else 0) < 0x8000_0000
    requires Micros(raw) == expected + harm
    ensures 0 <= Normal(raw).usec < US
    ensures Micros(Normal(raw)) == expected <==> if Clamps(raw) then expected == 0 else harm == 0
  {
    var total := Micros(raw);
    assert total == total / US * US + total % US;
    Rewrap(total / US, 0);
  }

  function Harm(now: Word, rate: Word): int
    requires rate > 0
  {
    Micro64(now, rate) - Micro32(now, rate)
  }

  lemma HarmlessIff(now: Word, rate: Word)
    requires rate > 0
    ensures Harm(now, rate) == 0 <==> Harmless(now, rate)
  {
    WrapsMatter(now * PerTick(rate));
  }

  /** Setting the time and getting it later, with the exact condition: for any rate and any
      two ticks the reported instant is the expected one iff the wraps of the 32-bit product
      were harmless, or the clamp happens to be right. */
  lemma SetThenGet(t: Tv, now: Word, later: Word, rate: Word)
    requires rate > 0 && InRange(t, now, later, rate)
    ensures var got := GetTime(SetTime(t, now, rate), later, rate);
            && 0 <= got.usec < US
            && (Micros(got) == Expected(t, now, later, rate) <==>
                if Clamps(RawAfter(t, now, later, rate)) then Expected(t, now, later, rate) == 0
                else Harmless(now, rate))
  {
    RawAfterIs(t, now, later, rate);
    HarmlessIff(now, rate);
    NormalIsRight(RawAfter(t, now, later, rate), Expected(t, now, later, rate), Harm(now, rate));
  }

  /** From the epoch on, time that has not gone back is clamped only by the harm done. */
  lemma FromEpoch(t: Tv, raw: Tv, gone: nat, harm: int)
    requires t.sec >= 0 && 0 <= t.usec && raw.sec >= t.sec
    requires Micros(raw) == Micros(t) + gone + harm
    ensures harm == 0 ==> !Clamps(raw)
    ensures (if Clamps(raw) then Micros(t) + gone == 0 else harm == 0) <==>
            harm == 0 || (t == Tv(0, 0) && gone == 0 && harm < 0)
  {
  }

  /** A time from the epoch on, and a steady clock: the clamp is never taken when the product
      does no harm, and the reported time is right iff it does none, or if the clock was set
      to zero, is read before it advances, and the clamp hides the error. */
  lemma SetThenGetFromEpoch(t: Tv, now: Word, later: Word, rate: Word)
    requires rate > 0 && InRange(t, now, later, rate) && t.sec >= 0 && t.usec >= 0
    requires now <= later && (now == later || Steady(rate))
    ensures Harmless(now, rate) ==> !Clamps(RawAfter(t, now, later, rate))
    ensures Micros(GetTime(SetTime(t, now, rate), later, rate)) == Expected(t, now, later, rate) <==>
            Harmless(now, rate) || (t == Tv(0, 0) && Up(now, rate) == Up(later, rate) && Harm(now, rate) < 0)
  {
    SetThenGet(t, now, later, rate);
    RawAfterIs(t, now, later, rate);
    HarmlessIff(now, rate);
    if now < later { SteadyGrows(now, later, rate); }
    DivMonotone(now, later, rate);
    FromEpoch(t, RawAfter(t, now, later, rate), Up(later, rate) - Up(now, rate), Harm(now, rate));
  }

  /** A rate that divides a million and no wrap at the time of setting: the clock reports the
      time set plus the elapsed ticks in microseconds. */
  lemma SetThenGetElapsed(t: Tv, now: Word, later: Word, rate: Word)
    requires rate > 0 && InRange(t, now, later, rate) && t.sec >= 0 && t.usec >= 0
    requires now <= later && US % rate == 0 && now * PerTick(rate) < U32
    ensures !Clamps(RawAfter(t, now, later, rate))
    ensures var got := GetTime(SetTime(t, now, rate), later, rate);
            Micros(got) == Micros(t) + (later - now) * PerTick(rate) && 0 <= got.usec < US
  {
    NoWrapIsHarmless(now, rate);
    SetThenGetFromEpoch(t, now, later, rate);
    SetThenGet(t, now, later, rate);
    UpExact(now, rate);
    UpExact(later, rate);
    Difference(now, later, PerTick(rate));
  }

  lemma Difference(a: nat, b: nat, q: nat)
    ensures (b - a) * q == b * q - a * q
  {
  }

  lemma SameInstant(t: Tv, u: Tv)
    requires 0 <= t.usec < US && 0 <= u.usec < US
    ensures t == u <==> Micros(t) == Micros(u)
  {
  }

  /** What the time reads at once after being set is what it was set to, for every rate and
      every harmless product. */
  lemma SetThenGetAtOnce(t: Tv, now: Word, rate: Word)
    requires rate > 0 && 0 <= t.sec < 0x7FFF_FFFF && 0 <= t.usec < US
    ensures GetTime(SetTime(t, now, rate), now, rate) == t <==>
            Harmless(now, rate) || (t == Tv(0, 0) && Harm(now, rate) < 0)
  {
    assert Expected(t, now, now, rate) == Micros(t);
    SetThenGetFromEpoch(t, now, now, rate);
    SetThenGet(t, now, now, rate);
    SameInstant(t, GetTime(SetTime(t, now, rate), now, rate));
  }

  /** The wrap does happen: at 1000 ticks a second, after some 72 minutes. */
  lemma WrapSpoils()
    ensures GetTime(SetTime(Tv(10_000, 0), 4_294_968, 1000), 4_294_968, 1000) == Tv(10_000, 967_296)
  {
    var now := 4_294_968;
    assert Micro32(now, 1000) == 704 && Micro64(now, 1000) == 968_000;
    RawAfterIs(Tv(10_000, 0), now, now, 1000);
  }
}
