/** The wall clock: gettimeofday() and settimeofday() on top of the 32-bit tick counter. */
module TimeOfDay {
  import opened Bytes

  const US: int := 1_000_000

  /** What an integer becomes in a signed 32-bit variable. */
  function Wrap32(x: int): (r: int)
    ensures -0x8000_0000 <= r < 0x8000_0000
    ensures -0x8000_0000 <= x < 0x8000_0000 ==> r == x
  {
    (x + 0x8000_0000) % TWO_32 - 0x8000_0000
  }

  datatype Time = Time(sec: int, usec: int)

  datatype Zone = Zone(minutesWest: int, dstTime: int)

  function Total(t: Time): (us: int) {
    t.sec * US + t.usec
  }

  /** The borrow loop: negative microseconds take from the seconds, but not below zero. */
  function Borrow(t: Time): (r: Time)
    ensures r.usec >= 0
    decreases if t.usec < 0 then -t.usec else 0
  {
    if t.usec >= 0 then t
    else if t.sec <= 0 then Time(0, 0)
    else Borrow(Time(Wrap32(t.sec - 1), t.usec + US))
  }

  /** The carry loop. */
  function Carry(t: Time): (r: Time)
    ensures r.usec < US
    decreases t.usec
  {
    if t.usec < US then t else Carry(Time(Wrap32(t.sec + 1), t.usec - US))
  }

  lemma {:induction false} BorrowTotal(t: Time)
    requires 0 <= t.sec < 0x8000_0000
    ensures Borrow(t).usec >= 0 && 0 <= Borrow(t).sec <= t.sec
    ensures Borrow(t).usec <= (if t.usec < US then US else t.usec)
    ensures Total(Borrow(t)) == if Total(t) < 0 then 0 else Total(t)
    decreases if t.usec < 0 then -t.usec else 0
  {
    if t.usec < 0 && t.sec > 0 {
      BorrowTotal(Time(t.sec - 1, t.usec + US));
    }
  }

  lemma {:induction false} CarryTotal(t: Time, room: nat)
    requires t.usec >= 0 && 0 <= t.sec && t.usec < US * (room + 1) && t.sec + room < 0x8000_0000
    ensures 0 <= Carry(t).usec < US && Total(Carry(t)) == Total(t)
    decreases t.usec
  {
    if t.usec >= US {
      CarryTotal(Time(t.sec + 1, t.usec - US), room - 1);
    }
  }

  /** The microseconds of a second that have passed at a tick, as gettimeofday() computes them in 64 bits. */
  function Fraction(nticks: u32, rate: u32): (us: int)
    requires rate > 0
    ensures 0 <= us < US
  {
    (nticks as int * (US / rate)) % US
  }

  /** The same as settimeofday() computes it, with a product of 32 bits. */
  function WrappedFraction(nticks: u32, rate: u32): (us: int)
    requires rate > 0
    ensures 0 <= us < US
  {
    (nticks as int * (US / rate)) % TWO_32 % US
  }

  /** The reset time that settimeofday() stores. */
  function ResetTime(t: Time, nticks: u32, rate: u32): (r: Time)
    requires rate > 0
  {
    Time(Wrap32(t.sec - nticks / rate), Wrap32(t.usec - WrappedFraction(nticks, rate)))
  }

  /** What gettimeofday() makes of a reset time. */
  function Reading(reset: Time, nticks: u32, rate: u32): (r: Time)
    requires rate > 0
  {
    Carry(Borrow(Time(Wrap32(reset.sec + nticks / rate), Wrap32(reset.usec + Fraction(nticks, rate)))))
  }

  /** The result 0, and the error of a system without a clock. */
  datatype Status = Ok | NoClock

  class WallClock {
    var nticks: u32
    var tickRate: u32
    var resetTime: Time
    var timezone: Zone

    constructor ()
      ensures nticks == 0 && tickRate == 0 && resetTime == Time(0, 0) && timezone == Zone(0, 0)
    {
      nticks, tickRate, resetTime, timezone := 0, 0, Time(0, 0), Zone(0, 0);
    }

    /** gettimeofday(); both loops terminate for every stored time. */
    method GetTimeOfDay(time0: Time, zone0: Zone) returns (r: Status, time: Time, zone: Zone)
      ensures tickRate == 0 ==> r == NoClock && time == time0 && zone == zone0
      ensures tickRate != 0 ==> r == Ok && time == Reading(resetTime, nticks, tickRate) && zone == timezone
    {
      time, zone := time0, zone0;
      if tickRate == 0 {
        return NoClock, time, zone;
      }
      time := Time(Wrap32(resetTime.sec + nticks / tickRate), Wrap32(resetTime.usec + Fraction(nticks, tickRate)));
      ghost var start := time;
      while time.usec < 0
        invariant Borrow(time) == Borrow(start)
        decreases -time.usec
      {
        if time.sec <= 0 {
          time := Time(0, 0);
          break;
        }
        time := Time(Wrap32(time.sec - 1), time.usec + US);
      }
      assert time == Borrow(start);
      while time.usec >= US
        invariant Carry(time) == Carry(Borrow(start))
        decreases time.usec
      {
        time := Time(Wrap32(time.sec + 1), time.usec - US);
      }
      zone := timezone;
      r := Ok;
    }

    /** settimeofday(). */
    method SetTimeOfDay(t: Time, tz: Zone) returns (r: Status)
      modifies this`resetTime, this`timezone
      ensures tickRate == 0 ==>
                r == NoClock && resetTime == old(resetTime) && timezone == old(timezone)
      ensures tickRate != 0 ==>
                r == Ok && resetTime == ResetTime(t, nticks, tickRate) && timezone == tz
    {
      if tickRate != 0 {
        var product := (nticks as int * (US / tickRate)) % TWO_32;
        resetTime := Time(Wrap32(t.sec - nticks / tickRate), Wrap32(t.usec - product % US));
        timezone := tz;
        return Ok;
      }
      r := NoClock;
    }
  }

  // ---- What passes between setting the clock and reading it ----

  lemma Distribute(a: int, b: int, c: int, d: int)
    ensures (a * b + c) * d == b * (a * d) + c * d
  {
  }

  lemma ProductBelow(a: int, b: int, c: int)
    requires 0 <= a < b && c > 0
    ensures 0 <= a * c < b * c
  {
  }

  lemma ModOfSum(q: int, r: int)
    requires 0 <= r < US
    ensures (q * US + r) % US == r
  {
  }

  /** At a rate that divides a million, a tick count is whole seconds and a fraction. */
  lemma SecondsAndFraction(n: u32, rate: u32, per: int)
    requires rate > 0 && rate * per == US && US / rate == per
    ensures n * per == (n / rate) * US + Fraction(n, rate)
  {
    var q, r := n as int / rate as int, n as int % rate as int;
    assert n == rate * q + r;
    Distribute(rate, q, r, per);
    assert n * per == q * US + r * per;
    ProductBelow(r, rate, per);
    ModOfSum(q, r * per);
  }

  lemma WrapsCancel(a: int, b: int)
    requires -0x8000_0000 <= a + b < 0x8000_0000
    ensures Wrap32(Wrap32(a) + b) == a + b
  {
  }

  lemma DivMonotone(n: int, m: int, rate: int)
    requires 0 <= n <= m && rate > 0
    ensures n / rate <= m / rate
  {
    if n / rate > m / rate {
      ProductGrows(m / rate + 1, n / rate, rate);
    }
  }

  lemma ProductGrows(a: int, b: int, c: int)
    requires a <= b && c > 0
    ensures a * c <= b * c
  {
  }

  /** The settings in which the seconds stay in 32 bits. */
  predicate InRange(t: Time, n: u32, m: u32, rate: u32) {
    && rate > 0 && US / rate * rate == US && n <= m && 0 <= t.sec && 0 <= t.usec < US
    && t.sec - n / rate + m / rate < 0x7FFF_FFFE
  }

  /** What is read at tick `m` after setting the clock at tick `n`, in microseconds. */
  lemma ReadingTotal(t: Time, n: u32, m: u32, rate: u32, per: int)
    requires InRange(t, n, m, rate) && per == US / rate
    ensures var r := Reading(ResetTime(t, n, rate), m, rate);
            var total := Total(t) + (m - n) * per + Fraction(n, rate) - WrappedFraction(n, rate);
            0 <= r.usec < US && Total(r) == if total < 0 then 0 else total
  {
    hide Fraction, WrappedFraction, Wrap32, Borrow, Carry;
    SecondsAndFraction(n, rate, per);
    SecondsAndFraction(m, rate, per);
    DivMonotone(n, m, rate);
    WrapsCancel(t.sec - n / rate, m / rate);
    WrapsCancel(t.usec - WrappedFraction(n, rate), Fraction(m, rate));
    var start := Time(t.sec - n / rate + m / rate, t.usec - WrappedFraction(n, rate) + Fraction(m, rate));
    BorrowTotal(start);
    CarryTotal(Borrow(start), 1);
    assert (m - n) * per == m * per - n * per;
  }

  /**
   Time is conserved exactly when the 32-bit product of settimeofday() gives the right fraction of a
   second, or when the error is hidden by the clock not going below zero.
   */
  lemma TimeConservedIff(t: Time, n: u32, m: u32, rate: u32)
    requires InRange(t, n, m, rate)
    ensures var r := Reading(ResetTime(t, n, rate), m, rate);
            && 0 <= r.usec < US
            && (Total(r) == Total(t) + (m - n) * (US / rate) <==>
                || WrappedFraction(n, rate) == Fraction(n, rate)
                || (t == Time(0, 0) && m == n && Fraction(n, rate) <= WrappedFraction(n, rate)))
  {
    hide Fraction, WrappedFraction, Reading, ResetTime;
    ReadingTotal(t, n, m, rate, US / rate);
    ElapsedIsNotNegative(n, m, rate);
  }

  lemma ElapsedIsNotNegative(n: u32, m: u32, rate: u32)
    requires rate > 0 && US / rate * rate == US && n <= m
    ensures (m - n) * (US / rate) >= 0 && ((m - n) * (US / rate) == 0 <==> m == n)
  {
    if m > n {
      ProductGrows(1, m - n, US / rate);
    }
  }

  /** As long as the product fits 32 bits, setting the clock and reading it back loses nothing. */
  lemma TimeIsConserved(t: Time, n: u32, m: u32, rate: u32)
    requires InRange(t, n, m, rate) && n as int * (US / rate) < TWO_32
    ensures var r := Reading(ResetTime(t, n, rate), m, rate);
            0 <= r.usec < US && Total(r) == Total(t) + (m - n) * (US / rate)
    ensures m == n ==> Reading(ResetTime(t, n, rate), m, rate) == t
  {
    hide Reading, ResetTime;
    ProductGrows(0, n, US / rate);
    TimeConservedIff(t, n, m, rate);
  }

  /** At a thousand ticks a second, the first product that wraps comes after about 72 minutes. */
  lemma TimeIsLostAfterWrap()
    ensures Fraction(4_294_968, 1000) == 968_000 && WrappedFraction(4_294_968, 1000) == 704
    ensures Reading(ResetTime(Time(10, 0), 4_294_968, 1000), 4_294_968, 1000) == Time(10, 967_296)
  {
  }
}
