/** The fallback software clock: a wall-clock reading advanced one second at a
    time with nested rollover. Days roll over after 31 in every month; there is
    no month-length or leap-year rule. */
module Clock {
  import opened Ints

  /** One reading of the clock, field for field as the Rust struct `SoftClock` holds it. */
  datatype Reading = Reading(sec: u8, min: u8, hour: u8, day: u8, month: u8, year: u16)

  /** The nominal range of every field. */
  predicate Valid(c: Reading) {
    c.sec < 60 && c.min < 60 && c.hour < 24 && 1 <= c.day <= 31 && 1 <= c.month <= 12
  }

  const SecondsPerDay: int := 24 * 60 * 60
  const SecondsPerMonth: int := 31 * SecondsPerDay
  const SecondsPerYear: int := 12 * SecondsPerMonth
  /** One past the last second a u16 year can hold. */
  const Horizon: int := 0x1_0000 * SecondsPerYear

  /** The reading as a count of seconds in the clock's own calendar: a mixed-radix
      number with digits sec (base 60), min (60), hour (24), day (31), month (12)
      and year. This is the reference against which a tick is specified. */
  function Seconds(c: Reading): int {
    ((((c.year as int * 12 + (c.month as int - 1)) * 31 + (c.day as int - 1)) * 24
       + c.hour as int) * 60 + c.min as int) * 60 + c.sec as int
  }

  /** A positive multiple of k is at least k. */
  lemma {:induction false} MultipleAtLeast(d: int, k: int)
    requires d >= 1 && k > 0
    ensures d * k >= k
    decreases d
  {
    if d > 1 {
      MultipleAtLeast(d - 1, k);
      assert d * k == (d - 1) * k + k;
    }
  }

  /** A number written as p * k + r with digit 0 <= r < k determines p and r. */
  lemma DigitUnique(p: int, r: int, q: int, s: int, k: int)
    requires 0 < k && 0 <= r < k && 0 <= s < k && p * k + r == q * k + s
    ensures p == q && r == s
  {
    assert (p - q) * k == s - r;
    if p > q {
      MultipleAtLeast(p - q, k);
    } else if p < q {
      assert (q - p) * k == r - s;
      MultipleAtLeast(q - p, k);
    }
  }

  /** The seconds count determines a valid reading completely. */
  lemma SecondsInjective(x: Reading, y: Reading)
    requires Valid(x) && Valid(y) && Seconds(x) == Seconds(y)
    ensures x == y
  {
    var mx := x.year as int * 12 + (x.month as int - 1);
    var my := y.year as int * 12 + (y.month as int - 1);
    var dx := mx * 31 + (x.day as int - 1);
    var dy := my * 31 + (y.day as int - 1);
    var hx := dx * 24 + x.hour as int;
    var hy := dy * 24 + y.hour as int;
    var nx := hx * 60 + x.min as int;
    var ny := hy * 60 + y.min as int;
    DigitUnique(nx, x.sec as int, ny, y.sec as int, 60);
    DigitUnique(hx, x.min as int, hy, y.min as int, 60);
    DigitUnique(dx, x.hour as int, dy, y.hour as int, 24);
    DigitUnique(mx, x.day as int - 1, my, y.day as int - 1, 31);
    DigitUnique(x.year as int, x.month as int - 1, y.year as int, y.month as int - 1, 12);
  }

  /** `SoftClock::tick` applied to a value: add one second, carrying into the
      next field when one reaches its limit. The precondition excludes only the
      single instant whose tick would overflow the u16 year. */
  function Next(c: Reading): (r: Reading)
    requires Valid(c) && Seconds(c) + 1 < Horizon
    ensures Valid(r)
    ensures Seconds(r) == Seconds(c) + 1
  {
    var sec := c.sec + 1;
    if sec < 60 then c.(sec := sec)
    else
      var min := c.min + 1;
      if min < 60 then c.(sec := 0, min := min)
      else
        var hour := c.hour + 1;
        if hour < 24 then c.(sec := 0, min := 0, hour := hour)
        else
          var day := c.day + 1;
          if day <= 31 then c.(sec := 0, min := 0, hour := 0, day := day)
          else
            var month := c.month + 1;
            if month <= 12 then c.(sec := 0, min := 0, hour := 0, day := 1, month := month)
            else Reading(0, 0, 0, 1, 1, c.year + 1)
  }

  /** The simpler sufficient condition for a tick: the year is below its maximum. */
  lemma NextDefinedBelowMaxYear(c: Reading)
    requires Valid(c) && c.year < 65535
    ensures Seconds(c) + 1 < Horizon
  {}

  /** The reading reached from c after n ticks. */
  function Ticks(c: Reading, n: nat): (r: Reading)
    requires Valid(c) && Seconds(c) + n < Horizon
    ensures Valid(r)
    ensures Seconds(r) == Seconds(c) + n
    decreases n
  {
    if n == 0 then c else Ticks(Next(c), n - 1)
  }

  /** n ticks are the unique valid reading n seconds later. */
  lemma TicksCharacterized(c: Reading, n: nat, d: Reading)
    requires Valid(c) && Seconds(c) + n < Horizon
    requires Valid(d) && Seconds(d) == Seconds(c) + n
    ensures Ticks(c, n) == d
  {
    SecondsInjective(Ticks(c, n), d);
  }

  /** Ticking m times and then n times is ticking m + n times. */
  lemma {:induction false} TicksAdd(c: Reading, m: nat, n: nat)
    requires Valid(c) && Seconds(c) + m + n < Horizon
    ensures Ticks(Ticks(c, m), n) == Ticks(c, m + n)
  {
    TicksCharacterized(c, m + n, Ticks(Ticks(c, m), n));
  }

  /** Below 59 seconds a tick changes the seconds field and nothing else. */
  lemma TickOnlySeconds(c: Reading)
    requires Valid(c) && c.sec < 59
    ensures Seconds(c) + 1 < Horizon
    ensures Next(c) == c.(sec := c.sec + 1)
  {}

  /** At 59 seconds and below 59 minutes, a tick carries into the minutes only. */
  lemma TickCarriesIntoMinute(c: Reading)
    requires Valid(c) && c.sec == 59 && c.min < 59
    ensures Seconds(c) + 1 < Horizon
    ensures Next(c) == c.(sec := 0, min := c.min + 1)
  {}

  /** Sixty ticks from a minute below 59 advance the minute by exactly one and
      leave the seconds, hour, day, month and year as they were. */
  lemma SixtyTicksAdvanceMinute(c: Reading)
    requires Valid(c) && c.min < 59
    ensures Seconds(c) + 60 < Horizon
    ensures Ticks(c, 60) == c.(min := c.min + 1)
  {
    TicksCharacterized(c, 60, c.(min := c.min + 1));
  }

  /** The reading one day later by the 31-day rule: the next day of the month, or
      day 1 of the next month after day 31, or 1 January of the next year after
      31 December. */
  function NextDay(c: Reading): (r: Reading)
    requires Valid(c) && c.year < 65535
    ensures Valid(r)
    ensures r.sec == c.sec && r.min == c.min && r.hour == c.hour
  {
    if c.day < 31 then c.(day := c.day + 1)
    else if c.month < 12 then c.(day := 1, month := c.month + 1)
    else c.(day := 1, month := 1, year := c.year + 1)
  }

  /** 86400 ticks advance the reading by exactly one day of the 31-day rule. */
  lemma DayOfTicksAdvancesDay(c: Reading)
    requires Valid(c) && c.year < 65535
    ensures Seconds(c) + SecondsPerDay < Horizon
    ensures Ticks(c, SecondsPerDay) == NextDay(c)
  {
    TicksCharacterized(c, SecondsPerDay, NextDay(c));
  }

  /** At 23:59:59 a tick moves to midnight of the next day; after day 31 it moves
      to day 1 of the next month whatever the month, and after 31 December to
      1 January of the next year. */
  lemma MidnightRollover(c: Reading)
    requires Valid(c) && c.year < 65535
    requires c.hour == 23 && c.min == 59 && c.sec == 59
    ensures Seconds(c) + 1 < Horizon
    ensures Next(c) == NextDay(c).(sec := 0, min := 0, hour := 0)
    ensures c.day == 31 && c.month < 12 ==> Next(c).day == 1 && Next(c).month == c.month + 1
    ensures c.day == 31 && c.month == 12 ==> Next(c).day == 1 && Next(c).month == 1 && Next(c).year == c.year + 1
  {}

  /** With no month-length rule, 30 February follows 29 February. */
  lemma ThirtiethOfFebruaryReachable()
    ensures Next(Reading(59, 59, 23, 29, 2, 2023)) == Reading(0, 0, 0, 30, 2, 2023)
  {
    assert Seconds(Reading(59, 59, 23, 29, 2, 2023)) + 1 < Horizon;
  }

  /** The Rust `SoftClock` object, whose `tick` updates its six fields in place. */
  class SoftClock {
    var sec: u8
    var min: u8
    var hour: u8
    var day: u8
    var month: u8
    var year: u16

    /** The current reading, as a copy of the struct would give it. */
    function Value(): Reading
      reads this
    {
      Reading(sec, min, hour, day, month, year)
    }

    /** A clock holding the given seed reading (the host time read by `SoftClock::from_system_time`). */
    constructor (seed: Reading)
      requires Valid(seed)
      ensures Value() == seed
    {
      sec, min, hour, day, month, year := seed.sec, seed.min, seed.hour, seed.day, seed.month, seed.year;
    }

    /** Advance by one second with nested rollover; every field stays in its
        nominal range and no field overflows its width. */
    method Tick()
      requires Valid(Value()) && Seconds(Value()) + 1 < Horizon
      modifies this
      ensures Valid(Value())
      ensures Value() == Next(old(Value()))
      ensures Seconds(Value()) == old(Seconds(Value())) + 1
    {
      sec := sec + 1;
      if sec >= 60 {
        sec := 0;
        min := min + 1;
        if min >= 60 {
          min := 0;
          hour := hour + 1;
          if hour >= 24 {
            hour := 0;
            day := day + 1;
            if day > 31 {
              day := 1;
              month := month + 1;
              if month > 12 {
                month := 1;
                year := year + 1;
              }
            }
          }
        }
      }
    }
  }
}
