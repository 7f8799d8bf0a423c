/** The decision taken once the three remote samples are in: report their exact
    agreement, an average of their minutes, or the software clock's reading. */
module Reconciler {
  import opened Ints
  import opened Deviation
  import Clock

  /** One source's timestamp: (day, month, year, hour, minute). */
  datatype Sample = Sample(day: u8, month: u8, year: u16, hour: u8, minute: u8)

  /** Which branch produced the report; only the fallback is announced by
      `get_date_time` (its notice line), the other three return silently. */
  datatype Path = AllEqual | SequentialMean | PairMean | Fallback

  datatype Report = Report(time: Sample, path: Path)

  /** The fallback tuple taken from a snapshot of the software clock. */
  function Project(c: Clock.Reading): Sample {
    Sample(c.day, c.month, c.year, c.hour, c.min)
  }

  /** Day, month, year and hour agree across the three samples. */
  predicate SameDateHour(a: Sample, b: Sample, c: Sample) {
    a.day == b.day && b.day == c.day &&
    a.month == b.month && b.month == c.month &&
    a.year == b.year && b.year == c.year &&
    a.hour == b.hour && b.hour == c.hour
  }

  /** The mean of three minutes, rounded down, computed in u16 and narrowed. */
  function Mean3(x: u8, y: u8, z: u8): (r: u8)
    ensures 3 * r as int <= x as int + y as int + z as int < 3 * r as int + 3
  {
    ((x as int + y as int + z as int) / 3) as u8
  }

  /** True when the sequential step fires on three present samples. */
  predicate SequentialFires(a: Sample, b: Sample, c: Sample) {
    SameDateHour(a, b, c) && SequentialLowDeviation(a.minute, b.minute, c.minute)
  }

  /** The decision block of `get_date_time`, given the three fetch
      results in source order A, B, C and the software clock's snapshot. The
      pairwise step is tried whenever the sequential step does not fire, whether
      or not the dates and hours agree, and always reports A's date and hour. */
  function Reconcile(ta: Option<Sample>, tb: Option<Sample>, tc: Option<Sample>,
                     fallback: Clock.Reading): (r: Report)
    ensures r.path == Fallback <==>
              ta.None? || tb.None? || tc.None? ||
              (!SequentialFires(ta.value, tb.value, tc.value) &&
               PairDeviationAndAverage(ta.value.minute, tb.value.minute, tc.value.minute).None?)
    ensures r.path == Fallback ==> r.time == Project(fallback)
    ensures r.path != Fallback ==>
              var a := ta.value;
              r.time.day == a.day && r.time.month == a.month &&
              r.time.year == a.year && r.time.hour == a.hour
  {
    if ta.Some? && tb.Some? && tc.Some? then
      var a, b, c := ta.value, tb.value, tc.value;
      if a == b && b == c then Report(a, AllEqual)
      else if SequentialFires(a, b, c) then
        Report(a.(minute := Mean3(a.minute, b.minute, c.minute)), SequentialMean)
      else
        match PairDeviationAndAverage(a.minute, b.minute, c.minute)
        case Some(m) => Report(a.(minute := m), PairMean)
        case None => Report(Project(fallback), Fallback)
    else Report(Project(fallback), Fallback)
  }

  /** A missing sample sends the query to the software clock's reading. */
  lemma AbsentSampleFallsBack(ta: Option<Sample>, tb: Option<Sample>, tc: Option<Sample>, fallback: Clock.Reading)
    requires ta.None? || tb.None? || tc.None?
    ensures Reconcile(ta, tb, tc, fallback) == Report(Project(fallback), Fallback)
  {}

  /** Three identical samples are reported as they are. */
  lemma AllEqualReportsA(a: Sample, fallback: Clock.Reading)
    ensures Reconcile(Some(a), Some(a), Some(a), fallback) == Report(a, AllEqual)
  {}

  /** When date and hour agree and the sorted minutes have small gaps, the report
      is A's date and hour with the rounded-down mean of the three minutes (for
      three identical samples that mean is the common minute). */
  lemma SequentialStepAverages(a: Sample, b: Sample, c: Sample, fallback: Clock.Reading)
    requires SequentialFires(a, b, c)
    ensures Reconcile(Some(a), Some(b), Some(c), fallback).time
              == a.(minute := Mean3(a.minute, b.minute, c.minute))
    ensures Reconcile(Some(a), Some(b), Some(c), fallback).path
              == if a == b && b == c then AllEqual else SequentialMean
  {}

  /** When the sequential step does not fire, a close pair of minutes yields A's
      date and hour with that pair's mean, even when the dates or hours of the
      samples disagree. */
  lemma PairStepAverages(a: Sample, b: Sample, c: Sample, fallback: Clock.Reading)
    requires !SequentialFires(a, b, c)
    requires PairDeviationAndAverage(a.minute, b.minute, c.minute).Some?
    ensures Reconcile(Some(a), Some(b), Some(c), fallback)
              == Report(a.(minute := PairDeviationAndAverage(a.minute, b.minute, c.minute).value), PairMean)
  {
    assert !(a == b && b == c) by {
      if a == b && b == c {
        SequentialLowDeviationIff(a.minute, a.minute, a.minute, a.minute, a.minute, a.minute);
      }
    }
  }

  /** Three present samples with neither step firing fall back to the clock. */
  lemma NoAgreementFallsBack(a: Sample, b: Sample, c: Sample, fallback: Clock.Reading)
    requires !SequentialFires(a, b, c)
    requires PairDeviationAndAverage(a.minute, b.minute, c.minute).None?
    ensures Reconcile(Some(a), Some(b), Some(c), fallback) == Report(Project(fallback), Fallback)
  {}

  /** A reconciled minute lies between the smallest and the largest of the three
      sample minutes; in particular it is a valid minute when theirs are. */
  lemma ReconciledMinuteWithinSamples(a: Sample, b: Sample, c: Sample, fallback: Clock.Reading)
    requires Reconcile(Some(a), Some(b), Some(c), fallback).path != Fallback
    ensures var m := Reconcile(Some(a), Some(b), Some(c), fallback).time.minute;
            var s := Sort3(a.minute, b.minute, c.minute);
            s.0 <= m <= s.2
  {
    if !SequentialFires(a, b, c) && !(a == b && b == c) {
      PairAverageBetween(a.minute, b.minute, c.minute);
    }
  }

  /** A report taken from the fallback of a clock seeded in range and ticked any
      number of times holds an in-range date and time. */
  lemma FallbackSnapshotInRange(ta: Option<Sample>, tb: Option<Sample>, tc: Option<Sample>,
                                seed: Clock.Reading, n: nat)
    requires Clock.Valid(seed) && Clock.Seconds(seed) + n < Clock.Horizon
    requires Reconcile(ta, tb, tc, Clock.Ticks(seed, n)).path == Fallback
    ensures var t := Reconcile(ta, tb, tc, Clock.Ticks(seed, n)).time;
            1 <= t.day <= 31 && 1 <= t.month <= 12 && t.hour < 24 && t.minute < 60
  {}

  /** Exact agreement of all three sources. */
  lemma ExactMatchExample(fallback: Clock.Reading)
    ensures var t := Sample(1, 1, 2024, 10, 30);
            Reconcile(Some(t), Some(t), Some(t), fallback) == Report(t, AllEqual)
  {}

  /** Minutes 20, 25 and 28 on a common date and hour average to 24. */
  lemma SequentialExample(fallback: Clock.Reading)
    ensures Reconcile(Some(Sample(1, 1, 2024, 10, 20)), Some(Sample(1, 1, 2024, 10, 25)),
                      Some(Sample(1, 1, 2024, 10, 28)), fallback)
            == Report(Sample(1, 1, 2024, 10, 24), SequentialMean)
  {
    SequentialLowDeviationIff(20, 25, 28, 20, 25, 28);
  }

  /** Minutes 5, 50 and 8: the sequential step fails, the pair A-C averages to 6. */
  lemma PairExample(fallback: Clock.Reading)
    ensures Reconcile(Some(Sample(1, 1, 2024, 10, 5)), Some(Sample(1, 1, 2024, 10, 50)),
                      Some(Sample(1, 1, 2024, 10, 8)), fallback)
            == Report(Sample(1, 1, 2024, 10, 6), PairMean)
  {
    SequentialLowDeviationIff(5, 50, 8, 5, 8, 50);
  }

  /** When only B and C are close, the report still carries A's date and hour,
      although A's date and hour agree with neither. */
  lemma PairBCReportsDateOfA(fallback: Clock.Reading)
    ensures Reconcile(Some(Sample(1, 1, 2024, 9, 0)), Some(Sample(2, 2, 2025, 10, 30)),
                      Some(Sample(3, 3, 2026, 11, 35)), fallback)
            == Report(Sample(1, 1, 2024, 9, 32), PairMean)
  {}

  /** The source order matters in the pairwise step: swapping B and C changes
      the report when both A-B and A-C are close. */
  lemma PairOrderMatters(fallback: Clock.Reading)
    ensures var a, b, c := Sample(1, 1, 2024, 9, 0), Sample(1, 1, 2024, 10, 10), Sample(1, 1, 2024, 10, 2);
            Reconcile(Some(a), Some(b), Some(c), fallback) == Report(a.(minute := 5), PairMean) &&
            Reconcile(Some(a), Some(c), Some(b), fallback) == Report(a.(minute := 1), PairMean)
  {}
}
