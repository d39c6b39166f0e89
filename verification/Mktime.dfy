/** mktime (tools/install/lib/mktime.c) over unbounded integers: the difference of
    two broken-down times, and the inversion of a conversion function by probing. */
module Mktime {
  import opened Options

  // The calendar, year by year and month by month

  predicate IsLeap(year: int) {
    year % 4 == 0 && (year % 100 != 0 || year % 400 == 0)
  }

  function YearDays(year: int): int {
    if IsLeap(year) then 366 else 365
  }

  /** From the first day of one year to the first day of another. */
  function DaysBetween(from: int, to: int): int
    decreases if from < to then to - from else from - to, from > to
  {
    if from == to then 0
    else if from < to then DaysBetween(from, to - 1) + YearDays(to - 1)
    else -DaysBetween(to, from)
  }

  function MonthLength(leap: bool, mon: nat): nat {
    if mon == 1 then if leap then 29 else 28
    else if mon in {3, 5, 8, 10} then 30
    else 31
  }

  function DaysBefore(leap: bool, mon: nat): nat {
    if mon == 0 then 0 else DaysBefore(leap, mon - 1) + MonthLength(leap, mon - 1)
  }

  /** struct tm; the year counts from 1900 and the month from zero. */
  datatype Tm = Tm(sec: int, min: int, hour: int, mday: int, mon: int, year: int, yday: int, isdst: int)

  const BASE: int := 1900
  const EPOCH: int := 1970

  function Seconds(days: int, hour: int, min: int, sec: int): int {
    60 * (60 * (24 * days + hour) + min) + sec
  }

  /** Seconds since the epoch, leap seconds ignored. */
  function Instant(tm: Tm): int {
    Seconds(DaysBetween(EPOCH, tm.year + BASE) + tm.yday, tm.hour, tm.min, tm.sec)
  }

  predicate InRange(tm: Tm) {
    && 0 <= tm.sec < 60 && 0 <= tm.min < 60 && 0 <= tm.hour < 24
    && 0 <= tm.mon < 12 && 1 <= tm.mday <= MonthLength(IsLeap(tm.year + BASE), tm.mon)
    && tm.yday == DaysBefore(IsLeap(tm.year + BASE), tm.mon) + tm.mday - 1
  }

  // The difference in seconds

  /** Division and remainder of C. */
  function Quotient(a: int, b: int): int
    requires b > 0
  {
    if a >= 0 then a / b else -((-a) / b)
  }

  function Remainder(a: int, b: int): int
    requires b > 0
  {
    a - b * Quotient(a, b)
  }

  function Bit(b: bool): int {
    if b then 1 else 0
  }

  /** The shift by two and the mask with three round towards minus infinity. */
  function YdhmsTmDiff(year: int, yday: int, hour: int, min: int, sec: int, tp: Option<Tm>): int {
    match tp
    case None => 1
    case Some(tm) =>
      var a4 := year / 4 + BASE / 4 - Bit(year % 4 == 0);
      var b4 := tm.year / 4 + BASE / 4 - Bit(tm.year % 4 == 0);
      var a100 := Quotient(a4, 25) - Bit(Remainder(a4, 25) < 0);
      var b100 := Quotient(b4, 25) - Bit(Remainder(b4, 25) < 0);
      var a400 := a100 / 4;
      var b400 := b100 / 4;
      var interveningLeapDays := (a4 - b4) - (a100 - b100) + (a400 - b400);
      var years := year - tm.year;
      var days := 365 * years + interveningLeapDays + (yday - tm.yday);
      60 * (60 * (24 * days + (hour - tm.hour)) + (min - tm.min)) + (sec - tm.sec)
  }

  /** Leap years from year 1 up to, but not including, a year; negative before. */
  function LeapsBefore(year: int): int {
    (year - 1) / 4 - (year - 1) / 100 + (year - 1) / 400
  }

  lemma FloorStep(y: int, k: int)
    requires k == 4 || k == 100 || k == 400
    ensures y / k == (y - 1) / k + Bit(y % k == 0)
  {
    if k == 4 {
    } else if k == 100 {
    } else {
    }
  }

  lemma Multiples(q: int)
    ensures (400 * q) % 100 == 0 && (100 * q) % 4 == 0
  {
    assert 400 * q == 100 * (4 * q);
    assert 100 * q == 4 * (25 * q);
  }

  lemma Divides(y: int)
    ensures y % 400 == 0 ==> y % 100 == 0
    ensures y % 100 == 0 ==> y % 4 == 0
  {
    if y % 400 == 0 {
      Multiples(y / 400);
    }
    if y % 100 == 0 {
      Multiples(y / 100);
    }
  }

  lemma LeapsStep(year: int)
    ensures LeapsBefore(year + 1) == LeapsBefore(year) + Bit(IsLeap(year))
  {
    FloorStep(year, 4);
    FloorStep(year, 100);
    FloorStep(year, 400);
    Divides(year);
  }

  lemma {:induction false} DaysByLeaps(from: int, to: int)
    ensures DaysBetween(from, to) == 365 * (to - from) + LeapsBefore(to) - LeapsBefore(from)
    decreases if from < to then to - from else from - to, from > to
  {
    if from < to {
      DaysByLeaps(from, to - 1);
      LeapsStep(to - 1);
    } else if from > to {
      DaysByLeaps(to, from);
    }
  }

  /** The floor of a quotient as the code computes it. */
  lemma FloorOf25(a: int)
    ensures Quotient(a, 25) - Bit(Remainder(a, 25) < 0) == a / 25
  {
    if a < 0 {
      var q, r := (-a) / 25, (-a) % 25;
      assert -a == 25 * q + r;
      assert Quotient(a, 25) == -q && Remainder(a, 25) == -r;
      if r != 0 {
        assert a == 25 * (-q - 1) + (25 - r);
      } else {
        assert a == 25 * (-q);
      }
    }
  }

  lemma DivideTwice(x: int)
    ensures x / 4 / 25 == x / 100
    ensures x / 100 / 4 == x / 400
  {
    var q, r := x / 100, x % 100;
    assert x / 4 == 25 * q + r / 4;
    var q4, r4 := q / 4, q % 4;
    assert x == 400 * q4 + (100 * r4 + r);
  }

  lemma LeapTerms(year: int)
    ensures
      var a4 := year / 4 + BASE / 4 - Bit(year % 4 == 0);
      a4 - a4 / 25 + (a4 / 25) / 4 == LeapsBefore(year + BASE)
  {
    FloorStep(year, 4);
    assert (year - 1 + 4 * 475) / 4 == (year - 1) / 4 + 475;
    DivideTwice(year + BASE - 1);
  }

  /** The arithmetic is exact in the calendar defined year by year. */
  lemma DiffIsExact(year: int, yday: int, hour: int, min: int, sec: int, tm: Tm)
    ensures YdhmsTmDiff(year, yday, hour, min, sec, Some(tm))
         == Seconds(DaysBetween(tm.year + BASE, year + BASE) + yday - tm.yday, hour - tm.hour, min - tm.min, sec - tm.sec)
  {
    hide LeapsBefore, DaysBetween;
    FloorOf25(year / 4 + BASE / 4 - Bit(year % 4 == 0));
    FloorOf25(tm.year / 4 + BASE / 4 - Bit(tm.year % 4 == 0));
    LeapTerms(year);
    LeapTerms(tm.year);
    DaysByLeaps(tm.year + BASE, year + BASE);
  }

  lemma DaysAdd(a: int, b: int, c: int)
    ensures DaysBetween(a, b) + DaysBetween(b, c) == DaysBetween(a, c)
  {
    DaysByLeaps(a, b);
    DaysByLeaps(b, c);
    DaysByLeaps(a, c);
  }

  /** What the difference is to one who counts from the epoch. */
  lemma DiffOfInstants(a: Tm, b: Tm)
    ensures YdhmsTmDiff(a.year, a.yday, a.hour, a.min, a.sec, Some(b)) == Instant(a) - Instant(b)
  {
    DiffIsExact(a.year, a.yday, a.hour, a.min, a.sec, b);
    DaysAdd(EPOCH, b.year + BASE, a.year + BASE);
  }

  /** The table of the code, the days before each month. */
  const MON_YDAY: seq<seq<nat>> := [
    [0, 31, 59, 90, 120, 151, 181, 212, 243, 273, 304, 334, 365],
    [0, 31, 60, 91, 121, 152, 182, 213, 244, 274, 305, 335, 366]
  ]

  lemma TableIsRight(leap: bool, mon: nat)
    requires mon <= 12
    ensures MON_YDAY[if leap then 1 else 0][mon] == DaysBefore(leap, mon)
  {
    assert DaysBefore(leap, 1) == 31;
    assert DaysBefore(leap, 4) == DaysBefore(leap, 2) + 61;
    assert DaysBefore(leap, 6) == DaysBefore(leap, 4) + 61;
    assert DaysBefore(leap, 8) == DaysBefore(leap, 6) + 62;
    assert DaysBefore(leap, 10) == DaysBefore(leap, 8) + 61;
  }

  // The nearest time that can be converted

  type Convert = int -> Option<Tm>

  function Sign(t: int): int {
    if t < 0 then -1 else 1
  }

  /** The times that can be converted have no gap, and zero is one of them. */
  ghost predicate NoGaps(convert: Convert) {
    && convert(0).Some?
    && forall a, b :: convert(b).Some? && (0 <= a <= b || b <= a <= 0) ==> convert(a).Some?
  }

  /** No convertible time is nearer to `t` than `near`. */
  ghost predicate Nearest(convert: Convert, t: int, near: int) {
    && convert(near).Some?
    && forall u :: convert(u).Some? ==> (if u < t then t - u else u - t) >= (if near < t then t - near else near - t)
  }

  /** Binary search between a time that converts and one that does not. */
  method RangedConvert(convert: Convert, t: int) returns (r: Option<Tm>, near: int)
    ensures r == convert(near)
    ensures convert(t).Some? || t == 0 ==> near == t
    ensures convert(t).None? && t != 0 && r.Some? ==>
      && convert(near + Sign(t)).None?
      && (if t < 0 then t < near < 0 else 0 < near < t)
    ensures convert(t).None? && t != 0 && r.None? ==> convert(Sign(t)).None?
    ensures NoGaps(convert) && r.Some? ==> Nearest(convert, t, near)
    ensures NoGaps(convert) && convert(t).None? ==> (r.Some? <==> convert(Sign(t)).Some?)
  {
    r, near := convert(t), t;
    if r.None? && t != 0 {
      var bad, ok := t, 0;
      var tm := r;
      while bad != ok + Sign(bad)
        invariant convert(bad).None? && (bad < 0 <==> t < 0)
        invariant if t < 0 then t <= bad < ok <= 0 else 0 <= ok < bad <= t
        invariant ok != 0 ==> convert(ok).Some? && tm == convert(ok)
        invariant r == convert(near) && (r.Some? ==> near == ok != 0)
        decreases if t < 0 then ok - bad else bad - ok
      {
        var mid := if bad < 0 then bad + (ok - bad) / 2 else ok + (bad - ok) / 2;
        near := mid;
        r := convert(mid);
        if r.Some? {
          tm := r;
          ok := mid;
        } else {
          bad := mid;
        }
      }
      if r.None? && ok != 0 {
        near := ok;
        r := tm;
      }
      if NoGaps(convert) && r.Some? {
        FoundIsNearest(convert, t, near);
      }
    }
  }

  /** What the search finds is the nearest time, except that zero is never found. */
  lemma FoundIsNearest(convert: Convert, t: int, near: int)
    requires NoGaps(convert) && convert(t).None?
    requires convert(near).Some? && convert(near + Sign(t)).None? && (if t < 0 then t < near <= 0 else 0 <= near < t)
    ensures Nearest(convert, t, near)
  {
    forall u | convert(u).Some?
      ensures (if u < t then t - u else u - t) >= (if near < t then t - near else near - t)
    {
      assert t < 0 && u < near ==> u <= near - 1 <= 0 && convert(near - 1).Some?;
      assert t >= 0 && u > near ==> 0 <= near + 1 <= u && convert(near + 1).Some?;
    }
  }

  /** If zero is the only time that converts, the search misses it. */
  lemma ZeroIsMissed()
    ensures
      var onlyZero: Convert := t => if t == 0 then Some(EpochTm(0)) else None;
      && NoGaps(onlyZero) && Nearest(onlyZero, 5, 0)
      && onlyZero(Sign(5)).None?
  {
  }

  // Inverting the conversion by probing

  /** The fields that the code leaves uninitialised may hold anything. */
  function EpochTm(junk: int): Tm {
    Tm(0, 0, 0, junk, junk, EPOCH - BASE, 0, junk)
  }

  /** What is asked for, with the month in range and the day counted from the
      first of the year; the rest need not be in range. */
  function Request(tp: Tm): Tm {
    var monRemainder := Remainder(tp.mon, 12);
    var negative := Bit(monRemainder < 0);
    var year := tp.year + (Quotient(tp.mon, 12) - negative);
    var month := monRemainder + 12 * negative;
    var table := MON_YDAY[Bit(IsLeap(year + BASE))];
    var before := if 0 <= month < |table| then table[month] else 0;
    tp.(year := year, yday := before + tp.mday - 1)
  }

  function Clamp(sec: int): int {
    if sec < 0 then 0 else if 59 < sec then 59 else sec
  }

  /** Of the seconds of a minute it is the nearest one. */
  lemma ClampIsNearest(sec: int, k: int)
    requires 0 <= k < 60
    ensures 0 <= Clamp(sec) < 60
    ensures if sec < k then sec - k <= sec - Clamp(sec) <= k - sec else k - sec <= sec - Clamp(sec) <= sec - k
  {
  }

  /** Seconds since the epoch of a request with any values in its fields. */
  function Target(tp: Tm): int {
    var year := tp.year + BASE + tp.mon / 12;
    Seconds(DaysBetween(EPOCH, year) + DaysBefore(IsLeap(year), tp.mon % 12) + tp.mday - 1, tp.hour, tp.min, tp.sec)
  }

  lemma RequestMeans(tp: Tm)
    ensures Instant(Request(tp)) == Target(tp)
  {
    hide IsLeap, DaysBetween, DaysBefore;
    if tp.mon < 0 {
      var q, r := (-tp.mon) / 12, (-tp.mon) % 12;
      assert tp.mon == 12 * (-q - 1) + (12 - r) == 12 * (-q) - r;
    }
    assert Quotient(tp.mon, 12) - Bit(Remainder(tp.mon, 12) < 0) == tp.mon / 12;
    TableIsRight(IsLeap(tp.year + BASE + tp.mon / 12), tp.mon % 12);
  }

  /** A conversion that covers all times and stays at one offset from UTC. */
  ghost predicate IsClock(convert: Convert) {
    && convert(0).Some?
    && forall t :: convert(t).Some? && InRange(convert(t).value) && Instant(convert(t).value) == t + OffsetOf(convert)
  }

  ghost function OffsetOf(convert: Convert): int
    requires convert(0).Some?
  {
    Instant(convert(0).value)
  }

  function Diff(rq: Tm, r: Option<Tm>): int {
    YdhmsTmDiff(rq.year, rq.yday, rq.hour, rq.min, rq.sec, r)
  }

  lemma NoDiff(rq: Tm)
    ensures Diff(rq, None) == 1
  {
  }

  datatype Outcome = Outcome(t: int, tm: Tm, dt: int)

  /** The main loop: every error improves the guess. */
  method Probe(rq: Tm, convert: Convert, guess: int, start: Tm) returns (found: Option<Outcome>, probes: nat)
    ensures 1 <= probes <= 6
    ensures found.Some? && found.value.dt == 0 ==>
      convert(found.value.t) == Some(found.value.tm) && Instant(found.value.tm) == Instant(rq)
    ensures found.None? ==> probes == 6
    ensures found.Some? && found.value.dt != 0 ==>
      && (rq.isdst < 0 || found.value.tm.isdst < 0 || (rq.isdst != 0) != (found.value.tm.isdst != 0))
      && (convert(found.value.t).Some? ==>
            convert(found.value.t) == Some(found.value.tm) && found.value.dt == Instant(rq) - Instant(found.value.tm))
    ensures IsClock(convert) ==>
      && found.Some? && found.value.dt == 0
      && found.value.t == Instant(rq) - OffsetOf(convert)
      && probes <= 2 && (guess == found.value.t ==> probes == 1)
  {
    hide YdhmsTmDiff, Instant, InRange;
    var t, t1, t2, tm := guess, guess, guess, start;
    var remaining := 6;
    probes := 0;
    while true
      invariant remaining == 6 - probes && remaining >= 1
      invariant IsClock(convert) && probes > 0 ==> probes == 1 && t == Instant(rq) - OffsetOf(convert) != guess
      invariant probes == 0 ==> t == t1 == t2 == guess
      decreases remaining
    {
      var r;
      r, t := RangedConvert(convert, t);
      probes := probes + 1;
      if r.Some? {
        tm := r.value;
        DiffOfInstants(rq, tm);
      } else {
        NoDiff(rq);
      }
      var dt := Diff(rq, r);
      if dt == 0 {
        return Some(Outcome(t, tm, dt)), probes;
      }
      if t == t1 && t != t2 && (rq.isdst < 0 || tm.isdst < 0 || (rq.isdst != 0) != (tm.isdst != 0)) {
        return Some(Outcome(t, tm, dt)), probes;
      }
      remaining := remaining - 1;
      if remaining == 0 {
        return None, probes;
      }
      t1, t2, t := t2, t, t + dt;
    }
  }

  /** If the match has the wrong tm_isdst, two hours further may be a better one. */
  method ProbeOtherDst(rq: Tm, convert: Convert, was: Outcome, remaining: nat) returns (now: Outcome, probes: nat)
    requires remaining >= 1
    requires was.dt == 0 && convert(was.t) == Some(was.tm) && Instant(was.tm) == Instant(rq)
    ensures probes < remaining
    ensures convert(now.t) == Some(now.tm) && Instant(now.tm) == Instant(rq)
    ensures (rq.isdst != 0) == (was.tm.isdst != 0) ==> now == was && probes == 0
    ensures
      var there := was.t - 2 * 60 * 60 * (Bit(rq.isdst != 0) - Bit(was.tm.isdst != 0));
      remaining > 1 && convert(there).Some? && Instant(convert(there).value) == Instant(rq) ==>
        now.t == there && now.tm == convert(there).value
    ensures IsClock(convert) ==> now.t == was.t && now.tm == was.tm
  {
    hide YdhmsTmDiff, Instant, InRange;
    now, probes := was, 0;
    var dstDiff := Bit(rq.isdst != 0) - Bit(was.tm.isdst != 0);
    if dstDiff != 0 {
      var ot := was.t - 2 * 60 * 60 * dstDiff;
      var left := remaining - 1;
      while left != 0
        invariant left >= 0 && probes == remaining - 1 - left
        invariant IsClock(convert) ==> probes == 0 && ot != was.t
        invariant probes == 0 ==> ot == was.t - 2 * 60 * 60 * dstDiff
        invariant probes > 0 ==>
          var there := was.t - 2 * 60 * 60 * dstDiff;
          !(convert(there).Some? && Instant(convert(there).value) == Instant(rq))
        invariant now == was
      {
        var r;
        r, ot := RangedConvert(convert, ot);
        probes := probes + 1;
        if r.Some? {
          DiffOfInstants(rq, r.value);
        } else {
          NoDiff(rq);
        }
        var dt := Diff(rq, r);
        if dt == 0 {
          now := Outcome(ot, r.value, dt);
          break;
        }
        ot := ot + dt;
        if ot == was.t {
          break;
        }
        left := left - 1;
      }
    }
  }

  /** A time and what it converts to. */
  function Adjusted(convert: Convert, t: int): Option<(int, Tm)> {
    match convert(t)
    case None => None
    case Some(tm) => Some((t, tm))
  }

  /** __mktime_internal: at most six probes whatever the conversion does.  After a
      match, the time found converts back to what was asked for, with seconds brought
      into 0..59; if the seconds found are not those asked for, the difference is added
      and the sum converted once more.  With a clock the answer is the exact inverse,
      within two probes, and the stored offset makes one probe enough the next time. */
  method MktimeInternal(tp: Tm, convert: Convert, offset: int, junk: int)
    returns (answer: Option<(int, Tm)>, newOffset: int, matched: bool, mainProbes: nat, probes: nat)
    ensures mainProbes <= probes <= 6
    ensures matched && answer.Some? ==> convert(answer.value.0) == Some(answer.value.1)
    ensures matched ==>
      var wanted := Target(tp) - tp.sec + Clamp(tp.sec);
      var t := wanted + newOffset;
      && convert(t).Some? && Instant(convert(t).value) == wanted
      && answer == if convert(t).value.sec == tp.sec then Some((t, convert(t).value))
                   else Adjusted(convert, t + tp.sec - Clamp(tp.sec) + Bit(Clamp(tp.sec) == 0 && convert(t).value.sec == 60))
    ensures matched && Clamp(tp.sec) == tp.sec ==>
      var t := Target(tp) + newOffset;
      && convert(t).Some? && Instant(convert(t).value) == Target(tp)
      && (InRange(convert(t).value) ==> answer == Some((t, convert(t).value)))
    ensures IsClock(convert) ==>
      var t := Target(tp) - OffsetOf(convert);
      && matched && answer == Some((t, convert(t).value))
      && newOffset == -OffsetOf(convert)
      && mainProbes <= 2 && (offset == newOffset ==> mainProbes == 1)
  {
    hide Request, YdhmsTmDiff, DaysBetween, DaysBefore, IsLeap, MonthLength;
    ghost var off := if convert(0).Some? then OffsetOf(convert) else 0;
    answer, newOffset := None, offset;
    var rq := Request(tp).(sec := Clamp(tp.sec));
    var tm := EpochTm(junk);
    var t0 := Diff(rq, Some(tm));
    TargetOfClamped(tp);
    TimeOfRequest(rq, junk);
    assert t0 == Instant(rq);

    var found;
    found, mainProbes := Probe(rq, convert, t0 + offset, tm);
    probes := mainProbes;
    matched := found.Some? && found.value.dt == 0;
    if found.None? {
      return;
    }
    var at := found.value;
    if at.dt == 0 && 0 <= tp.isdst && 0 <= at.tm.isdst {
      var more;
      at, more := ProbeOtherDst(rq, convert, at, 7 - mainProbes);
      probes := probes + more;
    }
    newOffset := at.t - t0;
    var t := at.t;
    tm := at.tm;
    if tp.sec != tm.sec {
      t := t + tp.sec - Clamp(tp.sec) + Bit(Clamp(tp.sec) == 0 && tm.sec == 60);
      var again := convert(t);
      if again.None? {
        return;
      }
      tm := again.value;
    }
    answer := Some((t, tm));
  }

  lemma TargetOfClamped(tp: Tm)
    ensures Target(tp) == Instant(Request(tp).(sec := Clamp(tp.sec))) + tp.sec - Clamp(tp.sec)
  {
    RequestMeans(tp);
  }

  lemma TimeOfRequest(rq: Tm, junk: int)
    ensures Diff(rq, Some(EpochTm(junk))) == Instant(rq)
  {
    DiffOfInstants(rq, EpochTm(junk));
  }

  // Clocks exist, and a time in range is the only one of its instant

  /** Year and day of the year, counting from the first day of a year. */
  function YearAndDay(year: int, day: int): (int, int)
    decreases if day < 0 then 400 - day else day
  {
    if day < 0 then YearAndDay(year - 1, day + YearDays(year - 1))
    else if day >= YearDays(year) then YearAndDay(year + 1, day - YearDays(year))
    else (year, day)
  }

  lemma {:induction false} YearAndDayRight(year: int, day: int)
    ensures
      var (y, d) := YearAndDay(year, day);
      0 <= d < YearDays(y) && DaysBetween(EPOCH, y) + d == DaysBetween(EPOCH, year) + day
    decreases if day < 0 then 400 - day else day
  {
    if day < 0 {
      YearAndDayRight(year - 1, day + YearDays(year - 1));
      DaysAdd(EPOCH, year - 1, year);
    } else if day >= YearDays(year) {
      YearAndDayRight(year + 1, day - YearDays(year));
      DaysAdd(EPOCH, year, year + 1);
    }
  }

  function MonthOf(leap: bool, yday: int, mon: nat): nat
    decreases 11 - mon
  {
    if mon < 11 && yday >= DaysBefore(leap, mon + 1) then MonthOf(leap, yday, mon + 1) else mon
  }

  lemma {:induction false} MonthOfRight(leap: bool, yday: int, mon: nat)
    requires mon <= 11 && DaysBefore(leap, mon) <= yday < (if leap then 366 else 365)
    ensures
      var m := MonthOf(leap, yday, mon);
      m <= 11 && DaysBefore(leap, m) <= yday < DaysBefore(leap, m) + MonthLength(leap, m)
    decreases 11 - mon
  {
    if mon < 11 {
      if yday >= DaysBefore(leap, mon + 1) {
        MonthOfRight(leap, yday, mon + 1);
      }
    } else {
      TableIsRight(leap, 11);
    }
  }

  function Breakdown(t: int): Tm {
    var (year, yday) := YearAndDay(EPOCH, t / 86400);
    var mon := MonthOf(IsLeap(year), yday, 0);
    var s := t % 86400;
    Tm(s % 60, s / 60 % 60, s / 3600, yday - DaysBefore(IsLeap(year), mon) + 1, mon, year - BASE, yday, 0)
  }

  lemma BreakdownRight(t: int)
    ensures InRange(Breakdown(t)) && Instant(Breakdown(t)) == t
  {
    var (year, yday) := YearAndDay(EPOCH, t / 86400);
    YearAndDayRight(EPOCH, t / 86400);
    MonthOfRight(IsLeap(year), yday, 0);
    var s := t % 86400;
    assert s / 60 / 60 == s / 3600;
  }

  lemma ClocksExist(offset: int)
    ensures
      var clock: Convert := t => Some(Breakdown(t + offset));
      IsClock(clock) && OffsetOf(clock) == offset
  {
    var clock: Convert := t => Some(Breakdown(t + offset));
    BreakdownRight(offset);
    forall t
      ensures clock(t).Some? && InRange(clock(t).value) && Instant(clock(t).value) == t + offset
    {
      BreakdownRight(t + offset);
    }
  }

  /** A time in range is its own target. */
  lemma TargetInRange(tm: Tm)
    requires InRange(tm)
    ensures Target(tm) == Instant(tm)
  {
  }

  /** So a clock reading is answered by the very time that was read. */
  lemma ReadingAnswered(convert: Convert, t: int)
    requires IsClock(convert)
    ensures Target(convert(t).value) - OffsetOf(convert) == t
  {
    TargetInRange(convert(t).value);
  }

  lemma {:induction false} YearsGrow(a: int, b: int)
    requires a < b
    ensures DaysBetween(a, b) >= YearDays(a)
    decreases b - a
  {
    if a + 1 < b {
      YearsGrow(a, b - 1);
    } else {
      assert DaysBetween(a, a) == 0;
    }
  }

  lemma {:induction false} MonthsGrow(leap: bool, a: nat, b: nat)
    requires a < b
    ensures DaysBefore(leap, b) >= DaysBefore(leap, a) + MonthLength(leap, a)
  {
    if a + 1 < b {
      MonthsGrow(leap, a, b - 1);
    }
  }

  lemma DayInYear(tm: Tm)
    requires InRange(tm)
    ensures 0 <= tm.yday < YearDays(tm.year + BASE)
  {
    MonthsGrow(IsLeap(tm.year + BASE), tm.mon, 12);
    TableIsRight(IsLeap(tm.year + BASE), 12);
  }

  lemma LaterYear(a: Tm, b: Tm)
    requires InRange(a) && InRange(b) && a.year < b.year
    ensures DaysBetween(EPOCH, a.year + BASE) + a.yday < DaysBetween(EPOCH, b.year + BASE) + b.yday
  {
    hide InRange, YearDays;
    DayInYear(a);
    DayInYear(b);
    YearsGrow(a.year + BASE, b.year + BASE);
    DaysAdd(EPOCH, a.year + BASE, b.year + BASE);
  }

  lemma SameClock(day1: int, hour1: int, min1: int, sec1: int, day2: int, hour2: int, min2: int, sec2: int)
    requires Seconds(day1, hour1, min1, sec1) == Seconds(day2, hour2, min2, sec2)
    requires 0 <= hour1 < 24 && 0 <= min1 < 60 && 0 <= sec1 < 60 && 0 <= hour2 < 24 && 0 <= min2 < 60 && 0 <= sec2 < 60
    ensures day1 == day2 && hour1 == hour2 && min1 == min2 && sec1 == sec2
  {
  }

  lemma InstantDetermines(a: Tm, b: Tm)
    requires InRange(a) && InRange(b) && Instant(a) == Instant(b)
    ensures a.(isdst := 0) == b.(isdst := 0)
  {
    hide YearDays, DaysBetween, Seconds;
    SameClock(DaysBetween(EPOCH, a.year + BASE) + a.yday, a.hour, a.min, a.sec,
              DaysBetween(EPOCH, b.year + BASE) + b.yday, b.hour, b.min, b.sec);
    if a.year < b.year {
      LaterYear(a, b);
    } else if b.year < a.year {
      LaterYear(b, a);
    } else if a.mon < b.mon {
      MonthsGrow(IsLeap(a.year + BASE), a.mon, b.mon);
    } else if b.mon < a.mon {
      MonthsGrow(IsLeap(a.year + BASE), b.mon, a.mon);
    }
  }
}
