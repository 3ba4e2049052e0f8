/** Mtimes through a zip's two-second DOS fields (APPNOTE.TXT section 4.4.6), and what the slacks buy. */
module ZipTime {
  import opened Options
  import opened Paths
  import opened Tree
  import opened V1Plan
  import opened Restore

  /** 1980-01-01 00:00:00 and 2108-01-01 00:00:00 UTC: the ends of what a DOS date can say. */
  const ZIP_MIN := 315532800
  const ZIP_END := 4354819200

  /** How far before the launch a file's mtime still counts as changed since. */
  const BASELINE_MTIME_SLACK := 2.0

  const DAY := 86400

  // ---- The packed time of day ----

  function PackTime(h: nat, m: nat, s: nat): nat { h * 2048 + m * 32 + s / 2 }

  function UnpackHour(t: nat): nat { t / 2048 }
  function UnpackMinute(t: nat): nat { t / 32 % 64 }
  function UnpackSecond(t: nat): nat { t % 32 * 2 }

  lemma PackedFields(h: nat, m: nat, s: nat)
    requires h < 24 && m < 60 && s < 60
    ensures var t := PackTime(h, m, s);
            t < 65536 && UnpackHour(t) == h && UnpackMinute(t) == m && UnpackSecond(t) == s - s % 2
  {
    var t := PackTime(h, m, s);
    assert t / 32 == h * 64 + m;
    assert t / 2048 == h;
  }

  /** A time of day after a trip through the packed fields, in seconds. */
  function PackedOf(h: nat, m: nat, s: nat): nat {
    var t := PackTime(h, m, s);
    UnpackHour(t) * 3600 + UnpackMinute(t) * 60 + UnpackSecond(t)
  }

  function PackedSecond(tod: nat): nat { PackedOf(tod / 3600, tod % 3600 / 60, tod % 60) }

  lemma Clock(tod: nat)
    requires tod < DAY
    ensures tod / 3600 < 24 && tod % 3600 / 60 < 60
    ensures tod == tod / 3600 * 3600 + tod % 3600 / 60 * 60 + tod % 60
  {
    var h, r := tod / 3600, tod % 3600;
    assert tod == 3600 * h + r;
    assert r == 60 * (r / 60) + r % 60;
    assert tod == 60 * (60 * h + r / 60) + r % 60;
  }

  lemma EvenPart(a: int, b: int, s: int)
    requires a == 2 * b + s
    ensures a % 2 == s % 2
  {}

  lemma PackedSecondIsEven(tod: nat)
    requires tod < DAY
    ensures PackedSecond(tod) == tod - tod % 2
  {
    var h, m, s := tod / 3600, tod % 3600 / 60, tod % 60;
    Clock(tod);
    PackedFields(h, m, s);
    EvenPart(tod, h * 1800 + m * 30, s);
  }

  // ---- The packed date ----

  predicate Leap(y: nat) { y % 4 == 0 && (y % 100 != 0 || y % 400 == 0) }

  function YearDays(y: nat): nat { if Leap(y) then 366 else 365 }

  function MonthDays(y: nat, m: nat): nat {
    if m == 2 then (if Leap(y) then 29 else 28) else if m in {4, 6, 9, 11} then 30 else 31
  }

  /** Days from 1980-01-01 to the first of January of the year. */
  function YearStart(y: nat): nat { if y <= 1980 then 0 else YearStart(y - 1) + YearDays(y - 1) }

  /** Days from the first of January to the first of the month. */
  function MonthStart(y: nat, m: nat): nat { if m <= 1 then 0 else MonthStart(y, m - 1) + MonthDays(y, m - 1) }

  function DayNumber(y: nat, m: nat, d: nat): int { YearStart(y) + MonthStart(y, m) + d - 1 }

  datatype Date = Date(year: nat, month: nat, day: nat)

  /** The date `n` days after the first of January of the year `y`. */
  function DateAfter(y: nat, n: nat): Date
    decreases n
  {
    if n < YearDays(y) then MonthAfter(y, 1, n) else DateAfter(y + 1, n - YearDays(y))
  }

  /** The date `n` days after the first of the month `m`, in the same year. */
  function MonthAfter(y: nat, m: nat, n: nat): Date
    decreases 12 - m
  {
    if m >= 12 || n < MonthDays(y, m) then Date(y, m, n + 1) else MonthAfter(y, m + 1, n - MonthDays(y, m))
  }

  lemma MonthStep(y: nat, m: nat)
    requires 1 <= m
    ensures MonthStart(y, m + 1) == MonthStart(y, m) + MonthDays(y, m)
  {}

  /** December ends with the year. */
  lemma DecemberEnds(y: nat)
    ensures MonthStart(y, 12) + 31 == YearDays(y)
  {
    MonthStep(y, 1);
    MonthStep(y, 2);
    MonthStep(y, 3);
    MonthStep(y, 4);
    MonthStep(y, 5);
    MonthStep(y, 6);
    MonthStep(y, 7);
    MonthStep(y, 8);
    MonthStep(y, 9);
    MonthStep(y, 10);
    MonthStep(y, 11);
  }

  /** A month the calendar has, a day the month has. */
  predicate IsDate(t: Date) { 1 <= t.month <= 12 && 1 <= t.day <= MonthDays(t.year, t.month) }

  lemma {:induction false} MonthAfterFits(y: nat, m: nat, n: nat)
    requires 1 <= m <= 12 && MonthStart(y, m) + n < YearDays(y)
    ensures var t := MonthAfter(y, m, n);
            t.year == y && IsDate(t) && MonthStart(y, t.month) + t.day - 1 == MonthStart(y, m) + n
    decreases 12 - m
  {
    if n < MonthDays(y, m) {
    } else {
      DecemberEnds(y);
      assert m != 12;
      MonthStep(y, m);
      MonthAfterFits(y, m + 1, n - MonthDays(y, m));
    }
  }

  /** The date of a day number is a date of the calendar, and its day number is that one. */
  lemma {:induction false} DateAfterFits(y: nat, n: nat)
    requires 1980 <= y
    ensures var t := DateAfter(y, n);
            && y <= t.year && IsDate(t)
            && YearStart(t.year) <= DayNumber(t.year, t.month, t.day) == YearStart(y) + n
    decreases n
  {
    if n < YearDays(y) {
      MonthAfterFits(y, 1, n);
    } else {
      DateAfterFits(y + 1, n - YearDays(y));
    }
  }

  /** In the years a zip can say, every fourth one is a leap year but 2100. */
  lemma LeapHere(y: nat)
    requires 1980 <= y <= 2107
    ensures Leap(y) <==> y % 4 == 0 && y != 2100
  {
    var q := y / 100;
    assert 19 <= q <= 21;
  }

  lemma Quarters(y: nat)
    requires 1980 <= y
    ensures (y - 1976) / 4 == (y - 1977) / 4 + if y % 4 == 0 then 1 else 0
  {}

  lemma {:induction false} YearStartClosed(y: nat)
    requires 1980 <= y <= 2108
    ensures YearStart(y) == 365 * (y - 1980) + (y - 1977) / 4 - if y > 2100 then 1 else 0
  {
    if y == 1980 {
    } else {
      YearStartClosed(y - 1);
      LeapHere(y - 1);
      Quarters(y - 1);
    }
  }

  lemma {:induction false} YearStartGrows(y: nat, z: nat)
    requires y <= z
    ensures YearStart(y) <= YearStart(z)
    decreases z
  {
    if y == z {
    } else {
      YearStartGrows(y, z - 1);
    }
  }

  /** A day before the end of 2107 has a year the packed word can say. */
  lemma YearFits(n: nat)
    requires n < (ZIP_END - ZIP_MIN) / DAY
    ensures 1980 <= DateAfter(1980, n).year <= 2107
  {
    DateAfterFits(1980, n);
    YearStartClosed(2108);
    if DateAfter(1980, n).year > 2107 {
      YearStartGrows(2108, DateAfter(1980, n).year);
    }
  }

  function PackDate(t: Date): int { (t.year - 1980) * 512 + t.month * 32 + t.day }

  function UnpackDate(w: nat): Date { Date(1980 + w / 512, w / 32 % 16, w % 32) }

  lemma PackedDate(t: Date)
    requires 1980 <= t.year <= 2107 && IsDate(t)
    ensures 0 <= PackDate(t) < 65536 && UnpackDate(PackDate(t)) == t
  {
    var w := PackDate(t);
    assert w / 32 == (t.year - 1980) * 16 + t.month;
    assert w / 512 == t.year - 1980;
  }

  // ---- A packed time ----

  /** A whole second since the epoch as the archive stores it, read back from its packed date and
      its packed time of day. */
  function Packed(sec: int): int
    requires ZIP_MIN <= sec < ZIP_END
  {
    var n := (sec - ZIP_MIN) / DAY;
    YearFits(n);
    DateAfterFits(1980, n);
    PackedDate(DateAfter(1980, n));
    var t := UnpackDate(PackDate(DateAfter(1980, n)));
    ZIP_MIN + DayNumber(t.year, t.month, t.day) * DAY + PackedSecond((sec - ZIP_MIN) % DAY)
  }

  lemma PackedIsEvenFloor(sec: int)
    requires ZIP_MIN <= sec < ZIP_END
    ensures Packed(sec) == sec - sec % 2
  {
    var n, tod := (sec - ZIP_MIN) / DAY, (sec - ZIP_MIN) % DAY;
    YearFits(n);
    DateAfterFits(1980, n);
    PackedDate(DateAfter(1980, n));
    PackedSecondIsEven(tod);
    assert sec == ZIP_MIN + n * DAY + tod;
    EvenPart(sec, ZIP_MIN / 2 + n * 43200, tod);
  }

  /** The time an archive ends up storing for a file; `gmtime` may refuse an mtime outright. */
  function ZipStamp(mtime: real, refused: real -> bool): real {
    if refused(mtime) || mtime.Floor < ZIP_MIN then ZIP_MIN as real
    else if mtime.Floor >= ZIP_END then (ZIP_END - 2) as real
    else Packed(mtime.Floor) as real
  }

  lemma Close(m: real, stamp: int)
    requires stamp == m.Floor - m.Floor % 2 && ZIP_MIN <= m.Floor
    ensures 0.0 <= m - stamp as real < 2.0
    ensures ZIP_MIN as real <= stamp as real
  {}

  /** Within the years a zip can say, the stored time is at most two seconds behind. */
  lemma StampClose(mtime: real, refused: real -> bool)
    requires ZIP_MIN as real <= mtime < ZIP_END as real && !refused(mtime)
    ensures 0.0 <= mtime - ZipStamp(mtime, refused) < 2.0
    ensures ZIP_MIN as real <= ZipStamp(mtime, refused)
  {
    PackedIsEvenFloor(mtime.Floor);
    Close(mtime, Packed(mtime.Floor));
  }

  /** Whether the newer-file guard keeps a file of mtime `onDisk` instead of restoring the member. */
  predicate GuardKeeps(onDisk: real, stamp: real) { onDisk > stamp + SAVE_MTIME_SLACK }

  /** Restoring a dump over the very file it came from, whatever its mtime and whatever the clock: the
      guard keeps the file exactly when the stored time lies ahead of a clock not far ahead of the
      file, when the file is past what a zip can say, or when its time could not be told and is past
      the earliest a zip can say. So rounding alone never costs a restore. */
  lemma UnchangedFileRestored(mtime: real, e: ZipEntry, refused: real -> bool, when: real)
    requires e.info.dated && e.stamp == ZipStamp(mtime, refused)
    ensures GuardKeeps(mtime, RestoreStamp(e, when)) <==>
              || (e.stamp > when && mtime > when - FUTURE_MEMBER_BACKDATE + SAVE_MTIME_SLACK)
              || mtime > ZIP_END as real
              || (refused(mtime) && mtime > ZIP_MIN as real + SAVE_MTIME_SLACK)
    ensures ZIP_MIN as real <= when ==>
              (GuardKeeps(mtime, RestoreStamp(e, when)) <==>
                 || e.stamp > when
                 || mtime > ZIP_END as real
                 || (refused(mtime) && mtime > ZIP_MIN as real + SAVE_MTIME_SLACK))
  {
    if ZIP_MIN as real <= mtime < ZIP_END as real && !refused(mtime) {
      StampClose(mtime, refused);
    }
  }

  /** A file from before 1980 is never kept over its own dump by a clock that runs after 1980. */
  lemma ClampedFileRestored(mtime: real, e: ZipEntry, refused: real -> bool, when: real)
    requires mtime < ZIP_MIN as real && ZIP_MIN as real <= when
    requires e.info.dated && e.stamp == ZipStamp(mtime, refused)
    ensures e.stamp == ZIP_MIN as real
    ensures !GuardKeeps(mtime, RestoreStamp(e, when))
  {}

  /** A future stamp on the file itself is enough to have its own dump skipped. */
  lemma FutureFileIsSkipped() returns (mtime: real, e: ZipEntry, when: real)
    ensures ZIP_MIN as real <= mtime < ZIP_END as real
    ensures e.info.dated && e.stamp == ZipStamp(mtime, _ => false)
    ensures GuardKeeps(mtime, RestoreStamp(e, when))
  {
    mtime, when := 1000000000.0, 999999990.0;
    StampClose(mtime, _ => false);
    e := ZipEntry(Info("memcards/a", false, ZIP_STORED, true, 0), ZipStamp(mtime, _ => false), Some([]));
  }

  /** A time past all that `gmtime` can tell is enough too: its dump says 1980, ahead of no clock. */
  lemma RefusedFileIsSkipped() returns (mtime: real, e: ZipEntry, refused: real -> bool, when: real)
    ensures refused(mtime) && e.info.dated && e.stamp == ZipStamp(mtime, refused)
    ensures e.stamp <= when && GuardKeeps(mtime, RestoreStamp(e, when))
  {
    mtime, when := 100000000000000000.0, 1700000000.0;
    refused := m => m == 100000000000000000.0;
    e := ZipEntry(Info("memcards/a", false, ZIP_STORED, true, 0), ZipStamp(mtime, refused), Some([]));
  }

  /** So is one past 2107, restored later still. */
  lemma LateFileIsSkipped() returns (mtime: real, e: ZipEntry, when: real)
    ensures e.info.dated && e.stamp == ZipStamp(mtime, _ => false)
    ensures e.stamp <= when && mtime <= when && GuardKeeps(mtime, RestoreStamp(e, when))
  {
    mtime, when := 5000000000.0, 5000000010.0;
    e := ZipEntry(Info("memcards/a", false, ZIP_STORED, true, 0), ZipStamp(mtime, _ => false), Some([]));
  }

  /** Whether the exit dump takes a file for one the session wrote. */
  predicate LooksChanged(mtime: real, baseline: real) { mtime >= baseline - BASELINE_MTIME_SLACK }

  /** A restored and untouched file ships again at a later baseline exactly when its member was
      stamped within the slack before it; a member stamped in the future never does. */
  lemma RestoredFileShips(e: ZipEntry, when: real, baseline: real)
    requires e.info.dated && baseline >= when
    ensures LooksChanged(RestoreStamp(e, when), baseline) <==>
              baseline - BASELINE_MTIME_SLACK <= e.stamp <= when
  {}
}
