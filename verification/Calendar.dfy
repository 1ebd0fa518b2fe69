/** Conversion between Unix time and the packed date, time and tenths of a directory entry
    (fat32_util.c). */
module Calendar {

  /** Seconds from 1970 to 1980. */
  const EPOCH: int := 315532800
  const DAY: int := 86400
  const TEN_MS: nat := 10000000

  predicate IsLeap(year: nat) {
    year % 4 == 0 && (year % 100 != 0 || year % 400 == 0)
  }

  function DaysInYear(year: nat): (n: nat)
    ensures 365 <= n <= 366
  {
    if IsLeap(year) then 366 else 365
  }

  function DaysInMonth(year: nat, month: nat): (n: nat)
    ensures 28 <= n <= 31
  {
    if month == 2 then (if IsLeap(year) then 29 else 28)
    else if month == 4 || month == 6 || month == 9 || month == 11 then 30
    else 31
  }

  /** Days from the start of 1980 to the start of `year`. */
  function DaysToYear(year: nat): nat {
    if year <= 1980 then 0 else DaysToYear(year - 1) + DaysInYear(year - 1)
  }

  /** Days from the start of the year to the start of `month`. */
  function DaysToMonth(year: nat, month: nat): nat {
    if month <= 1 then 0 else DaysToMonth(year, month - 1) + DaysInMonth(year, month - 1)
  }

  lemma YearIsTwelveMonths(year: nat)
    ensures DaysToMonth(year, 13) == DaysInYear(year)
  {
    assert DaysToMonth(year, 4) == DaysToMonth(year, 3) + 31 == DaysToMonth(year, 2) + DaysInMonth(year, 2) + 31;
    assert DaysToMonth(year, 2) == DaysToMonth(year, 1) + 31;
    assert DaysToMonth(year, 7) == DaysToMonth(year, 6) + 30 == DaysToMonth(year, 5) + 61 == DaysToMonth(year, 4) + 91;
    assert DaysToMonth(year, 10) == DaysToMonth(year, 9) + 30 == DaysToMonth(year, 8) + 61 == DaysToMonth(year, 7) + 92;
    assert DaysToMonth(year, 13) == DaysToMonth(year, 12) + 31 == DaysToMonth(year, 11) + 61 == DaysToMonth(year, 10) + 92;
  }

  /** A point in time by its calendar fields; `second` is even, and `centis` counts 10 ms units of
      the two seconds that follow it. */
  datatype Civil = Civil(year: nat, month: nat, day: nat, hour: nat, minute: nat, second: nat, centis: nat)

  /** The points in time that a directory entry can hold. */
  predicate InCalendar(c: Civil) {
    && 1980 <= c.year <= 2107 && 1 <= c.month <= 12 && 1 <= c.day <= DaysInMonth(c.year, c.month)
    && c.hour < 24 && c.minute < 60 && c.second < 60 && c.second % 2 == 0 && c.centis < 200
  }

  /** The packed form: 16 bits of date, 16 bits of time, 8 bits of tenths. */
  datatype Packed = Packed(date: nat, time: nat, tenths: nat)

  predicate Bits(p: Packed) {
    p.date < 0x1_0000 && p.time < 0x1_0000 && p.tenths < 0x100
  }

  function Pack(c: Civil): Packed
    requires c.year >= 1980
  {
    Packed(((c.year - 1980) * 512 + c.month * 32 + c.day) % 0x1_0000,
           (c.hour * 2048 + c.minute * 32 + c.second / 2) % 0x1_0000, c.centis % 0x100)
  }

  function Unpack(p: Packed): Civil {
    Civil(1980 + p.date / 512 % 128, p.date / 32 % 16, p.date % 32,
          p.time / 2048 % 32, p.time / 32 % 64, p.time % 32 * 2, p.tenths)
  }

  lemma UnpackPack(p: Packed)
    requires Bits(p)
    ensures Pack(Unpack(p)) == p
  {
    DateWhole(p.date, p.date / 32);
    TimeWhole(p.time, p.time / 32);
  }

  lemma DateWhole(x: nat, q: nat)
    requires x < 0x1_0000 && q == x / 32
    ensures x / 512 % 128 * 512 + q % 16 * 32 + x % 32 == x
  {
    Quotient512(x);
    assert q / 16 < 128 && q == q / 16 * 16 + q % 16;
  }

  lemma TimeWhole(x: nat, q: nat)
    requires x < 0x1_0000 && q == x / 32
    ensures x / 2048 % 32 * 2048 + q % 64 * 32 + x % 32 * 2 / 2 == x
  {
    Quotient2048(x);
    assert q / 64 < 32 && q == q / 64 * 64 + q % 64;
  }

  // ---- from Unix time ----

  /** The year that contains day `day` counted from the start of `year`, and the day in it. */
  function FindYear(year: nat, day: nat): (r: (nat, nat))
    decreases day
  {
    if day < DaysInYear(year) then (year, day) else FindYear(year + 1, day - DaysInYear(year))
  }

  function FindMonth(year: nat, month: nat, day: nat): (r: (nat, nat))
    decreases 13 - month
  {
    if month > 12 || day < DaysInMonth(year, month) then (month, day)
    else FindMonth(year, month + 1, day - DaysInMonth(year, month))
  }

  function CivilOf(sec: int, nsec: nat): Civil
    requires sec >= EPOCH
  {
    var s := sec - EPOCH;
    var (year, yday) := FindYear(1980, s / DAY);
    var (month, mday) := FindMonth(year, 1, yday);
    Civil(year, month, mday + 1, s / 3600 % 24, s / 60 % 60, s % 60 / 2 * 2, nsec / TEN_MS + s % 60 % 2 * 100)
  }

  /** The result of `fat32_unix_to_fat_time`. */
  function UnixToFat(sec: int, nsec: nat): (p: Packed)
    ensures Bits(p)
  {
    if sec < EPOCH then Packed(32 + 1, 0, 0)
    else
      FindYearIs(1980, (sec - EPOCH) / DAY);
      Pack(CivilOf(sec, nsec))
  }

  /** `fat32_unix_to_fat_time`. */
  method ComputeUnixToFat(sec: int, nsec: nat) returns (p: Packed)
    ensures p == UnixToFat(sec, nsec)
  {
    if sec < EPOCH {
      return Packed(32 + 1, 0, 0);
    }
    var seconds := sec - EPOCH;
    var s, minute, hour := seconds % 60, seconds / 60 % 60, seconds / 3600 % 24;
    var day, year := seconds / DAY, 1980;
    while day >= DaysInYear(year)
      invariant 0 <= day && 1980 <= year
      invariant FindYear(1980, seconds / DAY) == FindYear(year, day)
      decreases day
    {
      day := day - DaysInYear(year);
      year := year + 1;
    }
    ghost var yday := day;
    var month, i := 1, 1;
    while i <= 12
      invariant 1 <= i <= 13 && month == i && 0 <= day
      invariant FindMonth(year, 1, yday) == FindMonth(year, month, day)
    {
      var dim := DaysInMonth(year, i);
      if day < dim {
        break;
      }
      day := day - dim;
      month := month + 1;
      i := i + 1;
    }
    day := day + 1;
    p := Packed(((year - 1980) * 512 + month * 32 + day) % 0x1_0000, (hour * 2048 + minute * 32 + s / 2) % 0x1_0000,
                (nsec / TEN_MS + s % 2 * 100) % 0x100);
  }

  lemma {:induction false} FindYearIs(year: nat, day: nat)
    requires year >= 1980
    ensures var (y, d) := FindYear(year, day);
      year <= y && d < DaysInYear(y) && DaysToYear(year) + day == DaysToYear(y) + d
    decreases day
  {
    if day >= DaysInYear(year) {
      FindYearIs(year + 1, day - DaysInYear(year));
    }
  }

  lemma {:induction false} FindMonthIs(year: nat, month: nat, day: nat)
    requires 1 <= month <= 12 && DaysToMonth(year, month) + day < DaysToMonth(year, 13)
    ensures var (m, d) := FindMonth(year, month, day);
      month <= m <= 12 && d < DaysInMonth(year, m) && DaysToMonth(year, month) + day == DaysToMonth(year, m) + d
    decreases 13 - month
  {
    if day >= DaysInMonth(year, month) {
      assert DaysToMonth(year, month + 1) == DaysToMonth(year, month) + DaysInMonth(year, month);
      if month < 12 {
        FindMonthIs(year, month + 1, day - DaysInMonth(year, month));
      }
    }
  }

  // ---- to Unix time ----

  /** Seconds from 1970 to a point in time, with its 10 ms units cut to whole seconds. */
  function SecondsOf(c: Civil): int
    requires c.day >= 1
  {
    EPOCH + DAY * (DaysToYear(c.year) + DaysToMonth(c.year, c.month) + c.day - 1)
    + 3600 * c.hour + 60 * c.minute + c.second + c.centis / 100
  }

  /** The corrections of `fat32_fat_to_unix_time` to fields out of range. */
  function Corrected(c: Civil): (r: Civil)
    ensures r.day >= 1
  {
    c.(month := if c.month < 1 then 1 else if c.month > 12 then 12 else c.month,
       day := if c.day < 1 then 1 else c.day,
       centis := if c.centis > 199 then 199 else c.centis)
  }

  /** The result of `fat32_fat_to_unix_time`: seconds and nanoseconds. */
  function FatToUnix(p: Packed): (r: (int, nat)) {
    var c := Corrected(Unpack(p));
    (SecondsOf(c), c.centis % 100 * TEN_MS)
  }

  /** `fat32_fat_to_unix_time`. */
  method ComputeFatToUnix(p: Packed) returns (sec: int, nsec: nat)
    ensures (sec, nsec) == FatToUnix(p)
  {
    var year, month, day := 1980 + p.date / 512 % 128, p.date / 32 % 16, p.date % 32;
    var hour, minute, s := p.time / 2048 % 32, p.time / 32 % 64, p.time % 32 * 2;
    var tenths := if p.tenths > 199 then 199 else p.tenths;
    s := s + tenths / 100;
    nsec := tenths % 100 * TEN_MS;
    if month < 1 {
      month := 1;
    }
    if month > 12 {
      month := 12;
    }
    if day < 1 {
      day := 1;
    }
    var seconds := SecondsToMonth(year, month);
    seconds := seconds + (day - 1) * DAY;
    seconds := seconds + hour * 3600 + minute * 60 + s;
    sec := seconds + EPOCH;
  }

  /** The two summing loops of `fat32_fat_to_unix_time`. */
  method SecondsToMonth(year: nat, month: nat) returns (seconds: int)
    requires year >= 1980 && month >= 1
    ensures seconds == DAY * (DaysToYear(year) + DaysToMonth(year, month))
  {
    seconds := 0;
    var i := 1980;
    while i < year
      invariant 1980 <= i <= year && seconds == DAY * DaysToYear(i)
    {
      seconds := seconds + DaysInYear(i) * DAY;
      i := i + 1;
    }
    i := 1;
    while i < month
      invariant 1 <= i <= month && seconds == DAY * (DaysToYear(year) + DaysToMonth(year, i))
    {
      seconds := seconds + DaysInMonth(year, i) * DAY;
      i := i + 1;
    }
  }

  // ---- round trips ----

  lemma {:induction false} DaysToYearMonotone(y: nat, y': nat)
    requires 1980 <= y < y'
    ensures DaysToYear(y) + DaysInYear(y) <= DaysToYear(y')
    decreases y'
  {
    if y < y' - 1 {
      DaysToYearMonotone(y, y' - 1);
    }
  }

  lemma {:induction false} DaysToMonthMonotone(year: nat, m: nat, m': nat)
    requires 1 <= m < m' <= 13
    ensures DaysToMonth(year, m) + DaysInMonth(year, m) <= DaysToMonth(year, m')
    decreases m'
  {
    if m < m' - 1 {
      DaysToMonthMonotone(year, m, m' - 1);
    }
  }

  /** The day of the year stays inside the year. */
  lemma DayInYear(c: Civil)
    requires InCalendar(c)
    ensures DaysToMonth(c.year, c.month) + c.day - 1 < DaysInYear(c.year)
  {
    YearIsTwelveMonths(c.year);
    DaysToMonthMonotone(c.year, c.month, 13);
  }

  /** The first second that a directory entry cannot hold. */
  const CALENDAR_END: int := EPOCH + DAY * 46751

  /** The parameter keeps the years symbolic, so that the sum is not unrolled. */
  lemma CalendarDays(y: nat)
    requires y == 1980
    ensures DaysToYear(y + 128) == 46751
  {
    Years28(y);
    Years28(y + 28);
    Years28(y + 56);
    Years28(y + 84);
    Years4(y + 112);
    Years4(y + 116);
    Century(y + 120);
    Years4(y + 124);
  }

  /** The four years from 2100 on have no leap year. */
  lemma Century(y: nat)
    requires y == 2100
    ensures DaysToYear(y + 4) == DaysToYear(y) + 1460
  {
    assert !IsLeap(y) && !IsLeap(y + 1) && !IsLeap(y + 2) && !IsLeap(y + 3);
    assert DaysToYear(y + 4) == DaysToYear(y + 3) + 365 == DaysToYear(y + 2) + 730 == DaysToYear(y + 1) + 1095;
  }

  /** Seven leap cycles without a skipped leap year. */
  lemma Years28(y: nat)
    requires 1980 <= y && y % 4 == 0 && y + 28 <= 2100
    ensures DaysToYear(y + 28) == DaysToYear(y) + 10227
  {
    Years4(y);
    Years4(y + 4);
    Years4(y + 8);
    Years4(y + 12);
    Years4(y + 16);
    Years4(y + 20);
    Years4(y + 24);
  }

  lemma Years4(y: nat)
    requires 1980 <= y && y % 4 == 0 && (y + 4 <= 2100 || 2104 <= y < 2200)
    ensures DaysToYear(y + 4) == DaysToYear(y) + 1461
  {
    assert IsLeap(y) && !IsLeap(y + 1) && !IsLeap(y + 2) && !IsLeap(y + 3);
    assert DaysToYear(y + 4) == DaysToYear(y + 3) + 365 == DaysToYear(y + 2) + 730 == DaysToYear(y + 1) + 1095;
  }

  /** A day before the end of the calendar lies in a year before 2108. */
  lemma YearBefore(year: nat, y: nat)
    requires y == 1980 && year >= y && DaysToYear(year) < 46751
    ensures year < 2108
  {
    CalendarDays(y);
    if year > y + 128 {
      DaysToYearMonotone(y + 128, year);
    }
  }

  lemma TimeOfDay(s: nat)
    ensures s == DAY * (s / DAY) + 3600 * (s / 3600 % 24) + 60 * (s / 60 % 60) + s % 60
  {
    assert s / 3600 == s / 60 / 60 && s / DAY == s / 3600 / 24;
  }

  /** The fields that `fat32_unix_to_fat_time` computes are in range, apart from the year, and name
      the given time up to 10 ms. */
  lemma CivilOfIs(sec: int, nsec: nat)
    requires EPOCH <= sec && nsec < 1000000000
    ensures var c := CivilOf(sec, nsec);
      && 1980 <= c.year && 1 <= c.month <= 12 && 1 <= c.day <= DaysInMonth(c.year, c.month)
      && c.hour < 24 && c.minute < 60 && c.second < 60 && c.second % 2 == 0 && c.centis < 200
      && SecondsOf(c) == sec && c.centis % 100 == nsec / TEN_MS
      && DaysToYear(c.year) <= (sec - EPOCH) / DAY
  {
    hide DaysToYear, DaysToMonth, FindYear, FindMonth, DaysInMonth, DaysInYear;
    var s := sec - EPOCH;
    var day := s / DAY;
    FindYearIs(1980, day);
    FirstYear(1980);
    var (year, yday) := FindYear(1980, day);
    YearIsTwelveMonths(year);
    FirstMonth(year, 1);
    FindMonthIs(year, 1, yday);
    var (month, mday) := FindMonth(year, 1, yday);
    assert 1 <= month <= 12 && mday < DaysInMonth(year, month);
    assert CivilOf(sec, nsec).month == month && CivilOf(sec, nsec).day == mday + 1 && CivilOf(sec, nsec).year == year;
    TimeOfDay(s);
    CentisAre(s, nsec);
  }

  lemma FirstYear(y: nat)
    requires y == 1980
    ensures DaysToYear(y) == 0
  {
  }

  lemma FirstMonth(year: nat, m: nat)
    requires m == 1
    ensures DaysToMonth(year, m) == 0
  {
  }

  lemma CentisAre(s: nat, nsec: nat)
    requires nsec < 1000000000
    ensures var centis := nsec / TEN_MS + s % 60 % 2 * 100;
      centis < 200 && centis % 100 == nsec / TEN_MS && s % 60 == s % 60 / 2 * 2 + centis / 100
  {
    assert nsec / TEN_MS < 100;
  }

  /** Packing keeps all fields except that it takes the year modulo 128. */
  lemma PackWraps(c: Civil)
    requires c.year >= 1980 && 1 <= c.month <= 12 && 1 <= c.day <= 31
    requires c.hour < 24 && c.minute < 60 && c.second < 60 && c.second % 2 == 0 && c.centis < 200
    ensures Unpack(Pack(c)) == c.(year := 1980 + (c.year - 1980) % 128)
  {
    DateBits(c.year - 1980, c.month, c.day);
    TimeBits(c.hour, c.minute, c.second / 2);
  }

  lemma DateBits(y: nat, m: nat, d: nat)
    requires m < 16 && d < 32
    ensures var x := (y * 512 + m * 32 + d) % 0x1_0000;
      x / 512 % 128 == y % 128 && x / 32 % 16 == m && x % 32 == d
  {
    var r := y % 128;
    var low := (r * 16 + m) * 32 + d;
    assert y == y / 128 * 128 + r;
    assert y * 512 + m * 32 + d == y / 128 * 0x1_0000 + low && low < 0x1_0000;
    CutWhole(y / 128, low);
    LowDigit(r * 16 + m, d);
    Quotient512(low);
    assert (r * 16 + m) / 16 == r && (r * 16 + m) % 16 == m;
  }

  lemma CutWhole(q: nat, low: nat)
    requires low < 0x1_0000
    ensures (q * 0x1_0000 + low) % 0x1_0000 == low
  {
  }

  lemma LowDigit(hi: nat, lo: nat)
    requires lo < 32
    ensures (hi * 32 + lo) / 32 == hi && (hi * 32 + lo) % 32 == lo
  {
  }

  lemma Quotient512(x: nat)
    ensures x / 512 == x / 32 / 16
  {
  }

  lemma Quotient2048(x: nat)
    ensures x / 2048 == x / 32 / 64
  {
  }

  lemma TimeBits(h: nat, m: nat, s: nat)
    requires h < 32 && m < 64 && s < 32
    ensures var x := (h * 2048 + m * 32 + s) % 0x1_0000;
      x == h * 2048 + m * 32 + s && x / 2048 % 32 == h && x / 32 % 64 == m && x % 32 == s
  {
    var x := (h * 64 + m) * 32 + s;
    assert x == h * 2048 + m * 32 + s < 0x1_0000;
    LowDigit(h * 64 + m, s);
    Quotient2048(x);
    assert (h * 64 + m) / 64 == h && (h * 64 + m) % 64 == m;
  }

  /** Fields in range name a second before the end of the calendar. */
  lemma FieldsBeforeEnd(c: Civil, y: nat)
    requires y == 1980 && y <= c.year < y + 128 && 1 <= c.month <= 12 && 1 <= c.day <= 31
    requires c.hour < 24 && c.minute < 60 && c.second < 60 && c.second % 2 == 0 && c.centis < 200
    ensures SecondsOf(c) < CALENDAR_END
  {
    hide DaysToYear, DaysToMonth, DaysInYear;
    CalendarDays(y);
    YearIsTwelveMonths(c.year);
    December(c.year, 12);
    if c.month < 12 {
      DaysToMonthMonotone(c.year, c.month, 12);
    }
    DaysToYearMonotone(c.year, y + 128);
  }

  lemma December(year: nat, m: nat)
    requires m == 12
    ensures DaysToMonth(year, m) + 31 == DaysToMonth(year, m + 1)
  {
  }

  /** Unix to FAT to Unix: the seconds come back exactly for the times from 1980 to 2107, and then
      the rest is cut to 10 ms. */
  lemma UnixRoundTrip(sec: int, nsec: nat)
    requires nsec < 1000000000
    ensures FatToUnix(UnixToFat(sec, nsec)).0 == sec <==> EPOCH <= sec < CALENDAR_END
    ensures EPOCH <= sec < CALENDAR_END ==> FatToUnix(UnixToFat(sec, nsec)) == (sec, nsec / TEN_MS * TEN_MS)
  {
    hide DaysToYear, DaysToMonth, CivilOf, Pack, Unpack;
    if sec < EPOCH {
      FirstPacked();
    } else {
      var c := CivilOf(sec, nsec);
      CivilOfIs(sec, nsec);
      PackWraps(c);
      FindYearIs(1980, (sec - EPOCH) / DAY);
      if sec < CALENDAR_END {
        YearBefore(c.year, 1980);
      } else {
        FieldsBeforeEnd(c.(year := 1980 + (c.year - 1980) % 128), 1980);
      }
    }
  }

  lemma FirstPacked()
    ensures FatToUnix(Packed(32 + 1, 0, 0)).0 == EPOCH
  {
    var p := Packed(32 + 1, 0, 0);
    assert Unpack(p) == Civil(1980, 1, 1, 0, 0, 0, 0);
    FirstYear(1980);
    FirstMonth(1980, 1);
  }

  // ---- order ----

  /** Lexicographic order of the fields. */
  predicate Earlier(c: Civil, c': Civil) {
    || c.year < c'.year
    || (c.year == c'.year && (c.month < c'.month
    || (c.month == c'.month && (c.day < c'.day
    || (c.day == c'.day && (c.hour < c'.hour
    || (c.hour == c'.hour && (c.minute < c'.minute
    || (c.minute == c'.minute && (c.second < c'.second
    || (c.second == c'.second && c.centis < c'.centis)))))))))))
  }

  /** 10 ms units from 1970. */
  function Ticks(c: Civil): int
    requires c.day >= 1
  {
    100 * (SecondsOf(c) - c.centis / 100) + c.centis
  }

  /** Within the calendar, earlier fields mean an earlier time. */
  lemma EarlierTicks(c: Civil, c': Civil)
    requires InCalendar(c) && InCalendar(c') && Earlier(c, c')
    ensures Ticks(c) < Ticks(c')
  {
    hide DaysToYear, DaysToMonth, DaysInYear, DaysInMonth;
    DayInYear(c);
    DayInYear(c');
    if c.year < c'.year {
      DaysToYearMonotone(c.year, c'.year);
    } else if c.month < c'.month {
      DaysToMonthMonotone(c.year, c.month, c'.month);
    }
  }

  /** FAT to Unix to FAT is the identity exactly on the dates and times of the calendar. */
  lemma FatRoundTrip(p: Packed)
    requires Bits(p)
    ensures InCalendar(Unpack(p)) <==> UnixToFat(FatToUnix(p).0, FatToUnix(p).1) == p
  {
    hide DaysToYear, DaysToMonth, CivilOf, Pack, Unpack, DaysInMonth;
    var c := Unpack(p);
    var (sec, nsec) := FatToUnix(p);
    NotBeforeEpoch(p);
    var c' := CivilOf(sec, nsec);
    CivilOfIs(sec, nsec);
    FindYearIs(1980, (sec - EPOCH) / DAY);
    if InCalendar(c) {
      FieldsBeforeEnd(c, 1980);
      YearBefore(c'.year, 1980);
      SameTicks(c, c', nsec);
      if c != c' {
        if Earlier(c, c') {
          EarlierTicks(c, c');
        } else {
          EarlierTicks(c', c);
        }
      }
      UnpackPack(p);
    } else if UnixToFat(sec, nsec) == p {
      PackWraps(c');
      UnixRoundTrip(sec, nsec);
      YearBefore(c'.year, 1980);
    }
  }

  lemma NotBeforeEpoch(p: Packed)
    ensures FatToUnix(p).0 >= EPOCH && FatToUnix(p).1 < 1000000000
  {
  }

  lemma SameTicks(c: Civil, c': Civil, nsec: nat)
    requires c.day >= 1 && c'.day >= 1 && SecondsOf(c) == SecondsOf(c') && c.centis < 200 && c'.centis < 200
    requires nsec == c.centis % 100 * TEN_MS && c'.centis % 100 == nsec / TEN_MS
    ensures Ticks(c) == Ticks(c')
  {
  }

  /** The packed form compared as three numbers, the date first. */
  predicate PackedEarlier(p: Packed, q: Packed) {
    p.date < q.date || (p.date == q.date && (p.time < q.time || (p.time == q.time && p.tenths < q.tenths)))
  }

  lemma DateOrder(y: nat, m: nat, d: nat, y': nat, m': nat, d': nat)
    requires m < 16 && d < 32 && m' < 16 && d' < 32
    ensures y * 512 + m * 32 + d < y' * 512 + m' * 32 + d' <==> y < y' || (y == y' && (m < m' || (m == m' && d < d')))
    ensures y * 512 + m * 32 + d == y' * 512 + m' * 32 + d' <==> y == y' && m == m' && d == d'
  {
  }

  lemma TimeOrder(h: nat, m: nat, s: nat, h': nat, m': nat, s': nat)
    requires m < 64 && s < 32 && m' < 64 && s' < 32
    ensures h * 2048 + m * 32 + s < h' * 2048 + m' * 32 + s' <==> h < h' || (h == h' && (m < m' || (m == m' && s < s')))
    ensures h * 2048 + m * 32 + s == h' * 2048 + m' * 32 + s' <==> h == h' && m == m' && s == s'
  {
  }

  /** In the calendar nothing is cut when packing. */
  lemma PackFields(c: Civil)
    requires InCalendar(c)
    ensures Pack(c) == Packed((c.year - 1980) * 512 + c.month * 32 + c.day,
                              c.hour * 2048 + c.minute * 32 + c.second / 2, c.centis)
  {
    hide DaysInMonth;
  }

  lemma EvenOrder(s: nat, s': nat)
    requires s % 2 == 0 && s' % 2 == 0
    ensures s / 2 < s' / 2 <==> s < s'
    ensures s / 2 == s' / 2 <==> s == s'
  {
  }

  /** Packing respects the order of the fields. */
  lemma PackOrder(c: Civil, c': Civil)
    requires InCalendar(c) && InCalendar(c')
    ensures PackedEarlier(Pack(c), Pack(c')) <==> Earlier(c, c')
  {
    hide Pack, DaysInMonth;
    PackFields(c);
    PackFields(c');
    EvenOrder(c.second, c'.second);
    var s, s' := c.second / 2, c'.second / 2;
    DateOrder(c.year - 1980, c.month, c.day, c'.year - 1980, c'.month, c'.day);
    TimeOrder(c.hour, c.minute, s, c'.hour, c'.minute, s');
  }

  predicate NotLater(sec: int, nsec: nat, sec': int, nsec': nat) {
    nsec < 1000000000 && nsec' < 1000000000 && (sec < sec' || (sec == sec' && nsec <= nsec'))
  }

  /** Up to the end of the calendar a later Unix time never gets an earlier packed time; the times
      before 1980 all get the first one. */
  lemma PackedMonotone(sec: int, nsec: nat, sec': int, nsec': nat)
    requires NotLater(sec, nsec, sec', nsec') && sec' < CALENDAR_END
    ensures !PackedEarlier(UnixToFat(sec', nsec'), UnixToFat(sec, nsec))
  {
    hide UnixToFat, PackedEarlier;
    FirstIsPacked();
    if sec' < EPOCH {
      BeforeFirst(sec, nsec);
      BeforeFirst(sec', nsec');
      NotEarlier(Packed(32 + 1, 0, 0));
    } else if sec < EPOCH {
      BeforeFirst(sec, nsec);
      PackedInOrder(EPOCH, 0, sec', nsec');
    } else {
      PackedInOrder(sec, nsec, sec', nsec');
    }
  }

  lemma BeforeFirst(sec: int, nsec: nat)
    requires sec < EPOCH
    ensures UnixToFat(sec, nsec) == Packed(32 + 1, 0, 0)
  {
  }

  lemma NotEarlier(p: Packed)
    ensures !PackedEarlier(p, p)
  {
  }

  lemma FirstIsPacked()
    ensures UnixToFat(EPOCH, 0) == Packed(32 + 1, 0, 0)
  {
    hide UnixToFat, FatToUnix, Unpack;
    var p := Packed(32 + 1, 0, 0);
    FirstPacked();
    FirstFields(p);
    FatRoundTrip(p);
  }

  lemma FirstFields(p: Packed)
    requires p == Packed(32 + 1, 0, 0)
    ensures Bits(p) && InCalendar(Unpack(p)) && FatToUnix(p).1 == 0
  {
    hide SecondsOf;
  }

  lemma PackedInOrder(sec: int, nsec: nat, sec': int, nsec': nat)
    requires EPOCH <= sec && NotLater(sec, nsec, sec', nsec') && sec' < CALENDAR_END
    ensures !PackedEarlier(UnixToFat(sec', nsec'), UnixToFat(sec, nsec))
  {
    hide DaysToYear, DaysToMonth, CivilOf, Pack, DaysInMonth, Earlier, PackedEarlier, SecondsOf;
    var c, c' := CivilOf(sec, nsec), CivilOf(sec', nsec');
    CivilOfIs(sec, nsec);
    CivilOfIs(sec', nsec');
    YearBefore(c.year, 1980);
    YearBefore(c'.year, 1980);
    FindYearIs(1980, (sec - EPOCH) / DAY);
    FindYearIs(1980, (sec' - EPOCH) / DAY);
    PackOrder(c', c);
    if Earlier(c', c) {
      EarlierTicks(c', c);
      TicksOrder(sec, nsec, sec', nsec');
    }
  }

  /** The packed times of all Unix times below `bound` are in order. */
  ghost predicate InOrderBelow(bound: int) {
    forall sec, nsec, sec', nsec' :: NotLater(sec, nsec, sec', nsec') && sec' < bound ==>
      !PackedEarlier(UnixToFat(sec', nsec'), UnixToFat(sec, nsec))
  }

  /** The order holds exactly as far as the calendar goes: with the year 2108 the packed dates start
      again. */
  lemma MonotoneExact(bound: int)
    ensures InOrderBelow(bound) <==> bound <= CALENDAR_END
  {
    hide UnixToFat, PackedEarlier;
    if bound <= CALENDAR_END {
      forall sec, nsec, sec', nsec' | NotLater(sec, nsec, sec', nsec') && sec' < bound
        ensures !PackedEarlier(UnixToFat(sec', nsec'), UnixToFat(sec, nsec))
      {
        PackedMonotone(sec, nsec, sec', nsec');
      }
    } else {
      StartsAgain();
      assert NotLater(CALENDAR_END - 1, 0, CALENDAR_END, 0);
    }
  }

  /** The first second of 2108 is packed like one of 1980. */
  lemma StartsAgain()
    ensures PackedEarlier(UnixToFat(CALENDAR_END, 0), UnixToFat(CALENDAR_END - 1, 0))
  {
    hide DaysToYear, DaysToMonth, CivilOf, Pack, DaysInMonth, SecondsOf, FindYear, PackedEarlier;
    var c, c' := CivilOf(CALENDAR_END - 1, 0), CivilOf(CALENDAR_END, 0);
    CivilOfIs(CALENDAR_END - 1, 0);
    CivilOfIs(CALENDAR_END, 0);
    YearIs(CALENDAR_END - 1);
    YearIs(CALENDAR_END);
    EndYears(1980);
    FindYearIs(1980, 46750);
    FindYearIs(1980, 46751);
    WrapsTo1980(c');
    PackOrder(c'.(year := 1980), c);
  }

  lemma YearIs(sec: int)
    requires sec >= EPOCH
    ensures CivilOf(sec, 0).year == FindYear(1980, (sec - EPOCH) / DAY).0
  {
    hide FindYear, FindMonth;
  }

  /** The years of the last day of the calendar and of the day after it. */
  lemma EndYears(y: nat)
    requires y == 1980
    ensures y < FindYear(y, 46750).0 < y + 128 == FindYear(y, 46751).0
  {
    hide DaysToYear, FindYear, DaysInYear;
    CalendarDays(y);
    FirstYear(y);
    FindYearIs(y, 46750);
    FindYearIs(y, 46751);
    var (f, d) := FindYear(y, 46750);
    var (e, d') := FindYear(y, 46751);
    YearBefore(f, y);
    if e < y + 128 {
      DaysToYearMonotone(e, y + 128);
    } else if e > y + 128 {
      DaysToYearMonotone(y + 128, e);
    }
  }

  lemma WrapsTo1980(c: Civil)
    requires c.year == 2108 && 1 <= c.month <= 12 && 1 <= c.day <= DaysInMonth(c.year, c.month)
    requires c.hour < 24 && c.minute < 60 && c.second < 60 && c.second % 2 == 0 && c.centis < 200
    ensures InCalendar(c.(year := 1980)) && Pack(c.(year := 1980)) == Pack(c)
  {
    assert IsLeap(2108) && IsLeap(1980);
  }

  lemma TicksOrder(sec: int, nsec: nat, sec': int, nsec': nat)
    requires nsec < 1000000000 && nsec' < 1000000000
    requires sec < sec' || (sec == sec' && nsec <= nsec')
    ensures 100 * sec + nsec / TEN_MS <= 100 * sec' + nsec' / TEN_MS
  {
    assert nsec / TEN_MS < 100;
  }

  // ---- the Gregorian calendar ----

  /** The number of days from 1970-01-01 to a date, by the closed formula: years begin in March, so
      that the leap day is their last day. */
  function DayNumber(year: nat, month: nat, day: nat): int
    requires year > 0
  {
    var y := if month <= 2 then year - 1 else year;
    var m := if month <= 2 then month + 9 else month - 3;
    365 * y + y / 4 - y / 100 + y / 400 + (153 * m + 2) / 5 + day - 1 - 719468
  }

  lemma QuotientSteps(y: nat, d: nat)
    requires y > 0 && d > 0
    ensures y / d == (y - 1) / d + if y % d == 0 then 1 else 0
  {
    var q, r := y / d, y % d;
    assert y == q * d + r;
    if r == 0 {
      assert y - 1 == (q - 1) * d + (d - 1);
      QuotientIs(y - 1, d, q - 1, d - 1);
    } else {
      assert y - 1 == q * d + (r - 1);
      QuotientIs(y - 1, d, q, r - 1);
    }
  }

  lemma QuotientIs(x: nat, d: nat, q: int, r: nat)
    requires d > 0 && x == q * d + r && r < d
    ensures x / d == q
  {
    if x / d < q {
      MulLess(x / d + 1, q, d);
    } else if q < x / d {
      MulLess(q + 1, x / d, d);
    }
  }

  lemma MulLess(a: int, b: int, d: nat)
    requires a <= b
    ensures a * d <= b * d
  {
  }

  lemma YearDivides(y: nat)
    ensures y % 400 == 0 ==> y % 100 == 0
    ensures y % 100 == 0 ==> y % 4 == 0
  {
    if y % 400 == 0 {
      assert y == 100 * (4 * (y / 400));
    }
    if y % 100 == 0 {
      assert y == 4 * (25 * (y / 100));
    }
  }

  /** From one New Year to the next. */
  lemma YearSteps(y: nat)
    requires y > 0
    ensures DayNumber(y + 1, 1, 1) == DayNumber(y, 1, 1) + DaysInYear(y)
  {
    QuotientSteps(y, 4);
    QuotientSteps(y, 100);
    QuotientSteps(y, 400);
    YearDivides(y);
  }

  lemma {:induction false} YearsAre(y: nat)
    requires y >= 1980
    ensures DayNumber(y, 1, 1) == 3652 + DaysToYear(y)
    decreases y
  {
    if y > 1980 {
      YearsAre(y - 1);
      YearSteps(y - 1);
    }
  }

  /** From the first day of one month to that of the next. */
  lemma MonthSteps(y: nat, m: nat)
    requires y > 0 && 1 <= m <= 12
    ensures DaysInMonth(y, m) == (if m == 12 then DayNumber(y + 1, 1, 1) else DayNumber(y, m + 1, 1)) - DayNumber(y, m, 1)
  {
    if m <= 2 {
      YearSteps(y);
    }
  }

  lemma {:induction false} MonthsAre(y: nat, m: nat)
    requires y > 0 && 1 <= m <= 12
    ensures DayNumber(y, m, 1) == DayNumber(y, 1, 1) + DaysToMonth(y, m)
    decreases m
  {
    if m > 1 {
      MonthsAre(y, m - 1);
      MonthSteps(y, m - 1);
    }
  }

  /** The seconds of a point in time, from the number of its day. */
  function GregorianSeconds(c: Civil): int
    requires c.year > 0
  {
    86400 * DayNumber(c.year, c.month, c.day) + 3600 * c.hour + 60 * c.minute + c.second + c.centis / 100
  }

  /** The sums over years and months, and the offset between the two epochs, name the right day. */
  lemma SecondsAreGregorian(c: Civil)
    requires c.year >= 1980 && 1 <= c.month <= 12 && c.day >= 1
    ensures SecondsOf(c) == GregorianSeconds(c)
  {
    hide DaysToYear, DaysToMonth;
    YearsAre(c.year);
    MonthsAre(c.year, c.month);
    assert DayNumber(c.year, c.month, c.day) == DayNumber(c.year, c.month, 1) + (c.day - 1);
  }

  /** The calendar goes from New Year 1980 to New Year 2108. */
  lemma CalendarSpan()
    ensures EPOCH == 86400 * DayNumber(1980, 1, 1) && CALENDAR_END == 86400 * DayNumber(2108, 1, 1)
  {
    hide DaysToYear;
    SpanFrom(1980);
  }

  lemma SpanFrom(y: nat)
    requires y == 1980
    ensures DayNumber(y, 1, 1) == 3652 && DayNumber(y + 128, 1, 1) == 3652 + 46751
  {
    hide DaysToYear;
    CalendarDays(y);
    YearsAre(y + 128);
  }

  /** What `fat32_unix_to_fat_time` packs is the date and time of day of the given second, with the 10 ms
      units behind the even second; times before 1980 give New Year 1980. */
  lemma UnixToFatIsDate(sec: int, nsec: nat)
    requires nsec < 1000000000 && sec < 86400 * DayNumber(2108, 1, 1)
    ensures var c := Unpack(UnixToFat(sec, nsec));
      && InCalendar(c)
      && (sec >= 86400 * DayNumber(1980, 1, 1) ==> GregorianSeconds(c) == sec && c.centis % 100 == nsec / 10000000)
      && (sec < 86400 * DayNumber(1980, 1, 1) ==> c == Civil(1980, 1, 1, 0, 0, 0, 0))
  {
    hide DaysToYear, DaysToMonth, CivilOf, Pack, Unpack, DayNumber, SecondsOf, GregorianSeconds, DaysInMonth;
    CalendarSpan();
    if sec < EPOCH {
      FirstCivil();
    } else {
      var c := CivilOf(sec, nsec);
      CivilOfIs(sec, nsec);
      YearBefore(c.year, 1980);
      MonthsShort(c.year, c.month);
      PackWraps(c);
      FindYearIs(1980, (sec - EPOCH) / DAY);
      SecondsAreGregorian(c);
    }
  }

  lemma MonthsShort(y: nat, m: nat)
    ensures DaysInMonth(y, m) <= 31
  {
  }

  lemma FirstCivil()
    ensures Unpack(Packed(32 + 1, 0, 0)) == Civil(1980, 1, 1, 0, 0, 0, 0) && InCalendar(Civil(1980, 1, 1, 0, 0, 0, 0))
  {
  }

  /** What `fat32_fat_to_unix_time` computes for a date and time in the calendar is its second and the rest
      in nanoseconds. */
  lemma FatToUnixIsDate(p: Packed)
    requires InCalendar(Unpack(p))
    ensures FatToUnix(p) == (GregorianSeconds(Unpack(p)), Unpack(p).centis % 100 * 10000000)
  {
    hide DaysToYear, DaysToMonth, Unpack, DayNumber, GregorianSeconds, SecondsOf;
    var c := Unpack(p);
    SecondsAreGregorian(c);
    assert Corrected(c) == c;
  }

  // ---- what is left of a time ----

  /** A time that went through the date alone is cut to its day, through date and time to the even second,
      and through all three to 10 ms. */
  lemma WhatIsLeft(sec: int, nsec: nat)
    requires nsec < 1000000000 && EPOCH <= sec < CALENDAR_END
    ensures var p := UnixToFat(sec, nsec);
      && FatToUnix(Packed(p.date, 0, 0)) == (sec - sec % 86400, 0)
      && FatToUnix(Packed(p.date, p.time, 0)) == (sec - sec % 2, 0)
      && FatToUnix(p) == (sec, nsec - nsec % 10000000)
  {
    hide DaysToYear, DaysToMonth, CivilOf, Pack, Unpack, DaysInMonth;
    var p, c := UnixToFat(sec, nsec), CivilOf(sec, nsec);
    CivilOfIs(sec, nsec);
    FindYearIs(1980, (sec - EPOCH) / DAY);
    YearBefore(c.year, 1980);
    MonthsShort(c.year, c.month);
    PackWraps(c);
    assert Unpack(p) == c;
    PartsOf(p);
    CivilParts(sec, nsec);
    UnixRoundTrip(sec, nsec);
    assert nsec == nsec / TEN_MS * TEN_MS + nsec % TEN_MS;
  }

  lemma PartsOf(p: Packed)
    ensures Unpack(Packed(p.date, p.time, 0)) == Unpack(p).(centis := 0)
    ensures Unpack(Packed(p.date, 0, 0)) == Unpack(p).(hour := 0, minute := 0, second := 0, centis := 0)
  {
  }

  lemma CivilParts(sec: int, nsec: nat)
    requires nsec < 1000000000 && EPOCH <= sec
    ensures var c := CivilOf(sec, nsec);
      && c.day >= 1
      && SecondsOf(c.(centis := 0)) == sec - sec % 2
      && SecondsOf(c.(hour := 0, minute := 0, second := 0, centis := 0)) == sec - sec % 86400
  {
    hide DaysToYear, DaysToMonth, FindYear, FindMonth;
    CivilOfIs(sec, nsec);
    var c, s := CivilOf(sec, nsec), sec - EPOCH;
    TimeOfDay(s);
    FieldsOf(sec, nsec);
    CutTwice(s, sec);
  }

  lemma FieldsOf(sec: int, nsec: nat)
    requires EPOCH <= sec && nsec < 1000000000
    ensures var c, s := CivilOf(sec, nsec), sec - EPOCH;
      c.hour == s / 3600 % 24 && c.minute == s / 60 % 60 && c.second == s % 60 / 2 * 2 && c.centis / 100 == s % 60 % 2
  {
    hide FindYear, FindMonth;
    assert nsec / TEN_MS < 100;
  }

  lemma CutTwice(s: nat, sec: int)
    requires sec == s + EPOCH
    ensures sec % 2 == s % 60 % 2 && sec % 86400 == s - DAY * (s / DAY)
  {
    assert s == 60 * (s / 60) + s % 60;
    assert EPOCH == DAY * 3652;
    assert sec == DAY * (s / DAY + 3652) + s % DAY;
    assert s % 2 == s % 60 % 2;
  }
}
