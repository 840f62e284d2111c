/**
 The CA server's timestamps: `fmt_iso` writes a second count as text, `iso_to_epoch` reads
 it back. Arithmetic is on `u64`, so every result that would leave that range is `None`
 (a panic in a checked build).
 */
module IsoTime {
  import opened Wrappers
  import opened Text
  import opened CivilTime

  const U64_LIMIT: nat := 0x1_0000_0000_0000_0000

  predicate InU64(x: int) {
    0 <= x < U64_LIMIT
  }

  datatype Parts = Parts(date: Date, hour: nat, minute: nat, second: nat)

  /** `epoch_to_parts` */
  function EpochToParts(secs: nat): Parts {
    var sec := secs % 60;
    var mins := secs / 60;
    var mi := mins % 60;
    var hours := mins / 60;
    var h := hours % 24;
    Parts(CivilFromDays(hours / 24), h, mi, sec)
  }

  lemma DivideTwice(n: nat, a: nat, b: nat)
    requires a > 0 && b > 0
    ensures n == (n / a / b) * (a * b) + (n / a % b) * a + n % a
  {
    var q := n / a;
    assert n == q * a + n % a;
    assert q == (q / b) * b + q % b;
    assert ((q / b) * b + q % b) * a == (q / b) * (a * b) + (q % b) * a;
  }

  /** Every second count is its walked date plus a valid time of day. */
  lemma PartsAreValid(secs: nat)
    ensures var p := EpochToParts(secs);
            && p.hour < 24 && p.minute < 60 && p.second < 60
            && ValidDate(p.date)
            && p.date == Walk(secs / 60 / 60 / 24)
            && secs == secs / 60 / 60 / 24 * 86_400 + p.hour * 3_600 + p.minute * 60 + p.second
  {
    CivilIsWalk(secs / 60 / 60 / 24);
    WalkIsValid(secs / 60 / 60 / 24);
    DivideTwice(secs, 60, 60);
    DivideTwice(secs / 60, 60, 24);
  }

  // ---- days since the epoch ------------------------------------------------

  /** `days_since_epoch`; `None` where a `u64` operation would overflow or underflow. */
  function DaysSinceEpoch(y: nat, mo: nat, d: nat): Option<nat> {
    if mo <= 2 && y == 0 then None
    else
      var y' := if mo <= 2 then y - 1 else y;
      var mo' := if mo <= 2 then mo + 9 else mo - 3;
      var era := y' / 400;
      var yoe := y' - era * 400;
      var shifted := (153 * mo' + 2) / 5 + d;
      var total := era * 146_097 + (yoe * 365 + yoe / 4 - yoe / 100 + shifted - 1);
      if shifted == 0 || !InU64(153 * mo' + 2) || !InU64(total) || total < 719_468 then None
      else Some(total - 719_468)
  }

  lemma MonthStarts(doy: nat)
    requires doy <= 365
    ensures var (mo, d) := MonthDay(doy);
            && 1 <= mo <= 12 && 1 <= d <= 31
            && (153 * (if mo <= 2 then mo + 9 else mo - 3) + 2) / 5 + d - 1 == doy
  {
    var mp := (5 * doy + 2) / 153;
    assert 0 <= mp <= 11;
    if mp == 0 {
    } else if mp == 1 {
    } else if mp == 2 {
    } else if mp == 3 {
    } else if mp == 4 {
    } else if mp == 5 {
    } else if mp == 6 {
    } else if mp == 7 {
    } else if mp == 8 {
    } else if mp == 9 {
    } else if mp == 10 {
    } else {
    }
  }

  lemma SplitYear(era: nat, yoe: nat)
    requires yoe <= 399
    ensures (yoe + era * 400) / 400 == era
  {
  }

  /** Reading a computed date back gives the day it was computed from. */
  lemma DaysInvertCivil(days: nat)
    requires days + 719_468 < U64_LIMIT
    ensures var date := CivilFromDays(days);
            DaysSinceEpoch(date.year, date.month, date.day) == Some(days)
  {
    var era, yoe, doy := Decode(days);
    DecodesIsUnique(days, era, yoe, doy);
    MonthStarts(doy);
    SplitYear(era, yoe);
  }

  /** A month and day written out is the month and day of its own position in the year. */
  lemma MonthDayOf(mo: nat, d: nat)
    requires 1 <= mo <= 12 && 1 <= d <= (if mo == 2 then 29 else DaysInMonth(0, mo))
    ensures var doy := (153 * (if mo <= 2 then mo + 9 else mo - 3) + 2) / 5 + d - 1;
            0 <= doy <= 365 && MonthDay(doy) == (mo, d)
            && (mo == 2 ==> doy == 336 + d) && (mo != 2 ==> doy < 337)
  {
  }

  /** The other direction: every valid date the formula accepts is the date of the day it returns. */
  lemma CivilInvertsDays(date: Date)
    requires ValidDate(date)
    requires DaysSinceEpoch(date.year, date.month, date.day).Some?
    ensures CivilFromDays(DaysSinceEpoch(date.year, date.month, date.day).value) == date
  {
    var days := DaysSinceEpoch(date.year, date.month, date.day).value;
    ComposeMarch(date);
    DecodesMarch(date, days);
    DecodesIsUnique(days, MarchYear(date) / 400, MarchYear(date) % 400, DayOfMarchYear(date));
  }

  lemma ComposeMarch(date: Date)
    requires ValidDate(date) && MarchYear(date) >= 0
    ensures 0 <= DayOfMarchYear(date) <= 365
    ensures Compose(MarchYear(date) / 400, MarchYear(date) % 400, DayOfMarchYear(date)) == date
  {
    MonthDayOf(date.month, date.day);
  }

  lemma DecodesMarch(date: Date, days: nat)
    requires ValidDate(date) && MarchYear(date) >= 0 && 0 <= DayOfMarchYear(date) <= 365
    requires DaysSinceEpoch(date.year, date.month, date.day) == Some(days)
    ensures Decodes(days, MarchYear(date) / 400, MarchYear(date) % 400, DayOfMarchYear(date))
  {
    MonthDayOf(date.month, date.day);
    CountIsTotal(date);
    DayFits(MarchYear(date) / 400, MarchYear(date) % 400, date, DayOfMarchYear(date));
  }

  lemma DayFits(era: nat, yoe: nat, date: Date, doy: nat)
    requires ValidDate(date) && yoe <= 399 && doy <= 365
    requires yoe + era * 400 == if date.month <= 2 then date.year - 1 else date.year
    requires date.month == 2 ==> doy == 336 + date.day
    requires date.month != 2 ==> doy < 337
    ensures if yoe < 399 then YearStart(yoe) + doy < YearStart(yoe + 1) else YearStart(yoe) + doy < 146_097
  {
    if yoe < 399 {
      YearLength(era, yoe);
    }
  }

  /** The year that starts in March, and the day in it. */
  function MarchYear(date: Date): int {
    if date.month <= 2 then date.year - 1 else date.year
  }

  function DayOfMarchYear(date: Date): int
    requires ValidDate(date)
  {
    (153 * (if date.month <= 2 then date.month + 9 else date.month - 3) + 2) / 5 + date.day - 1
  }

  /** Days from the first of March of year 0. */
  function DayCount(date: Date): int
    requires ValidDate(date) && MarchYear(date) >= 0
  {
    MarchYear(date) / 400 * 146_097 + YearStart(MarchYear(date) % 400) + DayOfMarchYear(date)
  }

  /** Valid dates are accepted exactly from 1970-01-01 on, as long as the day count fits a `u64`. */
  lemma AcceptedDates(date: Date)
    requires ValidDate(date)
    ensures DaysSinceEpoch(date.year, date.month, date.day).Some?
            <==> date.year >= 1970 && 0 <= DayCount(date) < 0x1_0000_0000_0000_0000
  {
    MonthDayOf(date.month, date.day);
    if MarchYear(date) >= 0 {
      var y := MarchYear(date);
      DayTotal(y, y / 400, y % 400, DayOfMarchYear(date));
      CountIsTotal(date);
    }
  }

  lemma CountIsTotal(date: Date)
    requires ValidDate(date) && MarchYear(date) >= 0 && 0 <= DayOfMarchYear(date) <= 365
    ensures DaysSinceEpoch(date.year, date.month, date.day) ==
            if !InU64(DayCount(date)) || DayCount(date) < 719_468 then None else Some(DayCount(date) - 719_468)
  {
    var y := MarchYear(date);
    assert y % 400 == y - y / 400 * 400;
  }

  lemma DayTotal(y: nat, era: nat, yoe: nat, doy: nat)
    requires y == era * 400 + yoe && yoe <= 399 && doy <= 365
    ensures y > 1969 ==> era * 146_097 + YearStart(yoe) + doy >= 719_468
    ensures y < 1969 ==> era * 146_097 + YearStart(yoe) + doy < 719_468
    ensures y == 1969 ==> era * 146_097 + YearStart(yoe) + doy == 719_162 + doy
  {
    if era < 4 {
    } else if era == 4 {
      if yoe < 369 {
        YearStartGrows(yoe, 369);
      } else if yoe > 369 {
        YearStartGrows(369, yoe);
      }
    } else {
    }
  }

  // ---- text ----------------------------------------------------------------

  /** `{:0width}` */
  function Padded(n: nat, width: nat): (s: string)
    ensures s != [] && AllDigits(s) && DigitsValue(s) == n
  {
    PadTo(Decimal(n), width)
  }

  function PadTo(digits: string, width: nat): (s: string)
    requires digits != [] && AllDigits(digits)
    ensures s != [] && AllDigits(s) && DigitsValue(s) == DigitsValue(digits)
    decreases width - |digits|
  {
    if |digits| >= width then digits
    else
      LeadingZero(digits);
      PadTo("0" + digits, width)
  }

  lemma {:induction false} LeadingZero(digits: string)
    requires AllDigits(digits)
    ensures AllDigits("0" + digits) && DigitsValue("0" + digits) == DigitsValue(digits)
  {
    var s := "0" + digits;
    if digits == [] {
      assert s[..0] == [];
    } else {
      LeadingZero(digits[..|digits| - 1]);
      assert s[..|s| - 1] == "0" + digits[..|digits| - 1];
    }
  }

  /** One padded number, its separator and what follows. */
  function Field(n: nat, width: nat, separator: char, rest: string): string {
    Padded(n, width) + [separator] + rest
  }

  /** `fmt_iso`: year, month, day, hour, minute and second with the format's separators. */
  function FmtIso(secs: nat): string {
    var p := EpochToParts(secs);
    StampDate(p.date, StampTime(p.hour, p.minute, Padded(p.second, 2) + "Z"))
  }

  function StampTime(hour: nat, minute: nat, seconds: string): string {
    Field(hour, 2, ':', Field(minute, 2, ':', seconds))
  }

  function StampDate(date: Date, time: string): string {
    Field(date.year, 4, '-', Field(date.month, 2, '-', Field(date.day, 2, 'T', time)))
  }

  /** `str::parse::<u64>`: optional plus sign, at least one digit, no overflow. */
  function ParseU64(s: string): Option<nat> {
    var digits := if s != [] && s[0] == '+' then s[1..] else s;
    if digits != [] && AllDigits(digits) && InU64(DigitsValue(digits)) then Some(DigitsValue(digits)) else None
  }

  predicate IsSeparator(c: char) {
    c == 'T' || c == '-' || c == ':'
  }

  /** `split(['T', '-', ':'])` */
  function Split(s: string): (parts: seq<string>)
    ensures parts != []
  {
    if s == [] then [""]
    else
      var rest := Split(s[1..]);
      if IsSeparator(s[0]) then [""] + rest else [[s[0]] + rest[0]] + rest[1..]
  }

  /** `filter_map(|p| p.parse().ok())` */
  function ParseAll(parts: seq<string>): seq<nat> {
    if parts == [] then []
    else
      var rest := ParseAll(parts[1..]);
      match ParseU64(parts[0])
      case None => rest
      case Some(n) => [n] + rest
  }

  function TrimEndZ(s: string): string {
    if s != [] && s[|s| - 1] == 'Z' then TrimEndZ(s[..|s| - 1]) else s
  }

  /** `iso_to_epoch`; fewer than six readable parts give zero. */
  function IsoToEpoch(s: string): Option<nat> {
    FromParts(ParseAll(Split(TrimEndZ(s))))
  }

  function FromParts(parts: seq<nat>): Option<nat> {
    if |parts| < 6 then Some(0)
    else
      match DaysSinceEpoch(parts[0], parts[1], parts[2])
      case None => None
      case Some(days) =>
        var total := days * 86_400 + parts[3] * 3_600 + parts[4] * 60 + parts[5];
        if InU64(total) then Some(total) else None
  }

  lemma {:induction false} SplitDigits(a: string)
    requires AllDigits(a)
    ensures Split(a) == [a]
  {
    if a != [] {
      SplitDigits(a[1..]);
      assert a == [a[0]] + a[1..];
    }
  }

  lemma {:induction false} SplitField(a: string, c: char, rest: string)
    requires AllDigits(a) && IsSeparator(c)
    ensures Split(a + [c] + rest) == [a] + Split(rest)
  {
    var s := a + [c] + rest;
    if a == [] {
      assert s[1..] == rest;
    } else {
      SplitField(a[1..], c, rest);
      assert a == [a[0]] + a[1..];
      assert s[1..] == a[1..] + [c] + rest;
    }
  }

  lemma ParseDigits(a: string, rest: seq<string>)
    requires a != [] && AllDigits(a) && InU64(DigitsValue(a))
    ensures ParseAll([a] + rest) == [DigitsValue(a)] + ParseAll(rest)
  {
    assert ([a] + rest)[1..] == rest;
    assert a[0] != '+';
  }

  /** A field reads back as its number followed by what the rest reads as. */
  lemma ReadField(n: nat, width: nat, c: char, rest: string)
    requires IsSeparator(c) && InU64(n)
    ensures ParseAll(Split(Field(n, width, c, rest))) == [n] + ParseAll(Split(rest))
  {
    SplitField(Padded(n, width), c, rest);
    ParseDigits(Padded(n, width), Split(rest));
  }

  lemma ReadLast(n: nat, width: nat)
    requires InU64(n)
    ensures ParseAll(Split(Padded(n, width))) == [n]
  {
    SplitDigits(Padded(n, width));
    ParseDigits(Padded(n, width), []);
    assert [Padded(n, width)] + [] == [Padded(n, width)];
  }

  /** Trimming reaches only into the last field. */
  lemma {:induction false} TrimField(n: nat, width: nat, c: char, rest: string)
    requires TrimEndZ(rest) != []
    ensures TrimEndZ(Field(n, width, c, rest)) == Field(n, width, c, TrimEndZ(rest))
    decreases |rest|
  {
    var s := Field(n, width, c, rest);
    assert s[|s| - 1] == rest[|rest| - 1];
    if rest[|rest| - 1] == 'Z' {
      assert s[..|s| - 1] == Field(n, width, c, rest[..|rest| - 1]);
      TrimField(n, width, c, rest[..|rest| - 1]);
    }
  }

  lemma TrimLast(digits: string)
    requires digits != [] && AllDigits(digits)
    ensures TrimEndZ(digits + "Z") == digits
  {
    assert (digits + "Z")[..|digits|] == digits;
  }

  /** Trimmed, split and parsed, the text gives these numbers. */
  ghost predicate Reads(text: string, numbers: seq<nat>) {
    TrimEndZ(text) != [] && ParseAll(Split(TrimEndZ(text))) == numbers
  }

  lemma ReadsSeconds(n: nat)
    requires InU64(n)
    ensures Reads(Padded(n, 2) + "Z", [n])
  {
    TrimLast(Padded(n, 2));
    ReadLast(n, 2);
  }

  lemma ReadsField(n: nat, width: nat, c: char, rest: string, numbers: seq<nat>, all: seq<nat>)
    requires IsSeparator(c) && InU64(n) && Reads(rest, numbers) && all == [n] + numbers
    ensures Reads(Field(n, width, c, rest), all)
  {
    TrimField(n, width, c, rest);
    ReadField(n, width, c, TrimEndZ(rest));
  }

  lemma ReadsTime(hour: nat, minute: nat, seconds: string, second: nat)
    requires InU64(hour) && InU64(minute) && Reads(seconds, [second])
    ensures Reads(StampTime(hour, minute, seconds), [hour, minute, second])
  {
    ReadsField(minute, 2, ':', seconds, [second], [minute, second]);
    ReadsField(hour, 2, ':', Field(minute, 2, ':', seconds), [minute, second], [hour, minute, second]);
  }

  lemma Prepended(first: nat, some: seq<nat>, numbers: seq<nat>)
    ensures [first] + (some + numbers) == ([first] + some) + numbers
    ensures |some| == 1 ==> [first] + some == [first, some[0]]
    ensures |some| == 2 ==> [first] + some == [first, some[0], some[1]]
  {
  }

  lemma ReadsMonth(date: Date, time: string, numbers: seq<nat>)
    requires InU64(date.month) && InU64(date.day) && Reads(time, numbers)
    ensures Reads(Field(date.month, 2, '-', Field(date.day, 2, 'T', time)), [date.month, date.day] + numbers)
  {
    Prepended(date.month, [date.day], numbers);
    ReadsField(date.day, 2, 'T', time, numbers, [date.day] + numbers);
    ReadsField(date.month, 2, '-', Field(date.day, 2, 'T', time), [date.day] + numbers, [date.month, date.day] + numbers);
  }

  lemma ReadsDate(date: Date, time: string, numbers: seq<nat>)
    requires InU64(date.year) && InU64(date.month) && InU64(date.day) && Reads(time, numbers)
    ensures Reads(StampDate(date, time), [date.year, date.month, date.day] + numbers)
  {
    var rest := Field(date.month, 2, '-', Field(date.day, 2, 'T', time));
    Prepended(date.year, [date.month, date.day], numbers);
    ReadsMonth(date, time, numbers);
    ReadsField(date.year, 4, '-', rest, [date.month, date.day] + numbers, [date.year, date.month, date.day] + numbers);
  }

  lemma YearBound(days: nat)
    ensures CivilFromDays(days).year <= days + 720_000
  {
    var era, yoe, doy := Decode(days);
    DecodesIsUnique(days, era, yoe, doy);
  }

  lemma FromCivilParts(secs: nat, days: nat, p: Parts)
    requires InU64(secs) && DaysSinceEpoch(p.date.year, p.date.month, p.date.day) == Some(days)
    requires secs == days * 86_400 + p.hour * 3_600 + p.minute * 60 + p.second
    ensures FromParts([p.date.year, p.date.month, p.date.day] + [p.hour, p.minute, p.second]) == Some(secs)
  {
  }

  lemma ReadsBack(text: string, numbers: seq<nat>)
    requires Reads(text, numbers)
    ensures IsoToEpoch(text) == FromParts(numbers)
  {
  }

  /** Every `u64` second count survives being written and read back. */
  lemma IsoRoundTrip(secs: nat)
    requires secs < 0x1_0000_0000_0000_0000
    ensures IsoToEpoch(FmtIso(secs)) == Some(secs)
  {
    var p := EpochToParts(secs);
    var days := secs / 60 / 60 / 24;
    PartsFit(secs, days);
    DaysInvertCivil(days);
    FromCivilParts(secs, days, p);
    ReadsSeconds(p.second);
    ReadsTime(p.hour, p.minute, Padded(p.second, 2) + "Z", p.second);
    var time := StampTime(p.hour, p.minute, Padded(p.second, 2) + "Z");
    ReadsDate(p.date, time, [p.hour, p.minute, p.second]);
    ReadsBack(FmtIso(secs), [p.date.year, p.date.month, p.date.day] + [p.hour, p.minute, p.second]);
  }

  lemma PartsFit(secs: nat, days: nat)
    requires InU64(secs) && days == secs / 60 / 60 / 24
    ensures days + 719_468 < U64_LIMIT
    ensures var p := EpochToParts(secs);
            && InU64(p.date.year) && InU64(p.date.month) && InU64(p.date.day)
            && InU64(p.hour) && InU64(p.minute) && InU64(p.second)
            && p.date == CivilFromDays(days)
            && secs == days * 86_400 + p.hour * 3_600 + p.minute * 60 + p.second
  {
    PartsAreValid(secs);
    YearBound(days);
  }

  // ---- the shape of a timestamp --------------------------------------------

  lemma TwoDigits(n: nat)
    requires n < 100
    ensures |Padded(n, 2)| == 2
  {
    assert n >= 10 ==> |Decimal(n / 10)| == 1;
    PadsTo(Decimal(n), 2);
  }

  lemma FourDigits(n: nat)
    requires n < 10_000
    ensures |Padded(n, 4)| == 4
  {
    assert n >= 1_000 ==> n / 10 / 10 / 10 < 10;
    assert n >= 10 ==> |Decimal(n)| == |Decimal(n / 10)| + 1;
    assert n >= 100 ==> |Decimal(n / 10)| == |Decimal(n / 10 / 10)| + 1;
    assert n >= 1_000 ==> |Decimal(n / 10 / 10)| == |Decimal(n / 10 / 10 / 10)| + 1;
    PadsTo(Decimal(n), 4);
  }

  lemma {:induction false} PadsTo(digits: string, width: nat)
    requires digits != [] && AllDigits(digits) && |digits| <= width
    ensures |PadTo(digits, width)| == width
    decreases width - |digits|
  {
    if |digits| < width {
      LeadingZero(digits);
      PadsTo("0" + digits, width);
    }
  }

  /** Digits at these places denote the number. */
  predicate Shows(s: string, from: nat, to: nat, n: nat) {
    from <= to <= |s| && AllDigits(s[from..to]) && DigitsValue(s[from..to]) == n
  }

  lemma TimeIsLaidOut(h: string, mi: string, sec: string)
    requires |h| == |mi| == |sec| == 2
    ensures var t := h + [':'] + (mi + [':'] + (sec + "Z"));
            && |t| == 9 && t[0..2] == h && t[2] == ':' && t[3..5] == mi && t[5] == ':' && t[6..8] == sec && t[8] == 'Z'
  {
  }

  lemma DateIsLaidOut(y: string, m: string, d: string, time: string)
    requires |y| == 4 && |m| == |d| == 2
    ensures var s := y + ['-'] + (m + ['-'] + (d + ['T'] + time));
            && |s| == 11 + |time| && s[0..4] == y && s[4] == '-' && s[5..7] == m && s[7] == '-' && s[8..10] == d
            && s[10] == 'T' && s[11..] == time
  {
  }

  /** Up to the year 9999 a timestamp has the shape `yyyy-mm-ddThh:mm:ssZ` of RFC 3339. */
  lemma StampIsLaidOut(secs: nat)
    requires EpochToParts(secs).date.year < 10_000
    ensures var s, p := FmtIso(secs), EpochToParts(secs);
            && |s| == 20
            && Shows(s, 0, 4, p.date.year) && s[4] == '-' && Shows(s, 5, 7, p.date.month) && s[7] == '-'
            && Shows(s, 8, 10, p.date.day) && s[10] == 'T' && Shows(s, 11, 13, p.hour) && s[13] == ':'
            && Shows(s, 14, 16, p.minute) && s[16] == ':' && Shows(s, 17, 19, p.second) && s[19] == 'Z'
  {
    var s, p := FmtIso(secs), EpochToParts(secs);
    PartsAreValid(secs);
    FourDigits(p.date.year);
    TwoDigits(p.date.month);
    TwoDigits(p.date.day);
    TwoDigits(p.hour);
    TwoDigits(p.minute);
    TwoDigits(p.second);
    var time := StampTime(p.hour, p.minute, Padded(p.second, 2) + "Z");
    TimeIsLaidOut(Padded(p.hour, 2), Padded(p.minute, 2), Padded(p.second, 2));
    DateIsLaidOut(Padded(p.date.year, 4), Padded(p.date.month, 2), Padded(p.date.day, 2), time);
    TimeStands(s, time);
  }

  lemma TimeStands(s: string, time: string)
    requires |s| == 20 && s[11..] == time
    ensures s[11..13] == time[0..2] && s[14..16] == time[3..5] && s[17..19] == time[6..8]
    ensures s[13] == time[2] && s[16] == time[5] && s[19] == time[8]
  {
  }

  // ---- texts that are no timestamps ----------------------------------------

  function Separators(s: string): nat {
    if s == [] then 0 else Separators(s[1..]) + if IsSeparator(s[0]) then 1 else 0
  }

  lemma {:induction false} PartsAreSeparated(s: string)
    ensures |Split(s)| == Separators(s) + 1
  {
    if s != [] {
      PartsAreSeparated(s[1..]);
    }
  }

  lemma {:induction false} NoMoreNumbersThanParts(parts: seq<string>)
    ensures |ParseAll(parts)| <= |parts|
  {
    if parts != [] {
      NoMoreNumbersThanParts(parts[1..]);
    }
  }

  /** A text with fewer than five separators is read as zero. */
  lemma TooFewSeparatorsGiveZero(s: string)
    requires Separators(TrimEndZ(s)) < 5
    ensures IsoToEpoch(s) == Some(0)
  {
    PartsAreSeparated(TrimEndZ(s));
    NoMoreNumbersThanParts(Split(TrimEndZ(s)));
  }
}
