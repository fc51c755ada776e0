/**
 * The timestamp that opens a chat-log entry, `[YYYY/MM/DD H:M]` with one- or
 * two-digit hour and minute, optional `:SS` seconds and an optional ` AM` or
 * ` PM` suffix; and its rewrite into 24-hour form with two-digit hour and minute.
 */
module Timestamp {
  import opened Wrappers
  import opened Text

  datatype Meridiem = AM | PM

  /** The captured groups of the opener pattern, as the text they matched. */
  datatype Stamp = Stamp(
    year: String, month: String, day: String,
    hour: String, minute: String,
    second: Option<String>, meridiem: Option<Meridiem>)

  /** The shape the pattern accepts: ASCII digits in fields of the stated widths. */
  predicate WellFormed(st: Stamp) {
    && |st.year| == 4 && AllDigits(st.year)
    && |st.month| == 2 && AllDigits(st.month)
    && |st.day| == 2 && AllDigits(st.day)
    && 1 <= |st.hour| <= 2 && AllDigits(st.hour)
    && 1 <= |st.minute| <= 2 && AllDigits(st.minute)
    && (st.second.Some? ==> |st.second.value| == 2 && AllDigits(st.second.value))
  }

  function SecondsText(second: Option<String>): String {
    match second
    case None => []
    case Some(s) => [':'] + s
  }

  function MeridiemText(meridiem: Option<Meridiem>): String {
    match meridiem
    case None => []
    case Some(AM) => " AM"
    case Some(PM) => " PM"
  }

  /** ` AM]`, ` PM]` or `]`. */
  function CloseText(meridiem: Option<Meridiem>): String {
    MeridiemText(meridiem) + "]"
  }

  /** The minute, the optional `:SS`, the optional meridiem and `]`. */
  function MinuteText(minute: String, second: Option<String>, meridiem: Option<Meridiem>): String {
    minute + (SecondsText(second) + CloseText(meridiem))
  }

  /** Everything from the hour on. */
  function ClockText(hour: String, minute: String, second: Option<String>, meridiem: Option<Meridiem>): String {
    hour + ([':'] + MinuteText(minute, second, meridiem))
  }

  /** `[YYYY/MM/DD `. */
  function DateText(st: Stamp): String {
    "[" + st.year + "/" + st.month + "/" + st.day + " "
  }

  /** The text of a stamp, brackets included. */
  function Render(st: Stamp): String {
    DateText(st) + ClockText(st.hour, st.minute, st.second, st.meridiem)
  }

  /** A successful match: the groups and the index just past the closing bracket. */
  datatype Match = Match(stamp: Stamp, end: nat)

  /** How many ASCII digits, at most two, s starts with. */
  function DigitRun(s: String): (n: nat)
    ensures n <= 2 && n <= |s| && AllDigits(s[..n])
    ensures n < |s| && n < 2 ==> !IsDigit(s[n])
  {
    if |s| >= 1 && IsDigit(s[0]) then
      if |s| >= 2 && IsDigit(s[1]) then 2 else 1
    else 0
  }

  /** The date part `[YYYY/MM/DD ` that every opener starts with. */
  predicate DatePrefix(s: String)
    requires |s| >= 12
  {
    && s[0] == '[' && IsDigit(s[1]) && IsDigit(s[2]) && IsDigit(s[3]) && IsDigit(s[4])
    && s[5] == '/' && IsDigit(s[6]) && IsDigit(s[7])
    && s[8] == '/' && IsDigit(s[9]) && IsDigit(s[10])
    && s[11] == ' '
  }

  /** `( [AP]M)?\]` at the start of w: the meridiem and the length matched. */
  function ParseClose(w: String): Option<(Option<Meridiem>, nat)> {
    if |w| >= 4 && w[0] == ' ' && (w[1] == 'A' || w[1] == 'P') && w[2] == 'M' && w[3] == ']' then
      Some((Some(if w[1] == 'A' then AM else PM), 4))
    else if |w| >= 1 && w[0] == ']' then Some((None, 1))
    else None
  }

  /**
   * `(?::(\d{2}))?( [AP]M)?\]` at the start of w. When `:SS` is present but
   * what follows does not close the stamp, leaving the group out cannot help:
   * the ':' would then have to be ' ' or ']'.
   */
  function ParseSeconds(w: String): Option<(Option<String>, Option<Meridiem>, nat)> {
    if |w| >= 3 && w[0] == ':' && IsDigit(w[1]) && IsDigit(w[2]) then
      match ParseClose(w[3..])
      case None => None
      case Some((mer, n)) => Some((Some(w[1..3]), mer, 3 + n))
    else
      match ParseClose(w)
      case None => None
      case Some((mer, n)) => Some((None, mer, n))
  }

  /**
   * `(\d{1,2})` then the seconds and the close. Taking one digit where two are
   * there leaves a digit where ':', ' ' or ']' is needed, so greedy is exact.
   */
  function ParseMinute(v: String): Option<(String, Option<String>, Option<Meridiem>, nat)> {
    var m := DigitRun(v);
    if m == 0 then None
    else
      match ParseSeconds(v[m..])
      case None => None
      case Some((sec, mer, n)) => Some((v[..m], sec, mer, m + n))
  }

  /** `(\d{1,2}):` then the minute and what follows it. */
  function ParseClock(u: String): Option<(String, String, Option<String>, Option<Meridiem>, nat)> {
    var h := DigitRun(u);
    if h == 0 || |u| <= h || u[h] != ':' then None
    else
      match ParseMinute(u[h + 1..])
      case None => None
      case Some((minute, sec, mer, n)) => Some((u[..h], minute, sec, mer, h + 1 + n))
  }

  /**
   * Anchored match of `\[(\d{4})/(\d{2})/(\d{2}) (\d{1,2}):(\d{1,2})(?::(\d{2}))?( [AP]M)?\]`
   * at the start of s, digits being ASCII.
   */
  function Parse(s: String): Option<Match> {
    if |s| < 12 || !DatePrefix(s) then None
    else
      match ParseClock(s[12..])
      case None => None
      case Some((hour, minute, sec, mer, n)) =>
        Some(Match(Stamp(s[1..5], s[6..8], s[9..11], hour, minute, sec, mer), 12 + n))
  }

  /** Whether s starts with a timestamp opener (the pattern of sl-chatmerge.py:243). */
  predicate IsOpener(s: String) {
    Parse(s).Some?
  }

  lemma CloseSound(w: String, mer: Option<Meridiem>, n: nat)
    requires ParseClose(w) == Some((mer, n))
    ensures n <= |w| && w[..n] == CloseText(mer)
  {
  }

  lemma CloseComplete(mer: Option<Meridiem>, rest: String)
    ensures ParseClose(CloseText(mer) + rest) == Some((mer, |CloseText(mer)|))
  {
  }

  lemma SecondsSound(w: String, sec: Option<String>, mer: Option<Meridiem>, n: nat)
    requires ParseSeconds(w) == Some((sec, mer, n))
    ensures n <= |w| && w[..n] == SecondsText(sec) + CloseText(mer)
    ensures sec.Some? ==> |sec.value| == 2 && AllDigits(sec.value)
  {
    if |w| >= 3 && w[0] == ':' && IsDigit(w[1]) && IsDigit(w[2]) {
      CloseSound(w[3..], mer, n - 3);
      assert w[..n] == w[..3] + w[3..][..n - 3];
    } else {
      CloseSound(w, mer, n);
    }
  }

  lemma SecondsComplete(sec: Option<String>, mer: Option<Meridiem>, rest: String)
    requires sec.Some? ==> |sec.value| == 2 && AllDigits(sec.value)
    ensures var text := SecondsText(sec) + CloseText(mer);
      ParseSeconds(text + rest) == Some((sec, mer, |text|))
  {
    var w := SecondsText(sec) + CloseText(mer) + rest;
    if sec.Some? {
      assert w[3..] == CloseText(mer) + rest;
      CloseComplete(mer, rest);
      assert w[1..3] == sec.value;
    } else {
      assert w == CloseText(mer) + rest;
      CloseComplete(mer, rest);
    }
  }

  lemma MinuteSound(v: String, minute: String, sec: Option<String>, mer: Option<Meridiem>, n: nat)
    requires ParseMinute(v) == Some((minute, sec, mer, n))
    ensures n <= |v| && v[..n] == MinuteText(minute, sec, mer)
    ensures 1 <= |minute| <= 2 && AllDigits(minute)
    ensures sec.Some? ==> |sec.value| == 2 && AllDigits(sec.value)
  {
    var m := DigitRun(v);
    SecondsSound(v[m..], sec, mer, n - m);
    assert v[..n] == v[..m] + v[m..][..n - m];
  }

  /** A one- or two-digit field followed by a non-digit is read as exactly that field. */
  lemma DigitRunOf(digits: String, w: String)
    requires 1 <= |digits| <= 2 && AllDigits(digits)
    requires w != [] && !IsDigit(w[0])
    ensures DigitRun(digits + w) == |digits|
    ensures (digits + w)[..|digits|] == digits && (digits + w)[|digits|..] == w
  {
    assert (digits + w)[|digits|] == w[0];
  }

  lemma MinuteComplete(minute: String, sec: Option<String>, mer: Option<Meridiem>, rest: String)
    requires 1 <= |minute| <= 2 && AllDigits(minute)
    requires sec.Some? ==> |sec.value| == 2 && AllDigits(sec.value)
    ensures var text := MinuteText(minute, sec, mer);
      ParseMinute(text + rest) == Some((minute, sec, mer, |text|))
  {
    var tail := SecondsText(sec) + CloseText(mer);
    var w := tail + rest;
    assert MinuteText(minute, sec, mer) + rest == minute + w;
    assert w[0] == ':' || w[0] == ' ' || w[0] == ']' by {
      if sec.Some? { assert w[0] == ':'; } else { assert w[0] == CloseText(mer)[0]; }
    }
    DigitRunOf(minute, w);
    SecondsComplete(sec, mer, rest);
  }

  lemma ClockSound(u: String, hour: String, minute: String, sec: Option<String>, mer: Option<Meridiem>, n: nat)
    requires ParseClock(u) == Some((hour, minute, sec, mer, n))
    ensures n <= |u| && u[..n] == ClockText(hour, minute, sec, mer)
    ensures 1 <= |hour| <= 2 && AllDigits(hour)
    ensures 1 <= |minute| <= 2 && AllDigits(minute)
    ensures sec.Some? ==> |sec.value| == 2 && AllDigits(sec.value)
  {
    var h := DigitRun(u);
    var v := u[h + 1..];
    MinuteSound(v, minute, sec, mer, n - h - 1);
    ClockSlices(u, h, v, n - h - 1, MinuteText(minute, sec, mer));
  }

  /** The text read by the clock parser is the hour, ':' and what the minute parser read. */
  lemma ClockSlices(u: String, h: nat, v: String, n: nat, tail: String)
    requires h < |u| && u[h] == ':' && v == u[h + 1..] && n <= |v| && v[..n] == tail
    ensures h + 1 + n <= |u| && u[..h + 1 + n] == u[..h] + ([':'] + tail)
  {
    assert u[..h + 1 + n] == u[..h] + ([':'] + v[..n]);
  }

  lemma ClockStep(hour: String, w: String, minute: String, sec: Option<String>, mer: Option<Meridiem>, n: nat, end: nat)
    requires 1 <= |hour| <= 2 && AllDigits(hour)
    requires w != [] && w[0] == ':'
    requires ParseMinute(w[1..]) == Some((minute, sec, mer, n)) && end == |hour| + 1 + n
    ensures ParseClock(hour + w) == Some((hour, minute, sec, mer, end))
  {
    DigitRunOf(hour, w);
    assert (hour + w)[|hour| + 1..] == w[1..];
  }

  lemma ClockComplete(hour: String, minute: String, sec: Option<String>, mer: Option<Meridiem>, rest: String)
    requires 1 <= |hour| <= 2 && AllDigits(hour)
    requires 1 <= |minute| <= 2 && AllDigits(minute)
    requires sec.Some? ==> |sec.value| == 2 && AllDigits(sec.value)
    ensures var text := ClockText(hour, minute, sec, mer);
      ParseClock(hour + ([':'] + (MinuteText(minute, sec, mer) + rest))) == Some((hour, minute, sec, mer, |text|))
  {
    var tail := MinuteText(minute, sec, mer);
    var w := [':'] + (tail + rest);
    assert w[1..] == tail + rest;
    MinuteComplete(minute, sec, mer, rest);
    ClockStep(hour, w, minute, sec, mer, |tail|, |ClockText(hour, minute, sec, mer)|);
  }

  /** The date part of a well-formed stamp passes the date check and leaves the rest. */
  lemma DateComplete(st: Stamp, w: String)
    requires WellFormed(st)
    ensures var s := DateText(st) + w;
      && |s| >= 12 && DatePrefix(s) && s[12..] == w
      && s[1..5] == st.year && s[6..8] == st.month && s[9..11] == st.day
  {
    var s := DateText(st) + w;
    assert DateText(st) == ['['] + st.year + ['/'] + st.month + ['/'] + st.day + [' '];
    assert s[1..5] == st.year;
    assert s[6..8] == st.month;
    assert s[9..11] == st.day;
  }

  lemma DateSound(s: String)
    requires |s| >= 12 && DatePrefix(s)
    ensures AllDigits(s[1..5]) && AllDigits(s[6..8]) && AllDigits(s[9..11])
    ensures s[..12] == ['['] + s[1..5] + ['/'] + s[6..8] + ['/'] + s[9..11] + [' ']
  {
  }

  /** Every match is a well-formed stamp, and s starts with exactly its text. */
  lemma ParseSound(s: String)
    requires Parse(s).Some?
    ensures WellFormed(Parse(s).value.stamp)
    ensures Parse(s).value.end == |Render(Parse(s).value.stamp)|
    ensures StartsWith(s, Render(Parse(s).value.stamp))
  {
    var u := s[12..];
    var (hour, minute, sec, mer, n) := ParseClock(u).value;
    ClockSound(u, hour, minute, sec, mer, n);
    var st := Stamp(s[1..5], s[6..8], s[9..11], hour, minute, sec, mer);
    assert Parse(s) == Some(Match(st, 12 + n));
    StampText(s, u, st, n);
  }

  /** A date prefix followed by clock text spells out the whole stamp. */
  lemma StampText(s: String, u: String, st: Stamp, n: nat)
    requires |s| >= 12 && DatePrefix(s) && u == s[12..]
    requires st.year == s[1..5] && st.month == s[6..8] && st.day == s[9..11]
    requires n <= |u| && u[..n] == ClockText(st.hour, st.minute, st.second, st.meridiem)
    requires 1 <= |st.hour| <= 2 && AllDigits(st.hour) && 1 <= |st.minute| <= 2 && AllDigits(st.minute)
    requires st.second.Some? ==> |st.second.value| == 2 && AllDigits(st.second.value)
    ensures WellFormed(st) && 12 + n == |Render(st)| && StartsWith(s, Render(st))
  {
    DateSound(s);
    var date := DateText(st);
    assert s[..12] == date;
    assert s[..12 + n] == s[..12] + u[..n];
  }

  lemma ParseStep(st: Stamp, u: String, n: nat, s: String, end: nat)
    requires WellFormed(st) && s == DateText(st) + u && end == 12 + n
    requires ParseClock(u) == Some((st.hour, st.minute, st.second, st.meridiem, n))
    ensures Parse(s) == Some(Match(st, end))
  {
    DateComplete(st, u);
  }

  /** The text of a stamp followed by more text, regrouped as the parser reads it. */
  lemma RenderRegroup(st: Stamp, rest: String)
    requires WellFormed(st)
    ensures Render(st) + rest == DateText(st) + (st.hour + ([':'] + (MinuteText(st.minute, st.second, st.meridiem) + rest)))
    ensures |Render(st)| == 12 + |ClockText(st.hour, st.minute, st.second, st.meridiem)|
  {
    var m := MinuteText(st.minute, st.second, st.meridiem);
    assert ClockText(st.hour, st.minute, st.second, st.meridiem) + rest == st.hour + ([':'] + (m + rest));
  }

  /** Every well-formed stamp is matched at the start of any string it opens. */
  lemma ParseComplete(st: Stamp, rest: String)
    requires WellFormed(st)
    ensures Parse(Render(st) + rest) == Some(Match(st, |Render(st)|))
  {
    var u := st.hour + ([':'] + (MinuteText(st.minute, st.second, st.meridiem) + rest));
    RenderRegroup(st, rest);
    ClockComplete(st.hour, st.minute, st.second, st.meridiem, rest);
    ParseStep(st, u, |ClockText(st.hour, st.minute, st.second, st.meridiem)|, Render(st) + rest, |Render(st)|);
  }

  /** Python's `int(digits)`. */
  function DecimalValue(s: String): nat
    requires AllDigits(s)
    decreases |s|
  {
    if s == [] then 0 else DecimalValue(s[..|s| - 1]) * 10 + (s[|s| - 1] as int - '0' as int)
  }

  function DigitChar(d: nat): (c: char)
    requires d < 10
    ensures IsDigit(c) && c as int - '0' as int == d
  {
    ('0' as int + d) as char
  }

  /** Python's `str(n)` for a non-negative integer. */
  function Decimal(n: nat): (r: String)
    ensures AllDigits(r) && |r| >= 1
    decreases n
  {
    if n < 10 then [DigitChar(n)] else Decimal(n / 10) + [DigitChar(n % 10)]
  }

  /** Python's `s.zfill(2)` for a string of digits: left-pad with '0' to width two. */
  function ZFill2(s: String): String {
    if |s| >= 2 then s else seq(2 - |s|, _ => '0') + s
  }

  /** The hour after the 12-hour to 24-hour conversion, exactly as coded: no range check. */
  function Hour24(hour: nat, meridiem: Option<Meridiem>): nat {
    match meridiem
    case None => hour
    case Some(AM) => if hour == 12 then 0 else hour
    case Some(PM) => if hour != 12 then hour + 12 else hour
  }

  /** The stamp as it is written back: 24-hour, hour and minute zero-padded, no meridiem. */
  function Canonical(st: Stamp): Stamp
    requires WellFormed(st)
  {
    Stamp(st.year, st.month, st.day,
      ZFill2(Decimal(Hour24(DecimalValue(st.hour), st.meridiem))),
      ZFill2(Decimal(DecimalValue(st.minute))),
      st.second, None)
  }

  /** str() and int() are inverse, and str(n) has at most two digits exactly when n < 100. */
  lemma {:induction false} DecimalRoundTrip(n: nat)
    ensures DecimalValue(Decimal(n)) == n
    ensures |Decimal(n)| == 1 <==> n < 10
    ensures |Decimal(n)| <= 2 <==> n < 100
    decreases n
  {
    if n >= 10 {
      DecimalRoundTrip(n / 10);
      var d := Decimal(n);
      assert d[..|d| - 1] == Decimal(n / 10);
    }
  }

  /** A leading zero does not change int(). */
  lemma {:induction false} LeadingZero(s: String)
    requires AllDigits(s)
    ensures AllDigits("0" + s) && DecimalValue("0" + s) == DecimalValue(s)
    decreases |s|
  {
    if s != [] {
      var init := s[..|s| - 1];
      LeadingZero(init);
      assert ("0" + s)[..|"0" + s| - 1] == "0" + init;
    }
  }

  /** zfill(2) of str(n) is a digit string of the same value, two digits long when n < 100. */
  lemma Padded(n: nat)
    ensures AllDigits(ZFill2(Decimal(n))) && DecimalValue(ZFill2(Decimal(n))) == n
    ensures |ZFill2(Decimal(n))| >= 2
    ensures |ZFill2(Decimal(n))| == 2 <==> n < 100
  {
    DecimalRoundTrip(n);
    var d := Decimal(n);
    if |d| < 2 {
      assert ZFill2(d) == "0" + d;
      LeadingZero(d);
    }
  }

  /** The conversion is the usual 12-hour clock for hours 1 to 12. */
  lemma ClockHour(hour: nat)
    requires 1 <= hour <= 12
    ensures Hour24(hour, Some(AM)) == hour % 12
    ensures Hour24(hour, Some(PM)) == hour % 12 + 12
    ensures Hour24(hour, None) == hour
  {
  }

  /** No range check: 99 PM becomes hour 111. */
  lemma HourNotRangeChecked()
    ensures Hour24(99, Some(PM)) == 111
    ensures Hour24(0, Some(AM)) == 0 && Hour24(0, Some(PM)) == 12
  {
  }

  /** A stamp whose hour has three digits or more is not matched: the pattern allows the hour at most two. */
  lemma WideHourRejected(c: Stamp, rest: String)
    requires |c.year| == 4 && |c.month| == 2 && |c.day| == 2
    requires |c.hour| >= 3 && AllDigits(c.hour)
    ensures Parse(Render(c) + rest).None?
    ensures StartsWith(Render(c) + rest, "[")
  {
    var s := Render(c) + rest;
    var clock := ClockText(c.hour, c.minute, c.second, c.meridiem);
    assert |DateText(c)| == 12;
    assert Render(c) == DateText(c) + clock;
    forall i | 0 <= i < 3
      ensures s[12..][i] == c.hour[i]
    {
      assert s[12 + i] == Render(c)[12 + i] == clock[i];
    }
    WideClock(s[12..]);
  }

  /** Three digits in a row: the hour pattern `\d{1,2}:` cannot match. */
  lemma WideClock(u: String)
    requires |u| >= 3 && IsDigit(u[0]) && IsDigit(u[1]) && IsDigit(u[2])
    ensures ParseClock(u).None?
  {
    assert DigitRun(u) == 2;
  }

  /** The rewritten hour's value. */
  function ClockValue(st: Stamp): nat
    requires WellFormed(st)
  {
    Hour24(DecimalValue(st.hour), st.meridiem)
  }

  /**
   * What the rewrite keeps and changes: the date and seconds are copied, the
   * meridiem is dropped, hour and minute keep their 24-hour values and are at
   * least two digits long; the result is again an opener exactly when the
   * converted hour stays below 100.
   */
  lemma CanonicalFields(st: Stamp)
    requires WellFormed(st)
    ensures var c := Canonical(st);
      && c.year == st.year && c.month == st.month && c.day == st.day
      && c.second == st.second && c.meridiem == None
      && AllDigits(c.hour) && DecimalValue(c.hour) == ClockValue(st) && |c.hour| >= 2
      && AllDigits(c.minute) && DecimalValue(c.minute) == DecimalValue(st.minute) && |c.minute| == 2
      && (WellFormed(c) <==> ClockValue(st) < 100)
  {
    Padded(ClockValue(st));
    Padded(DecimalValue(st.minute));
    assert DecimalValue(st.minute) < 100 by {
      DecimalBound(st.minute);
    }
  }

  lemma {:induction false} DecimalBound(s: String)
    requires AllDigits(s)
    ensures |s| <= 2 ==> DecimalValue(s) < 100
    ensures |s| <= 1 ==> DecimalValue(s) < 10
    decreases |s|
  {
    if s != [] {
      DecimalBound(s[..|s| - 1]);
    }
  }

  /** Rewriting an already rewritten stamp changes nothing. */
  lemma CanonicalIdempotent(st: Stamp)
    requires WellFormed(st) && ClockValue(st) < 100
    ensures WellFormed(Canonical(st))
    ensures Canonical(Canonical(st)) == Canonical(st)
  {
    CanonicalFields(st);
    var c := Canonical(st);
    Padded(ClockValue(st));
    Padded(DecimalValue(st.minute));
    DecimalRoundTrip(DecimalValue(c.hour));
    DecimalRoundTrip(DecimalValue(c.minute));
    assert Decimal(DecimalValue(c.hour)) == Decimal(ClockValue(st));
  }
  /** Every field is a string of digits, of any width. */
  predicate DigitFields(st: Stamp) {
    && AllDigits(st.year) && AllDigits(st.month) && AllDigits(st.day)
    && AllDigits(st.hour) && AllDigits(st.minute)
    && (st.second.Some? ==> AllDigits(st.second.value))
  }

  /** A rendered stamp of digit fields stays on one line and closes with ']'. */
  lemma RenderOneLine(st: Stamp)
    requires DigitFields(st)
    ensures '\n' !in Render(st) && '\r' !in Render(st)
    ensures Render(st) != [] && Render(st)[|Render(st)| - 1] == ']'
  {
    DigitsNoBreak(st.year);
    DigitsNoBreak(st.month);
    DigitsNoBreak(st.day);
    DigitsNoBreak(st.hour);
    DigitsNoBreak(st.minute);
    if st.second.Some? {
      DigitsNoBreak(st.second.value);
    }
    var r := Render(st);
    assert r == DateText(st) + (st.hour + ([':'] + (st.minute + (SecondsText(st.second) + (MeridiemText(st.meridiem) + "]")))));
  }
}
