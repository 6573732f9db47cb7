/** The part of chrono's `DateTime::parse_from_str` that the bot relies on:
    a format, already split into items, is matched against the input from left
    to right, each item consuming a prefix and possibly setting one field; the
    input must be used up; then the fields are resolved into a date-time with a
    fixed UTC offset, which fails when they do not name a real instant. */
module Chrono {
  import opened Wrappers
  import opened Text

  datatype Field = Year | Month | Day | Hour | Minute | Second

  /** One item of a parsed format string: `%d`-like numeric
      fields of at most `width` digits, literal text, a space (which skips any
      run of whitespace, possibly empty) and `%z`. */
  datatype Item = Numeric(field: Field, width: nat) | Literal(text: string) | Space | TimezoneOffset

  /** The fields parsing has set so far (chrono's `Parsed`). */
  datatype Parsed = Parsed(
    year: Option<int>, month: Option<int>, day: Option<int>,
    hour: Option<int>, minute: Option<int>, second: Option<int>,
    offset: Option<int>)

  const Unset := Parsed(None, None, None, None, None, None, None)

  /** A date-time in a fixed offset: the local calendar fields and the offset
      from UTC in seconds; `day()` and `month()` read the local fields. */
  datatype DateTime = DateTime(year: int, month: int, day: int,
                               hour: int, minute: int, second: int, offset: int)

  // chrono's year range: `i32::MIN >> 13 ..= i32::MAX >> 13`.
  const MinYear: int := -262144
  const MaxYear: int := 262143
  const I64Max: int := 0x7FFF_FFFF_FFFF_FFFF

  predicate IsLeapYear(y: int)
  {
    y % 4 == 0 && (y % 100 != 0 || y % 400 == 0)
  }

  function DaysInMonth(y: int, m: int): (n: int)
    requires 1 <= m <= 12
    ensures 28 <= n <= 31
    ensures m == 2 ==> (n == 29 <==> IsLeapYear(y))
  {
    if m == 2 then (if IsLeapYear(y) then 29 else 28)
    else if m == 4 || m == 6 || m == 9 || m == 11 then 30
    else 31
  }

  /** (year, month, day) is a day of the proleptic Gregorian calendar. */
  predicate IsCalendarDate(y: int, m: int, d: int)
  {
    1 <= m <= 12 && 1 <= d <= DaysInMonth(y, m)
  }

  predicate IsWhitespace(c: char)
  {
    c == ' ' || c == '\t' || c == '\n' || c == '\r' || c == '\U{000B}' || c == '\U{000C}'
  }

  function SkipWhitespace(s: string): (r: string)
    ensures |r| <= |s| && r == s[|s| - |r|..]
    ensures forall i :: 0 <= i < |s| - |r| ==> IsWhitespace(s[i])
    ensures r == [] || !IsWhitespace(r[0])
  {
    if s != [] && IsWhitespace(s[0]) then SkipWhitespace(s[1..]) else s
  }

  /** How many leading characters of `s`, at most `max`, are ASCII digits. */
  function LeadingDigits(s: string, max: nat): (n: nat)
    ensures n <= max && n <= |s|
    ensures AllDigits(s[..n])
    ensures n < max && n < |s| ==> !IsDigit(s[n])
  {
    if max == 0 || s == [] || !IsDigit(s[0]) then 0
    else
      var n := 1 + LeadingDigits(s[1..], max - 1);
      assert s[..n] == [s[0]] + s[1..][..n - 1];
      n
  }

  function SetField(p: Parsed, f: Field, v: int): Parsed
  {
    match f
    case Year => p.(year := Some(v))
    case Month => p.(month := Some(v))
    case Day => p.(day := Some(v))
    case Hour => p.(hour := Some(v))
    case Minute => p.(minute := Some(v))
    case Second => p.(second := Some(v))
  }

  /** `%z`: a sign, two digits of hours, an optional colon, two digits of minutes. */
  function ScanOffset(s: string): Option<(string, int)>
  {
    if |s| < 3 || (s[0] != '+' && s[0] != '-') || !IsDigit(s[1]) || !IsDigit(s[2]) then None
    else
      var hours := DigitValue(s[1]) * 10 + DigitValue(s[2]);
      var r := if |s| > 3 && s[3] == ':' then s[4..] else s[3..];
      if |r| < 2 || !IsDigit(r[0]) || !IsDigit(r[1]) then None
      else
        var secs := hours * 3600 + (DigitValue(r[0]) * 10 + DigitValue(r[1])) * 60;
        Some((r[2..], if s[0] == '-' then -secs else secs))
  }

  /** Matches one item against the front of `s`; on success gives what is left. */
  function ScanItem(s: string, item: Item, p: Parsed): Option<(string, Parsed)>
  {
    match item
    case Literal(t) =>
      if t <= s then Some((s[|t|..], p)) else None
    case Space =>
      Some((SkipWhitespace(s), p))
    case TimezoneOffset =>
      (match ScanOffset(s)
       case None => None
       case Some((r, secs)) => Some((r, p.(offset := Some(secs)))))
    case Numeric(f, width) =>
      if f == Year && s != [] && (s[0] == '+' || s[0] == '-') then
        // an explicit sign lifts the width limit of a year
        var n := LeadingDigits(s[1..], |s| - 1);
        if n == 0 then None
        else
          var v: int := DigitsValue(s[1..][..n]);
          if v > I64Max then None
          else Some((s[1 + n..], SetField(p, f, if s[0] == '-' then -v else v)))
      else
        var n := LeadingDigits(s, width);
        if n == 0 then None
        else Some((s[n..], SetField(p, f, DigitsValue(s[..n]))))
  }

  /** Matches the items in order; gives what is left of `s` and the fields set. */
  function ScanItems(s: string, items: seq<Item>, p: Parsed): Option<(string, Parsed)>
  {
    if items == [] then Some((s, p))
    else
      match ScanItem(s, items[0], p)
      case None => None
      case Some((r, q)) => ScanItems(r, items[1..], q)
  }

  /** Turns the parsed fields into a date-time with a fixed offset, checking
      every field's range and that the day exists in its month and year. */
  function Resolve(p: Parsed): Option<DateTime>
  {
    if p.year.None? || p.month.None? || p.day.None? || p.hour.None?
       || p.minute.None? || p.offset.None? then None
    else
      var y, mo, d := p.year.value, p.month.value, p.day.value;
      var h, mi, s := p.hour.value, p.minute.value, p.second.GetOr(0);
      var off := p.offset.value;
      if MinYear <= y <= MaxYear && IsCalendarDate(y, mo, d)
         && 0 <= h <= 23 && 0 <= mi <= 59 && 0 <= s <= 60 && -86400 < off < 86400
      then Some(DateTime(y, mo, d, h, mi, s, off))
      else None
  }

  /** `DateTime::parse_from_str(s, fmt)` for an already itemised `fmt`. */
  function ParseFromStr(s: string, fmt: seq<Item>): Option<DateTime>
  {
    match ScanItems(s, fmt, Unset)
    case None => None
    case Some((rest, p)) => if rest != [] then None else Resolve(p)
  }

  /** Matching a concatenation of formats is matching one after the other. */
  lemma {:induction false} ScanItemsConcat(s: string, a: seq<Item>, b: seq<Item>, p: Parsed)
    ensures ScanItems(s, a + b, p) ==
            match ScanItems(s, a, p)
            case None => None
            case Some((r, q)) => ScanItems(r, b, q)
  {
    if a == [] {
      assert a + b == b;
    } else {
      assert (a + b)[0] == a[0] && (a + b)[1..] == a[1..] + b;
      match ScanItem(s, a[0], p)
      case None =>
      case Some((r, q)) => ScanItemsConcat(r, a[1..], b, q);
    }
  }

  /** `c` is a character that no item of `items` can consume: neither a digit,
      a sign, a colon nor whitespace, and in none of their literals. */
  predicate NeverConsumes(items: seq<Item>, c: char)
  {
    && !IsDigit(c) && !IsWhitespace(c) && c != '+' && c != '-' && c != ':'
    && forall i :: 0 <= i < |items| ==> !(items[i].Literal? && c in items[i].text)
  }

  /** `r` is what is left of `s` after a prefix free of `c`. */
  predicate LeftAfterAvoiding(s: string, r: string, c: char)
  {
    |r| <= |s| && r == s[|s| - |r|..] && forall i :: 0 <= i < |s| - |r| ==> s[i] != c
  }

  lemma ScanItemAvoids(s: string, item: Item, p: Parsed, c: char)
    requires NeverConsumes([item], c)
    requires ScanItem(s, item, p).Some?
    ensures LeftAfterAvoiding(s, ScanItem(s, item, p).value.0, c)
  {
    assert [item][0] == item;
    var r := ScanItem(s, item, p).value.0;
    match item
    case Literal(t) =>
      assert forall i :: 0 <= i < |t| ==> s[i] == t[i];
    case Space =>
    case TimezoneOffset =>
      assert forall i :: 0 <= i < |s| - |r| ==> s[i] == '+' || s[i] == '-' || s[i] == ':' || IsDigit(s[i]);
    case Numeric(f, width) =>
      if f == Year && s != [] && (s[0] == '+' || s[0] == '-') {
        var n := LeadingDigits(s[1..], |s| - 1);
        assert forall i :: 1 <= i < 1 + n ==> s[i] == s[1..][..n][i - 1];
      } else {
        var n := LeadingDigits(s, width);
        assert forall i :: 0 <= i < n ==> s[i] == s[..n][i];
      }
  }

  /** What the items consume is a prefix of the input free of such a character. */
  lemma {:induction false} ScanItemsAvoids(s: string, items: seq<Item>, p: Parsed, c: char)
    requires NeverConsumes(items, c)
    requires ScanItems(s, items, p).Some?
    ensures LeftAfterAvoiding(s, ScanItems(s, items, p).value.0, c)
  {
    if items != [] {
      var step := ScanItem(s, items[0], p).value;
      assert NeverConsumes([items[0]], c);
      ScanItemAvoids(s, items[0], p, c);
      assert NeverConsumes(items[1..], c) by {
        assert forall i :: 0 <= i < |items| - 1 ==> items[1..][i] == items[i + 1];
      }
      ScanItemsAvoids(step.0, items[1..], step.1, c);
    }
  }
}
