/** The `birthday` command group: the `dd.mm` date parser, the birthdays table
    keyed by user id, and the `add`, `edit`, `remove`, `mod_menu` and parent
    `birthday` handlers. */
module Birthday {
  import opened Wrappers
  import opened Text
  import opened Chrono

  // ---------------------------------------------------------------------------
  // Date parser
  // ---------------------------------------------------------------------------

  /** What `parse_date` appends to the caller's token. */
  const DateSuffix: string := ".1970 00:00:00 +0300"

  /** `%d.%m.%Y %H:%M:%S %z`, split into items: the part the caller's token
      has to fill, and the part the suffix fills. */
  const TokenPart: seq<Item> := [Numeric(Day, 2), Literal("."), Numeric(Month, 2)]
  const SuffixPart: seq<Item> := [Literal("."), Numeric(Year, 4), Space, Numeric(Hour, 2), Literal(":"),
                                  Numeric(Minute, 2), Literal(":"), Numeric(Second, 2), Space, TimezoneOffset]
  const DateFormat: seq<Item> := TokenPart + SuffixPart

  /** `parse_date`: reads the token as a day and month of 1970, at midnight in UTC+03:00. */
  function ParseDate(date: string): (d: Option<DateTime>)
    ensures d.Some? ==> IsCalendarDate(d.value.year, d.value.month, d.value.day)
  {
    ParseFromStr(date + DateSuffix, DateFormat)
  }

  /** One numeric field of a `dd.mm` token: one or two ASCII digits. */
  predicate IsDayMonthField(s: string)
  {
    1 <= |s| <= 2 && AllDigits(s)
  }

  /** `date` is the day field `ds`, a dot, and the month field `ms`. */
  predicate IsDayMonthToken(date: string, ds: string, ms: string)
  {
    IsDayMonthField(ds) && IsDayMonthField(ms) && date == ds + "." + ms
  }

  /** (day, month) is a date of 1970, a common year. */
  predicate IsDateIn1970(day: int, month: int)
  {
    IsCalendarDate(1970, month, day)
  }

  /** A `dd.mm` token fills the first part of the format, up to the dot that follows it. */
  lemma ScanTokenFields(ds: string, ms: string, r: string, p: Parsed)
    requires IsDayMonthField(ds) && IsDayMonthField(ms) && r != [] && r[0] == '.'
    ensures ScanItems(ds + ("." + (ms + r)), TokenPart, p)
         == Some((r, p.(day := Some(DigitsValue(ds)), month := Some(DigitsValue(ms)))))
  {
    var p1 := p.(day := Some(DigitsValue(ds)));
    TokenDayStep(ds, "." + (ms + r), p);
    TokenDotStep(ms + r, p1);
    TokenMonthStep(ms, r, p1);
  }

  lemma TokenDayStep(ds: string, r: string, p: Parsed)
    requires IsDayMonthField(ds) && r != [] && r[0] == '.'
    ensures ScanItems(ds + r, TokenPart, p) == ScanItems(r, TokenPart[1..], p.(day := Some(DigitsValue(ds))))
  {
    ScanNumericStep(ds + r, ds, r, Day, 2, p);
    ScanStep(ds + r, TokenPart, p, r, p.(day := Some(DigitsValue(ds))));
  }

  lemma TokenDotStep(r: string, p: Parsed)
    ensures ScanItems("." + r, TokenPart[1..], p) == ScanItems(r, TokenPart[2..], p)
  {
    ScanLiteralStep("." + r, ".", r, p);
    ScanStep("." + r, TokenPart[1..], p, r, p);
    assert TokenPart[1..][1..] == TokenPart[2..];
  }

  lemma TokenMonthStep(ms: string, r: string, p: Parsed)
    requires IsDayMonthField(ms) && r != [] && r[0] == '.'
    ensures ScanItems(ms + r, TokenPart[2..], p) == Some((r, p.(month := Some(DigitsValue(ms)))))
  {
    ScanNumericStep(ms + r, ms, r, Month, 2, p);
    ScanStep(ms + r, TokenPart[2..], p, r, p.(month := Some(DigitsValue(ms))));
    assert TokenPart[2..][1..] == [];
  }

  /** A `dd.mm` token parses exactly when it names a date of 1970, and then
      to that day and month, at midnight in UTC+03:00. */
  lemma ParseDateOfFields(ds: string, ms: string)
    requires IsDayMonthField(ds) && IsDayMonthField(ms)
    ensures ParseDate(ds + "." + ms)
         == if IsDateIn1970(DigitsValue(ds), DigitsValue(ms))
            then Some(DateTime(1970, DigitsValue(ms), DigitsValue(ds), 0, 0, 0, 10800))
            else None
  {
    var d, m := DigitsValue(ds), DigitsValue(ms);
    ScanFieldsAndSuffix(ds, ms);
    ParseDateOfScan(ds + "." + ms, Parsed(Some(1970), Some(m), Some(d), Some(0), Some(0), Some(0), Some(10800)));
    ResolveMidnight1970(d, m);
  }

  /** A token and the suffix together use up the whole input and set every field. */
  lemma ScanFieldsAndSuffix(ds: string, ms: string)
    requires IsDayMonthField(ds) && IsDayMonthField(ms)
    ensures ScanItems(ds + "." + ms + DateSuffix, DateFormat, Unset)
         == Some(([], Parsed(Some(1970), Some(DigitsValue(ms)), Some(DigitsValue(ds)), Some(0), Some(0), Some(0), Some(10800))))
  {
    var q := Unset.(day := Some(DigitsValue(ds)), month := Some(DigitsValue(ms)));
    var s := ds + "." + ms + DateSuffix;
    assert s == ds + ("." + (ms + DateSuffix));
    ScanTokenFields(ds, ms, DateSuffix, Unset);
    ScanItemsConcat(s, TokenPart, SuffixPart, Unset);
    ScanSuffix(q);
  }

  lemma ParseDateOfScan(date: string, q: Parsed)
    requires ScanItems(date + DateSuffix, DateFormat, Unset) == Some(([], q))
    ensures ParseDate(date) == Resolve(q)
  {
  }

  lemma ResolveMidnight1970(d: int, m: int)
    ensures Resolve(Parsed(Some(1970), Some(m), Some(d), Some(0), Some(0), Some(0), Some(10800)))
         == if IsDateIn1970(d, m) then Some(DateTime(1970, m, d, 0, 0, 0, 10800)) else None
  {
  }

  /** `parse_date` succeeds exactly on the `dd.mm` tokens that name a day of 1970. */
  lemma ParseDateExactly(date: string)
    ensures ParseDate(date).Some? <==>
            exists ds, ms :: IsDayMonthToken(date, ds, ms) && IsDateIn1970(DigitsValue(ds), DigitsValue(ms))
    ensures forall ds, ms :: IsDayMonthToken(date, ds, ms) && ParseDate(date).Some? ==>
              ParseDate(date).value.day == DigitsValue(ds) && ParseDate(date).value.month == DigitsValue(ms)
  {
    if ParseDate(date).Some? {
      var ds, ms := ParseDateShape(date);
      ParseDateOfFields(ds, ms);
    }
    forall ds, ms | IsDayMonthToken(date, ds, ms)
      ensures ParseDate(date) == if IsDateIn1970(DigitsValue(ds), DigitsValue(ms))
            then Some(DateTime(1970, DigitsValue(ms), DigitsValue(ds), 0, 0, 0, 10800))
            else None
    {
      ParseDateOfFields(ds, ms);
    }
  }

  /** `29.02` is refused: the reference year 1970 is not a leap year, although
      29 February exists in a leap year such as 1972. */
  lemma LeapDayRejected()
    ensures !IsLeapYear(1970) && IsCalendarDate(1972, 2, 29)
    ensures ParseDate("29.02").None?
  {
    assert "29.02" == "29" + "." + "02";
    DigitsTwo('2', '9');
    DigitsTwo('0', '2');
    ParseDateOfFields("29", "02");
  }

  /** Days and months that do not exist are refused: 31 April, day 0, month 13. */
  lemma ImpossibleDatesRejected()
    ensures ParseDate("31.04").None?
    ensures ParseDate("00.05").None?
    ensures ParseDate("01.13").None?
  {
    assert "31.04" == "31" + "." + "04";
    assert "00.05" == "00" + "." + "05";
    assert "01.13" == "01" + "." + "13";
    DigitsTwo('3', '1');
    DigitsTwo('0', '4');
    DigitsTwo('0', '0');
    DigitsTwo('0', '5');
    DigitsTwo('0', '1');
    DigitsTwo('1', '3');
    ParseDateOfFields("31", "04");
    ParseDateOfFields("00", "05");
    ParseDateOfFields("01", "13");
  }

  /** A token with a year or any further field no longer fits the format. */
  lemma ExtraFieldsRejected()
    ensures ParseDate("05.07.2000").None?
  {
    if ParseDate("05.07.2000").Some? {
      var ds, ms := ParseDateShape("05.07.2000");
      assert false;
    }
  }

  /** `05.07` is the fifth of July. */
  lemma ParseDateFifthOfJuly()
    ensures ParseDate("05.07") == Some(DateTime(1970, 7, 5, 0, 0, 0, 10800))
  {
    assert "05.07" == "05" + "." + "07";
    DigitsTwo('0', '5');
    DigitsTwo('0', '7');
    ParseDateOfFields("05", "07");
  }

  lemma DigitsTwo(a: char, b: char)
    requires IsDigit(a) && IsDigit(b)
    ensures IsDayMonthField([a, b]) && DigitsValue([a, b]) == DigitValue(a) * 10 + DigitValue(b)
  {
    DigitsValueSnoc([], a);
    assert [] + [a] == [a];
    DigitsValueSnoc([a], b);
    assert [a] + [b] == [a, b];
  }

  /** Whatever the first part of the format accepts is two digit runs around a
      dot, the second run read greedily. */
  lemma ScanTokenPartInverse(s: string, p: Parsed) returns (ds: string, ms: string, r: string)
    requires ScanItems(s, TokenPart, p).Some?
    ensures IsDayMonthField(ds) && IsDayMonthField(ms)
    ensures s == ds + "." + ms + r && ScanItems(s, TokenPart, p).value.0 == r
    ensures |ms| < 2 && r != [] ==> !IsDigit(r[0])
  {
    TokenPartShape();
    var s1, p1, p2;
    ds, s1, p1 := TwoDigitInverse(s, TokenPart, p);
    DotInverse(s1, TokenPart[1..], p1);
    ms, r, p2 := TwoDigitInverse(s1[1..], TokenPart[1..][1..], p1);
    JoinToken(s, ds, s1, ms, r);
  }

  lemma TokenPartShape()
    ensures TokenPart != [] && TokenPart[0] == Numeric(Day, 2)
    ensures TokenPart[1..] != [] && TokenPart[1..][0] == Literal(".")
    ensures TokenPart[1..][1..] != [] && TokenPart[1..][1..][0] == Numeric(Month, 2)
    ensures TokenPart[1..][1..][1..] == []
  {
  }

  /** A leading `.` item reads exactly a dot. */
  lemma DotInverse(s: string, items: seq<Item>, p: Parsed)
    requires items != [] && items[0] == Literal(".")
    requires ScanItems(s, items, p).Some?
    ensures s != [] && s == "." + s[1..]
    ensures ScanItems(s, items, p) == ScanItems(s[1..], items[1..], p)
  {
    assert "." <= s;
  }

  lemma JoinToken(s: string, ds: string, s1: string, ms: string, r: string)
    requires s == ds + s1 && s1 != [] && s1 == "." + s1[1..] && s1[1..] == ms + r
    ensures s == ds + "." + ms + r
  {
  }

  /** A leading two-digit field item reads one or two digits and stops before a third. */
  lemma TwoDigitInverse(s: string, items: seq<Item>, p: Parsed) returns (ds: string, r: string, q: Parsed)
    requires items != [] && items[0].Numeric? && items[0].field != Year && items[0].width == 2
    requires ScanItems(s, items, p).Some?
    ensures IsDayMonthField(ds) && s == ds + r
    ensures |ds| < 2 && r != [] ==> !IsDigit(r[0])
    ensures ScanItems(s, items, p) == ScanItems(r, items[1..], q)
  {
    var n := LeadingDigits(s, 2);
    ds := s[..n];
    r := s[n..];
    q := SetField(p, items[0].field, DigitsValue(ds));
    assert s == ds + r;
  }

  /** The items after the token never consume a dot. */
  lemma SuffixPartSkipsDots()
    ensures NeverConsumes(SuffixPart[1..], '.')
  {
    var items := SuffixPart[1..];
    assert forall i :: 0 <= i < |items| ==> items[i] == SuffixPart[i + 1];
  }

  /** Input the suffix items use up starts with a dot and holds no other. */
  lemma SuffixPartInverse(r: string, q: Parsed)
    requires ScanItems(r, SuffixPart, q).Some? && ScanItems(r, SuffixPart, q).value.0 == []
    ensures r != [] && r[0] == '.'
    ensures forall i :: 1 <= i < |r| ==> r[i] != '.'
  {
    assert r[..1] == ".";
    var q1 := ScanItem(r, Literal("."), q).value.1;
    assert ScanItems(r, SuffixPart, q) == ScanItems(r[1..], SuffixPart[1..], q1);
    SuffixPartSkipsDots();
    ScanItemsAvoids(r[1..], SuffixPart[1..], q1, '.');
    assert forall i :: 1 <= i < |r| ==> r[i] == r[1..][i - 1];
  }

  /** The dot a suffix such as `DateSuffix` begins with is the only one after the token's month field. */
  lemma TokenEndsAtSuffix(date: string, suffix: string, ds: string, ms: string, r: string)
    requires IsDayMonthField(ds) && IsDayMonthField(ms)
    requires |suffix| >= 4 && suffix[0] == '.' && suffix[2] != '.' && suffix[3] != '.'
    requires date + suffix == ds + "." + ms + r
    requires r != [] && r[0] == '.' && forall i :: 1 <= i < |r| ==> r[i] != '.'
    ensures date == ds + "." + ms
  {
    var s := date + suffix;
    var k := |ds| + 1 + |ms|;
    var n := |date|;
    assert s[n] == '.';
    assert s[k] == '.';
    assert n == k;
    assert date == s[..n] && s[..k] == ds + "." + ms;
  }

  /** `parse_date` accepts only `dd.mm` tokens: one or two digits, a dot, one or two digits. */
  lemma ParseDateShape(date: string) returns (ds: string, ms: string)
    requires ParseDate(date).Some?
    ensures IsDayMonthToken(date, ds, ms)
  {
    var s := date + DateSuffix;
    ParseDateScanned(date);
    var r, q := ScanPrefixOfFormat(s, TokenPart, SuffixPart, Unset);
    var r';
    ds, ms, r' := ScanTokenPartInverse(s, Unset);
    SuffixPartInverse(r, q);
    DateSuffixShape();
    TokenEndsAtSuffix(date, DateSuffix, ds, ms, r);
  }

  lemma ParseDateScanned(date: string)
    requires ParseDate(date).Some?
    ensures ScanItems(date + DateSuffix, TokenPart + SuffixPart, Unset).Some?
    ensures ScanItems(date + DateSuffix, TokenPart + SuffixPart, Unset).value.0 == []
  {
  }

  lemma DateSuffixShape()
    ensures |DateSuffix| >= 4 && DateSuffix[0] == '.' && DateSuffix[2] != '.' && DateSuffix[3] != '.'
  {
  }

  /** When a concatenated format uses up the input, its first part stops where the second takes over. */
  lemma ScanPrefixOfFormat(s: string, a: seq<Item>, b: seq<Item>, p: Parsed) returns (r: string, q: Parsed)
    requires ScanItems(s, a + b, p).Some? && ScanItems(s, a + b, p).value.0 == []
    ensures ScanItems(s, a, p) == Some((r, q))
    ensures ScanItems(r, b, q).Some? && ScanItems(r, b, q).value.0 == []
  {
    ScanItemsConcat(s, a, b, p);
    r, q := ScanItems(s, a, p).value.0, ScanItems(s, a, p).value.1;
  }

  /** The suffix fills the rest of the format: year 1970, midnight, +03:00. */
  lemma ScanSuffix(p: Parsed)
    ensures ScanItems(DateSuffix, SuffixPart, p)
         == Some(([], p.(year := Some(1970), hour := Some(0), minute := Some(0),
                         second := Some(0), offset := Some(10800))))
  {
    var p1 := p.(year := Some(1970));
    var p2 := p1.(hour := Some(0));
    var p3 := p2.(minute := Some(0));
    var p4 := p3.(second := Some(0));
    SuffixStep0(p);
    SuffixStep1(p);
    SuffixStep2(p1);
    SuffixStep3(p1);
    SuffixStep4(p2);
    SuffixStep5(p2);
    SuffixStep6(p3);
    SuffixStep7(p3);
    SuffixStep8(p4);
    SuffixStep9(p4);
    assert SuffixPart[10..] == [];
  }

  lemma SuffixStep0(p: Parsed)
    ensures ScanItems(DateSuffix, SuffixPart[0..], p) == ScanItems("1970 00:00:00 +0300", SuffixPart[1..], p)
  {
    ScanLiteralStep(DateSuffix, ".", "1970 00:00:00 +0300", p);
    ScanStep(DateSuffix, SuffixPart[0..], p, "1970 00:00:00 +0300", p);
    assert SuffixPart[0..][1..] == SuffixPart[1..];
  }

  lemma SuffixStep1(p: Parsed)
    ensures ScanItems("1970 00:00:00 +0300", SuffixPart[1..], p) == ScanItems(" 00:00:00 +0300", SuffixPart[2..], p.(year := Some(1970)))
  {
    DigitsOf1970();
    ScanNumericStep("1970 00:00:00 +0300", "1970", " 00:00:00 +0300", Year, 4, p);
    ScanStep("1970 00:00:00 +0300", SuffixPart[1..], p, " 00:00:00 +0300", p.(year := Some(1970)));
    assert SuffixPart[1..][1..] == SuffixPart[2..];
  }

  lemma SuffixStep2(p: Parsed)
    ensures ScanItems(" 00:00:00 +0300", SuffixPart[2..], p) == ScanItems("00:00:00 +0300", SuffixPart[3..], p)
  {
    ScanSpaceStep(" 00:00:00 +0300", "00:00:00 +0300", p);
    ScanStep(" 00:00:00 +0300", SuffixPart[2..], p, "00:00:00 +0300", p);
    assert SuffixPart[2..][1..] == SuffixPart[3..];
  }

  lemma SuffixStep3(p: Parsed)
    ensures ScanItems("00:00:00 +0300", SuffixPart[3..], p) == ScanItems(":00:00 +0300", SuffixPart[4..], p.(hour := Some(0)))
  {
    DigitsOf00();
    ScanNumericStep("00:00:00 +0300", "00", ":00:00 +0300", Hour, 2, p);
    ScanStep("00:00:00 +0300", SuffixPart[3..], p, ":00:00 +0300", p.(hour := Some(0)));
    assert SuffixPart[3..][1..] == SuffixPart[4..];
  }

  lemma SuffixStep4(p: Parsed)
    ensures ScanItems(":00:00 +0300", SuffixPart[4..], p) == ScanItems("00:00 +0300", SuffixPart[5..], p)
  {
    ScanLiteralStep(":00:00 +0300", ":", "00:00 +0300", p);
    ScanStep(":00:00 +0300", SuffixPart[4..], p, "00:00 +0300", p);
    assert SuffixPart[4..][1..] == SuffixPart[5..];
  }

  lemma SuffixStep5(p: Parsed)
    ensures ScanItems("00:00 +0300", SuffixPart[5..], p) == ScanItems(":00 +0300", SuffixPart[6..], p.(minute := Some(0)))
  {
    DigitsOf00();
    ScanNumericStep("00:00 +0300", "00", ":00 +0300", Minute, 2, p);
    ScanStep("00:00 +0300", SuffixPart[5..], p, ":00 +0300", p.(minute := Some(0)));
    assert SuffixPart[5..][1..] == SuffixPart[6..];
  }

  lemma SuffixStep6(p: Parsed)
    ensures ScanItems(":00 +0300", SuffixPart[6..], p) == ScanItems("00 +0300", SuffixPart[7..], p)
  {
    ScanLiteralStep(":00 +0300", ":", "00 +0300", p);
    ScanStep(":00 +0300", SuffixPart[6..], p, "00 +0300", p);
    assert SuffixPart[6..][1..] == SuffixPart[7..];
  }

  lemma SuffixStep7(p: Parsed)
    ensures ScanItems("00 +0300", SuffixPart[7..], p) == ScanItems(" +0300", SuffixPart[8..], p.(second := Some(0)))
  {
    DigitsOf00();
    ScanNumericStep("00 +0300", "00", " +0300", Second, 2, p);
    ScanStep("00 +0300", SuffixPart[7..], p, " +0300", p.(second := Some(0)));
    assert SuffixPart[7..][1..] == SuffixPart[8..];
  }

  lemma SuffixStep8(p: Parsed)
    ensures ScanItems(" +0300", SuffixPart[8..], p) == ScanItems("+0300", SuffixPart[9..], p)
  {
    ScanSpaceStep(" +0300", "+0300", p);
    ScanStep(" +0300", SuffixPart[8..], p, "+0300", p);
    assert SuffixPart[8..][1..] == SuffixPart[9..];
  }

  lemma SuffixStep9(p: Parsed)
    ensures ScanItems("+0300", SuffixPart[9..], p) == ScanItems([], SuffixPart[10..], p.(offset := Some(10800)))
  {
    ScanOffsetStep(p);
    ScanStep("+0300", SuffixPart[9..], p, [], p.(offset := Some(10800)));
    assert SuffixPart[9..][1..] == SuffixPart[10..];
  }

  lemma ScanStep(s: string, items: seq<Item>, p: Parsed, r: string, q: Parsed)
    requires items != [] && ScanItem(s, items[0], p) == Some((r, q))
    ensures ScanItems(s, items, p) == ScanItems(r, items[1..], q)
  {
  }

  lemma ScanLiteralStep(s: string, t: string, r: string, p: Parsed)
    requires s == t + r
    ensures ScanItem(s, Literal(t), p) == Some((r, p))
  {
    assert t <= s;
  }

  lemma ScanSpaceStep(s: string, r: string, p: Parsed)
    requires s == " " + r && r != [] && !IsWhitespace(r[0])
    ensures ScanItem(s, Space, p) == Some((r, p))
  {
    assert s[1..] == r;
  }

  /** A numeric item reads a digit run of known length `|ds|`. */
  lemma ScanNumericStep(s: string, ds: string, r: string, f: Field, width: nat, p: Parsed)
    requires s == ds + r && 1 <= |ds| <= width && AllDigits(ds)
    requires |ds| < width && r != [] ==> !IsDigit(r[0])
    ensures ScanItem(s, Numeric(f, width), p) == Some((r, SetField(p, f, DigitsValue(ds))))
  {
    assert s[..|ds|] == ds && s[|ds|..] == r;
    LeadingDigitsExact(s, |ds|, width);
    assert IsDigit(ds[0]);
  }

  lemma DigitsOf1970()
    ensures AllDigits("1970") && DigitsValue("1970") == 1970
  {
    assert "1970"[..3] == "197" && "197"[..2] == "19" && "19"[..1] == "1";
  }

  lemma DigitsOf00()
    ensures AllDigits("00") && DigitsValue("00") == 0
  {
    assert "00"[..1] == "0";
  }

  lemma ScanOffsetStep(p: Parsed)
    ensures ScanItem("+0300", TimezoneOffset, p) == Some(([], p.(offset := Some(10800))))
  {
    var s := "+0300";
    assert s[3..] == "00" && "00"[2..] == [];
  }

  /** `LeadingDigits` finds a digit run of known length `k`. */
  lemma {:induction false} LeadingDigitsExact(s: string, k: nat, max: nat)
    requires k <= max && k <= |s| && AllDigits(s[..k])
    requires k < max && k < |s| ==> !IsDigit(s[k])
    ensures LeadingDigits(s, max) == k
  {
    if k > 0 {
      assert IsDigit(s[..k][0]);
      assert s[1..][..k - 1] == s[..k][1..];
      LeadingDigitsExact(s[1..], k - 1, max - 1);
    } else if max > 0 && s != [] {
      assert !IsDigit(s[0]);
    }
  }
  // ---------------------------------------------------------------------------
  // The birthdays table and the handlers
  // ---------------------------------------------------------------------------

  /** One row of the `birthdays` table, keyed elsewhere by `user_id`. */
  datatype BirthdayRow = BirthdayRow(day: int, month: int, name: string)

  datatype Author = Author(id: nat, name: string)

  /** What a handler reads of the message: its author and its arguments. */
  datatype Message = Message(author: Author, args: seq<string>)

  /** `msg.reply` mentions the caller; `msg.channel_id.say` just posts to the channel. */
  datatype Outgoing = ReplyTo(text: string) | Say(text: string)

  datatype CommandError = DatabaseUnavailable

  datatype CommandResult = Done | Failed(error: CommandError)

  /** The new table, what was sent, and what the handler returned. */
  datatype Outcome = Outcome(rows: map<string, BirthdayRow>, sent: Option<Outgoing>, result: CommandResult)

  const MissingArgumentHint: string := "Provide a valid date in the format dd.mm.!!!"
  const FormatHint: string := "Provide a valid date in the format dd.mm."
  const AlreadyExistsReply: string := "Couldn't add birthday. Probably it already exists."

  /** `args.current()`: the first argument not yet consumed. */
  function Current(args: seq<string>): (a: Option<string>)
    ensures a.Some? <==> args != []
    ensures a.Some? ==> a.value == args[0]
  {
    if args == [] then None else Some(args[0])
  }

  /** The table key: `msg.author.id.0.to_string()`. */
  function UserKey(author: Author): (key: string)
    ensures AllDigits(key) && DigitsValue(key) == author.id
  {
    NatToString(author.id)
  }

  /** `format!("Added {}'s birthday {}.{}", name, day, month)`. */
  function AddedText(name: string, day: nat, month: nat): string
  {
    "Added " + name + "'s birthday " + NatToString(day) + "." + NatToString(month)
  }

  /** Distinct users get distinct table keys, so one user's row never stands for another's. */
  lemma UserKeyInjective(a: Author, b: Author)
    ensures UserKey(a) == UserKey(b) ==> a.id == b.id
  {
    if UserKey(a) == UserKey(b) {
      NatToStringInjective(a.id, b.id);
    }
  }

  /** Every row holds a date of 1970: what `add` writes always does. */
  ghost predicate RowsAreDates(rows: map<string, BirthdayRow>)
  {
    forall key :: key in rows ==> IsDateIn1970(rows[key].day, rows[key].month)
  }

  /** The birthdays table. Its `user_id` key is unique, so an insert for a
      user who already has a row fails and leaves the table as it was; any
      other storage fault fails the same way. */
  class BirthdayTable {
    var rows: map<string, BirthdayRow>

    constructor (initial: map<string, BirthdayRow>)
      ensures rows == initial
    {
      rows := initial;
    }

    /** `INSERT INTO birthdays (user_id, birth_day, birth_month, name) VALUES (?, ?, ?, ?)`. */
    method Insert(userId: string, row: BirthdayRow, storageFault: bool) returns (inserted: bool)
      modifies this
      ensures inserted <==> !storageFault && userId !in old(rows)
      ensures rows == if inserted then old(rows)[userId := row] else old(rows)
    {
      inserted := !storageFault && userId !in rows;
      if inserted {
        rows := rows[userId := row];
      }
    }
  }

  /** What `add` does to a table holding `rows`, when opening the database
      succeeds (`connected`) and the insert meets a fault other than a
      duplicate key (`storageFault`). */
  function AddOutcome(rows: map<string, BirthdayRow>, msg: Message, connected: bool, storageFault: bool): (o: Outcome)
    ensures o.result == Done || o.result == Failed(DatabaseUnavailable)
    ensures o.rows == rows || (UserKey(msg.author) !in rows && o.rows.Keys == rows.Keys + {UserKey(msg.author)})
  {
    match Current(msg.args)
    case None => Outcome(rows, Some(Say(MissingArgumentHint)), Done)
    case Some(token) =>
      match ParseDate(token)
      case None => Outcome(rows, Some(Say(FormatHint)), Done)
      case Some(birthday) =>
        if !connected then Outcome(rows, None, Failed(DatabaseUnavailable))
        else
          var key := UserKey(msg.author);
          if storageFault || key in rows then Outcome(rows, Some(ReplyTo(AlreadyExistsReply)), Done)
          else
            var row := BirthdayRow(birthday.day, birthday.month, msg.author.name);
            Outcome(rows[key := row], Some(Say(AddedText(msg.author.name, birthday.day, birthday.month))), Done)
  }

  /** The `add` sub-command: parse the date, insert the row, tell the caller. */
  method Add(table: BirthdayTable, msg: Message, connected: bool, storageFault: bool)
    returns (sent: Option<Outgoing>, result: CommandResult)
    modifies table
    ensures Outcome(table.rows, sent, result) == AddOutcome(old(table.rows), msg, connected, storageFault)
  {
    var maybeBirthday := Current(msg.args);
    if maybeBirthday.None? {
      return Some(Say(MissingArgumentHint)), Done;
    }
    var parsed := ParseDate(maybeBirthday.value);
    if parsed.None? {
      return Some(Say(FormatHint)), Done;
    }
    if !connected {
      return None, Failed(DatabaseUnavailable);
    }
    var birthday := parsed.value;
    var day, month := birthday.day, birthday.month;
    var userId := UserKey(msg.author);
    var inserted := table.Insert(userId, BirthdayRow(day, month, msg.author.name), storageFault);
    if !inserted {
      sent := Some(ReplyTo(AlreadyExistsReply));
    } else {
      sent := Some(Say(AddedText(msg.author.name, day, month)));
    }
    result := Done;
  }

  /** A date that parses is stored as the token's own day and month, under the
      caller's key, and announced unpadded; the table gains exactly that row. */
  lemma AddStoresToken(rows: map<string, BirthdayRow>, msg: Message, ds: string, ms: string)
    requires Current(msg.args) == Some(ds + "." + ms) && IsDayMonthField(ds) && IsDayMonthField(ms)
    requires IsDateIn1970(DigitsValue(ds), DigitsValue(ms))
    requires UserKey(msg.author) !in rows
    ensures var o := AddOutcome(rows, msg, true, false);
      && o.rows == rows[UserKey(msg.author) := BirthdayRow(DigitsValue(ds), DigitsValue(ms), msg.author.name)]
      && |o.rows| == |rows| + 1
      && o.sent == Some(Say(AddedText(msg.author.name, DigitsValue(ds), DigitsValue(ms))))
      && o.result == Done
  {
    ParseDateOfFields(ds, ms);
  }

  /** `add` changes the table exactly when it sends the confirmation; every
      other reply, and the error it returns when the database cannot be opened
      (the one case in which it sends nothing), leaves the table as it was. */
  lemma AddChangesTableOnlyOnSuccess(rows: map<string, BirthdayRow>, msg: Message, connected: bool, storageFault: bool)
    ensures var o := AddOutcome(rows, msg, connected, storageFault);
      && (o.rows == rows <==>
            o.sent in {None, Some(Say(MissingArgumentHint)), Some(Say(FormatHint)), Some(ReplyTo(AlreadyExistsReply))})
      && (o.result.Failed? <==> o.sent.None?)
  {
    var o := AddOutcome(rows, msg, connected, storageFault);
    if o.rows != rows {
      var b := ParseDate(Current(msg.args).value).value;
      var text := AddedText(msg.author.name, b.day, b.month);
      assert o.sent == Some(Say(text));
      assert text[0] == 'A' && MissingArgumentHint[0] == 'P' && FormatHint[0] == 'P';
    }
  }

  /** The refusals, none of which touches the table: no argument gives the
      `dd.mm.!!!` hint, a token that does not parse gives the `dd.mm.` hint,
      and a database that cannot be opened gives an error and no reply. */
  lemma AddRefusals(rows: map<string, BirthdayRow>, author: Author, token: string, connected: bool, storageFault: bool)
    ensures AddOutcome(rows, Message(author, []), connected, storageFault)
         == Outcome(rows, Some(Say(MissingArgumentHint)), Done)
    ensures ParseDate(token).None? ==>
      forall rest :: AddOutcome(rows, Message(author, [token] + rest), connected, storageFault)
                  == Outcome(rows, Some(Say(FormatHint)), Done)
    ensures ParseDate(token).Some? ==>
      forall rest :: AddOutcome(rows, Message(author, [token] + rest), false, storageFault)
                  == Outcome(rows, None, Failed(DatabaseUnavailable))
  {
  }

  /** The insert-failure branch of `add`: a valid date from a user who already has a row, or an
      insert that meets any other storage fault, gets the "already exists"
      reply and leaves the table as it was. */
  lemma AddConflictReply(rows: map<string, BirthdayRow>, msg: Message, storageFault: bool)
    requires Current(msg.args).Some? && ParseDate(Current(msg.args).value).Some?
    requires UserKey(msg.author) in rows || storageFault
    ensures AddOutcome(rows, msg, true, storageFault) == Outcome(rows, Some(ReplyTo(AlreadyExistsReply)), Done)
  {
  }

  /** A second `add` by the same user fails whatever its date, and keeps the
      table: at most one row per user. */
  lemma AddTwiceConflicts(rows: map<string, BirthdayRow>, first: Message, second: Message, storageFault: bool)
    requires second.author.id == first.author.id
    requires AddOutcome(rows, first, true, false).rows != rows
    requires Current(second.args).Some? && ParseDate(Current(second.args).value).Some?
    ensures var o := AddOutcome(AddOutcome(rows, first, true, false).rows, second, true, storageFault);
      o.rows == AddOutcome(rows, first, true, false).rows && o.sent == Some(ReplyTo(AlreadyExistsReply))
  {
    assert UserKey(second.author) == UserKey(first.author);
  }

  /** `add` only ever writes dates of 1970. */
  lemma AddKeepsRowsDates(rows: map<string, BirthdayRow>, msg: Message, connected: bool, storageFault: bool)
    requires RowsAreDates(rows)
    ensures RowsAreDates(AddOutcome(rows, msg, connected, storageFault).rows)
  {
    var o := AddOutcome(rows, msg, connected, storageFault);
    if o.rows != rows {
      var token := Current(msg.args).value;
      var ds, ms := ParseDateShape(token);
      ParseDateOfFields(ds, ms);
    }
  }

  /** The `{day}.{month}` the confirmation shows is itself a token `add`
      accepts, naming the same day. */
  lemma AddedDateReparses(day: nat, month: nat)
    requires IsDateIn1970(day, month)
    ensures ParseDate(NatToString(day) + "." + NatToString(month))
         == Some(DateTime(1970, month, day, 0, 0, 0, 10800))
  {
    ParseDateOfFields(NatToString(day), NatToString(month));
  }

  /** `add 29.02`: the format hint, nothing stored. */
  lemma AddLeapDayScenario(rows: map<string, BirthdayRow>, author: Author, connected: bool, storageFault: bool)
    ensures AddOutcome(rows, Message(author, ["29.02"]), connected, storageFault)
         == Outcome(rows, Some(Say(FormatHint)), Done)
  {
    LeapDayRejected();
  }

  /** `add 05.07` by a user without a row: the row (5, 7) and the reply
      `Added Ann's birthday 5.7`. */
  lemma AddFifthOfJulyScenario(rows: map<string, BirthdayRow>, id: nat)
    requires NatToString(id) !in rows
    ensures AddOutcome(rows, Message(Author(id, "Ann"), ["05.07"]), true, false)
         == Outcome(rows[NatToString(id) := BirthdayRow(5, 7, "Ann")],
                    Some(Say("Added Ann's birthday 5.7")), Done)
  {
    ParseDateFifthOfJuly();
    AddedTextFifthOfJuly();
  }

  lemma AddedTextFifthOfJuly()
    ensures AddedText("Ann", 5, 7) == "Added Ann's birthday 5.7"
  {
    SingleDigits();
    assert "Added " + "Ann" + "'s birthday " + "5" + "." + "7" == "Added Ann's birthday 5.7";
  }

  lemma SingleDigits()
    ensures NatToString(5) == "5" && NatToString(7) == "7"
  {
  }

  // ---------------------------------------------------------------------------
  // The other sub-commands, which never touch the table
  // ---------------------------------------------------------------------------

  /** The group's sub-commands, as `#[sub_commands(add, edit, remove, mod_menu)]`
      routes them; any other word after `birthday` runs the parent command. */
  datatype SubCommand = Parent | AddDate | EditDate | RemoveDate | ModMenu

  /** The parent `birthday` command. */
  method BirthdayCommand() returns (sent: Option<Outgoing>, result: CommandResult)
    ensures sent == Some(ReplyTo("what???")) && result == Done
  {
    sent, result := Some(ReplyTo("what???")), Done;
  }

  /** `mod_menu`, once the framework has let a caller holding MANAGE_ROLES through. */
  method ModMenuCommand() returns (sent: Option<Outgoing>, result: CommandResult)
    ensures sent == Some(ReplyTo("mod_menu")) && result == Done
  {
    sent, result := Some(ReplyTo("mod_menu")), Done;
  }

  /** `edit` only acknowledges; it changes no row. */
  method EditCommand() returns (sent: Option<Outgoing>, result: CommandResult)
    ensures sent == Some(ReplyTo("edited")) && result == Done
  {
    sent, result := Some(ReplyTo("edited")), Done;
  }

  /** `remove` sends nothing and deletes nothing. */
  method RemoveCommand() returns (sent: Option<Outgoing>, result: CommandResult)
    ensures sent == None && result == Done
  {
    sent, result := None, Done;
  }

  /** Runs one sub-command; only `add` can change the table. */
  method Handle(table: BirthdayTable, command: SubCommand, msg: Message, connected: bool, storageFault: bool)
    returns (sent: Option<Outgoing>, result: CommandResult)
    modifies table
    ensures command == AddDate ==>
      Outcome(table.rows, sent, result) == AddOutcome(old(table.rows), msg, connected, storageFault)
    ensures command != AddDate ==> table.rows == old(table.rows) && result == Done
    ensures command == Parent ==> sent == Some(ReplyTo("what???"))
    ensures command == EditDate ==> sent == Some(ReplyTo("edited"))
    ensures command == RemoveDate ==> sent == None
    ensures command == ModMenu ==> sent == Some(ReplyTo("mod_menu"))
    ensures table.rows != old(table.rows) ==>
      UserKey(msg.author) !in old(table.rows) && table.rows.Keys == old(table.rows).Keys + {UserKey(msg.author)}
  {
    match command
    case Parent => sent, result := BirthdayCommand();
    case AddDate => sent, result := Add(table, msg, connected, storageFault);
    case EditDate => sent, result := EditCommand();
    case RemoveDate => sent, result := RemoveCommand();
    case ModMenu => sent, result := ModMenuCommand();
  }
}
