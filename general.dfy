/** The `general` command group: the colour-code parsing in front of
    `set_role`, and the text of the `commands` usage listing. */
module General {
  import opened Wrappers
  import opened Text

  // ---------------------------------------------------------------------------
  // Colour-code prefixes
  // ---------------------------------------------------------------------------

  /** `PATTERNS`: the prefixes a colour code may start with. */
  const Patterns: seq<string> := ["0x", "#"]

  /** The elements of `patterns` that are prefixes of `code`, in their order. */
  function FilterPrefixes(patterns: seq<string>, code: string): (found: seq<string>)
    ensures |found| <= |patterns|
    ensures forall p :: p in found <==> p in patterns && p <= code
  {
    if patterns == [] then []
    else (if patterns[0] <= code then [patterns[0]] else []) + FilterPrefixes(patterns[1..], code)
  }

  /** Filtering a concatenation filters each part, keeping their order. */
  lemma {:induction false} FilterPrefixesAppend(a: seq<string>, b: seq<string>, code: string)
    ensures FilterPrefixes(a + b, code) == FilterPrefixes(a, code) + FilterPrefixes(b, code)
  {
    if a == [] {
      assert a + b == b;
    } else {
      var head := if a[0] <= code then [a[0]] else [];
      assert (a + b)[0] == a[0] && (a + b)[1..] == a[1..] + b;
      FilterPrefixesAppend(a[1..], b, code);
      assert FilterPrefixes(a + b, code) == head + (FilterPrefixes(a[1..], code) + FilterPrefixes(b, code));
      assert FilterPrefixes(a, code) == head + FilterPrefixes(a[1..], code);
    }
  }

  /** `find_patterns`: the patterns the colour code starts with. */
  function FindPatterns(code: string): (found: seq<string>)
    ensures forall p :: p in found <==> p in Patterns && p <= code
  {
    FilterPrefixes(Patterns, code)
  }

  /** The found patterns come in `PATTERNS` order, and there is at most one:
      no string starts with both `0x` and `#`. */
  lemma FindPatternsAtMostOne(code: string)
    ensures FindPatterns(code) == (if "0x" <= code then ["0x"] else []) + (if "#" <= code then ["#"] else [])
    ensures |FindPatterns(code)| <= 1
  {
    FilterPrefixesAppend(["0x"], ["#"], code);
    assert Patterns == ["0x"] + ["#"];
    if "0x" <= code {
      assert code[0] == "0x"[0] != '#';
    }
  }

  // ---------------------------------------------------------------------------
  // `str::trim_start_matches` with a string pattern
  // ---------------------------------------------------------------------------

  /** Removes every leading repeat of `pattern`; an empty pattern removes nothing. */
  function TrimStartMatches(s: string, pattern: string): (r: string)
    ensures |r| <= |s| && r == s[|s| - |r|..]
    ensures pattern != [] ==> !(pattern <= r)
    decreases |s|
  {
    if pattern == [] || !(pattern <= s) then s else TrimStartMatches(s[|pattern|..], pattern)
  }

  function Repeat(pattern: string, n: nat): string
  {
    if n == 0 then [] else pattern + Repeat(pattern, n - 1)
  }

  /** How many leading repeats of `pattern` `s` has. */
  function LeadingRepeats(s: string, pattern: string): nat
    requires pattern != []
    decreases |s|
  {
    if pattern <= s then 1 + LeadingRepeats(s[|pattern|..], pattern) else 0
  }

  /** What is trimmed is exactly the run of leading repeats. */
  lemma {:induction false} TrimStartMatchesRemovesRepeats(s: string, pattern: string)
    requires pattern != []
    ensures s == Repeat(pattern, LeadingRepeats(s, pattern)) + TrimStartMatches(s, pattern)
    decreases |s|
  {
    if pattern <= s {
      var rest := s[|pattern|..];
      var n := LeadingRepeats(rest, pattern);
      var t := TrimStartMatches(rest, pattern);
      TrimStartMatchesRemovesRepeats(rest, pattern);
      assert LeadingRepeats(s, pattern) == n + 1;
      assert TrimStartMatches(s, pattern) == t;
      assert Repeat(pattern, n + 1) == pattern + Repeat(pattern, n);
      PrefixThenSplit(s, pattern, rest, Repeat(pattern, n), t);
    }
  }

  lemma PrefixThenSplit(s: string, pattern: string, rest: string, u: string, t: string)
    requires pattern <= s && rest == s[|pattern|..] && rest == u + t
    ensures s == (pattern + u) + t
  {
    assert s == pattern + rest;
  }

  /** One more leading repeat trims to the same text: `##34EB61` is `#34EB61`. */
  lemma TrimStartMatchesAbsorbs(s: string, pattern: string)
    requires pattern != []
    ensures TrimStartMatches(pattern + s, pattern) == TrimStartMatches(s, pattern)
  {
    assert pattern <= pattern + s && (pattern + s)[|pattern|..] == s;
  }

  /** Trimming twice is trimming once. */
  lemma TrimStartMatchesIdempotent(s: string, pattern: string)
    ensures TrimStartMatches(TrimStartMatches(s, pattern), pattern) == TrimStartMatches(s, pattern)
  {
  }

  // ---------------------------------------------------------------------------
  // `i32::from_str_radix(src, 16)`
  // ---------------------------------------------------------------------------

  /** Why an integer did not parse (`core::num::IntErrorKind`). */
  datatype IntErrorKind = Empty | InvalidDigit | PosOverflow | NegOverflow

  const I32Min: int := -0x8000_0000
  const I32Max: int := 0x7FFF_FFFF

  /** `char::to_digit(16)`: both letter cases are digits. */
  function HexDigitValue(c: char): (d: Option<nat>)
    ensures d.Some? ==> d.value < 16
  {
    if '0' <= c <= '9' then Some(c as int - '0' as int)
    else if 'a' <= c <= 'f' then Some(c as int - 'a' as int + 10)
    else if 'A' <= c <= 'F' then Some(c as int - 'A' as int + 10)
    else None
  }

  predicate AllHexDigits(s: string)
  {
    forall i :: 0 <= i < |s| ==> HexDigitValue(s[i]).Some?
  }

  /** The number a run of hex digits denotes, most significant first. */
  function HexValue(s: string): nat
    requires AllHexDigits(s)
  {
    if s == [] then 0 else HexValue(s[..|s| - 1]) * 16 + HexDigitValue(s[|s| - 1]).value
  }

  function Pow16(n: nat): (p: nat)
    ensures p >= 1
  {
    if n == 0 then 1 else 16 * Pow16(n - 1)
  }

  /** The leading digit weighs `16^(|s|-1)`. */
  lemma {:induction false} HexValueCons(s: string)
    requires s != [] && AllHexDigits(s)
    ensures HexValue(s) == HexDigitValue(s[0]).value * Pow16(|s| - 1) + HexValue(s[1..])
    decreases |s|
  {
    if |s| > 1 {
      var init := s[..|s| - 1];
      var tail := s[1..];
      assert init[0] == s[0] && init[1..] == tail[..|tail| - 1];
      assert tail[|tail| - 1] == s[|s| - 1];
      HexValueCons(init);
      var d0, last := HexDigitValue(s[0]).value, HexDigitValue(s[|s| - 1]).value;
      var mid := HexValue(init[1..]);
      assert HexValue(s) == HexValue(init) * 16 + last;
      assert HexValue(tail) == mid * 16 + last;
      assert Pow16(|s| - 1) == 16 * Pow16(|s| - 2);
      LeadingWeight(HexValue(s), d0, Pow16(|s| - 2), mid, last);
    } else {
      assert s[..0] == [] && s[1..] == [];
    }
  }

  /** The digit loop for a non-negative number: each step multiplies by 16 and
      adds the digit, failing as soon as the value passes `i32::MAX`. */
  function AccumulatePositive(digits: string, acc: int): (r: Result<int, IntErrorKind>)
    requires 0 <= acc <= I32Max
    ensures r.Ok? ==> 0 <= r.value <= I32Max
  {
    if digits == [] then Ok(acc)
    else
      match HexDigitValue(digits[0])
      case None => Err(InvalidDigit)
      case Some(d) =>
        if acc * 16 + d > I32Max then Err(PosOverflow)
        else AccumulatePositive(digits[1..], acc * 16 + d)
  }

  /** The digit loop after a minus sign: it subtracts each digit, failing as
      soon as the value passes `i32::MIN`. */
  function AccumulateNegative(digits: string, acc: int): (r: Result<int, IntErrorKind>)
    requires I32Min <= acc <= 0
    ensures r.Ok? ==> I32Min <= r.value <= 0
  {
    if digits == [] then Ok(acc)
    else
      match HexDigitValue(digits[0])
      case None => Err(InvalidDigit)
      case Some(d) =>
        if acc * 16 - d < I32Min then Err(NegOverflow)
        else AccumulateNegative(digits[1..], acc * 16 - d)
  }

  /** `i32::from_str_radix(src, 16)`: an optional sign, then hex digits. */
  function FromStrRadix16(src: string): (r: Result<int, IntErrorKind>)
    ensures r.Ok? ==> I32Min <= r.value <= I32Max
  {
    if src == [] then Err(Empty)
    else if (src[0] == '+' || src[0] == '-') && |src| == 1 then Err(InvalidDigit)
    else if src[0] == '+' then AccumulatePositive(src[1..], 0)
    else if src[0] == '-' then AccumulateNegative(src[1..], 0)
    else AccumulatePositive(src, 0)
  }

  lemma LeadingWeight(v: int, d: int, p: int, mid: int, last: int)
    requires v == (d * p + mid) * 16 + last
    ensures v == d * (16 * p) + (mid * 16 + last)
  {
    calc {
      (d * p + mid) * 16 + last;
      (d * p) * 16 + mid * 16 + last;
      { assert (d * p) * 16 == d * (16 * p); }
      d * (16 * p) + (mid * 16 + last);
    }
  }

  lemma ShiftDigit(acc: int, d: int, p: int)
    ensures acc * (16 * p) + d * p == (acc * 16 + d) * p
  {
  }

  lemma ShiftDigitDown(acc: int, d: int, p: int)
    ensures acc * (16 * p) - d * p == (acc * 16 - d) * p
  {
  }

  lemma ScaleGrows(x: int, p: int)
    requires x >= 0 && p >= 1
    ensures x * p >= x && (-x) * p <= -x
  {
  }

  /** The positive loop computes the digits' value, or overflow. */
  lemma {:induction false} AccumulatePositiveValue(digits: string, acc: int)
    requires 0 <= acc <= I32Max && AllHexDigits(digits)
    ensures var v := acc * Pow16(|digits|) + HexValue(digits);
      AccumulatePositive(digits, acc) == if v <= I32Max then Ok(v) else Err(PosOverflow)
    decreases |digits|
  {
    if digits != [] {
      var d := HexDigitValue(digits[0]).value;
      var rest := digits[1..];
      assert AllHexDigits(rest) by {
        assert forall i :: 0 <= i < |rest| ==> rest[i] == digits[i + 1];
      }
      HexValueCons(digits);
      var next := acc * 16 + d;
      ShiftDigit(acc, d, Pow16(|rest|));
      if next <= I32Max {
        AccumulatePositiveValue(rest, next);
      } else {
        ScaleGrows(next, Pow16(|rest|));
      }
    }
  }

  /** The negative loop computes minus the digits' value, or overflow. */
  lemma {:induction false} AccumulateNegativeValue(digits: string, acc: int)
    requires I32Min <= acc <= 0 && AllHexDigits(digits)
    ensures var v := acc * Pow16(|digits|) - HexValue(digits);
      AccumulateNegative(digits, acc) == if v >= I32Min then Ok(v) else Err(NegOverflow)
    decreases |digits|
  {
    if digits != [] {
      var d := HexDigitValue(digits[0]).value;
      var rest := digits[1..];
      assert AllHexDigits(rest) by {
        assert forall i :: 0 <= i < |rest| ==> rest[i] == digits[i + 1];
      }
      HexValueCons(digits);
      var next := acc * 16 - d;
      ShiftDigitDown(acc, d, Pow16(|rest|));
      assert Pow16(|digits|) == 16 * Pow16(|rest|);
      assert acc * Pow16(|digits|) - HexValue(digits) == next * Pow16(|rest|) - HexValue(rest);
      if next >= I32Min {
        AccumulateNegativeValue(rest, next);
      } else {
        ScaleGrows(-next, Pow16(|rest|));
      }
    }
  }

  /** A loop that meets a character that is not a hex digit fails. */
  lemma {:induction false} AccumulateRejectsNonDigit(digits: string, acc: int, neg: bool)
    requires !AllHexDigits(digits)
    requires if neg then I32Min <= acc <= 0 else 0 <= acc <= I32Max
    ensures if neg then AccumulateNegative(digits, acc).Err? else AccumulatePositive(digits, acc).Err?
    decreases |digits|
  {
    if HexDigitValue(digits[0]).Some? {
      var rest := digits[1..];
      assert !AllHexDigits(rest) by {
        var i :| 0 <= i < |digits| && HexDigitValue(digits[i]).None?;
        assert rest[i - 1] == digits[i];
      }
      var d := HexDigitValue(digits[0]).value;
      if neg && acc * 16 - d >= I32Min {
        AccumulateRejectsNonDigit(rest, acc * 16 - d, neg);
      } else if !neg && acc * 16 + d <= I32Max {
        AccumulateRejectsNonDigit(rest, acc * 16 + d, neg);
      }
    }
  }

  /** The positive loop run over `a + b` is the loop over `a`, continued over `b`
      from where it stopped, unless it failed within `a`. */
  lemma {:induction false} AccumulatePositiveAppend(a: string, b: string, acc: int)
    requires 0 <= acc <= I32Max
    ensures AccumulatePositive(a + b, acc) ==
            match AccumulatePositive(a, acc)
            case Ok(w) => AccumulatePositive(b, w)
            case Err(e) => Err(e)
    decreases |a|
  {
    if a == [] {
      assert a + b == b;
    } else {
      assert (a + b)[0] == a[0] && (a + b)[1..] == a[1..] + b;
      if HexDigitValue(a[0]).Some? && acc * 16 + HexDigitValue(a[0]).value <= I32Max {
        AccumulatePositiveAppend(a[1..], b, acc * 16 + HexDigitValue(a[0]).value);
      }
    }
  }

  /** The same for the negative loop. */
  lemma {:induction false} AccumulateNegativeAppend(a: string, b: string, acc: int)
    requires I32Min <= acc <= 0
    ensures AccumulateNegative(a + b, acc) ==
            match AccumulateNegative(a, acc)
            case Ok(w) => AccumulateNegative(b, w)
            case Err(e) => Err(e)
    decreases |a|
  {
    if a == [] {
      assert a + b == b;
    } else {
      assert (a + b)[0] == a[0] && (a + b)[1..] == a[1..] + b;
      if HexDigitValue(a[0]).Some? && acc * 16 - HexDigitValue(a[0]).value >= I32Min {
        AccumulateNegativeAppend(a[1..], b, acc * 16 - HexDigitValue(a[0]).value);
      }
    }
  }

  /** The error a loop meeting its first non-hex character at index `k` gives:
      the overflow error when the digits before it already leave the `i32`
      range (digits are checked, then the value, one character at a time),
      and `InvalidDigit` otherwise. */
  lemma AccumulatePositiveStops(digits: string, acc: int, k: nat)
    requires 0 <= acc <= I32Max
    requires k < |digits| && AllHexDigits(digits[..k]) && HexDigitValue(digits[k]).None?
    ensures var v := acc * Pow16(k) + HexValue(digits[..k]);
      AccumulatePositive(digits, acc) == if v <= I32Max then Err(InvalidDigit) else Err(PosOverflow)
  {
    assert digits == digits[..k] + digits[k..];
    AccumulatePositiveAppend(digits[..k], digits[k..], acc);
    AccumulatePositiveValue(digits[..k], acc);
    assert digits[k..][0] == digits[k];
  }

  lemma AccumulateNegativeStops(digits: string, acc: int, k: nat)
    requires I32Min <= acc <= 0
    requires k < |digits| && AllHexDigits(digits[..k]) && HexDigitValue(digits[k]).None?
    ensures var v := acc * Pow16(k) - HexValue(digits[..k]);
      AccumulateNegative(digits, acc) == if v >= I32Min then Err(InvalidDigit) else Err(NegOverflow)
  {
    assert digits == digits[..k] + digits[k..];
    AccumulateNegativeAppend(digits[..k], digits[k..], acc);
    AccumulateNegativeValue(digits[..k], acc);
    assert digits[k..][0] == digits[k];
  }

  /** Hex digits alone, small enough, read as their value. */
  lemma FromStrRadix16Unsigned(digits: string)
    requires digits != [] && AllHexDigits(digits) && HexValue(digits) <= I32Max
    ensures FromStrRadix16(digits) == Ok(HexValue(digits) as int)
  {
    assert HexDigitValue(digits[0]).Some?;
    assert FromStrRadix16(digits) == AccumulatePositive(digits, 0);
    AccumulatePositiveValue(digits, 0);
  }

  /** The sign `from_str_radix` reads, and the digits after it. */
  function SplitSign(src: string): (bool, string)
  {
    if src != [] && src[0] == '-' then (true, src[1..])
    else if src != [] && src[0] == '+' then (false, src[1..])
    else (false, src)
  }

  /** `from_str_radix` succeeds exactly on an optional sign followed by at
      least one hex digit whose signed value fits an `i32`, and gives that value. */
  lemma FromStrRadix16Exactly(src: string)
    ensures var (neg, digits) := SplitSign(src);
      FromStrRadix16(src).Ok? <==>
        && digits != [] && AllHexDigits(digits)
        && (if neg then HexValue(digits) <= -I32Min else HexValue(digits) <= I32Max)
    ensures var (neg, digits) := SplitSign(src);
      FromStrRadix16(src).Ok? ==>
        var v: int := HexValue(digits);
        FromStrRadix16(src).value == if neg then -v else v
    ensures src == [] ==> FromStrRadix16(src) == Err(Empty)
  {
    var (neg, digits) := SplitSign(src);
    if src != [] && digits != [] {
      if AllHexDigits(digits) {
        if neg {
          AccumulateNegativeValue(digits, 0);
        } else {
          AccumulatePositiveValue(digits, 0);
        }
      } else {
        AccumulateRejectsNonDigit(digits, 0, neg);
      }
    }
  }

  /** When the first non-hex character after the sign is at index `k`, parsing
      fails with the overflow error for the sign if the digits before it are
      already out of range, and with `InvalidDigit` otherwise. */
  lemma FromStrRadix16ErrorKind(src: string, k: nat)
    requires var (neg, digits) := SplitSign(src);
      k < |digits| && AllHexDigits(digits[..k]) && HexDigitValue(digits[k]).None?
    ensures var (neg, digits) := SplitSign(src);
      var v: int := HexValue(digits[..k]);
      FromStrRadix16(src) ==
        if neg then (if -v >= I32Min then Err(InvalidDigit) else Err(NegOverflow))
        else (if v <= I32Max then Err(InvalidDigit) else Err(PosOverflow))
  {
    var (neg, digits) := SplitSign(src);
    if neg {
      AccumulateNegativeStops(digits, 0, k);
    } else {
      AccumulatePositiveStops(digits, 0, k);
    }
  }

  // ---------------------------------------------------------------------------
  // `set_role`, up to the call into `modify_role`
  // ---------------------------------------------------------------------------

  const TwoTo32: int := 0x1_0000_0000

  /** `Color::from(i32)` keeps the value's 32-bit two's-complement pattern. */
  function ColourFromI32(v: int): (c: nat)
    requires I32Min <= v <= I32Max
    ensures c < TwoTo32 && (c - v) % TwoTo32 == 0
    ensures c == v <==> v >= 0
  {
    if v < 0 then v + TwoTo32 else v
  }

  datatype SetRoleError = NoArgumentsParsed | ColourParse(kind: IntErrorKind) | RoleNotAssigned

  const HexHint: string := "Provide a valid argument, in the hex format (#RRGGBB or 0xRRGGBB)"
  const RoleFailedReply: string := "Couldn't assign role. Try again."

  /** What `set_role` itself replies, the colour it hands to `modify_role`
      (if it gets that far), and what it returns. */
  datatype SetRoleOutcome = SetRoleOutcome(reply: Option<string>, colour: Option<nat>, result: Result<(), SetRoleError>)

  /** `set_role` with its one optional argument; `roleAssigned` tells whether
      the role lookup, creation and edits in `modify_role` succeeded. */
  function SetRole(argument: Option<string>, roleAssigned: bool): (o: SetRoleOutcome)
    ensures o.colour.Some? ==> o.colour.value < TwoTo32
    ensures o.result.Ok? ==> o.colour.Some? && o.reply.None?
  {
    var code := argument.GetOr("");
    var found := FindPatterns(code);
    if found == [] then SetRoleOutcome(None, None, Err(NoArgumentsParsed))
    else ColourOutcome(TrimStartMatches(code, found[0]), roleAssigned)
  }

  /** The branch on `i32::from_str_radix(remainder, 16)`. */
  function ColourOutcome(remainder: string, roleAssigned: bool): (o: SetRoleOutcome)
    ensures o.colour.Some? ==> o.colour.value < TwoTo32
    ensures o.result.Ok? ==> o.colour.Some? && o.reply.None?
  {
    match FromStrRadix16(remainder)
    case Err(kind) => SetRoleOutcome(Some(HexHint), None, Err(ColourParse(kind)))
    case Ok(value) =>
      var colour := ColourFromI32(value);
      if roleAssigned then SetRoleOutcome(None, Some(colour), Ok(()))
      else SetRoleOutcome(Some(RoleFailedReply), Some(colour), Err(RoleNotAssigned))
  }

  /** Without `0x` or `#` in front, including a missing argument (read as
      ""), `set_role` reports "No arguments parsed" and replies nothing. */
  lemma SetRoleWithoutPrefix(argument: Option<string>, roleAssigned: bool)
    requires !("0x" <= argument.GetOr("")) && !("#" <= argument.GetOr(""))
    ensures SetRole(argument, roleAssigned) == SetRoleOutcome(None, None, Err(NoArgumentsParsed))
    ensures SetRole(None, roleAssigned) == SetRoleOutcome(None, None, Err(NoArgumentsParsed))
  {
    FindPatternsAtMostOne(argument.GetOr(""));
    FindPatternsAtMostOne("");
  }

  /** For a code starting with `prefix`, what counts is the base-16 value of
      what is left once every leading `prefix` is gone: its colour, or, if it
      is not an `i32`, the format hint and the parse error. */
  lemma SetRoleParsesRemainder(prefix: string, code: string, roleAssigned: bool)
    requires prefix in Patterns && prefix <= code
    ensures SetRole(Some(code), roleAssigned) == ColourOutcome(TrimStartMatches(code, prefix), roleAssigned)
    ensures var o := SetRole(Some(code), roleAssigned);
      match FromStrRadix16(TrimStartMatches(code, prefix))
      case Ok(v) => o.colour == Some(ColourFromI32(v))
                     && (o.result.Ok? <==> roleAssigned)
                     && (o.reply.Some? <==> !roleAssigned)
      case Err(kind) => o == SetRoleOutcome(Some(HexHint), None, Err(ColourParse(kind)))
  {
    FindPatternsAtMostOne(code);
    if prefix == "#" {
      assert code[0] == '#';
    }
  }

  /** A repeated prefix changes nothing: `##34EB61` sets the same colour as `#34EB61`. */
  lemma SetRoleRepeatedPrefix(prefix: string, code: string, roleAssigned: bool)
    requires prefix in Patterns && prefix <= code
    ensures SetRole(Some(prefix + code), roleAssigned) == SetRole(Some(code), roleAssigned)
  {
    assert prefix <= prefix + code;
    SetRoleParsesRemainder(prefix, code, roleAssigned);
    SetRoleParsesRemainder(prefix, prefix + code, roleAssigned);
    TrimStartMatchesAbsorbs(code, prefix);
  }

  /** `#` or `0x` and hex digits whose value fits an `i32` give that colour. */
  lemma SetRoleHexColour(prefix: string, digits: string, roleAssigned: bool)
    requires prefix in Patterns && digits != [] && AllHexDigits(digits) && HexValue(digits) <= I32Max
    ensures SetRole(Some(prefix + digits), roleAssigned).colour == Some(HexValue(digits))
  {
    var code := prefix + digits;
    assert prefix <= code;
    assert TrimStartMatches(code, prefix) == digits by {
      TrimStartMatchesAbsorbs(digits, prefix);
      HexDigitsStartWithNoPattern(prefix, digits);
    }
    FromStrRadix16Unsigned(digits);
    SetRoleParsesRemainder(prefix, code, roleAssigned);
  }

  /** Neither pattern starts a run of hex digits: `x` and `#` are not digits. */
  lemma HexDigitsStartWithNoPattern(prefix: string, digits: string)
    requires prefix in Patterns && AllHexDigits(digits)
    ensures !(prefix <= digits)
  {
    var last := |prefix| - 1;
    assert HexDigitValue(prefix[last]).None?;
    if |prefix| <= |digits| {
      assert HexDigitValue(digits[last]).Some?;
    }
  }

  /** The usage example `#34EB61` is the colour 0x34EB61. */
  lemma SetRoleUsageExample(code: string, roleAssigned: bool)
    requires code == "#34EB61"
    ensures SetRole(Some(code), roleAssigned).colour == Some(0x34EB61)
  {
    var digits := "34EB61";
    HexValueOfExample();
    assert code == "#" + digits;
    SetRoleHexColour("#", digits, roleAssigned);
  }

  /** `##34EB61` does what `#34EB61` does. */
  lemma SetRoleDoubledHashExample(code: string, doubled: string, roleAssigned: bool)
    requires code == "#34EB61" && doubled == "##34EB61"
    ensures SetRole(Some(doubled), roleAssigned) == SetRole(Some(code), roleAssigned)
  {
    assert doubled == "#" + code;
    SetRoleRepeatedPrefix("#", code, roleAssigned);
  }

  lemma HexValueOfExample()
    ensures AllHexDigits("34EB61") && HexValue("34EB61") == 0x34EB61
  {
    var digits := "34EB61";
    assert digits[..5] == "34EB6" && "34EB6"[..4] == "34EB" && "34EB"[..3] == "34E"
        && "34E"[..2] == "34" && "34"[..1] == "3" && "3"[..0] == [];
  }

  // ---------------------------------------------------------------------------
  // `commands`: the usage listing
  // ---------------------------------------------------------------------------

  const CommandsHeader: string := "Commands used:\n"

  /** `writeln!(contents, "- {name}: {amount}", ...)`. */
  function CounterLine(name: string, amount: nat): string
  {
    "- " + name + ": " + NatToString(amount) + "\n"
  }

  /** The lines for the counter's entries, taken in the order `order` lists their names. */
  function CounterLines(order: seq<string>, counter: map<string, nat>): string
    requires forall i :: 0 <= i < |order| ==> order[i] in counter
  {
    if order == [] then []
    else CounterLine(order[0], counter[order[0]]) + CounterLines(order[1..], counter)
  }

  /** `order` lists every name of the counter once: one way to iterate over it. */
  ghost predicate IsIterationOrder(order: seq<string>, counter: map<string, nat>)
  {
    && (forall i, j :: 0 <= i < j < |order| ==> order[i] != order[j])
    && (forall name :: name in order <==> name in counter)
  }

  /** Adding one more entry adds one more line at the end. */
  lemma {:induction false} CounterLinesSnoc(order: seq<string>, name: string, counter: map<string, nat>)
    requires forall i :: 0 <= i < |order| ==> order[i] in counter
    requires name in counter
    ensures CounterLines(order + [name], counter) == CounterLines(order, counter) + CounterLine(name, counter[name])
  {
    if order == [] {
      assert order + [name] == [name];
    } else {
      assert (order + [name])[0] == order[0] && (order + [name])[1..] == order[1..] + [name];
      CounterLinesSnoc(order[1..], name, counter);
    }
  }

  /** The text `commands` posts: the header, then one line per counter entry,
      in the map's (unspecified) iteration order, which it returns as `order`. */
  method CommandsText(counter: map<string, nat>) returns (contents: string, order: seq<string>)
    ensures IsIterationOrder(order, counter) && |order| == |counter|
    ensures contents == CommandsHeader + CounterLines(order, counter)
  {
    contents := CommandsHeader;
    order := [];
    var remaining := counter.Keys;
    while remaining != {}
      invariant Listing(order, remaining, counter)
      invariant contents == CommandsHeader + CounterLines(order, counter)
      decreases |remaining|
    {
      var name :| name in remaining;
      ghost var lines := CounterLines(order, counter);
      var line := CounterLine(name, counter[name]);
      CounterLinesSnoc(order, name, counter);
      ListingStep(order, remaining, counter, name);
      assert contents + line == CommandsHeader + (lines + line);
      contents := contents + line;
      order := order + [name];
      remaining := remaining - {name};
    }
    ListingDone(order, counter);
  }

  /** Part way through the loop: `order` lists, once each, the names no longer `remaining`. */
  ghost predicate Listing(order: seq<string>, remaining: set<string>, counter: map<string, nat>)
  {
    && remaining <= counter.Keys
    && (forall i :: 0 <= i < |order| ==> order[i] in counter && order[i] !in remaining)
    && (forall i, j :: 0 <= i < j < |order| ==> order[i] != order[j])
    && (forall name :: name in counter ==> name in remaining || name in order)
    && |order| + |remaining| == |counter|
  }

  lemma ListingStep(order: seq<string>, remaining: set<string>, counter: map<string, nat>, name: string)
    requires Listing(order, remaining, counter) && name in remaining
    ensures Listing(order + [name], remaining - {name}, counter)
  {
    var order' := order + [name];
    assert forall i :: 0 <= i < |order| ==> order'[i] == order[i];
    assert |remaining - {name}| == |remaining| - 1;
    assert forall x :: x in order ==> x in order';
  }

  lemma ListingDone(order: seq<string>, counter: map<string, nat>)
    requires Listing(order, {}, counter)
    ensures IsIterationOrder(order, counter) && |order| == |counter|
  {
  }

  function CountChar(s: string, c: char): nat
  {
    if s == [] then 0 else (if s[0] == c then 1 else 0) + CountChar(s[1..], c)
  }

  lemma {:induction false} CountCharAppend(a: string, b: string, c: char)
    ensures CountChar(a + b, c) == CountChar(a, c) + CountChar(b, c)
  {
    if a == [] {
      assert a + b == b;
    } else {
      assert (a + b)[0] == a[0] && (a + b)[1..] == a[1..] + b;
      CountCharAppend(a[1..], b, c);
    }
  }

  /** When no command name holds a line break, the listing has exactly one
      line per entry after the header. */
  lemma {:induction false} CounterLinesAreLines(order: seq<string>, counter: map<string, nat>)
    requires forall i :: 0 <= i < |order| ==> order[i] in counter && '\n' !in order[i]
    ensures CountChar(CounterLines(order, counter), '\n') == |order|
  {
    if order != [] {
      var name := order[0];
      var digits := NatToString(counter[name]);
      CountCharAppend("- " + name + ": " + digits + "\n", CounterLines(order[1..], counter), '\n');
      CountCharAppend("- " + name + ": " + digits, "\n", '\n');
      CountCharAppend("- " + name + ": ", digits, '\n');
      CountCharAppend("- " + name, ": ", '\n');
      CountCharAppend("- ", name, '\n');
      NoLineBreak(name);
      NoLineBreak(digits);
      CounterLinesAreLines(order[1..], counter);
    }
  }

  lemma {:induction false} NoLineBreak(s: string)
    requires '\n' !in s
    ensures CountChar(s, '\n') == 0
  {
    if s != [] {
      assert s[0] in s;
      assert forall x :: x in s[1..] ==> x in s;
      NoLineBreak(s[1..]);
    }
  }
}
