/**
 * `parse_date` of index.py: the stripped text is tried against seven
 * strptime formats in a fixed order, and the first that matches, with a
 * real calendar date, decides the result, written as YYYY-MM-DD.
 *
 * Each format is a sequence of directives. A numeric directive takes the
 * longest run of digits at the front and accepts it when its length and
 * value are in the directive's range. This is what strptime's regular
 * expression does here, because every numeric directive of these formats is
 * followed by a non-digit or by the end of the text.
 */
module Dates {
  import opened Wrappers
  import opened Text
  import opened Numbers

  // ---------------------------------------------------------------------
  // The calendar

  predicate IsLeapYear(y: int) {
    y % 4 == 0 && (y % 100 != 0 || y % 400 == 0)
  }

  function DaysInMonth(y: int, m: int): (n: int)
    requires 1 <= m <= 12
    ensures 28 <= n <= 31
    ensures m == 2 ==> (n == 29 <==> y % 4 == 0 && (y % 100 != 0 || y % 400 == 0))
    ensures m != 2 ==> n >= 30
    ensures n == 30 <==> m == 4 || m == 6 || m == 9 || m == 11
    ensures n == 31 <==> m == 1 || m == 3 || m == 5 || m == 7 || m == 8 || m == 10 || m == 12
  {
    if m == 2 then (if IsLeapYear(y) then 29 else 28)
    else if m == 4 || m == 6 || m == 9 || m == 11 then 30
    else 31
  }

  /** A date `datetime` accepts (years 1 to 9999). */
  predicate IsCalendarDate(y: int, m: int, d: int) {
    1 <= y <= 9999 && 1 <= m <= 12 && 1 <= d <= DaysInMonth(y, m)
  }

  // ---------------------------------------------------------------------
  // Writing a date as YYYY-MM-DD

  function DigitChar(n: nat): (c: char)
    requires n <= 9
    ensures IsDecimal(c) && DigitValue(c) == n
  {
    ('0' as int + n) as char
  }

  /** `n` as two digits, zero-padded. */
  function Digits2(n: nat): (s: string)
    requires n < 100
    ensures |s| == 2 && AllDecimal(s) && DigitsValue(s) == n
  {
    var s := [DigitChar(n / 10), DigitChar(n % 10)];
    assert s[..1][..0] == [];
    assert DigitsValue(s[..1]) == n / 10;
    s
  }

  /** `n` as four digits, zero-padded. */
  function Digits4(n: nat): (s: string)
    requires n < 10000
    ensures |s| == 4 && AllDecimal(s) && DigitsValue(s) == n
  {
    var s := Digits2(n / 100) + Digits2(n % 100);
    DigitsValueAppend2(Digits2(n / 100), Digits2(n % 100));
    s
  }

  /** Appending two digits multiplies the value by a hundred. */
  lemma DigitsValueAppend2(a: string, b: string)
    requires AllDecimal(a) && |b| == 2 && AllDecimal(b)
    ensures AllDecimal(a + b) && DigitsValue(a + b) == DigitsValue(a) * 100 + DigitsValue(b)
  {
    var ab := a + b;
    assert ab[..|ab| - 1] == a + b[..1];
    assert (a + b[..1])[..|a|] == a;
    assert b[..1][..0] == [];
    assert DigitsValue(b[..1]) == DigitValue(b[0]);
  }

  /** strftime('%Y-%m-%d'). */
  function IsoDate(y: nat, m: nat, d: nat): (s: string)
    requires y < 10000 && m < 100 && d < 100
    ensures |s| == 10
  {
    Digits4(y) + "-" + Digits2(m) + "-" + Digits2(d)
  }

  /** The shape of what `parse_date` returns: YYYY-MM-DD naming a real
      calendar date. */
  predicate IsIsoDate(s: string) {
    && |s| == 10 && s[4] == '-' && s[7] == '-'
    && AllDecimal(s[..4]) && AllDecimal(s[5..7]) && AllDecimal(s[8..])
    && IsCalendarDate(DigitsValue(s[..4]), DigitsValue(s[5..7]), DigitsValue(s[8..]))
  }

  lemma IsoDateIsIsoDate(y: nat, m: nat, d: nat)
    requires IsCalendarDate(y, m, d)
    ensures IsIsoDate(IsoDate(y, m, d))
  {
    var s := IsoDate(y, m, d);
    assert s[..4] == Digits4(y);
    assert s[5..7] == Digits2(m);
    assert s[8..] == Digits2(d);
  }

  /** Two digits written back from their value are the same two digits. */
  lemma Digits2OfValue(s: string)
    requires |s| == 2 && AllDecimal(s)
    ensures DigitsValue(s) < 100 && Digits2(DigitsValue(s)) == s
  {
    assert s[..1][..0] == [];
    var a, b := DigitValue(s[0]), DigitValue(s[1]);
    assert s[..|s| - 1] == s[..1];
    assert DigitsValue(s[..1]) == a;
    assert DigitsValue(s) == a * 10 + b;
    assert (a * 10 + b) / 10 == a && (a * 10 + b) % 10 == b;
    assert DigitChar(a) == s[0] && DigitChar(b) == s[1];
  }

  lemma Digits4OfValue(s: string)
    requires |s| == 4 && AllDecimal(s)
    ensures DigitsValue(s) < 10000 && Digits4(DigitsValue(s)) == s
  {
    var a, b := s[..2], s[2..];
    assert s == a + b;
    DigitsValueAppend2(a, b);
    Digits2OfValue(a);
    Digits2OfValue(b);
    DivMod100(DigitsValue(a), DigitsValue(b));
  }

  lemma DivMod100(x: nat, y: nat)
    requires y < 100
    ensures (x * 100 + y) / 100 == x && (x * 100 + y) % 100 == y
  {
  }

  /** Every text of the returned shape is `IsoDate` of the date it names. */
  lemma IsIsoDateIsIsoDate(s: string)
    requires IsIsoDate(s)
    ensures IsoDate(DigitsValue(s[..4]), DigitsValue(s[5..7]), DigitsValue(s[8..])) == s
  {
    Digits4OfValue(s[..4]);
    Digits2OfValue(s[5..7]);
    Digits2OfValue(s[8..]);
    assert s == s[..4] + "-" + s[5..7] + "-" + s[8..];
  }

  // ---------------------------------------------------------------------
  // The formats

  /** One directive, or one literal character, of a strptime format. */
  datatype Directive =
    | Year      // %Y: four digits
    | Month     // %m: 1 to 12
    | Day       // %d: 1 to 31, also written as a space and one digit
    | Hour24    // %H: 0 to 23
    | Hour12    // %I: 1 to 12
    | Minute    // %M: 0 to 59
    | Second    // %S: 0 to 61 (datetime then refuses 60 and 61)
    | AmPm      // %p: am or pm, in any case
    | Gap       // a space in the format: one or more whitespace characters
    | Lit(c: char)

  type Format = seq<Directive>

  const YmdDash: Format := [Year, Lit('-'), Month, Lit('-'), Day]
  const YmdSlash: Format := [Year, Lit('/'), Month, Lit('/'), Day]
  const Mdy: Format := [Month, Lit('/'), Day, Lit('/'), Year]
  const Dmy: Format := [Day, Lit('/'), Month, Lit('/'), Year]
  const MdyHm: Format := Mdy + [Gap, Hour24, Lit(':'), Minute]
  const MdyHms: Format := Mdy + [Gap, Hour24, Lit(':'), Minute, Lit(':'), Second]
  const MdyHmp: Format := Mdy + [Gap, Hour12, Lit(':'), Minute, Gap, AmPm]

  /** DATE_FORMATS, in the order `parse_date` tries them. */
  const DateFormats: seq<Format> := [YmdDash, YmdSlash, Mdy, Dmy, MdyHm, MdyHms, MdyHmp]

  // ---------------------------------------------------------------------
  // Matching one format

  /** The number of decimal digits at the front of `s`. */
  function DigitRun(s: string): (n: nat)
    ensures n <= |s| && AllDecimal(s[..n])
    ensures n < |s| ==> !IsDecimal(s[n])
  {
    if |s| > 0 && IsDecimal(s[0]) then
      var n := 1 + DigitRun(s[1..]);
      assert s[..n] == [s[0]] + s[1..][..n - 1];
      n
    else 0
  }

  /** The number of whitespace characters at the front of `s`. */
  function SpaceRun(s: string): (n: nat)
    ensures n <= |s|
  {
    if |s| > 0 && IsSpace(s[0]) then 1 + SpaceRun(s[1..]) else 0
  }

  /** The run is all whitespace, and it is maximal: what a `\s+` gap
      takes. */
  lemma {:induction false} SpaceRunIsSpaces(s: string)
    ensures AllSpace(s[..SpaceRun(s)])
    ensures SpaceRun(s) < |s| ==> !IsSpace(s[SpaceRun(s)])
    decreases |s|
  {
    if |s| > 0 && IsSpace(s[0]) {
      SpaceRunIsSpaces(s[1..]);
      assert s[..SpaceRun(s)] == [s[0]] + s[1..][..SpaceRun(s[1..])];
    }
  }

  /** A numeric directive: the digits at the front, between `minLen` and
      `maxLen` of them, valued between `lo` and `hi`. */
  function Number(s: string, minLen: nat, maxLen: nat, lo: int, hi: int): (r: Option<(int, nat)>)
    requires 0 < minLen
    ensures r.Some? ==> minLen <= r.value.1 <= maxLen && r.value.1 <= |s| && lo <= r.value.0 <= hi
  {
    var n := DigitRun(s);
    if minLen <= n <= maxLen && lo <= DigitsValue(s[..n]) <= hi then Some((DigitsValue(s[..n]), n))
    else None
  }

  function AsciiLower(c: char): char {
    if 'A' <= c <= 'Z' then (c as int + 32) as char else c
  }

  /** What directive `d` reads at the front of `s`: its value and how many
      characters it takes. */
  function Consume(d: Directive, s: string): (r: Option<(int, nat)>)
    ensures r.Some? ==> 0 < r.value.1 <= |s|
  {
    match d
    case Year => Number(s, 4, 4, 0, 9999)
    case Month => Number(s, 1, 2, 1, 12)
    case Day =>
      if |s| >= 2 && s[0] == ' ' && '1' <= s[1] <= '9' && DigitRun(s[1..]) == 1 then Some((DigitValue(s[1]), 2))
      else Number(s, 1, 2, 1, 31)
    case Hour24 => Number(s, 1, 2, 0, 23)
    case Hour12 => Number(s, 1, 2, 1, 12)
    case Minute => Number(s, 1, 2, 0, 59)
    case Second => Number(s, 1, 2, 0, 61)
    case AmPm =>
      if |s| >= 2 && (AsciiLower(s[0]) == 'a' || AsciiLower(s[0]) == 'p') && AsciiLower(s[1]) == 'm' then Some((0, 2))
      else None
    case Gap => var n := SpaceRun(s); if n > 0 then Some((0, n)) else None
    case Lit(c) => if |s| > 0 && s[0] == c then Some((0, 1)) else None
  }

  /** The fields a match has read so far, starting from strptime's defaults. */
  datatype Parts = Parts(year: int, month: int, day: int, second: int)

  const Defaults := Parts(1900, 1, 1, 0)

  function Store(p: Parts, d: Directive, v: int): Parts {
    match d
    case Year => p.(year := v)
    case Month => p.(month := v)
    case Day => p.(day := v)
    case Second => p.(second := v)
    case _ => p
  }

  /** The whole of `s` matches `fmt`; the fields read on the way. */
  function Match(fmt: Format, s: string, p: Parts): Option<Parts>
    decreases |fmt|
  {
    if |fmt| == 0 then (if |s| == 0 then Some(p) else None)
    else
      match Consume(fmt[0], s)
      case None => None
      case Some((v, n)) => Match(fmt[1..], s[n..], Store(p, fmt[0], v))
  }

  /** `datetime.strptime(s, fmt).strftime('%Y-%m-%d')`, or None where it
      raises. */
  function ParseWith(fmt: Format, s: string): (r: Option<string>)
    ensures r.Some? ==> IsIsoDate(r.value)
  {
    match Match(fmt, s, Defaults)
    case None => None
    case Some(p) =>
      if IsCalendarDate(p.year, p.month, p.day) && 0 <= p.second <= 59 then
        IsoDateIsIsoDate(p.year, p.month, p.day);
        Some(IsoDate(p.year, p.month, p.day))
      else None
  }

  // ---------------------------------------------------------------------
  // The first-match search

  /** The loop of `parse_date`: the first format that succeeds decides. */
  function FirstMatch(fmts: seq<Format>, s: string): (r: Option<string>)
    ensures r.Some? ==> IsIsoDate(r.value)
  {
    if |fmts| == 0 then None
    else
      match ParseWith(fmts[0], s)
      case Some(r) => Some(r)
      case None => FirstMatch(fmts[1..], s)
  }

  /** `parse_date`: the seven formats tried in order on the stripped text. */
  function ParseDate(raw: string): (r: Option<string>)
    ensures r.Some? ==> IsIsoDate(r.value)
  {
    FirstMatch(DateFormats, Strip(raw))
  }

  /** The result of the search is what the first format that succeeds
      gives, */
  lemma {:induction false} FirstMatchPicks(fmts: seq<Format>, s: string, i: nat)
    requires i < |fmts| && ParseWith(fmts[i], s).Some?
    requires forall j | 0 <= j < i :: ParseWith(fmts[j], s).None?
    ensures FirstMatch(fmts, s) == ParseWith(fmts[i], s)
    decreases i
  {
    if i > 0 {
      var rest := fmts[1..];
      assert ParseWith(fmts[0], s).None?;
      assert rest[i - 1] == fmts[i];
      forall j | 0 <= j < i - 1 ensures ParseWith(rest[j], s).None? {
        assert rest[j] == fmts[j + 1];
      }
      FirstMatchPicks(rest, s, i - 1);
    }
  }

  /** and nothing when none does. */
  lemma {:induction false} FirstMatchNone(fmts: seq<Format>, s: string)
    requires forall i | 0 <= i < |fmts| :: ParseWith(fmts[i], s).None?
    ensures FirstMatch(fmts, s).None?
    decreases |fmts|
  {
    if |fmts| > 0 {
      var rest := fmts[1..];
      assert ParseWith(fmts[0], s).None?;
      forall j | 0 <= j < |rest| ensures ParseWith(rest[j], s).None? {
        assert rest[j] == fmts[j + 1];
      }
      FirstMatchNone(rest, s);
    }
  }

  /** Whatever the search returns, some format gave it and every earlier
      one failed. */
  lemma FirstMatchFound(fmts: seq<Format>, s: string)
    requires FirstMatch(fmts, s).Some?
    ensures exists i | 0 <= i < |fmts| ::
              ParseWith(fmts[i], s) == FirstMatch(fmts, s) && forall j | 0 <= j < i :: ParseWith(fmts[j], s).None?
  {
    var i := FirstMatchIndex(fmts, s);
  }

  /** The position of the format that gave the result. */
  lemma {:induction false} FirstMatchIndex(fmts: seq<Format>, s: string) returns (i: nat)
    requires FirstMatch(fmts, s).Some?
    ensures i < |fmts| && ParseWith(fmts[i], s) == FirstMatch(fmts, s)
    ensures forall j | 0 <= j < i :: ParseWith(fmts[j], s).None?
    decreases |fmts|
  {
    if ParseWith(fmts[0], s).Some? {
      i := 0;
    } else {
      var rest := fmts[1..];
      assert FirstMatch(fmts, s) == FirstMatch(rest, s);
      var k := FirstMatchIndex(rest, s);
      i := k + 1;
      assert rest[k] == fmts[i];
      forall j | 0 <= j < i ensures ParseWith(fmts[j], s).None? {
        if j > 0 {
          assert fmts[j] == rest[j - 1];
        }
      }
    }
  }
}

module DateFacts {
  import opened Wrappers
  import opened Text
  import opened Numbers
  import opened Dates

  /** The digit run at the front of `t + rest` is `t` when `rest` does not
      start with a digit. */
  lemma {:induction false} DigitRunOf(t: string, rest: string)
    requires AllDecimal(t) && (|rest| == 0 || !IsDecimal(rest[0]))
    ensures DigitRun(t + rest) == |t| && (t + rest)[..|t|] == t
    decreases |t|
  {
    if |t| > 0 {
      assert (t + rest)[1..] == t[1..] + rest;
      DigitRunOf(t[1..], rest);
    } else {
      assert t + rest == rest;
    }
  }

  lemma NumberOf(t: string, rest: string, minLen: nat, maxLen: nat, lo: int, hi: int)
    requires 0 < minLen && AllDecimal(t) && (|rest| == 0 || !IsDecimal(rest[0]))
    ensures Number(t + rest, minLen, maxLen, lo, hi)
         == if minLen <= |t| <= maxLen && lo <= DigitsValue(t) <= hi then Some((DigitsValue(t), |t|)) else None
  {
    DigitRunOf(t, rest);
  }

  /** Two numbers and a year separated by slashes, as `m/d/Y` or `d/m/Y`
      reads them. */
  function Slashed(a: nat, b: nat, y: nat): string
    requires a < 100 && b < 100 && y < 10000
  {
    Digits2(a) + "/" + Digits2(b) + "/" + Digits4(y)
  }

  /** `a/b/yyyy` followed by `rest`, cut after its first number. */
  lemma SlashedSplit(a: nat, b: nat, y: nat, rest: string)
    requires a < 100 && b < 100 && y < 10000
    ensures Slashed(a, b, y) + rest == Digits2(a) + ("/" + (Digits2(b) + ("/" + (Digits4(y) + rest))))
  {
  }

  /** The last step of both slashed formats: `/%Y` reads a slash and four
      digits followed by a non-digit or the end. */
  lemma MatchSlashYear(y: nat, tail: Format, rest: string, p: Parts)
    requires y < 10000
    requires |rest| == 0 || !IsDecimal(rest[0])
    ensures Match([Lit('/'), Year] + tail, "/" + (Digits4(y) + rest), p) == Match(tail, rest, p.(year := y))
  {
    var f := [Lit('/'), Year] + tail;
    var Yr := Digits4(y) + rest;
    assert f[0] == Lit('/') && f[1..][0] == Year && f[2..] == tail;
    assert ("/" + Yr)[1..] == Yr;
    NumberOf(Digits4(y), rest, 4, 4, 0, 9999);
    assert Yr[4..] == rest;
  }

  /** Reading `a/b/yyyy`, followed by a `rest` that does not start with a
      digit, with a format that starts as `%m/%d/%Y`. */
  lemma MatchSlashedMdy(a: nat, b: nat, y: nat, tail: Format, rest: string)
    requires a < 100 && b < 100 && y < 10000
    requires |rest| == 0 || !IsDecimal(rest[0])
    ensures Match(Mdy + tail, Slashed(a, b, y) + rest, Defaults)
         == if 1 <= a <= 12 && 1 <= b <= 31 then Match(tail, rest, Parts(y, a, b, 0)) else None
  {
    var r2 := "/" + (Digits4(y) + rest);
    var r1 := Digits2(b) + r2;
    var t2 := [Lit('/'), Year] + tail;
    var t1 := [Day] + t2;
    var p1 := Defaults.(month := a);
    assert Match(Mdy + tail, Slashed(a, b, y) + rest, Defaults)
        == if 1 <= a <= 12 then Match([Lit('/')] + t1, "/" + r1, p1) else None by {
      SlashedSplit(a, b, y, rest);
      MdySplit(tail);
      MatchTwoDigits(Month, a, [Lit('/')] + t1, "/" + r1, Defaults);
    }
    MatchLit('/', t1, r1, p1);
    assert Match(t1, r1, p1) == if 1 <= b <= 31 then Match(t2, r2, p1.(day := b)) else None by {
      MatchTwoDigits(Day, b, t2, r2, p1);
    }
    MatchSlashYear(y, tail, rest, p1.(day := b));
  }

  /** Reading `a/b/yyyy`, followed by a `rest` that does not start with a
      digit, with a format that starts as `%d/%m/%Y`. */
  lemma MatchSlashedDmy(a: nat, b: nat, y: nat, tail: Format, rest: string)
    requires a < 100 && b < 100 && y < 10000
    requires |rest| == 0 || !IsDecimal(rest[0])
    ensures Match(Dmy + tail, Slashed(a, b, y) + rest, Defaults)
         == if 1 <= a <= 31 && 1 <= b <= 12 then Match(tail, rest, Parts(y, b, a, 0)) else None
  {
    var r1 := Digits2(b) + ("/" + (Digits4(y) + rest));
    var t1 := [Month, Lit('/'), Year] + tail;
    var p1 := Defaults.(day := a);
    assert Match(Dmy + tail, Slashed(a, b, y) + rest, Defaults)
        == if 1 <= a <= 31 then Match([Lit('/')] + t1, "/" + r1, p1) else None by {
      SlashedSplit(a, b, y, rest);
      DmySplit(tail);
      MatchTwoDigits(Day, a, [Lit('/')] + t1, "/" + r1, Defaults);
    }
    MatchLit('/', t1, r1, p1);
    MatchMonthYear(b, y, tail, rest, p1);
  }

  /** `%m/%d/%Y`, then `tail`, one directive at a time. */
  lemma MdySplit(tail: Format)
    ensures Mdy + tail == [Month] + ([Lit('/')] + ([Day] + ([Lit('/'), Year] + tail)))
  {
  }

  /** `%d/%m/%Y`, then `tail`, one directive at a time. */
  lemma DmySplit(tail: Format)
    ensures Dmy + tail == [Day] + ([Lit('/')] + ([Month, Lit('/'), Year] + tail))
  {
  }

  /** A literal character reads itself. */
  lemma MatchLit(c: char, tail: Format, rest: string, p: Parts)
    ensures Match([Lit(c)] + tail, [c] + rest, p) == Match(tail, rest, p)
  {
    assert ([Lit(c)] + tail)[0] == Lit(c) && ([Lit(c)] + tail)[1..] == tail;
    assert ([c] + rest)[1..] == rest;
  }

  /** The end of `%d/%m/%Y`: `%m/%Y`. */
  lemma MatchMonthYear(b: nat, y: nat, tail: Format, rest: string, p: Parts)
    requires b < 100 && y < 10000
    requires |rest| == 0 || !IsDecimal(rest[0])
    ensures Match([Month, Lit('/'), Year] + tail, Digits2(b) + ("/" + (Digits4(y) + rest)), p)
         == if 1 <= b <= 12 then Match(tail, rest, p.(month := b).(year := y)) else None
  {
    var t := [Lit('/'), Year] + tail;
    assert [Month, Lit('/'), Year] + tail == [Month] + t;
    MatchTwoDigits(Month, b, t, "/" + (Digits4(y) + rest), p);
    MatchSlashYear(y, tail, rest, p.(month := b));
  }

  /** The range of a numeric directive of one or two digits. */
  predicate InRange(d: Directive, x: int) {
    match d
    case Month => 1 <= x <= 12
    case Day => 1 <= x <= 31
    case Hour24 => 0 <= x <= 23
    case Hour12 => 1 <= x <= 12
    case Minute => 0 <= x <= 59
    case Second => 0 <= x <= 61
    case _ => false
  }

  /** A numeric directive of one or two digits on two digits followed by a
      non-digit. */
  lemma MatchTwoDigits(d: Directive, x: nat, tail: Format, rest: string, p: Parts)
    requires d.Month? || d.Day? || d.Hour24? || d.Hour12? || d.Minute? || d.Second?
    requires x < 100 && (|rest| == 0 || !IsDecimal(rest[0]))
    ensures Match([d] + tail, Digits2(x) + rest, p)
         == if InRange(d, x) then Match(tail, rest, Store(p, d, x)) else None
  {
    var X := Digits2(x);
    assert ([d] + tail)[0] == d && ([d] + tail)[1..] == tail;
    assert (X + rest)[2..] == rest;
    assert (X + rest)[0] != ' ';
    match d
    case Month => NumberOf(X, rest, 1, 2, 1, 12);
    case Day => NumberOf(X, rest, 1, 2, 1, 31);
    case Hour24 => NumberOf(X, rest, 1, 2, 0, 23);
    case Hour12 => NumberOf(X, rest, 1, 2, 1, 12);
    case Minute => NumberOf(X, rest, 1, 2, 0, 59);
    case Second => NumberOf(X, rest, 1, 2, 0, 61);
  }

  /** A text that starts with two digits matches neither `%Y-%m-%d` nor
      `%Y/%m/%d`. */
  lemma SlashedIsNotYearFirst(a: nat, b: nat, y: nat, rest: string)
    requires a < 100 && b < 100 && y < 10000
    ensures Match(YmdDash, Slashed(a, b, y) + rest, Defaults).None?
    ensures Match(YmdSlash, Slashed(a, b, y) + rest, Defaults).None?
  {
    var s := Slashed(a, b, y) + rest;
    var r1 := "/" + Digits2(b) + "/" + Digits4(y) + rest;
    assert s == Digits2(a) + r1;
    NumberOf(Digits2(a), r1, 4, 4, 0, 9999);
    assert Consume(Year, s).None?;
  }

  /** What each of the seven formats makes of `a/b/yyyy`. */
  lemma ParseWithSlashed(a: nat, b: nat, y: nat)
    requires a < 100 && b < 100 && y < 10000
    ensures ParseWith(YmdDash, Slashed(a, b, y)).None? && ParseWith(YmdSlash, Slashed(a, b, y)).None?
    ensures ParseWith(Mdy, Slashed(a, b, y))
         == if IsCalendarDate(y, a, b) then Some(IsoDate(y, a, b)) else None
    ensures ParseWith(Dmy, Slashed(a, b, y))
         == if IsCalendarDate(y, b, a) then Some(IsoDate(y, b, a)) else None
    ensures ParseWith(MdyHm, Slashed(a, b, y)).None?
    ensures ParseWith(MdyHms, Slashed(a, b, y)).None?
    ensures ParseWith(MdyHmp, Slashed(a, b, y)).None?
  {
    var s := Slashed(a, b, y);
    assert s + "" == s;
    SlashedIsNotYearFirst(a, b, y, "");
    MatchSlashedMdy(a, b, y, [], "");
    assert Mdy + [] == Mdy;
    MatchSlashedDmy(a, b, y, [], "");
    assert Dmy + [] == Dmy;
    MatchSlashedMdy(a, b, y, [Gap, Hour24, Lit(':'), Minute], "");
    MatchSlashedMdy(a, b, y, [Gap, Hour24, Lit(':'), Minute, Lit(':'), Second], "");
    MatchSlashedMdy(a, b, y, [Gap, Hour12, Lit(':'), Minute, Gap, AmPm], "");
  }

  lemma SlashedIsStripped(a: nat, b: nat, y: nat)
    requires a < 100 && b < 100 && y < 10000
    ensures IsStripped(Slashed(a, b, y))
  {
    var s := Slashed(a, b, y);
    assert s[0] == Digits2(a)[0] && s[|s| - 1] == Digits4(y)[3];
  }

  /** With the formats of `DateFormats` laid out as they are, and the
      year-first and time-of-day ones failing, the search comes down to the
      month-first format, then the day-first one. */
  lemma FirstMatchSlashedFormats(fs: seq<Format>, s: string)
    requires |fs| == 7
    requires ParseWith(fs[0], s).None? && ParseWith(fs[1], s).None?
    requires ParseWith(fs[4], s).None? && ParseWith(fs[5], s).None? && ParseWith(fs[6], s).None?
    ensures FirstMatch(fs, s) == if ParseWith(fs[2], s).Some? then ParseWith(fs[2], s) else ParseWith(fs[3], s)
  {
    if ParseWith(fs[2], s).Some? {
      FirstMatchThird(fs, s);
    } else if ParseWith(fs[3], s).Some? {
      FirstMatchFourth(fs, s);
    } else {
      FirstMatchNoneOfSeven(fs, s);
    }
  }

  lemma FirstMatchThird(fs: seq<Format>, s: string)
    requires |fs| == 7 && ParseWith(fs[0], s).None? && ParseWith(fs[1], s).None? && ParseWith(fs[2], s).Some?
    ensures FirstMatch(fs, s) == ParseWith(fs[2], s)
  {
    assert forall j | 0 <= j < 2 :: ParseWith(fs[j], s).None?;
    FirstMatchPicks(fs, s, 2);
  }

  lemma FirstMatchFourth(fs: seq<Format>, s: string)
    requires |fs| == 7 && ParseWith(fs[0], s).None? && ParseWith(fs[1], s).None?
    requires ParseWith(fs[2], s).None? && ParseWith(fs[3], s).Some?
    ensures FirstMatch(fs, s) == ParseWith(fs[3], s)
  {
    assert forall j | 0 <= j < 3 :: ParseWith(fs[j], s).None?;
    FirstMatchPicks(fs, s, 3);
  }

  lemma FirstMatchNoneOfSeven(fs: seq<Format>, s: string)
    requires |fs| == 7 && ParseWith(fs[0], s).None? && ParseWith(fs[1], s).None?
    requires ParseWith(fs[2], s).None? && ParseWith(fs[3], s).None?
    requires ParseWith(fs[4], s).None? && ParseWith(fs[5], s).None? && ParseWith(fs[6], s).None?
    ensures FirstMatch(fs, s).None?
  {
    assert forall i | 0 <= i < |fs| :: ParseWith(fs[i], s).None?;
    FirstMatchNone(fs, s);
  }

  lemma ParseDateStripped(s: string)
    requires IsStripped(s)
    ensures ParseDate(s) == FirstMatch(DateFormats, s)
  {
    StripStripped(s);
  }

  /** `a/b/yyyy` is read month first when that is a calendar date, day first
      when only that is, and not at all otherwise. */
  lemma ParseSlashed(a: nat, b: nat, y: nat)
    requires a < 100 && b < 100 && y < 10000
    ensures ParseDate(Slashed(a, b, y))
         == if IsCalendarDate(y, a, b) then Some(IsoDate(y, a, b))
            else if IsCalendarDate(y, b, a) then Some(IsoDate(y, b, a))
            else None
  {
    var s := Slashed(a, b, y);
    SlashedIsStripped(a, b, y);
    ParseDateStripped(s);
    ParseWithSlashed(a, b, y);
    var fs := DateFormats;
    assert fs[0] == YmdDash && fs[1] == YmdSlash && fs[2] == Mdy && fs[3] == Dmy;
    assert fs[4] == MdyHm && fs[5] == MdyHms && fs[6] == MdyHmp;
    FirstMatchSlashedFormats(fs, s);
  }

  // ---------------------------------------------------------------------
  // Dates with a time of day

  /** A space, then `hh:mm`. */
  function TimeOfDay(h: nat, mi: nat): string
    requires h < 100 && mi < 100
  {
    " " + Digits2(h) + ":" + Digits2(mi)
  }

  /** Reading ` hh:mm`, followed by a `rest` that does not start with a
      digit, with a format that starts as ` %I:%M` or ` %H:%M`. The hour and
      the minute are checked and then forgotten, as `parse_date` keeps only
      the date. */
  lemma MatchTimeOfDay(hour: Directive, h: nat, mi: nat, tail: Format, rest: string, p: Parts)
    requires hour == Hour12 || hour == Hour24
    requires h < 100 && mi < 100
    requires |rest| == 0 || !IsDecimal(rest[0])
    ensures Match([Gap, hour, Lit(':'), Minute] + tail, TimeOfDay(h, mi) + rest, p)
         == if (if hour == Hour12 then 1 <= h <= 12 else h <= 23) && mi <= 59 then Match(tail, rest, p) else None
  {
    var r2 := Digits2(mi) + rest;
    var r1 := Digits2(h) + (":" + r2);
    var t2 := [Minute] + tail;
    var t1 := [hour] + ([Lit(':')] + t2);
    assert Match([Gap, hour, Lit(':'), Minute] + tail, TimeOfDay(h, mi) + rest, p) == Match(t1, r1, p) by {
      assert [Gap, hour, Lit(':'), Minute] + tail == [Gap] + t1;
      assert TimeOfDay(h, mi) + rest == " " + r1;
      MatchGap(t1, r1, p);
    }
    assert Match(t1, r1, p) == if InRange(hour, h) then Match(t2, r2, p) else None by {
      MatchTwoDigits(hour, h, [Lit(':')] + t2, ":" + r2, p);
      MatchLit(':', t2, r2, p);
    }
    MatchTwoDigits(Minute, mi, tail, rest, p);
  }

  /** A gap on a single space followed by a non-space. */
  lemma MatchGap(tail: Format, rest: string, p: Parts)
    requires |rest| > 0 && !IsSpace(rest[0])
    ensures Match([Gap] + tail, " " + rest, p) == Match(tail, rest, p)
  {
    var t := " " + rest;
    assert ([Gap] + tail)[0] == Gap && ([Gap] + tail)[1..] == tail;
    assert t[1..] == rest && t[1..][0] == rest[0];
    assert SpaceRun(t) == 1;
  }

  /** ` AM` or ` PM` is what ` %p` reads. */
  lemma MatchMeridiem(mk: string, p: Parts)
    requires mk == "AM" || mk == "PM"
    ensures Match([Gap, AmPm], " " + mk, p) == Some(p)
  {
    var t := " " + mk;
    assert t[1..] == mk && SpaceRun(t[1..]) == 0;
    assert mk[2..] == "";
  }

  /** What each of the seven formats makes of `a/b/yyyy hh:mm AM` (or `PM`)
      with an hour from 1 to 12. */
  lemma ParseWithClock12(a: nat, b: nat, y: nat, h: nat, mi: nat, mk: string)
    requires a < 100 && b < 100 && y < 10000 && 1 <= h <= 12 && mi <= 59
    requires mk == "AM" || mk == "PM"
    ensures var s := Slashed(a, b, y) + (TimeOfDay(h, mi) + (" " + mk));
      && ParseWith(YmdDash, s).None? && ParseWith(YmdSlash, s).None?
      && ParseWith(Mdy, s).None? && ParseWith(Dmy, s).None?
      && ParseWith(MdyHm, s).None? && ParseWith(MdyHms, s).None?
      && ParseWith(MdyHmp, s) == if IsCalendarDate(y, a, b) then Some(IsoDate(y, a, b)) else None
  {
    var am := " " + mk;
    var rest := TimeOfDay(h, mi) + am;
    var q := Parts(y, a, b, 0);
    assert rest[0] == ' ' && am[0] == ' ';
    SlashedIsNotYearFirst(a, b, y, rest);
    MatchSlashedMdy(a, b, y, [], rest);
    assert Mdy + [] == Mdy;
    MatchSlashedDmy(a, b, y, [], rest);
    assert Dmy + [] == Dmy;
    MatchSlashedMdy(a, b, y, [Gap, Hour24, Lit(':'), Minute], rest);
    MatchTimeOfDay(Hour24, h, mi, [], am, q);
    assert [Gap, Hour24, Lit(':'), Minute] + [] == [Gap, Hour24, Lit(':'), Minute];
    MatchSlashedMdy(a, b, y, [Gap, Hour24, Lit(':'), Minute, Lit(':'), Second], rest);
    MatchTimeOfDay(Hour24, h, mi, [Lit(':'), Second], am, q);
    assert [Gap, Hour24, Lit(':'), Minute] + [Lit(':'), Second] == [Gap, Hour24, Lit(':'), Minute, Lit(':'), Second];
    MatchSlashedMdy(a, b, y, [Gap, Hour12, Lit(':'), Minute, Gap, AmPm], rest);
    MatchTimeOfDay(Hour12, h, mi, [Gap, AmPm], am, q);
    assert [Gap, Hour12, Lit(':'), Minute] + [Gap, AmPm] == [Gap, Hour12, Lit(':'), Minute, Gap, AmPm];
    MatchMeridiem(mk, q);
  }

  lemma FirstMatchSeventh(fs: seq<Format>, s: string)
    requires |fs| == 7 && ParseWith(fs[0], s).None? && ParseWith(fs[1], s).None?
    requires ParseWith(fs[2], s).None? && ParseWith(fs[3], s).None?
    requires ParseWith(fs[4], s).None? && ParseWith(fs[5], s).None?
    ensures FirstMatch(fs, s) == ParseWith(fs[6], s)
  {
    assert forall j | 0 <= j < 6 :: ParseWith(fs[j], s).None?;
    if ParseWith(fs[6], s).Some? {
      FirstMatchPicks(fs, s, 6);
    } else {
      FirstMatchNone(fs, s);
    }
  }

  lemma Clock12IsStripped(a: nat, b: nat, y: nat, h: nat, mi: nat, mk: string)
    requires a < 100 && b < 100 && y < 10000 && h < 100 && mi < 100
    requires mk == "AM" || mk == "PM"
    ensures IsStripped(Slashed(a, b, y) + (TimeOfDay(h, mi) + (" " + mk)))
  {
    var s := Slashed(a, b, y) + (TimeOfDay(h, mi) + (" " + mk));
    assert s[0] == Digits2(a)[0];
    assert s[|s| - 1] == mk[1];
  }

  /** A date followed by a 12-hour time is read month first, and only month
      first: no time-of-day format reads the day first. */
  lemma ParseSlashedClock12(a: nat, b: nat, y: nat, h: nat, mi: nat, mk: string)
    requires a < 100 && b < 100 && y < 10000 && 1 <= h <= 12 && mi <= 59
    requires mk == "AM" || mk == "PM"
    ensures ParseDate(Slashed(a, b, y) + (TimeOfDay(h, mi) + (" " + mk)))
         == if IsCalendarDate(y, a, b) then Some(IsoDate(y, a, b)) else None
  {
    var s := Slashed(a, b, y) + (TimeOfDay(h, mi) + (" " + mk));
    Clock12IsStripped(a, b, y, h, mi, mk);
    ParseDateStripped(s);
    ParseWithClock12(a, b, y, h, mi, mk);
    var fs := DateFormats;
    assert fs[0] == YmdDash && fs[1] == YmdSlash && fs[2] == Mdy && fs[3] == Dmy;
    assert fs[4] == MdyHm && fs[5] == MdyHms && fs[6] == MdyHmp;
    FirstMatchSeventh(fs, s);
  }

  /** An afternoon order date. */
  lemma ParseAfternoon()
    ensures ParseDate("01/05/2024 10:30 PM") == Some("2024-01-05")
  {
    AfternoonText();
    ParseSlashedClock12(1, 5, 2024, 10, 30, "PM");
  }

  lemma AfternoonText()
    ensures Slashed(1, 5, 2024) == "01/05/2024" && TimeOfDay(10, 30) == " 10:30"
    ensures Slashed(1, 5, 2024) + (TimeOfDay(10, 30) + (" " + "PM")) == "01/05/2024 10:30 PM"
    ensures IsoDate(2024, 1, 5) == "2024-01-05"
  {
    Years();
    assert Digits2(1) == "01" && Digits2(5) == "05";
    assert Slashed(1, 5, 2024) == "01/05/2024";
    assert Digits2(10) == "10" && Digits2(30) == "30";
    assert TimeOfDay(10, 30) == " 10:30";
  }

  // ---------------------------------------------------------------------
  // Dates with a 24-hour time, with and without seconds

  /** `:ss`, the seconds after a time of day. */
  function Seconds(sec: nat): string
    requires sec < 100
  {
    ":" + Digits2(sec)
  }

  /** `:%S` at the end of the text reads two digits up to 61 (strptime's
      range, before `datetime` refuses 60 and 61). */
  lemma MatchSeconds(sec: nat, p: Parts)
    requires sec < 100
    ensures Match([Lit(':'), Second], Seconds(sec), p) == if sec <= 61 then Some(p.(second := sec)) else None
  {
    var S := Digits2(sec);
    var f := [Lit(':'), Second];
    assert Seconds(sec)[1..] == S && f[1..] == [Second] && [Second][1..] == [];
    NumberOf(S, "", 1, 2, 0, 61);
    assert S + "" == S && S[2..] == "";
  }

  /** A date followed by more text matches none of the four formats that
      end with the date. */
  lemma DateOnlyFails(a: nat, b: nat, y: nat, rest: string)
    requires a < 100 && b < 100 && y < 10000
    requires |rest| > 0 && !IsDecimal(rest[0])
    ensures var s := Slashed(a, b, y) + rest;
      && ParseWith(YmdDash, s).None? && ParseWith(YmdSlash, s).None?
      && ParseWith(Mdy, s).None? && ParseWith(Dmy, s).None?
  {
    SlashedIsNotYearFirst(a, b, y, rest);
    MatchSlashedMdy(a, b, y, [], rest);
    assert Mdy + [] == Mdy;
    MatchSlashedDmy(a, b, y, [], rest);
    assert Dmy + [] == Dmy;
  }

  /** `%m/%d/%Y %H:%M` on `a/b/yyyy hh:mm`, followed by `rest`. */
  lemma MatchClock24(a: nat, b: nat, y: nat, h: nat, mi: nat, rest: string)
    requires a < 100 && b < 100 && y < 10000 && h < 100 && mi < 100
    requires |rest| == 0 || !IsDecimal(rest[0])
    ensures Match(MdyHm, Slashed(a, b, y) + (TimeOfDay(h, mi) + rest), Defaults)
         == if 1 <= a <= 12 && 1 <= b <= 31 && h <= 23 && mi <= 59 then Match([], rest, Parts(y, a, b, 0)) else None
  {
    var t := TimeOfDay(h, mi) + rest;
    assert t[0] == ' ';
    MatchSlashedMdy(a, b, y, [Gap, Hour24, Lit(':'), Minute], t);
    MatchTimeOfDay(Hour24, h, mi, [], rest, Parts(y, a, b, 0));
    assert [Gap, Hour24, Lit(':'), Minute] + [] == [Gap, Hour24, Lit(':'), Minute];
  }

  /** `%m/%d/%Y %H:%M:%S` on `a/b/yyyy hh:mm`, followed by `rest`. */
  lemma MatchClock24Seconds(a: nat, b: nat, y: nat, h: nat, mi: nat, rest: string)
    requires a < 100 && b < 100 && y < 10000 && h < 100 && mi < 100
    requires |rest| == 0 || !IsDecimal(rest[0])
    ensures Match(MdyHms, Slashed(a, b, y) + (TimeOfDay(h, mi) + rest), Defaults)
         == if 1 <= a <= 12 && 1 <= b <= 31 && h <= 23 && mi <= 59 then Match([Lit(':'), Second], rest, Parts(y, a, b, 0)) else None
  {
    var t := TimeOfDay(h, mi) + rest;
    assert t[0] == ' ';
    MatchSlashedMdy(a, b, y, [Gap, Hour24, Lit(':'), Minute, Lit(':'), Second], t);
    MatchTimeOfDay(Hour24, h, mi, [Lit(':'), Second], rest, Parts(y, a, b, 0));
    assert [Gap, Hour24, Lit(':'), Minute] + [Lit(':'), Second] == [Gap, Hour24, Lit(':'), Minute, Lit(':'), Second];
  }

  /** `%m/%d/%Y %I:%M %p` on `a/b/yyyy hh:mm`, followed by a `rest` that
      does not start with whitespace, fails. */
  lemma MatchClock12Fails(a: nat, b: nat, y: nat, h: nat, mi: nat, rest: string)
    requires a < 100 && b < 100 && y < 10000 && h < 100 && mi < 100
    requires |rest| == 0 || (!IsDecimal(rest[0]) && !IsSpace(rest[0]))
    ensures Match(MdyHmp, Slashed(a, b, y) + (TimeOfDay(h, mi) + rest), Defaults).None?
  {
    var t := TimeOfDay(h, mi) + rest;
    var q := Parts(y, a, b, 0);
    assert t[0] == ' ';
    MatchSlashedMdy(a, b, y, [Gap, Hour12, Lit(':'), Minute, Gap, AmPm], t);
    MatchTimeOfDay(Hour12, h, mi, [Gap, AmPm], rest, q);
    assert [Gap, Hour12, Lit(':'), Minute] + [Gap, AmPm] == [Gap, Hour12, Lit(':'), Minute, Gap, AmPm];
    assert SpaceRun(rest) == 0;
  }

  /** What each of the seven formats makes of `a/b/yyyy hh:mm`. */
  lemma ParseWithClock24(a: nat, b: nat, y: nat, h: nat, mi: nat)
    requires a < 100 && b < 100 && y < 10000 && h < 100 && mi < 100
    ensures var s := Slashed(a, b, y) + TimeOfDay(h, mi);
      && ParseWith(YmdDash, s).None? && ParseWith(YmdSlash, s).None?
      && ParseWith(Mdy, s).None? && ParseWith(Dmy, s).None?
      && ParseWith(MdyHm, s) == (if IsCalendarDate(y, a, b) && h <= 23 && mi <= 59 then Some(IsoDate(y, a, b)) else None)
      && ParseWith(MdyHms, s).None? && ParseWith(MdyHmp, s).None?
  {
    var t := TimeOfDay(h, mi);
    assert t[0] == ' ' && t + "" == t;
    DateOnlyFails(a, b, y, t);
    MatchClock24(a, b, y, h, mi, "");
    MatchClock24Seconds(a, b, y, h, mi, "");
    MatchClock12Fails(a, b, y, h, mi, "");
  }

  /** What each of the seven formats makes of `a/b/yyyy hh:mm:ss`. */
  lemma ParseWithSeconds(a: nat, b: nat, y: nat, h: nat, mi: nat, sec: nat)
    requires a < 100 && b < 100 && y < 10000 && h < 100 && mi < 100 && sec < 100
    ensures var s := Slashed(a, b, y) + (TimeOfDay(h, mi) + Seconds(sec));
      && ParseWith(YmdDash, s).None? && ParseWith(YmdSlash, s).None?
      && ParseWith(Mdy, s).None? && ParseWith(Dmy, s).None?
      && ParseWith(MdyHm, s).None?
      && ParseWith(MdyHms, s) == (if IsCalendarDate(y, a, b) && h <= 23 && mi <= 59 && sec <= 59 then Some(IsoDate(y, a, b)) else None)
      && ParseWith(MdyHmp, s).None?
  {
    var ss := Seconds(sec);
    var t := TimeOfDay(h, mi) + ss;
    assert t[0] == ' ' && ss[0] == ':';
    DateOnlyFails(a, b, y, t);
    MatchClock24(a, b, y, h, mi, ss);
    MatchClock24Seconds(a, b, y, h, mi, ss);
    MatchSeconds(sec, Parts(y, a, b, 0));
    MatchClock12Fails(a, b, y, h, mi, ss);
  }

  lemma FirstMatchFifth(fs: seq<Format>, s: string)
    requires |fs| == 7 && ParseWith(fs[0], s).None? && ParseWith(fs[1], s).None?
    requires ParseWith(fs[2], s).None? && ParseWith(fs[3], s).None?
    requires ParseWith(fs[5], s).None? && ParseWith(fs[6], s).None?
    ensures FirstMatch(fs, s) == ParseWith(fs[4], s)
  {
    assert forall j | 0 <= j < 4 :: ParseWith(fs[j], s).None?;
    if ParseWith(fs[4], s).Some? {
      FirstMatchPicks(fs, s, 4);
    } else {
      FirstMatchNone(fs, s);
    }
  }

  lemma FirstMatchSixth(fs: seq<Format>, s: string)
    requires |fs| == 7 && ParseWith(fs[0], s).None? && ParseWith(fs[1], s).None?
    requires ParseWith(fs[2], s).None? && ParseWith(fs[3], s).None?
    requires ParseWith(fs[4], s).None? && ParseWith(fs[6], s).None?
    ensures FirstMatch(fs, s) == ParseWith(fs[5], s)
  {
    assert forall j | 0 <= j < 5 :: ParseWith(fs[j], s).None?;
    if ParseWith(fs[5], s).Some? {
      FirstMatchPicks(fs, s, 5);
    } else {
      FirstMatchNone(fs, s);
    }
  }

  /** A date followed by a 24-hour time is read month first, and only when
      the hour and the minute are in range. */
  lemma ParseSlashedClock24(a: nat, b: nat, y: nat, h: nat, mi: nat)
    requires a < 100 && b < 100 && y < 10000 && h < 100 && mi < 100
    ensures ParseDate(Slashed(a, b, y) + TimeOfDay(h, mi))
         == if IsCalendarDate(y, a, b) && h <= 23 && mi <= 59 then Some(IsoDate(y, a, b)) else None
  {
    var s := Slashed(a, b, y) + TimeOfDay(h, mi);
    assert s[0] == Digits2(a)[0] && s[|s| - 1] == Digits2(mi)[1];
    ParseDateStripped(s);
    ParseWithClock24(a, b, y, h, mi);
    var fs := DateFormats;
    assert fs[0] == YmdDash && fs[1] == YmdSlash && fs[2] == Mdy && fs[3] == Dmy;
    assert fs[4] == MdyHm && fs[5] == MdyHms && fs[6] == MdyHmp;
    FirstMatchFifth(fs, s);
  }

  /** A date followed by a time with seconds is read month first, and only
      when the hour, the minute and the second are in range; a second of 60
      or 61 passes `%S` but not `datetime`. */
  lemma ParseSlashedSeconds(a: nat, b: nat, y: nat, h: nat, mi: nat, sec: nat)
    requires a < 100 && b < 100 && y < 10000 && h < 100 && mi < 100 && sec < 100
    ensures ParseDate(Slashed(a, b, y) + (TimeOfDay(h, mi) + Seconds(sec)))
         == if IsCalendarDate(y, a, b) && h <= 23 && mi <= 59 && sec <= 59 then Some(IsoDate(y, a, b)) else None
  {
    var s := Slashed(a, b, y) + (TimeOfDay(h, mi) + Seconds(sec));
    assert s[0] == Digits2(a)[0] && s[|s| - 1] == Digits2(sec)[1];
    ParseDateStripped(s);
    ParseWithSeconds(a, b, y, h, mi, sec);
    var fs := DateFormats;
    assert fs[0] == YmdDash && fs[1] == YmdSlash && fs[2] == Mdy && fs[3] == Dmy;
    assert fs[4] == MdyHm && fs[5] == MdyHms && fs[6] == MdyHmp;
    FirstMatchSixth(fs, s);
  }

  /** A morning order date with seconds, */
  lemma ParseMorningSeconds()
    ensures ParseDate("01/05/2024 10:30:15") == Some("2024-01-05")
  {
    MorningText();
    ParseSlashedSeconds(1, 5, 2024, 10, 30, 15);
  }

  /** one with a leap second, which `datetime` refuses, */
  lemma ParseLeapSecond()
    ensures ParseDate("01/05/2024 10:30:60").None?
  {
    MorningText();
    ParseSlashedSeconds(1, 5, 2024, 10, 30, 60);
  }

  /** and one without seconds. */
  lemma ParseMorning()
    ensures ParseDate("01/05/2024 10:30") == Some("2024-01-05")
  {
    MorningText();
    ParseSlashedClock24(1, 5, 2024, 10, 30);
  }

  lemma MorningText()
    ensures Slashed(1, 5, 2024) + TimeOfDay(10, 30) == "01/05/2024 10:30"
    ensures Slashed(1, 5, 2024) + (TimeOfDay(10, 30) + Seconds(15)) == "01/05/2024 10:30:15"
    ensures Slashed(1, 5, 2024) + (TimeOfDay(10, 30) + Seconds(60)) == "01/05/2024 10:30:60"
    ensures IsoDate(2024, 1, 5) == "2024-01-05"
  {
    AfternoonText();
    assert Seconds(15) == ":15" by { assert Digits2(15) == "15"; }
    assert Seconds(60) == ":60" by { assert Digits2(60) == "60"; }
  }

  // ---------------------------------------------------------------------
  // Year-first dates with slashes

  /** `yyyy/mm/dd`. */
  function YearSlashed(y: nat, m: nat, d: nat): string
    requires y < 10000 && m < 100 && d < 100
  {
    Digits4(y) + ("/" + (Digits2(m) + ("/" + Digits2(d))))
  }

  /** Reading `yyyy/mm/dd` with `%Y/%m/%d`. */
  lemma MatchYearSlashed(y: nat, m: nat, d: nat)
    requires y < 10000 && m < 100 && d < 100
    ensures Match(YmdSlash, YearSlashed(y, m, d), Defaults)
         == if 1 <= m <= 12 && 1 <= d <= 31 then Some(Parts(y, m, d, 0)) else None
  {
    var Y, M, D := Digits4(y), Digits2(m), Digits2(d);
    var f := YmdSlash;
    var s := YearSlashed(y, m, d);
    var r2 := M + ("/" + D);
    var r1 := "/" + r2;
    var p1 := Defaults.(year := y);
    var p2 := p1.(month := m);
    assert f[0] == Year && f[1..][0] == Lit('/') && f[2..][0] == Month;
    assert f[3..][0] == Lit('/') && f[4..][0] == Day && f[5..] == [];
    assert Match(f, s, Defaults) == Match(f[1..], r1, p1) by {
      NumberOf(Y, r1, 4, 4, 0, 9999);
      assert s[4..] == r1;
    }
    assert Match(f[1..], r1, p1) == Match(f[2..], r2, p1) by {
      assert r1[1..] == r2;
    }
    assert Match(f[2..], r2, p1) == if 1 <= m <= 12 then Match(f[3..], "/" + D, p2) else None by {
      NumberOf(M, "/" + D, 1, 2, 1, 12);
      assert r2[2..] == "/" + D;
    }
    assert Match(f[3..], "/" + D, p2) == Match(f[4..], D, p2) by {
      assert ("/" + D)[1..] == D;
    }
    assert Match(f[4..], D, p2) == if 1 <= d <= 31 then Some(p2.(day := d)) else None by {
      NumberOf(D, "", 1, 2, 1, 31);
      assert D + "" == D && D[2..] == "" && D[0] != ' ';
    }
  }

  /** A text that starts with four digits matches no format that starts
      with a month or a day. */
  lemma YearIsNotMonthOrDay(y: nat, rest: string, tail: Format)
    requires y < 10000 && (|rest| == 0 || !IsDecimal(rest[0]))
    ensures Match(Mdy + tail, Digits4(y) + rest, Defaults).None?
    ensures Match(Dmy + tail, Digits4(y) + rest, Defaults).None?
  {
    NumberOf(Digits4(y), rest, 1, 2, 1, 12);
    NumberOf(Digits4(y), rest, 1, 2, 1, 31);
    assert (Mdy + tail)[0] == Month && (Dmy + tail)[0] == Day;
    assert (Digits4(y) + rest)[0] != ' ';
  }

  /** What each of the seven formats makes of `yyyy/mm/dd`. */
  lemma ParseWithYearSlashed(y: nat, m: nat, d: nat)
    requires y < 10000 && m < 100 && d < 100
    ensures var s := YearSlashed(y, m, d);
      && ParseWith(YmdDash, s).None?
      && ParseWith(YmdSlash, s) == (if IsCalendarDate(y, m, d) then Some(IsoDate(y, m, d)) else None)
      && ParseWith(Mdy, s).None? && ParseWith(Dmy, s).None?
      && ParseWith(MdyHm, s).None? && ParseWith(MdyHms, s).None? && ParseWith(MdyHmp, s).None?
  {
    var rest := "/" + (Digits2(m) + ("/" + Digits2(d)));
    var s := YearSlashed(y, m, d);
    YearSlashedIsNotDashed(y, m, d);
    MatchYearSlashed(y, m, d);
    YearIsNotMonthOrDay(y, rest, []);
    assert Mdy + [] == Mdy && Dmy + [] == Dmy;
    YearIsNotMonthOrDay(y, rest, [Gap, Hour24, Lit(':'), Minute]);
    YearIsNotMonthOrDay(y, rest, [Gap, Hour24, Lit(':'), Minute, Lit(':'), Second]);
    YearIsNotMonthOrDay(y, rest, [Gap, Hour12, Lit(':'), Minute, Gap, AmPm]);
  }

  lemma YearSlashedIsNotDashed(y: nat, m: nat, d: nat)
    requires y < 10000 && m < 100 && d < 100
    ensures Match(YmdDash, YearSlashed(y, m, d), Defaults).None?
  {
    var rest := "/" + (Digits2(m) + ("/" + Digits2(d)));
    NumberOf(Digits4(y), rest, 4, 4, 0, 9999);
    assert YearSlashed(y, m, d)[4..] == rest && YmdDash[1..][0] == Lit('-');
  }

  lemma FirstMatchSecond(fs: seq<Format>, s: string)
    requires |fs| == 7 && ParseWith(fs[0], s).None?
    requires ParseWith(fs[2], s).None? && ParseWith(fs[3], s).None?
    requires ParseWith(fs[4], s).None? && ParseWith(fs[5], s).None? && ParseWith(fs[6], s).None?
    ensures FirstMatch(fs, s) == ParseWith(fs[1], s)
  {
    assert forall j | 0 <= j < 1 :: ParseWith(fs[j], s).None?;
    if ParseWith(fs[1], s).Some? {
      FirstMatchPicks(fs, s, 1);
    } else {
      FirstMatchNone(fs, s);
    }
  }

  /** `yyyy/mm/dd` is read year first when it is a calendar date, and not
      at all otherwise. */
  lemma ParseYearSlashed(y: nat, m: nat, d: nat)
    requires y < 10000 && m < 100 && d < 100
    ensures ParseDate(YearSlashed(y, m, d)) == if IsCalendarDate(y, m, d) then Some(IsoDate(y, m, d)) else None
  {
    var s := YearSlashed(y, m, d);
    assert s[0] == Digits4(y)[0] && s[|s| - 1] == Digits2(d)[1];
    ParseDateStripped(s);
    ParseWithYearSlashed(y, m, d);
    var fs := DateFormats;
    assert fs[0] == YmdDash && fs[1] == YmdSlash && fs[2] == Mdy && fs[3] == Dmy;
    assert fs[4] == MdyHm && fs[5] == MdyHms && fs[6] == MdyHmp;
    FirstMatchSecond(fs, s);
  }

  /** A year-first date with slashes. */
  lemma ParseYearFirstSlashed()
    ensures ParseDate("2024/01/05") == Some("2024-01-05")
  {
    AfternoonText();
    Years();
    assert YearSlashed(2024, 1, 5) == "2024/01/05";
    ParseYearSlashed(2024, 1, 5);
  }

  /** Reading an ISO date with `%Y-%m-%d`. */
  lemma MatchIso(y: nat, m: nat, d: nat)
    requires y < 10000 && 1 <= m <= 12 && 1 <= d <= 31
    ensures Match(YmdDash, IsoDate(y, m, d), Defaults) == Some(Parts(y, m, d, 0))
  {
    var Y, M, D := Digits4(y), Digits2(m), Digits2(d);
    var f := YmdDash;
    var s := IsoDate(y, m, d);
    var r1 := "-" + M + "-" + D;
    var r2 := M + ("-" + D);
    var p1 := Defaults.(year := y);
    var p2 := p1.(month := m);
    assert f[0] == Year && f[1..][0] == Lit('-') && f[2..][0] == Month;
    assert f[3..][0] == Lit('-') && f[4..][0] == Day && f[5..] == [];
    assert Match(f, s, Defaults) == Match(f[1..], r1, p1) by {
      assert s == Y + r1;
      NumberOf(Y, r1, 4, 4, 0, 9999);
      assert s[4..] == r1;
    }
    assert Match(f[1..], r1, p1) == Match(f[2..], r2, p1) by {
      assert r1[1..] == r2;
    }
    assert Match(f[2..], r2, p1) == Match(f[3..], "-" + D, p2) by {
      NumberOf(M, "-" + D, 1, 2, 1, 12);
      assert r2[2..] == "-" + D;
    }
    assert Match(f[3..], "-" + D, p2) == Match(f[4..], D, p2) by {
      assert ("-" + D)[1..] == D;
    }
    assert Match(f[4..], D, p2) == Some(p2.(day := d)) by {
      NumberOf(D, "", 1, 2, 1, 31);
      assert D + "" == D && D[2..] == "" && D[0] != ' ';
    }
  }

  /** `parse_date` reads its own output back unchanged: an ISO date of the
      calendar matches `%Y-%m-%d`, the first format tried. */
  lemma ParseIsoDate(y: nat, m: nat, d: nat)
    requires IsCalendarDate(y, m, d)
    ensures ParseDate(IsoDate(y, m, d)) == Some(IsoDate(y, m, d))
  {
    var s := IsoDate(y, m, d);
    assert s[0] == Digits4(y)[0] && s[|s| - 1] == Digits2(d)[1];
    ParseDateStripped(s);
    MatchIso(y, m, d);
    assert ParseWith(YmdDash, s) == Some(s);
    assert DateFormats[0] == YmdDash;
    FirstMatchPicks(DateFormats, s, 0);
  }

  /** `parse_date` is idempotent on what it returns. */
  lemma ParseDateIdempotent(raw: string)
    requires ParseDate(raw).Some?
    ensures ParseDate(ParseDate(raw).value) == ParseDate(raw)
  {
    var s := ParseDate(raw).value;
    assert IsIsoDate(s);
    IsIsoDateIsIsoDate(s);
    ParseIsoDate(DigitsValue(s[..4]), DigitsValue(s[5..7]), DigitsValue(s[8..]));
  }

  /** The years of the examples below, written out. */
  lemma Years()
    ensures Digits4(2024) == "2024" && Digits4(2023) == "2023"
  {
    assert Digits2(20) == "20";
    assert Digits2(24) == "24";
    assert Digits2(23) == "23";
  }

  /** Month first wins when both readings are dates. */
  lemma ParseMonthFirst()
    ensures ParseDate("03/04/2024") == Some("2024-03-04")
  {
    Years();
    assert Digits2(3) == "03" && Digits2(4) == "04";
    assert Slashed(3, 4, 2024) == "03/04/2024";
    assert IsoDate(2024, 3, 4) == "2024-03-04";
    ParseSlashed(3, 4, 2024);
  }

  /** A first number above 12 can only be the day. */
  lemma ParseDayFirst()
    ensures ParseDate("13/04/2024") == Some("2024-04-13")
  {
    Years();
    assert Digits2(13) == "13" && Digits2(4) == "04";
    assert Slashed(13, 4, 2024) == "13/04/2024";
    assert IsoDate(2024, 4, 13) == "2024-04-13";
    ParseSlashed(13, 4, 2024);
  }

  /** No February has 31 days, in either reading. */
  lemma ParseFebruary31()
    ensures ParseDate("31/02/2024").None?
  {
    Years();
    assert Digits2(31) == "31" && Digits2(2) == "02";
    assert Slashed(31, 2, 2024) == "31/02/2024";
    ParseSlashed(31, 2, 2024);
  }

  /** February 29 is a date in leap years only. */
  lemma ParseLeapDay()
    ensures ParseDate("02/29/2024") == Some("2024-02-29")
  {
    Years();
    assert Digits2(2) == "02" && Digits2(29) == "29";
    assert Slashed(2, 29, 2024) == "02/29/2024";
    assert IsoDate(2024, 2, 29) == "2024-02-29";
    ParseSlashed(2, 29, 2024);
  }

  lemma ParseNoLeapDay()
    ensures ParseDate("02/29/2023").None?
  {
    Years();
    assert Digits2(2) == "02" && Digits2(29) == "29";
    assert Slashed(2, 29, 2023) == "02/29/2023";
    ParseSlashed(2, 29, 2023);
  }
}
