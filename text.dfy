/**
 * The Python string primitives the row rules rely on, and the three
 * sanitisers of index.py: `sanitize_text`, `sanitize_phone` and
 * `is_valid_numericcode`.
 *
 * Characters are classified as Python 3 classifies them for the Latin-1
 * range U+0000..U+00FF (the range a Latin-1 decoded file is made of);
 * a character above U+00FF is treated as neither whitespace, nor a word
 * character, nor a digit, and `str.upper` leaves it alone.
 */
module Text {
  import opened Wrappers
  import opened Seqs

  // ---------------------------------------------------------------------
  // Character classes

  /** `str.isspace()` and the regex class `\s`. */
  predicate IsSpace(c: char) {
    ('\t' <= c <= '\r') || ('\U{1C}' <= c <= ' ') || c == '\U{85}' || c == '\U{A0}'
  }

  /** The regex class `\d`: a decimal digit (only 0-9 in Latin-1). */
  predicate IsDecimal(c: char) {
    '0' <= c <= '9'
  }

  /** The per-character test of `str.isdigit()`: decimals and the
      superscripts one, two and three. */
  predicate IsDigitChar(c: char) {
    IsDecimal(c) || c == '\U{B2}' || c == '\U{B3}' || c == '\U{B9}'
  }

  /** `str.isalpha()` on one character. */
  predicate IsAlpha(c: char) {
    ('A' <= c <= 'Z') || ('a' <= c <= 'z')
    || c == '\U{AA}' || c == '\U{B5}' || c == '\U{BA}'
    || ('\U{C0}' <= c <= '\U{D6}') || ('\U{D8}' <= c <= '\U{F6}') || ('\U{F8}' <= c <= '\U{FF}')
  }

  /** The regex class `\w`: `str.isalnum()` (letters, digits, and the
      vulgar fractions, which are numeric) or the underscore. */
  predicate IsWord(c: char) {
    IsAlpha(c) || IsDigitChar(c) || ('\U{BC}' <= c <= '\U{BE}') || c == '_'
  }

  /** What `re.sub(r'[^\w\s]', '', value)` keeps. */
  predicate IsWordOrSpace(c: char) {
    IsWord(c) || IsSpace(c)
  }

  predicate AllSpace(s: string) {
    forall i | 0 <= i < |s| :: IsSpace(s[i])
  }

  predicate AllDecimal(s: string) {
    forall i | 0 <= i < |s| :: IsDecimal(s[i])
  }

  /** `str.isdigit()`: non-empty, and every character a digit. */
  predicate IsDigitString(s: string) {
    |s| > 0 && forall i | 0 <= i < |s| :: IsDigitChar(s[i])
  }

  /** `re.search(r'\d', s)` finds something. */
  predicate HasDecimal(s: string) {
    exists i | 0 <= i < |s| :: IsDecimal(s[i])
  }

  // ---------------------------------------------------------------------
  // str.strip()

  /** No whitespace at either end. */
  predicate IsStripped(s: string) {
    |s| == 0 || (!IsSpace(s[0]) && !IsSpace(s[|s| - 1]))
  }

  function TrimStart(s: string): (r: string)
    ensures |r| <= |s| && r == s[|s| - |r|..]
    ensures AllSpace(s[..|s| - |r|])
    ensures |r| > 0 ==> !IsSpace(r[0])
  {
    if |s| > 0 && IsSpace(s[0]) then TrimStart(s[1..]) else s
  }

  function TrimEnd(s: string): (r: string)
    ensures |r| <= |s| && r == s[..|r|]
    ensures AllSpace(s[|r|..])
    ensures |r| > 0 ==> !IsSpace(r[|r| - 1])
  {
    if |s| > 0 && IsSpace(s[|s| - 1]) then TrimEnd(s[..|s| - 1]) else s
  }

  /** Where the text kept by `Strip` begins: after the leading whitespace. */
  function StripStart(s: string): (i: nat)
    ensures i <= |s| && AllSpace(s[..i])
  {
    |s| - |TrimStart(s)|
  }

  /** `str.strip()`: the slice of `s` left after removing the whitespace at
      both ends. */
  function Strip(s: string): (r: string)
    ensures IsStripped(r)
    ensures StripStart(s) + |r| <= |s| && r == s[StripStart(s)..StripStart(s) + |r|]
    ensures AllSpace(s[StripStart(s) + |r|..])
  {
    var t := TrimStart(s);
    var r := TrimEnd(t);
    SliceOfSuffix(s, StripStart(s), |r|);
    assert |r| > 0 ==> r[0] == t[0];
    r
  }

  /** Slicing a suffix is slicing the whole. */
  lemma SliceOfSuffix(s: string, i: nat, j: nat)
    requires i + j <= |s|
    ensures s[i..][..j] == s[i..i + j] && s[i..][j..] == s[i + j..]
  {
  }

  /** A sequence is its part before a slice, the slice, and its part after. */
  lemma SliceAround(s: string, i: nat, n: nat)
    requires i + n <= |s|
    ensures s == s[..i] + (s[i..i + n] + s[i + n..])
  {
    assert s[i..] == s[i..i + n] + s[i + n..];
    assert s == s[..i] + s[i..];
  }

  /** Stripping a string without whitespace at its ends changes nothing, so
      `Strip` is idempotent. */
  lemma StripStripped(s: string)
    requires IsStripped(s)
    ensures Strip(s) == s
  {
  }

  lemma StripIdempotent(s: string)
    ensures Strip(Strip(s)) == Strip(s)
  {
    StripStripped(Strip(s));
  }

  /** What `Strip` returns is an in-order subsequence of its input. */
  lemma StripIsSubsequence(s: string)
    ensures IsSubsequence(Strip(s), s)
  {
    var r := Strip(s);
    SliceIsSubsequence(s, StripStart(s), StripStart(s) + |r|);
  }

  // ---------------------------------------------------------------------
  // str.upper()

  /** `str.upper()` on one character of Latin-1; `ß` becomes `SS`, and `ÿ`
      and `µ` leave the Latin-1 range. */
  function UpperChar(c: char): (r: string)
    ensures |r| >= 1
    ensures forall i | 0 <= i < |r| :: !('a' <= r[i] <= 'z')
  {
    if 'a' <= c <= 'z' then [(c as int - 32) as char]
    else if ('\U{E0}' <= c <= '\U{F6}') || ('\U{F8}' <= c <= '\U{FE}') then [(c as int - 32) as char]
    else if c == '\U{DF}' then "SS"
    else if c == '\U{FF}' then ['\U{178}']
    else if c == '\U{B5}' then ['\U{39C}']
    else [c]
  }

  /** `str.upper()`. */
  function Upper(s: string): (r: string)
    ensures |r| >= |s|
    ensures forall i | 0 <= i < |r| :: !('a' <= r[i] <= 'z')
  {
    if |s| == 0 then [] else UpperChar(s[0]) + Upper(s[1..])
  }

  lemma {:induction false} UpperAppend(a: string, b: string)
    ensures Upper(a + b) == Upper(a) + Upper(b)
    decreases |a|
  {
    if |a| > 0 {
      assert (a + b)[0] == a[0];
      assert (a + b)[1..] == a[1..] + b;
      UpperAppend(a[1..], b);
    } else {
      assert a + b == b;
    }
  }

  /** Upper-casing an upper-cased character changes nothing. */
  lemma UpperCharIdempotent(c: char)
    ensures Upper(UpperChar(c)) == UpperChar(c)
  {
    var u := UpperChar(c);
    if |u| == 1 {
      assert Upper(u) == UpperChar(u[0]) + Upper([]);
    } else {
      assert u == "SS";
      assert Upper(u) == UpperChar('S') + Upper("S");
    }
  }

  /** `Upper` is idempotent, so the upper-cased STATUS is a fixed point. */
  lemma {:induction false} UpperIdempotent(s: string)
    ensures Upper(Upper(s)) == Upper(s)
    decreases |s|
  {
    if |s| > 0 {
      UpperAppend(UpperChar(s[0]), Upper(s[1..]));
      UpperCharIdempotent(s[0]);
      UpperIdempotent(s[1..]);
    }
  }

  /** Upper-casing a character that is not whitespace gives no
      whitespace at either end. */
  lemma UpperCharNotSpace(c: char)
    requires !IsSpace(c)
    ensures !IsSpace(UpperChar(c)[0]) && !IsSpace(UpperChar(c)[|UpperChar(c)| - 1])
  {
  }

  /** `Upper` keeps a stripped string stripped: `s.strip().upper()` has no
      whitespace at its ends. */
  lemma UpperStripped(s: string)
    requires IsStripped(s)
    ensures IsStripped(Upper(s))
  {
    if |s| > 0 {
      var n := |s| - 1;
      UpperCharNotSpace(s[0]);
      UpperCharNotSpace(s[n]);
      assert s == s[..n] + [s[n]];
      UpperAppend(s[..n], [s[n]]);
      assert Upper([s[n]]) == UpperChar(s[n]) + Upper([]);
      var u := Upper(s);
      assert u == Upper(s[..n]) + UpperChar(s[n]);
      assert u[|u| - 1] == UpperChar(s[n])[|UpperChar(s[n])| - 1];
      assert u[0] == UpperChar(s[0])[0];
    }
  }

  /** Small ASCII letters become the capital letter 32 code points below. */
  lemma {:induction false} UpperOfSmall(s: string)
    requires forall i | 0 <= i < |s| :: 'a' <= s[i] <= 'z'
    ensures |Upper(s)| == |s|
    ensures forall i | 0 <= i < |s| :: Upper(s)[i] == (s[i] as int - 32) as char
    decreases |s|
  {
    if |s| > 0 {
      UpperOfSmall(s[1..]);
      assert forall i | 1 <= i < |s| :: s[1..][i - 1] == s[i];
    }
  }

  /** Capital ASCII letters are their own upper case. */
  lemma {:induction false} UpperOfCapitals(s: string)
    requires forall i | 0 <= i < |s| :: 'A' <= s[i] <= 'Z'
    ensures Upper(s) == s
    decreases |s|
  {
    if |s| > 0 {
      UpperOfCapitals(s[1..]);
    }
  }

  // ---------------------------------------------------------------------
  // The sanitisers of index.py

  /** `sanitize_text`: drop every character that is neither a word character
      nor whitespace, then strip. */
  function SanitizeText(value: string): (r: string)
    ensures forall i | 0 <= i < |r| :: IsWordOrSpace(r[i])
    ensures IsStripped(r)
    ensures IsSubsequence(r, value)
    ensures Filter(IsWord, r) == Filter(IsWord, value)
  {
    if value == "" then ""
    else
      var kept := Filter(IsWordOrSpace, value);
      StripIsSubsequence(kept);
      SubsequenceTransitive(Strip(kept), kept, value);
      StripKeepsWords(kept);
      FilterOfFilter(IsWord, IsWordOrSpace, value);
      Strip(kept)
  }

  /** Whitespace is never a word character. */
  lemma SpaceIsNotWord(s: string)
    requires AllSpace(s)
    ensures Filter(IsWord, s) == []
  {
    FilterOfNone(IsWord, s);
  }

  /** `Strip` removes only whitespace, so it keeps every word character. */
  lemma StripKeepsWords(s: string)
    ensures Filter(IsWord, Strip(s)) == Filter(IsWord, s)
  {
    var a := StripStart(s);
    var r := Strip(s);
    SliceAround(s, a, |r|);
    WordsBetweenSpaces(s[..a], r, s[a + |r|..]);
  }

  /** Whitespace around a text adds no word characters to it. */
  lemma WordsBetweenSpaces(head: string, r: string, tail: string)
    requires AllSpace(head) && AllSpace(tail)
    ensures Filter(IsWord, head + (r + tail)) == Filter(IsWord, r)
  {
    SpaceIsNotWord(head);
    SpaceIsNotWord(tail);
    FilterAppend(IsWord, head, r + tail);
    FilterAppend(IsWord, r, tail);
  }

  /** Sanitising sanitised text changes nothing. */
  lemma SanitizeTextIdempotent(value: string)
    ensures SanitizeText(SanitizeText(value)) == SanitizeText(value)
  {
    var r := SanitizeText(value);
    if r != "" {
      FilterOfAll(IsWordOrSpace, r);
      StripStripped(r);
    }
  }

  /** `sanitize_phone`: the digits of the input, kept only when there are at
      least seven of them. */
  function SanitizePhone(phone: string): (r: Option<string>)
    ensures r.None? <==> (phone == "" || Count(IsDecimal, phone) < 7)
    ensures r.Some? ==> |r.value| >= 7 && AllDecimal(r.value)
    ensures r.Some? ==> IsSubsequence(r.value, phone) && |r.value| == Count(IsDecimal, phone)
  {
    if phone == "" then None
    else
      var cleaned := Filter(IsDecimal, phone);
      if |cleaned| >= 7 then Some(cleaned) else None
  }

  /** The kept phone number is exactly the digits of the input in their
      original order: nothing else satisfies the contract above. */
  lemma SanitizePhoneIsTheDigits(phone: string, t: string)
    requires IsSubsequence(t, phone) && AllDecimal(t) && |t| == Count(IsDecimal, phone)
    requires |t| >= 7
    ensures SanitizePhone(phone) == Some(t)
  {
    FilterIsUnique(IsDecimal, t, phone);
  }

  /** `is_valid_numericcode`: a non-empty string for which `str.isdigit()`
      holds. */
  predicate IsValidNumericCode(code: string) {
    if code == "" then false else IsDigitString(code)
  }
}
