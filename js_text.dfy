/**
 * The JavaScript string operations that the MovieTweetings parsers are built from:
 * `trim`, `indexOf`, `split` with a string separator, `parseInt` without a radix,
 * the regular expression /(\d{4})/, and `String(n)` for integers.
 */
module JsText {
  import opened JsValues

  /** The ECMAScript WhiteSpace and LineTerminator code points, which `trim` and `parseInt` skip. */
  predicate IsWhiteSpace(c: char)
  {
    c == '\t' || c == '\n' || c == '\U{000B}' || c == '\U{000C}' || c == '\r' || c == ' '
    || c == '\U{00A0}' || c == '\U{1680}' || ('\U{2000}' <= c <= '\U{200A}')
    || c == '\U{2028}' || c == '\U{2029}' || c == '\U{202F}' || c == '\U{205F}'
    || c == '\U{3000}' || c == '\U{FEFF}'
  }

  predicate IsDecimalDigit(c: char)
  {
    '0' <= c <= '9'
  }

  // ---------------------------------------------------------------- trim

  /** `s.trimStart()`: the suffix left after dropping leading white space. */
  function TrimStart(s: string): (r: string)
    ensures |r| <= |s| && r == s[|s| - |r|..]
    ensures forall i :: 0 <= i < |s| - |r| ==> IsWhiteSpace(s[i])
    ensures r == [] || !IsWhiteSpace(r[0])
    decreases |s|
  {
    if |s| > 0 && IsWhiteSpace(s[0]) then TrimStart(s[1..]) else s
  }

  /** `s.trimEnd()`: the prefix left after dropping trailing white space. */
  function TrimEnd(s: string): (r: string)
    ensures |r| <= |s| && r == s[..|r|]
    ensures forall i :: |r| <= i < |s| ==> IsWhiteSpace(s[i])
    ensures r == [] || !IsWhiteSpace(r[|r| - 1])
    decreases |s|
  {
    if |s| > 0 && IsWhiteSpace(s[|s| - 1]) then TrimEnd(s[..|s| - 1]) else s
  }

  /** `s.trim()`. */
  function Trim(s: string): string
  {
    TrimEnd(TrimStart(s))
  }

  /** `line.trim()` is the empty string, which JavaScript treats as false. */
  predicate IsBlank(line: string)
  {
    Trim(line) == ""
  }

  /** A line is blank exactly when every character of it is white space. */
  lemma BlankIffAllWhiteSpace(s: string)
    ensures IsBlank(s) <==> forall i :: 0 <= i < |s| ==> IsWhiteSpace(s[i])
  {
    var t := TrimStart(s);
    assert t != [] ==> TrimEnd(t) != [] && !IsWhiteSpace(s[|s| - |t|]);
  }

  /** Leading white space is exactly what `trimStart` removes. */
  lemma TrimStartAfterWhiteSpace(ws: string, x: string)
    requires forall i :: 0 <= i < |ws| ==> IsWhiteSpace(ws[i])
    requires x != [] && !IsWhiteSpace(x[0])
    ensures TrimStart(ws + x) == x
  {
    var s := ws + x;
    var r := TrimStart(s);
    assert s[|ws|..] == x;
  }

  // ---------------------------------------------------------------- indexOf and split

  /** `sep` occurs in `s` starting at position `p`. */
  predicate Occurs(s: string, sep: string, p: int)
  {
    0 <= p && p + |sep| <= |s| && s[p..p + |sep|] == sep
  }

  /** `s.indexOf(sep, from)`: the first occurrence at or after `from`; `None` stands for -1. */
  function IndexOfFrom(s: string, sep: string, from: nat): (r: Option<nat>)
    ensures r.Some? ==> from <= r.value && Occurs(s, sep, r.value)
    ensures r.Some? ==> forall p :: from <= p < r.value ==> !Occurs(s, sep, p)
    ensures r.None? ==> forall p :: from <= p ==> !Occurs(s, sep, p)
    decreases |s| - from
  {
    if from + |sep| > |s| then None
    else if s[from..from + |sep|] == sep then Some(from)
    else IndexOfFrom(s, sep, from + 1)
  }

  /** `s.indexOf(sep)`. */
  function IndexOf(s: string, sep: string): Option<nat>
  {
    IndexOfFrom(s, sep, 0)
  }

  /** An occurrence with none before it is what `indexOf` finds. */
  lemma IndexOfFirst(s: string, sep: string, p: nat)
    requires Occurs(s, sep, p)
    requires forall q :: 0 <= q < p ==> !Occurs(s, sep, q)
    ensures IndexOf(s, sep) == Some(p)
  {
  }

  /** Cutting `s` after its first occurrence of `sep` keeps that occurrence first. */
  lemma IndexOfPrefix(s: string, sep: string, p: nat, n: nat)
    requires IndexOf(s, sep) == Some(p) && p + |sep| <= n <= |s|
    ensures IndexOf(s[..n], sep) == Some(p)
  {
    var t := s[..n];
    assert t[p..p + |sep|] == s[p..p + |sep|];
    forall q | 0 <= q < p
      ensures !Occurs(t, sep, q)
    {
      assert t[q..q + |sep|] == s[q..q + |sep|];
      assert !Occurs(s, sep, q);
    }
    IndexOfFirst(t, sep, p);
  }

  /**
   * If `sep` has a character (at index `j`, not earlier in `sep`) that `a` lacks, then
   * `sep` does not occur in `a`, and in `a + sep` it occurs first right after `a`.
   */
  lemma IndexOfAfter(a: string, sep: string, j: nat)
    requires j < |sep| && sep[j] !in a && sep[j] !in sep[..j]
    ensures IndexOf(a + sep, sep) == Some(|a|)
    ensures IndexOf(a, sep) == None
  {
    var s := a + sep;
    assert s[|a|..|a| + |sep|] == sep;
    forall q | 0 <= q < |a|
      ensures !Occurs(s, sep, q)
    {
    }
    IndexOfFirst(s, sep, |a|);
    forall q | 0 <= q
      ensures !Occurs(a, sep, q)
    {
    }
  }

  /**
   * A two-character `sep` that does not occur in `a`, and does not straddle the end of `a`,
   * occurs first in `a + sep` right after `a`.
   */
  lemma IndexOfAppendedPair(a: string, sep: string)
    requires |sep| == 2 && IndexOf(a, sep) == None
    requires a == [] || [a[|a| - 1], sep[0]] != sep
    ensures IndexOf(a + sep, sep) == Some(|a|)
  {
    var s := a + sep;
    assert s[|a|..|a| + 2] == sep;
    forall q | 0 <= q < |a|
      ensures !Occurs(s, sep, q)
    {
      if q + 2 <= |a| {
        assert s[q..q + 2] == a[q..q + 2];
        assert !Occurs(a, sep, q);
      } else {
        assert s[q..q + 2] == [a[|a| - 1], sep[0]];
      }
    }
    IndexOfFirst(s, sep, |a|);
  }

  /**
   * `s.split(sep)` for a non-empty string separator: the text between occurrences of
   * `sep`, found left to right without overlap.
   */
  function Split(s: string, sep: string): (parts: seq<string>)
    requires sep != []
    ensures |parts| >= 1
    decreases |s|
  {
    match IndexOf(s, sep)
    case None => [s]
    case Some(p) => [s[..p]] + Split(s[p + |sep|..], sep)
  }

  /** The first field is the text before the first occurrence of `sep`, or all of it. */
  lemma SplitFirstField(s: string, sep: string)
    requires sep != []
    ensures Split(s, sep)[0] == match IndexOf(s, sep) case None => s case Some(p) => s[..p]
    ensures |Split(s, sep)| > 1 <==> IndexOf(s, sep).Some?
    ensures IndexOf(s, sep).Some? ==> Split(s, sep)[1..] == Split(s[IndexOf(s, sep).value + |sep|..], sep)
  {
  }

  /** `parts.join(sep)`. */
  function Join(parts: seq<string>, sep: string): string
    requires |parts| >= 1
  {
    if |parts| == 1 then parts[0] else parts[0] + sep + Join(parts[1..], sep)
  }

  lemma JoinCons(x: string, tail: seq<string>, sep: string)
    requires |tail| >= 1
    ensures Join([x] + tail, sep) == x + sep + Join(tail, sep)
  {
    assert ([x] + tail)[1..] == tail;
  }

  /** Joining the fields of a split with the separator gives back the text. */
  lemma {:induction false} SplitJoin(s: string, sep: string)
    requires sep != []
    ensures Join(Split(s, sep), sep) == s
    decreases |s|
  {
    match IndexOf(s, sep)
    case None =>
    case Some(p) =>
      var rest := s[p + |sep|..];
      var tail := Split(rest, sep);
      SplitJoin(rest, sep);
      JoinCons(s[..p], tail, sep);
      assert s[p..p + |sep|] == sep;
      assert s == s[..p] + sep + rest;
  }

  /**
   * Each field but the last ends where the first occurrence of `sep` after it begins,
   * and the last field holds no occurrence.
   */
  predicate FieldsEndAtFirstOccurrences(parts: seq<string>, sep: string)
  {
    && |parts| >= 1
    && (forall i :: 0 <= i < |parts| - 1 ==> IndexOf(parts[i] + sep, sep) == Some(|parts[i]|))
    && IndexOf(parts[|parts| - 1], sep) == None
  }

  /** The fields of a split end at first occurrences of the separator. */
  lemma {:induction false} SplitAtFirstOccurrences(s: string, sep: string)
    requires sep != []
    ensures FieldsEndAtFirstOccurrences(Split(s, sep), sep)
    decreases |s|
  {
    SplitFirstField(s, sep);
    match IndexOf(s, sep)
    case None =>
    case Some(p) =>
      var rest := s[p + |sep|..];
      SplitAtFirstOccurrences(rest, sep);
      IndexOfPrefix(s, sep, p, p + |sep|);
      assert s[..p + |sep|] == s[..p] + sep;
      FieldsCons(s[..p], Split(rest, sep), sep);
      assert Split(s, sep) == [s[..p]] + Split(rest, sep);
  }

  lemma FieldsCons(head: string, tail: seq<string>, sep: string)
    requires IndexOf(head + sep, sep) == Some(|head|)
    requires FieldsEndAtFirstOccurrences(tail, sep)
    ensures FieldsEndAtFirstOccurrences([head] + tail, sep)
  {
    var parts := [head] + tail;
    forall i | 0 <= i < |parts| - 1
      ensures IndexOf(parts[i] + sep, sep) == Some(|parts[i]|)
    {
      if i > 0 {
        assert parts[i] == tail[i - 1];
      }
    }
    assert parts[|parts| - 1] == tail[|tail| - 1];
  }

  /** Text that reaches up to the first occurrence of `sep` splits off as the first field. */
  lemma SplitAfterFirst(a: string, sep: string, b: string)
    requires sep != [] && IndexOf(a + sep, sep) == Some(|a|)
    ensures Split(a + sep + b, sep) == [a] + Split(b, sep)
  {
    var s := a + sep + b;
    assert s[|a|..|a| + |sep|] == sep;
    forall q | 0 <= q < |a|
      ensures !Occurs(s, sep, q)
    {
      assert (a + sep)[q..q + |sep|] == s[q..q + |sep|];
      assert !Occurs(a + sep, sep, q);
    }
    IndexOfFirst(s, sep, |a|);
    assert s[..|a|] == a;
    assert s[|a| + |sep|..] == b;
  }

  /**
   * Fields that end at first occurrences and join to `s` are the split of `s`: with
   * SplitJoin and SplitAtFirstOccurrences, this characterizes `split`.
   */
  lemma {:induction false} SplitUnique(s: string, sep: string, parts: seq<string>)
    requires sep != [] && FieldsEndAtFirstOccurrences(parts, sep) && Join(parts, sep) == s
    ensures parts == Split(s, sep)
    decreases |parts|
  {
    if |parts| == 1 {
      assert s == parts[0];
    } else {
      var tail := parts[1..];
      FieldsTail(parts, sep);
      assert Join(parts, sep) == parts[0] + sep + Join(tail, sep);
      SplitUnique(Join(tail, sep), sep, tail);
      SplitAfterFirst(parts[0], sep, Join(tail, sep));
      assert parts == [parts[0]] + tail;
    }
  }

  lemma FieldsTail(parts: seq<string>, sep: string)
    requires FieldsEndAtFirstOccurrences(parts, sep) && |parts| > 1
    ensures FieldsEndAtFirstOccurrences(parts[1..], sep)
    ensures IndexOf(parts[0] + sep, sep) == Some(|parts[0]|)
  {
    var tail := parts[1..];
    forall i | 0 <= i < |tail| - 1
      ensures IndexOf(tail[i] + sep, sep) == Some(|tail[i]|)
    {
      assert tail[i] == parts[i + 1];
    }
    assert tail[|tail| - 1] == parts[|parts| - 1];
  }

  // ---------------------------------------------------------------- parseInt

  /** The value of `c` as a digit of a radix up to 36, or 36 when it is no such digit. */
  function DigitValue(c: char): (d: nat)
    ensures d <= 36
    ensures d < 10 <==> IsDecimalDigit(c)
  {
    if '0' <= c <= '9' then c as int - '0' as int
    else if 'a' <= c <= 'z' then c as int - 'a' as int + 10
    else if 'A' <= c <= 'Z' then c as int - 'A' as int + 10
    else 36
  }

  /** The longest prefix of `s` made of digits of the given radix. */
  function LeadingDigits(s: string, radix: nat): (d: string)
    ensures |d| <= |s| && d == s[..|d|]
    ensures forall i :: 0 <= i < |d| ==> DigitValue(d[i]) < radix
    ensures |d| < |s| ==> DigitValue(s[|d|]) >= radix
    decreases |s|
  {
    if |s| > 0 && DigitValue(s[0]) < radix then [s[0]] + LeadingDigits(s[1..], radix) else []
  }

  /** The value of a digit string, most significant digit first. */
  function DigitsValue(d: string, radix: nat): nat
    decreases |d|
  {
    if d == [] then 0 else DigitsValue(d[..|d| - 1], radix) * radix + DigitValue(d[|d| - 1])
  }

  /**
   * `parseInt(s)` with no radix: skip leading white space, take an optional sign, then
   * read the numeral. No digits at all gives NaN, here `None`.
   */
  function ParseInt(s: string): Option<int>
  {
    ParseSigned(TrimStart(s))
  }

  /** `parseInt` after the white space: an optional `-` or `+` before the numeral. */
  function ParseSigned(t: string): Option<int>
  {
    if |t| > 0 && t[0] == '-' then
      match ParseNumeral(t[1..])
      case None => None
      case Some(v) =>
        var negated: int := -(v as int);
        Some(negated)
    else if |t| > 0 && t[0] == '+' then ParseNumeral(t[1..])
    else ParseNumeral(t)
  }

  /**
   * `parseInt` after the sign: a `0x`/`0X` prefix selects radix 16, otherwise radix 10,
   * and the longest run of digits of that radix is read.
   */
  function ParseNumeral(u: string): Option<nat>
  {
    var hex := |u| >= 2 && u[0] == '0' && (u[1] == 'x' || u[1] == 'X');
    var radix := if hex then 16 else 10;
    var digits := LeadingDigits(if hex then u[2..] else u, radix);
    if digits == [] then None else Some(DigitsValue(digits, radix))
  }

  /** Text that is empty or all white space parses to NaN. */
  lemma ParseIntBlank(s: string)
    requires forall i :: 0 <= i < |s| ==> IsWhiteSpace(s[i])
    ensures ParseInt(s) == None
  {
  }

  // ---------------------------------------------------------------- String(n)

  function DigitChar(d: nat): (c: char)
    requires d < 10
    ensures IsDecimalDigit(c) && DigitValue(c) == d
  {
    ('0' as int + d) as char
  }

  /** The decimal numeral of a natural number, as `String(n)` writes it. */
  function NatToString(n: nat): (s: string)
    ensures |s| >= 1
    ensures forall i :: 0 <= i < |s| ==> IsDecimalDigit(s[i])
  {
    if n < 10 then [DigitChar(n)] else NatToString(n / 10) + [DigitChar(n % 10)]
  }

  /** `String(n)` for an integer: a minus sign before the numeral of a negative number. */
  function IntToString(n: int): string
  {
    if n < 0 then "-" + NatToString(-n) else NatToString(n)
  }

  /** Reading the numeral back gives the number. */
  lemma {:induction false} NatToStringValue(n: nat)
    ensures DigitsValue(NatToString(n), 10) == n
  {
    if n >= 10 {
      NatToStringValue(n / 10);
      var s := NatToString(n);
      assert s[..|s| - 1] == NatToString(n / 10);
    }
  }

  /** Only the numeral of zero starts with the digit zero. */
  lemma {:induction false} NatToStringNoLeadingZero(n: nat)
    ensures NatToString(n)[0] == '0' ==> n == 0
  {
    if n >= 10 {
      NatToStringNoLeadingZero(n / 10);
      assert NatToString(n)[0] == NatToString(n / 10)[0];
    }
  }

  /** A four-digit number has a four-character numeral. */
  lemma NatToStringFourDigits(n: nat)
    requires 1000 <= n <= 9999
    ensures |NatToString(n)| == 4
  {
    assert |NatToString(n / 1000)| == 1;
    assert NatToString(n / 100) == NatToString(n / 1000) + [DigitChar(n / 100 % 10)];
    assert NatToString(n / 10) == NatToString(n / 100) + [DigitChar(n / 10 % 10)];
  }

  /** A run of digits followed by a non-digit is exactly what LeadingDigits reads. */
  lemma LeadingDigitsOf(d: string, rest: string, radix: nat)
    requires forall i :: 0 <= i < |d| ==> DigitValue(d[i]) < radix
    requires rest == [] || DigitValue(rest[0]) >= radix
    ensures LeadingDigits(d + rest, radix) == d
  {
    var s := d + rest;
    var r := LeadingDigits(s, radix);
    assert s[..|d|] == d;
  }

  /**
   * `parseInt` reads back what `String(n)` writes, after any leading white space and before
   * any text that does not continue the numeral (a `0x` after a lone zero would).
   */
  lemma ParseIntOfString(ws: string, n: int, rest: string)
    requires forall i :: 0 <= i < |ws| ==> IsWhiteSpace(ws[i])
    requires rest == [] || (!IsDecimalDigit(rest[0]) && (n == 0 ==> rest[0] != 'x' && rest[0] != 'X'))
    ensures ParseInt(ws + IntToString(n) + rest) == Some(n)
  {
    var x := IntToString(n) + rest;
    assert ws + IntToString(n) + rest == ws + x;
    TrimStartAfterWhiteSpace(ws, x);
    ParseSignedOf(n, rest);
  }

  lemma ParseSignedOf(n: int, rest: string)
    requires rest == [] || (!IsDecimalDigit(rest[0]) && (n == 0 ==> rest[0] != 'x' && rest[0] != 'X'))
    ensures ParseSigned(IntToString(n) + rest) == Some(n)
  {
    if n < 0 {
      ParseNegativeOf(-n, rest);
      assert IntToString(n) + rest == "-" + NatToString(-n) + rest;
    } else {
      var digits := NatToString(n);
      ParseNumeralOf(n, rest);
      assert (digits + rest)[0] == digits[0];
      assert IsDecimalDigit(digits[0]);
    }
  }

  lemma ParseNegativeOf(m: nat, rest: string)
    requires m > 0
    requires rest == [] || !IsDecimalDigit(rest[0])
    ensures ParseSigned("-" + NatToString(m) + rest) == Some(-(m as int))
  {
    var u := NatToString(m) + rest;
    ParseNumeralOf(m, rest);
    ParseSignedMinus(u, m);
    assert "-" + NatToString(m) + rest == "-" + u;
  }

  lemma ParseSignedMinus(u: string, v: nat)
    requires ParseNumeral(u) == Some(v)
    ensures ParseSigned("-" + u) == Some(-(v as int))
  {
    var t := "-" + u;
    assert t[0] == '-' && t[1..] == u;
  }

  /** The numeral of `m` followed by text that does not continue it reads as `m`. */
  lemma ParseNumeralOf(m: nat, rest: string)
    requires rest == [] || (!IsDecimalDigit(rest[0]) && (m == 0 ==> rest[0] != 'x' && rest[0] != 'X'))
    ensures ParseNumeral(NatToString(m) + rest) == Some(m)
  {
    var digits := NatToString(m);
    var u := digits + rest;
    NatToStringValue(m);
    NatToStringNoLeadingZero(m);
    assert u[0] == digits[0];
    assert m == 0 ==> digits == "0" && |u| >= 2 ==> u[1] == rest[0];
    LeadingDigitsOf(digits, rest, 10);
  }

  /**
   * `parseInt` reads any run of decimal digits, leading zeros included, as its decimal
   * value, after leading white space and before text that does not continue the run
   * (a `0x` after a lone zero would).
   */
  lemma ParseIntOfDigits(ws: string, d: string, rest: string)
    requires forall i :: 0 <= i < |ws| ==> IsWhiteSpace(ws[i])
    requires d != [] && forall i :: 0 <= i < |d| ==> IsDecimalDigit(d[i])
    requires rest == [] || !IsDecimalDigit(rest[0])
    requires d == "0" && rest != [] ==> rest[0] != 'x' && rest[0] != 'X'
    ensures ParseInt(ws + (d + rest)) == Some(DigitsValue(d, 10))
  {
    ParseNumeralOfDigits(d, rest);
    DigitsThenRest(d, rest);
    ParseUnsigned(ws, d + rest, DigitsValue(d, 10));
  }

  lemma DigitsThenRest(d: string, rest: string)
    requires d != [] && IsDecimalDigit(d[0])
    ensures d + rest != [] && IsDecimalDigit((d + rest)[0])
  {
    assert (d + rest)[0] == d[0];
  }

  /** Text that starts with a digit after the white space has no sign to read. */
  lemma ParseUnsigned(ws: string, x: string, v: nat)
    requires forall i :: 0 <= i < |ws| ==> IsWhiteSpace(ws[i])
    requires x != [] && IsDecimalDigit(x[0])
    requires ParseNumeral(x) == Some(v)
    ensures ParseInt(ws + x) == Some(v)
  {
    TrimStartAfterWhiteSpace(ws, x);
  }

  /** A run of decimal digits followed by a non-digit is read in radix 10. */
  lemma ParseNumeralOfDigits(d: string, rest: string)
    requires d != [] && forall i :: 0 <= i < |d| ==> IsDecimalDigit(d[i])
    requires rest == [] || !IsDecimalDigit(rest[0])
    requires d == "0" && rest != [] ==> rest[0] != 'x' && rest[0] != 'X'
    ensures ParseNumeral(d + rest) == Some(DigitsValue(d, 10))
  {
    var u := d + rest;
    NoHexPrefix(d, rest);
    assert forall i :: 0 <= i < |d| ==> DigitValue(d[i]) < 10;
    assert rest == [] || DigitValue(rest[0]) >= 10;
    LeadingDigitsOf(d, rest, 10);
  }

  /** A run of decimal digits starts with `0x` only as a lone zero followed by an `x`. */
  lemma NoHexPrefix(d: string, rest: string)
    requires d != [] && forall i :: 0 <= i < |d| ==> IsDecimalDigit(d[i])
    requires d == "0" && rest != [] ==> rest[0] != 'x' && rest[0] != 'X'
    ensures var u := d + rest; !(|u| >= 2 && u[0] == '0' && (u[1] == 'x' || u[1] == 'X'))
  {
    var u := d + rest;
    if |d| >= 2 {
      assert u[1] == d[1];
      assert IsDecimalDigit(d[1]);
    } else if |u| >= 2 {
      assert d == [d[0]];
      assert u[0] == d[0] && u[1] == rest[0];
    }
  }

  // ---------------------------------------------------------------- /(\d{4})/

  /** `s` holds four decimal digits starting at `p`. */
  predicate FourDigitsAt(s: string, p: int)
  {
    0 <= p && p + 4 <= |s| && forall i :: p <= i < p + 4 ==> IsDecimalDigit(s[i])
  }

  /** Where /(\d{4})/ first matches in `s` at or after `from`. */
  function FindFourDigits(s: string, from: nat): (r: Option<nat>)
    ensures r.Some? ==> from <= r.value && FourDigitsAt(s, r.value)
    ensures r.Some? ==> forall p :: from <= p < r.value ==> !FourDigitsAt(s, p)
    ensures r.None? ==> forall p :: from <= p ==> !FourDigitsAt(s, p)
    decreases |s| - from
  {
    if from + 4 > |s| then None
    else if forall i :: from <= i < from + 4 ==> IsDecimalDigit(s[i]) then Some(from)
    else FindFourDigits(s, from + 1)
  }

  /** `parseInt(s.match(/(\d{4})/)[1])`, or null (`None`) when there is no match. */
  function FirstFourDigitNumber(s: string): Option<int>
  {
    match FindFourDigits(s, 0)
    case None => None
    case Some(p) => ParseInt(s[p..p + 4])
  }
}
