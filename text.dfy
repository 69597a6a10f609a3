/**
 * The string operations the tool performs with Python built-ins:
 * `str.strip`, `str.split`, `str.lower`, `"%d"` rendering, `int()` and
 * `float()` of decimal text. Characters are Dafny `char`s; case mapping is
 * ASCII only.
 */
module Text {
  import opened Wrappers

  const TAB: char := '\t'

  // ---------------------------------------------------------------------
  // strip(" \r\n\t")
  // ---------------------------------------------------------------------

  /** The characters `parse_phout` strips from both ends of a line. */
  predicate IsBlank(c: char) {
    c == ' ' || c == '\r' || c == '\n' || c == '\t'
  }

  /** Number of blank characters at the front of `s`. */
  function LeadingBlanks(s: string): (k: nat)
    ensures k <= |s|
    ensures forall i :: 0 <= i < k ==> IsBlank(s[i])
    ensures k < |s| ==> !IsBlank(s[k])
  {
    if s != [] && IsBlank(s[0]) then 1 + LeadingBlanks(s[1..]) else 0
  }

  /** Number of blank characters at the back of `s`. */
  function TrailingBlanks(s: string): (k: nat)
    ensures k <= |s|
    ensures forall i :: |s| - k <= i < |s| ==> IsBlank(s[i])
    ensures k < |s| ==> !IsBlank(s[|s| - 1 - k])
  {
    if s != [] && IsBlank(s[|s| - 1]) then 1 + TrailingBlanks(s[..|s| - 1]) else 0
  }

  /** `s.strip(" \r\n\t")`: the slice of `s` between its blank ends. */
  function Strip(s: string): (r: string)
    ensures r == [] <==> forall i :: 0 <= i < |s| ==> IsBlank(s[i])
    ensures r != [] ==> !IsBlank(r[0]) && !IsBlank(r[|r| - 1])
    ensures r == s[LeadingBlanks(s)..|s| - TrailingBlanks(s[LeadingBlanks(s)..])]
  {
    var front := LeadingBlanks(s);
    var rest := s[front..];
    rest[..|rest| - TrailingBlanks(rest)]
  }

  // ---------------------------------------------------------------------
  // str.split(sep) and its inverse sep.join
  // ---------------------------------------------------------------------

  /** Number of occurrences of `c` in `s`. */
  function Occurrences<T(==)>(s: seq<T>, c: T): nat {
    if s == [] then 0 else (if s[0] == c then 1 else 0) + Occurrences(s[1..], c)
  }

  /** `s.split(sep)` for a one-character separator: one field more than there are separators. */
  function Split(s: string, sep: char): (r: seq<string>)
    ensures |r| == Occurrences(s, sep) + 1
    ensures forall k :: 0 <= k < |r| ==> sep !in r[k]
  {
    if s == [] then [[]]
    else
      var rest := Split(s[1..], sep);
      if s[0] == sep then [[]] + rest else [[s[0]] + rest[0]] + rest[1..]
  }

  /** `sep.join(fields)`. */
  function Join(fields: seq<string>, sep: char): string
    requires |fields| > 0
  {
    if |fields| == 1 then fields[0] else fields[0] + [sep] + Join(fields[1..], sep)
  }

  /** Joining the fields of a split gives back the text. */
  lemma {:induction false} JoinSplit(s: string, sep: char)
    ensures Join(Split(s, sep), sep) == s
  {
    if s != [] {
      JoinSplit(s[1..], sep);
      var rest := Split(s[1..], sep);
      if s[0] == sep {
        assert Split(s, sep) == [[]] + rest;
        assert ([[]] + rest)[1..] == rest;
      } else {
        var r := Split(s, sep);
        assert r == [[s[0]] + rest[0]] + rest[1..];
        if |rest| == 1 {
          assert Join(r, sep) == [s[0]] + rest[0];
        } else {
          assert r[1..] == rest[1..];
          assert Join(rest, sep) == rest[0] + [sep] + Join(rest[1..], sep);
          assert Join(r, sep) == [s[0]] + rest[0] + [sep] + Join(rest[1..], sep);
        }
      }
    }
  }

  /** Splitting a join of separator-free fields gives back the fields. */
  lemma {:induction false} SplitJoin(fields: seq<string>, sep: char)
    requires |fields| > 0
    requires forall k :: 0 <= k < |fields| ==> sep !in fields[k]
    ensures Split(Join(fields, sep), sep) == fields
  {
    if |fields| == 1 {
      SplitFree(fields[0], sep);
    } else {
      SplitJoin(fields[1..], sep);
      SplitPrefix(fields[0], Join(fields[1..], sep), sep);
      assert [fields[0]] + fields[1..] == fields;
    }
  }

  /** A text without the separator is a single field. */
  lemma {:induction false} SplitFree(s: string, sep: char)
    requires sep !in s
    ensures Split(s, sep) == [s]
  {
    if s != [] {
      SplitFree(s[1..], sep);
      assert [s[0]] + s[1..] == s;
    }
  }

  /** A separator-free field followed by the separator splits off as the first field. */
  lemma {:induction false} SplitPrefix(f: string, rest: string, sep: char)
    requires sep !in f
    ensures Split(f + [sep] + rest, sep) == [f] + Split(rest, sep)
  {
    if f == [] {
      assert ([] + [sep] + rest)[1..] == rest;
    } else {
      var s := f + [sep] + rest;
      assert s[1..] == f[1..] + [sep] + rest;
      SplitPrefix(f[1..], rest, sep);
      assert [f[0]] + f[1..] == f;
    }
  }

  // ---------------------------------------------------------------------
  // str.lower() and case-insensitive comparison (ASCII)
  // ---------------------------------------------------------------------

  function LowerChar(c: char): (d: char)
    ensures 'A' <= c <= 'Z' ==> 'a' <= d <= 'z' && d as int - c as int == 32
    ensures !('A' <= c <= 'Z') ==> d == c
  {
    if 'A' <= c <= 'Z' then (c as int + 32) as char else c
  }

  /** `s.lower()` */
  function Lower(s: string): (r: string)
    ensures |r| == |s|
    ensures forall i :: 0 <= i < |s| ==> r[i] == LowerChar(s[i])
  {
    seq(|s|, i requires 0 <= i < |s| => LowerChar(s[i]))
  }

  /** Lower-casing twice changes nothing more. */
  lemma LowerIdempotent(s: string)
    ensures Lower(Lower(s)) == Lower(s)
  {
  }

  /** `a` and `b` are equal under `re.IGNORECASE` (ASCII letters). */
  predicate SameIgnoringCase(a: string, b: string) {
    Lower(a) == Lower(b)
  }

  // ---------------------------------------------------------------------
  // "%d" rendering, int() and float() of decimal text
  // ---------------------------------------------------------------------

  predicate IsDigit(c: char) {
    '0' <= c <= '9'
  }

  predicate AllDigits(s: string) {
    forall i :: 0 <= i < |s| ==> IsDigit(s[i])
  }

  function DigitChar(d: nat): (c: char)
    requires d < 10
    ensures IsDigit(c) && c as int - '0' as int == d
  {
    ('0' as int + d) as char
  }

  /** `"%d" % n` for a natural number. */
  function Decimal(n: nat): (r: string)
    ensures r != [] && AllDigits(r)
    ensures r[0] == '0' ==> n == 0
  {
    if n < 10 then [DigitChar(n)] else Decimal(n / 10) + [DigitChar(n % 10)]
  }

  /** The number a string of decimal digits denotes. */
  function DigitsValue(s: string): nat
    requires AllDigits(s)
  {
    if s == [] then 0 else 10 * DigitsValue(s[..|s| - 1]) + (s[|s| - 1] as int - '0' as int)
  }

  /** Rendering and reading back a natural number are inverse. */
  lemma {:induction false} DecimalValue(n: nat)
    ensures DigitsValue(Decimal(n)) == n
  {
    var r := Decimal(n);
    if n >= 10 {
      DecimalValue(n / 10);
      assert r[..|r| - 1] == Decimal(n / 10);
    }
  }

  /** Decimal renderings are distinct for distinct numbers. */
  lemma DecimalInjective(m: nat, n: nat)
    requires Decimal(m) == Decimal(n)
    ensures m == n
  {
    DecimalValue(m);
    DecimalValue(n);
  }

  /** `int(s)` for an optional sign followed by decimal digits. */
  function ParseInt(s: string): (r: Option<int>)
    ensures r.Some? <==>
      (s != [] && AllDigits(s) ) ||
      (|s| > 1 && (s[0] == '-' || s[0] == '+') && AllDigits(s[1..]))
  {
    if s != [] && (s[0] == '-' || s[0] == '+') then
      if |s| > 1 && AllDigits(s[1..]) then
        Some(if s[0] == '-' then -(DigitsValue(s[1..]) as int) else DigitsValue(s[1..]))
      else None
    else if s != [] && AllDigits(s) then Some(DigitsValue(s))
    else None
  }

  /** `int()` reads back what `"%d"` renders. */
  lemma ParseIntDecimal(n: nat)
    ensures ParseInt(Decimal(n)) == Some(n)
    ensures ParseInt("-" + Decimal(n)) == Some(-(n as int))
  {
    DecimalValue(n);
    assert ("-" + Decimal(n))[1..] == Decimal(n);
  }

  function Pow10(k: nat): (p: nat)
    ensures p >= 1
  {
    if k == 0 then 1 else 10 * Pow10(k - 1)
  }

  /** Position of the first '.' in `s`, or |s| when there is none. */
  function DotIndex(s: string): (k: nat)
    ensures k <= |s|
    ensures forall i :: 0 <= i < k ==> s[i] != '.'
    ensures k < |s| ==> s[k] == '.'
  {
    if s == [] then 0 else if s[0] == '.' then 0 else 1 + DotIndex(s[1..])
  }

  /** Exact value of the digit strings either side of a decimal point. */
  function FromParts(whole: string, frac: string): (r: Option<real>)
    ensures r.Some? ==> r.value >= 0.0
  {
    if AllDigits(whole) && AllDigits(frac) && |whole| + |frac| > 0 then
      QuotientNonNegative(DigitsValue(frac) as real, Pow10(|frac|) as real);
      Some(DigitsValue(whole) as real + DigitsValue(frac) as real / Pow10(|frac|) as real)
    else None
  }

  lemma QuotientNonNegative(a: real, b: real)
    requires a >= 0.0 && b > 0.0
    ensures a / b >= 0.0
  {
    assert a / b * b == a;
  }

  /** Exact value of unsigned decimal text `digits[.digits]` with at least one digit. */
  function UnsignedDecimal(s: string): (r: Option<real>)
    ensures r.Some? ==> r.value >= 0.0
  {
    var k := DotIndex(s);
    FromParts(s[..k], if k < |s| then s[k + 1..] else [])
  }

  /** `float(s)` for decimal text with an optional sign, to an exact real. */
  function ParseDecimal(s: string): (r: Option<real>)
  {
    if s != [] && (s[0] == '-' || s[0] == '+') then
      match UnsignedDecimal(s[1..])
      case Some(v) => Some(if s[0] == '-' then -v else v)
      case None => None
    else UnsignedDecimal(s)
  }

  /** `float()` of a rendered natural number gives that number. */
  lemma ParseDecimalOfDecimal(n: nat)
    ensures ParseDecimal(Decimal(n)) == Some(n as real)
  {
    var s := Decimal(n);
    assert DotIndex(s) == |s| by {
      DigitsHaveNoDot(s);
    }
    assert s[..|s|] == s;
    DecimalValue(n);
  }

  lemma {:induction false} DigitsHaveNoDot(s: string)
    requires AllDigits(s)
    ensures DotIndex(s) == |s|
  {
    if s != [] {
      DigitsHaveNoDot(s[1..]);
    }
  }

  /** Text with a fractional part: "<w>.<f>" reads as w + f / 10^|f|. */
  lemma ParseDecimalFraction(w: string, f: string)
    requires AllDigits(w) && AllDigits(f) && |w| + |f| > 0
    ensures ParseDecimal(w + ['.'] + f).Some?
    ensures ParseDecimal(w + ['.'] + f).value
         == DigitsValue(w) as real + DigitsValue(f) as real / Pow10(|f|) as real
  {
    var s := w + ['.'] + f;
    UnsignedFraction(w, f);
    assert s[0] != '-' && s[0] != '+' by {
      if w != [] { assert s[0] == w[0]; } else { assert s[0] == '.'; }
    }
  }

  lemma UnsignedFraction(w: string, f: string)
    requires AllDigits(w) && AllDigits(f) && |w| + |f| > 0
    ensures UnsignedDecimal(w + ['.'] + f) == FromParts(w, f)
  {
    var s := w + ['.'] + f;
    assert s == w + (['.'] + f);
    DotIndexAfter(w, ['.'] + f);
    assert s[..|w|] == w;
    assert s[|w| + 1..] == f;
  }

  lemma {:induction false} DotIndexAfter(w: string, t: string)
    requires AllDigits(w) && t != [] && t[0] == '.'
    ensures DotIndex(w + t) == |w|
  {
    if w != [] {
      assert (w + t)[1..] == w[1..] + t;
      DotIndexAfter(w[1..], t);
    }
  }
}
