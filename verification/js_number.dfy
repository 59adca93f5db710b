/** The digit scanning of JavaScript's `parseInt(string, 10)` (section
    19.2.5 of ECMA-262), together with the decimal rendering it inverts. NaN
    is `None`. The value is kept as an unbounded integer, where JavaScript
    rounds it to a double: the two agree within `MaxSafeInteger`, and the
    lemmas that read a value back are stated within that bound. */
module JsNumber {
  import opened Wrappers
  import opened Text

  /** `Number.MAX_SAFE_INTEGER`, 2^53 - 1: every integer of at most this
      magnitude is a double, so `parseInt` returns it exactly. */
  const MaxSafeInteger: int := 0x1F_FFFF_FFFF_FFFF

  /** The longest prefix of `s` made of decimal digits. */
  function DigitPrefix(s: string): (r: string)
    ensures |r| <= |s| && r == s[..|r|]
    ensures forall i :: 0 <= i < |r| ==> IsDigit(r[i])
    ensures |r| < |s| ==> !IsDigit(s[|r|])
  {
    if |s| > 0 && IsDigit(s[0]) then [s[0]] + DigitPrefix(s[1..]) else ""
  }

  predicate AllDigits(s: string)
  {
    forall i :: 0 <= i < |s| ==> IsDigit(s[i])
  }

  /** The number a string of decimal digits denotes, most significant first. */
  function DigitsValue(ds: string): nat
    requires AllDigits(ds)
  {
    if |ds| == 0 then 0 else 10 * DigitsValue(ds[..|ds| - 1]) + DigitValue(ds[|ds| - 1])
  }

  /** `s` with one leading `-` or `+` removed. */
  function DropSign(s: string): string
  {
    if |s| > 0 && (s[0] == '-' || s[0] == '+') then s[1..] else s
  }

  predicate IsNegative(s: string)
  {
    |s| > 0 && s[0] == '-'
  }

  /** `parseInt(s, 10)`: skip leading white space, take one optional sign,
      then the longest run of decimal digits; NaN (`None`) when that run is
      empty. With radix 10 no `0x` prefix is recognised. */
  function ParseInt(s: string): (r: Option<int>)
    ensures r.None? <==> (var u := DropSign(TrimStart(s)); |u| == 0 || !IsDigit(u[0]))
  {
    var t := TrimStart(s);
    var digits := DigitPrefix(DropSign(t));
    if digits == "" then None
    else
      var magnitude: int := DigitsValue(digits);
      Some(if IsNegative(t) then -magnitude else magnitude)
  }

  function DigitChar(v: nat): (c: char)
    requires v < 10
    ensures IsDigit(c) && DigitValue(c) == v
  {
    ('0' as int + v) as char
  }

  /** The decimal rendering of `n` (what `String(n)` gives for a safe integer). */
  function ToDecimal(n: nat): (r: string)
    ensures |r| >= 1 && AllDigits(r)
    ensures DigitsValue(r) == n
  {
    if n < 10 then [DigitChar(n)]
    else
      var init := ToDecimal(n / 10);
      var r := init + [DigitChar(n % 10)];
      assert r[..|r| - 1] == init;
      r
  }

  /** The decimal rendering of a possibly negative integer. */
  function ToSignedDecimal(n: int): (r: string)
    ensures |r| >= 1
  {
    if n < 0 then "-" + ToDecimal(-n) else ToDecimal(n)
  }

  /** The digit prefix of a digit string followed by a non-digit is that
      digit string. */
  lemma {:induction false} DigitPrefixOfDigits(ds: string, tail: string)
    requires AllDigits(ds)
    requires tail == "" || !IsDigit(tail[0])
    ensures DigitPrefix(ds + tail) == ds
  {
    if |ds| > 0 {
      assert (ds + tail)[1..] == ds[1..] + tail;
      DigitPrefixOfDigits(ds[1..], tail);
      assert ds == [ds[0]] + ds[1..];
    }
  }

  /** Reading off `parseInt` once the white space and the digit run are known. */
  lemma ParseIntOfParts(s: string, ds: string)
    requires |ds| >= 1 && AllDigits(ds)
    requires TrimStart(s) == s && DigitPrefix(DropSign(s)) == ds
    ensures ParseInt(s) == Some(if IsNegative(s) then -(DigitsValue(ds) as int) else DigitsValue(ds))
  {
  }

  /** A run of digits followed by a non-digit parses as the run's value. */
  lemma ParseIntDigits(ds: string, tail: string)
    requires |ds| >= 1 && AllDigits(ds) && DigitsValue(ds) <= MaxSafeInteger
    requires tail == "" || !IsDigit(tail[0])
    ensures ParseInt(ds + tail) == Some(DigitsValue(ds))
  {
    var s := ds + tail;
    assert s[0] == ds[0];
    UnsignedStart(s);
    DigitPrefixOfDigits(ds, tail);
    ParseIntOfParts(s, ds);
  }

  /** A string starting with a digit has no white space or sign to skip. */
  lemma UnsignedStart(s: string)
    requires |s| > 0 && IsDigit(s[0])
    ensures TrimStart(s) == s && DropSign(s) == s && !IsNegative(s)
  {
    assert !IsJsWhitespace(s[0]);
  }

  /** A minus sign, a run of digits and a non-digit parse as the negated
      value of the run. */
  lemma ParseIntMinusDigits(ds: string, tail: string)
    requires |ds| >= 1 && AllDigits(ds) && DigitsValue(ds) <= MaxSafeInteger
    requires tail == "" || !IsDigit(tail[0])
    ensures ParseInt("-" + ds + tail) == Some(-(DigitsValue(ds) as int))
  {
    MinusDigitsParts("-" + ds + tail, ds, tail);
    ParseIntOfParts("-" + ds + tail, ds);
  }

  lemma MinusDigitsParts(s: string, ds: string, tail: string)
    requires |ds| >= 1 && AllDigits(ds)
    requires tail == "" || !IsDigit(tail[0])
    requires s == "-" + ds + tail
    ensures TrimStart(s) == s && IsNegative(s) && DigitPrefix(DropSign(s)) == ds
  {
    assert s[0] == '-';
    assert s[1..] == ds + tail;
    DigitPrefixOfDigits(ds, tail);
  }

  /** `parseInt` reads back every integer's decimal rendering, and ignores
      whatever follows it once a non-digit is reached: `parseInt("12abc")` is
      12, `parseInt("-5")` is -5. */
  lemma ParseIntSignedDecimal(n: int, tail: string)
    requires -MaxSafeInteger <= n <= MaxSafeInteger
    requires tail == "" || !IsDigit(tail[0])
    ensures ParseInt(ToSignedDecimal(n) + tail) == Some(n)
  {
    if n < 0 {
      ParseIntMinusDigits(ToDecimal(-n), tail);
    } else {
      ParseIntDigits(ToDecimal(n), tail);
    }
  }

  /** `parseInt` reads back the decimal rendering of every integer. */
  lemma ParseIntRoundTrip(n: int)
    requires -MaxSafeInteger <= n <= MaxSafeInteger
    ensures ParseInt(ToSignedDecimal(n)) == Some(n)
  {
    ParseIntSignedDecimal(n, "");
    assert ToSignedDecimal(n) + "" == ToSignedDecimal(n);
  }

  /** `parseInt(undefined, 10)` converts its argument to the string
      "undefined" first, which is NaN. */
  lemma ParseIntOfUndefined()
    ensures ParseInt("undefined") == None
  {
    LetterStart("undefined");
  }

  /** A string starting with a letter has nothing to skip and no digit. */
  lemma LetterStart(s: string)
    requires |s| > 0 && 'a' <= s[0] <= 'z'
    ensures ParseInt(s) == None
  {
    assert !IsJsWhitespace(s[0]);
    assert TrimStart(s) == s && DropSign(s) == s;
  }

  /** A value of `Math.random()`: a real in [0, 1). */
  type UnitReal = r: real | 0.0 <= r < 1.0

  /** `Math.floor(d * n)` for a draw `d`: an index into a collection of size
      `n`. */
  function FloorIndex(d: UnitReal, n: nat): (k: nat)
    ensures n > 0 ==> k < n
    ensures n == 0 ==> k == 0
  {
    ScaleBelow(d, n as real);
    (d * n as real).Floor
  }

  /** A draw scales `m` into [0, m), or to 0 when `m` is 0. */
  lemma ScaleBelow(d: real, m: real)
    requires 0.0 <= d < 1.0 && 0.0 <= m
    ensures 0.0 <= d * m <= m
    ensures m > 0.0 ==> d * m < m
  {
    assert m - d * m == (1.0 - d) * m;
  }

  /** Every index is hit by some draw: `k / n` selects index `k`. */
  lemma FloorIndexReaches(k: nat, n: nat)
    requires k < n
    ensures 0.0 <= k as real / n as real < 1.0
    ensures FloorIndex(k as real / n as real, n) == k
  {
    var d := k as real / n as real;
    assert d * n as real == k as real;
  }
}
