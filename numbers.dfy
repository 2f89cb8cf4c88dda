/**
 * The three text-to-number conversions the decoder applies to element text:
 * Rust's `str::parse::<u32>`, `str::parse::<i64>` and `str::parse::<f64>`.
 * Integer parsing accepts an optional sign (a `-` only for signed types) and
 * then one or more ASCII decimal digits, and fails on overflow. For `f64`
 * only the accepted syntax is modelled; the value is kept as its text.
 */
module Numbers {

  datatype Option<+T> = None | Some(value: T)

  const U32_LIMIT: int := 0x1_0000_0000
  const I64_LIMIT: int := 0x8000_0000_0000_0000

  /** Values of Rust's `u32`. */
  type U32 = x: int | 0 <= x < U32_LIMIT

  /** Values of Rust's `i64`. */
  type I64 = x: int | -I64_LIMIT <= x < I64_LIMIT

  predicate IsDigit(c: char) { '0' <= c <= '9' }

  function DigitValue(c: char): (d: nat)
    requires IsDigit(c)
    ensures d < 10
  {
    (c as int) - ('0' as int)
  }

  function DigitChar(d: nat): (c: char)
    requires d < 10
    ensures IsDigit(c) && DigitValue(c) == d
  {
    ('0' as int + d) as char
  }

  predicate AllDigits(s: string) { forall i :: 0 <= i < |s| ==> IsDigit(s[i]) }

  /** The value of a run of decimal digits, most significant first,
      accumulated left to right as the standard library does. */
  function DigitsValue(ds: string): nat
    requires AllDigits(ds)
  {
    if ds == [] then 0 else DigitsValue(ds[..|ds| - 1]) * 10 + DigitValue(ds[|ds| - 1])
  }

  /** The split of Rust's integer parser: a lone sign is refused, a leading
      `+` is dropped, and a leading `-` is taken as the sign only for signed
      types (for unsigned ones it is left in and then fails as a digit).
      Yields whether the number is negative and the digits that remain. */
  function SplitSign(s: string, signed: bool): (r: Option<(bool, string)>)
    ensures r.Some? ==> |r.value.1| > 0 && |r.value.1| + 1 >= |s|
    ensures r.Some? && r.value.0 ==> signed
  {
    if |s| == 0 then None
    else if (s[0] == '+' || s[0] == '-') && |s| == 1 then None
    else if s[0] == '+' then Some((false, s[1..]))
    else if s[0] == '-' && signed then Some((true, s[1..]))
    else Some((false, s))
  }

  /** `str::parse::<u32>`: `None` is the `Err` that `unwrap` turns into a panic. */
  function ParseU32(s: string): (r: Option<U32>)
    // accepted: an optional `+`, then one or more digits, below 2^32
    ensures r.Some? <==>
      var digits := if |s| > 0 && s[0] == '+' then s[1..] else s;
      |digits| > 0 && AllDigits(digits) && DigitsValue(digits) < U32_LIMIT
    ensures r.Some? ==>
      var digits := if s[0] == '+' then s[1..] else s;
      AllDigits(digits) && r.value == DigitsValue(digits)
  {
    match SplitSign(s, false)
    case None => None
    case Some((_, digits)) =>
      if AllDigits(digits) && DigitsValue(digits) < U32_LIMIT then Some(DigitsValue(digits)) else None
  }

  /** `str::parse::<i64>`. */
  function ParseI64(s: string): (r: Option<I64>)
    // accepted: an optional `+` or `-`, then one or more digits, within
    // [-2^63, 2^63)
    ensures r.Some? <==>
      |s| > 0 &&
      var digits := if s[0] == '+' || s[0] == '-' then s[1..] else s;
      |digits| > 0 && AllDigits(digits) &&
      (if s[0] == '-' then DigitsValue(digits) <= I64_LIMIT else DigitsValue(digits) < I64_LIMIT)
    ensures r.Some? ==>
      var digits := if s[0] == '+' || s[0] == '-' then s[1..] else s;
      AllDigits(digits) && r.value == if s[0] == '-' then -(DigitsValue(digits) as int) else DigitsValue(digits) as int
  {
    match SplitSign(s, true)
    case None => None
    case Some((negative, digits)) =>
      if !AllDigits(digits) then None
      else
        var magnitude: int := DigitsValue(digits);
        if negative then
          if magnitude <= I64_LIMIT then Some(-magnitude) else None
        else
          if magnitude < I64_LIMIT then Some(magnitude) else None
  }

  /** The decimal rendering of a natural number, without leading zeros. */
  function ShowNat(n: nat): (s: string)
    ensures |s| > 0 && AllDigits(s)
    ensures s[0] != '0' || s == "0"
  {
    if n < 10 then [DigitChar(n)] else ShowNat(n / 10) + [DigitChar(n % 10)]
  }

  /** The decimal rendering of an integer, with a `-` when negative. */
  function ShowInt(i: int): string
  {
    if i < 0 then ['-'] + ShowNat(-i) else ShowNat(i)
  }

  /** Digit strings as `ShowNat` writes them: no sign and no leading zero. */
  predicate IsCanonical(s: string)
  {
    |s| > 0 && AllDigits(s) && (s[0] != '0' || |s| == 1)
  }

  lemma {:induction false} DigitsValueShowNat(n: nat)
    ensures DigitsValue(ShowNat(n)) == n
    decreases n
  {
    if n >= 10 {
      var s := ShowNat(n);
      assert s[..|s| - 1] == ShowNat(n / 10);
      DigitsValueShowNat(n / 10);
    }
  }

  /** A digit run that does not start with `0` has a positive value. */
  lemma {:induction false} DigitsValuePositive(ds: string)
    requires |ds| > 0 && AllDigits(ds) && ds[0] != '0'
    ensures DigitsValue(ds) > 0
    decreases |ds|
  {
    if |ds| > 1 {
      DigitsValuePositive(ds[..|ds| - 1]);
    }
  }

  /** Every canonical digit string is the rendering of its own value. */
  lemma {:induction false} ShowNatDigitsValue(ds: string)
    requires IsCanonical(ds)
    ensures ShowNat(DigitsValue(ds)) == ds
    decreases |ds|
  {
    if |ds| > 1 {
      var front := ds[..|ds| - 1];
      var d := DigitValue(ds[|ds| - 1]);
      DigitsValuePositive(front);
      ShowNatDigitsValue(front);
      var n := DigitsValue(ds);
      assert n == DigitsValue(front) * 10 + d;
      assert n / 10 == DigitsValue(front) && n % 10 == d;
      assert DigitChar(d) == ds[|ds| - 1];
      assert ds == front + [ds[|ds| - 1]];
    } else {
      assert DigitChar(DigitValue(ds[0])) == ds[0];
    }
  }

  /** A leading zero does not change the value of a digit run. */
  lemma {:induction false} DigitsValueLeadingZero(ds: string)
    requires AllDigits(ds)
    ensures AllDigits(['0'] + ds) && DigitsValue(['0'] + ds) == DigitsValue(ds)
    decreases |ds|
  {
    var zs := ['0'] + ds;
    if ds != [] {
      assert zs[..|zs| - 1] == ['0'] + ds[..|ds| - 1];
      DigitsValueLeadingZero(ds[..|ds| - 1]);
    }
  }

  /** Parsing the rendering of a number yields that number exactly when it
      fits in a `u32`, and fails with an overflow otherwise. */
  lemma ParseU32ShowNat(n: nat)
    ensures ParseU32(ShowNat(n)) == if n < U32_LIMIT then Some(n) else None
  {
    DigitsValueShowNat(n);
  }

  /** The converse: on canonical strings `ParseU32` is undone by `ShowNat`. */
  lemma ParseU32Canonical(s: string)
    requires IsCanonical(s)
    ensures ParseU32(s).Some? ==> ShowNat(ParseU32(s).value) == s
  {
    ShowNatDigitsValue(s);
  }

  /** Leading zeros and a leading `+` are accepted and do not change the result. */
  lemma ParseU32Prefixes(s: string)
    requires |s| > 0 && IsDigit(s[0])
    ensures ParseU32(['0'] + s) == ParseU32(s)
    ensures ParseU32(['+'] + s) == ParseU32(s)
  {
    if AllDigits(s) {
      DigitsValueLeadingZero(s);
    } else {
      var i :| 0 <= i < |s| && !IsDigit(s[i]);
      assert !IsDigit((['0'] + s)[i + 1]);
    }
    assert (['+'] + s)[1..] == s;
  }

  /** A `u32` refuses a minus sign, even on zero. */
  lemma ParseU32RejectsMinus(s: string)
    ensures ParseU32(['-'] + s) == None
  {
    assert !IsDigit((['-'] + s)[0]);
  }

  /** Parsing the rendering of an integer yields that integer exactly when it
      fits in an `i64`. */
  lemma ParseI64ShowInt(i: int)
    ensures ParseI64(ShowInt(i)) == if -I64_LIMIT <= i < I64_LIMIT then Some(i) else None
  {
    if i < 0 {
      var digits := ShowNat(-i);
      DigitsValueShowNat(-i);
      assert (['-'] + digits)[1..] == digits;
      assert SplitSign(ShowInt(i), true) == Some((true, digits));
    } else {
      DigitsValueShowNat(i);
      assert SplitSign(ShowInt(i), true) == Some((false, ShowNat(i)));
    }
  }

  // ---------------------------------------------------------------------
  // The syntax `str::parse::<f64>` accepts:
  //   Float    ::= Sign? ( 'inf' | 'infinity' | 'nan' | Number )
  //   Number   ::= ( Digit+ | Digit+ '.' Digit* | Digit* '.' Digit+ ) Exp?
  //   Exp      ::= ('e' | 'E') Sign? Digit+
  // where the three words are matched without regard to ASCII case.
  // A literal too large for an f64 still parses (to infinity).
  // ---------------------------------------------------------------------

  /** The length of the longest prefix of `s` made of decimal digits. */
  function DigitPrefixLength(s: string): (n: nat)
    ensures n <= |s| && AllDigits(s[..n])
    ensures n < |s| ==> !IsDigit(s[n])
  {
    if s == [] || !IsDigit(s[0]) then 0
    else
      var m := DigitPrefixLength(s[1..]);
      assert s[..1 + m] == [s[0]] + s[1..][..m];
      1 + m
  }

  /** Empty, or an exponent: `e` or `E`, an optional sign, one or more digits. */
  predicate IsExponentTail(t: string)
  {
    t == [] ||
    (|t| >= 2 && (t[0] == 'e' || t[0] == 'E') &&
     var u := if t[1] == '+' || t[1] == '-' then t[2..] else t[1..];
     u != [] && AllDigits(u))
  }

  /** A decimal number with at least one digit, at most one `.`, and an
      optional exponent, consuming the whole string. */
  predicate IsDecimalNumber(b: string)
  {
    var i := DigitPrefixLength(b);
    if i < |b| && b[i] == '.' then
      var j := DigitPrefixLength(b[i + 1..]);
      i + j > 0 && IsExponentTail(b[i + 1 + j..])
    else
      i > 0 && IsExponentTail(b[i..])
  }

  function AsciiUpper(c: char): char
  {
    if 'a' <= c <= 'z' then (c as int - 32) as char else c
  }

  predicate EqualsIgnoringAsciiCase(a: string, b: string)
  {
    |a| == |b| && forall i :: 0 <= i < |a| ==> AsciiUpper(a[i]) == AsciiUpper(b[i])
  }

  predicate IsInfOrNan(b: string)
  {
    EqualsIgnoringAsciiCase(b, "inf") || EqualsIgnoringAsciiCase(b, "infinity")
    || EqualsIgnoringAsciiCase(b, "nan")
  }

  /** Whether `str::parse::<f64>` succeeds on `s`. */
  predicate IsF64Literal(s: string)
    // a literal starts with a sign, a digit, a point, or the first letter
    // of `inf`, `infinity` or `nan`
    ensures IsF64Literal(s) ==> |s| > 0 && (IsDigit(s[0]) || s[0] in "+-.iInN")
  {
    |s| > 0 &&
    var body := if s[0] == '+' || s[0] == '-' then s[1..] else s;
    |body| > 0 && (IsDecimalNumber(body) || IsInfOrNan(body))
  }

  /** An `f64` as the literal text it was parsed from. */
  type F64Literal = s: string | IsF64Literal(s) witness "0"

  /** Every rendered integer is also a valid `f64` literal. */
  lemma ShowIntIsF64Literal(i: int)
    ensures IsF64Literal(ShowInt(i))
  {
    var s := ShowInt(i);
    var digits := ShowNat(if i < 0 then -i else i);
    var body := if s[0] == '+' || s[0] == '-' then s[1..] else s;
    if i < 0 {
      assert body == digits;
    }
    AllDigitsPrefixLength(digits);
  }

  lemma {:induction false} AllDigitsPrefixLength(s: string)
    requires AllDigits(s)
    ensures DigitPrefixLength(s) == |s|
    decreases |s|
  {
    if s != [] {
      AllDigitsPrefixLength(s[1..]);
    }
  }

  /** `str::parse::<f64>` accepts a decimal fraction, ... */
  lemma DecimalFractionAccepted()
    ensures IsF64Literal("12.5")
  {
    assert DigitPrefixLength("12.5") == 2;
    assert DigitPrefixLength("5") == 1;
  }

  /** ... a signed exponent form without integer digits ... */
  lemma ExponentFormAccepted()
    ensures IsF64Literal("-.5e+3")
  {
    assert "-.5e+3"[1..] == ".5e+3";
    assert DigitPrefixLength(".5e+3") == 0;
    assert DigitPrefixLength("5e+3") == 1;
    assert IsExponentTail("e+3");
  }

  /** ... and the special words in any ASCII case. */
  lemma SpecialWordAccepted()
    ensures IsF64Literal("InFiniTy")
  {
    assert EqualsIgnoringAsciiCase("InFiniTy", "infinity");
  }

  /** It refuses text that is not a number, and the empty text, ... */
  lemma NonNumbersRefused()
    ensures !IsF64Literal("abc") && !IsF64Literal("") && !IsF64Literal("+")
  {
    assert DigitPrefixLength("abc") == 0;
    assert !EqualsIgnoringAsciiCase("abc", "inf") by { assert AsciiUpper('a') != AsciiUpper('i'); }
    assert !EqualsIgnoringAsciiCase("abc", "nan") by { assert AsciiUpper('b') != AsciiUpper('a'); }
  }

  /** ... and malformed numbers: a lone point, ... */
  lemma LonePointRefused()
    ensures !IsF64Literal(".")
  {
    assert DigitPrefixLength(".") == 0;
    assert DigitPrefixLength("") == 0;
  }

  /** ... an exponent without digits, ... */
  lemma BareExponentRefused()
    ensures !IsF64Literal("1e")
  {
    assert DigitPrefixLength("1e") == 1;
  }

  /** ... and a second point. */
  lemma SecondPointRefused()
    ensures !IsF64Literal("1.2.3")
  {
    assert DigitPrefixLength("1.2.3") == 1;
    assert DigitPrefixLength("2.3") == 1;
  }
}
