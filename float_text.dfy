/**
  Python 2 float() of a str: C whitespace around the number, an optional sign
  directly before it, decimal digits with an optional decimal point (at least one
  digit on either side of it), and an optional exponent `e` or `E` with its own
  optional sign and at least one digit. The value is kept as an exact real.
*/
module FloatText {
  import opened Wrappers
  import opened IntText

  function Pow10(n: nat): (p: nat)
    ensures p > 0
  {
    if n == 0 then 1 else 10 * Pow10(n - 1)
  }

  /** 10^e as an exact real, for an exponent of either sign. */
  function Scale10(e: int): (r: real)
    ensures r > 0.0
  {
    if e >= 0 then Pow10(e) as real else 1.0 / Pow10(-e) as real
  }

  /** The value of the decimal ip.fp: integer digits ip, fraction digits fp. */
  function DecimalValue(ip: string, fp: string): real
    requires AllDigits(ip) && AllDigits(fp)
  {
    DigitsValue(ip) as real + DigitsValue(fp) as real / Pow10(|fp|) as real
  }

  predicate IsExponentMark(c: char) {
    c == 'e' || c == 'E'
  }

  /** The characters float() can accept. */
  predicate IsFloatChar(c: char) {
    IsDigit(c) || IsSpace(c) || c == '+' || c == '-' || c == '.' || IsExponentMark(c)
  }

  /** What follows the mantissa: the exponent (0 when there is none), then only whitespace. */
  function ParseExponent(r: string): Option<int> {
    if AllSpace(r) then Some(0)
    else if !IsExponentMark(r[0]) then None
    else SignedExponent(r[1..])
  }

  /** The exponent after its mark: an optional sign, the digits, then only whitespace. */
  function SignedExponent(a: string): Option<int> {
    if a != [] && a[0] == '-' then Negate(ParseDigits(a[1..]))
    else if a != [] && a[0] == '+' then Widen(ParseDigits(a[1..]))
    else Widen(ParseDigits(a))
  }

  /**
    The number float() has read: sign, integer digits, fraction digits and
    exponent, before they are combined into a value.
  */
  datatype Decimal = Decimal(negative: bool, intDigits: string, fracDigits: string, exponent: int)

  predicate WellFormed(d: Decimal) {
    AllDigits(d.intDigits) && AllDigits(d.fracDigits)
  }

  /** The exact value of a scanned number: ±(ip.fp) * 10^e. */
  function DecimalReal(d: Decimal): real
    requires WellFormed(d)
  {
    var m := DecimalValue(d.intDigits, d.fracDigits) * Scale10(d.exponent);
    if d.negative then -m else m
  }

  /** Scanning text that starts after the sign: the integer digits, then the rest. */
  function ScanUnsigned(b: string): (r: Option<Decimal>)
    ensures r.Some? ==> WellFormed(r.value) && !r.value.negative
  {
    var n := DigitRun(b);
    AfterDigits(b[..n], b[n..])
  }

  /** After the integer digits ip: an optional decimal point, then the fraction digits. */
  function AfterDigits(ip: string, r: string): (res: Option<Decimal>)
    requires AllDigits(ip)
    ensures res.Some? ==> WellFormed(res.value) && !res.value.negative
  {
    if r != [] && r[0] == '.' then Fraction(ip, r[1..]) else Fraction(ip, r)
  }

  function Fraction(ip: string, r: string): (res: Option<Decimal>)
    requires AllDigits(ip)
    ensures res.Some? ==> WellFormed(res.value) && !res.value.negative
  {
    var n := DigitRun(r);
    Mantissa(ip, r[..n], r[n..])
  }

  /** The mantissa ip.fp needs at least one digit; then comes the exponent part. */
  function Mantissa(ip: string, fp: string, tail: string): (res: Option<Decimal>)
    requires AllDigits(ip) && AllDigits(fp)
    ensures res.Some? ==> WellFormed(res.value) && !res.value.negative
  {
    if |ip| + |fp| == 0 then None
    else
      match ParseExponent(tail)
      case None => None
      case Some(e) => Some(Decimal(false, ip, fp, e))
  }

  function Negated(r: Option<Decimal>): (res: Option<Decimal>)
    requires r.Some? ==> WellFormed(r.value)
    ensures res.Some? ==> WellFormed(res.value)
  {
    match r
    case None => None
    case Some(d) => Some(d.(negative := true))
  }

  /** Scanning float()'s argument: leading whitespace, an optional sign, the number. */
  function ScanFloat(s: string): (r: Option<Decimal>)
    ensures r.Some? ==> WellFormed(r.value)
  {
    var a := SkipSpace(s);
    if a == [] then None
    else if a[0] == '-' then Negated(ScanUnsigned(a[1..]))
    else if a[0] == '+' then ScanUnsigned(a[1..])
    else ScanUnsigned(a)
  }

  /** Python 2 float(s) for a str s; None where float() raises ValueError. */
  function ParseFloat(s: string): Option<real> {
    match ScanFloat(s)
    case None => None
    case Some(d) => Some(DecimalReal(d))
  }

  // ----- what float() reads -----

  /** Trailing whitespace alone is an exponent of 0. */
  lemma ExponentOfSpace(post: string)
    requires AllSpace(post)
    ensures ParseExponent(post) == Some(0)
  {
  }

  /** ±n, negative when neg. */
  function Signed(neg: bool, n: nat): int {
    if neg then -(n as int) else n
  }

  /** The optional minus sign in front of a number. */
  function SignText(neg: bool): string {
    if neg then "-" else ""
  }

  lemma ExponentOfMark(mark: char, a: string)
    requires IsExponentMark(mark)
    ensures ParseExponent([mark] + a) == SignedExponent(a)
  {
    var r := [mark] + a;
    assert !IsSpace(r[0]);
    assert r[1..] == a;
  }

  lemma NegativeExponentOfDigits(kd: string, post: string)
    requires |kd| > 0 && AllDigits(kd) && AllSpace(post)
    ensures SignedExponent(['-'] + (kd + post)) == Some(-(DigitsValue(kd) as int))
  {
    var a := ['-'] + (kd + post);
    assert a[1..] == kd + post;
    ParseDigitsOfDigitsThenSpace(kd, post);
  }

  lemma PositiveExponentOfDigits(kd: string, post: string)
    requires |kd| > 0 && AllDigits(kd) && AllSpace(post)
    ensures SignedExponent(kd + post) == Some(DigitsValue(kd) as int)
  {
    assert (kd + post)[0] == kd[0];
    ParseDigitsOfDigitsThenSpace(kd, post);
  }

  lemma NegativeExponent(mark: char, kd: string, post: string)
    requires IsExponentMark(mark) && |kd| > 0 && AllDigits(kd) && AllSpace(post)
    ensures ParseExponent([mark] + (SignText(true) + (kd + post)))
      == Some(Signed(true, DigitsValue(kd)))
  {
    var a := ['-'] + (kd + post);
    assert SignText(true) + (kd + post) == a;
    assert SignedExponent(a) == Some(-(DigitsValue(kd) as int)) by {
      NegativeExponentOfDigits(kd, post);
    }
    ExponentOfMark(mark, a);
  }

  lemma PositiveExponent(mark: char, kd: string, post: string)
    requires IsExponentMark(mark) && |kd| > 0 && AllDigits(kd) && AllSpace(post)
    ensures ParseExponent([mark] + (SignText(false) + (kd + post)))
      == Some(Signed(false, DigitsValue(kd)))
  {
    assert SignText(false) + (kd + post) == kd + post;
    ExponentOfMark(mark, kd + post);
    PositiveExponentOfDigits(kd, post);
  }

  /** mark, an optional '-', the digits kd and trailing whitespace give the exponent ±kd. */
  lemma ExponentOfDigits(mark: char, neg: bool, kd: string, post: string)
    requires IsExponentMark(mark) && |kd| > 0 && AllDigits(kd) && AllSpace(post)
    ensures ParseExponent([mark] + (SignText(neg) + (kd + post)))
      == Some(Signed(neg, DigitsValue(kd)))
  {
    if neg {
      NegativeExponent(mark, kd, post);
    } else {
      PositiveExponent(mark, kd, post);
    }
  }

  lemma UnsignedOf(ip: string, rest: string)
    requires AllDigits(ip) && (rest == [] || !IsDigit(rest[0]))
    ensures ScanUnsigned(ip + rest) == AfterDigits(ip, rest)
  {
    DigitRunOfDigitsThen(ip, rest);
    assert (ip + rest)[..|ip|] == ip;
    assert (ip + rest)[|ip|..] == rest;
  }

  lemma FractionOf(ip: string, fp: string, tail: string)
    requires AllDigits(ip) && AllDigits(fp) && (tail == [] || !IsDigit(tail[0]))
    ensures Fraction(ip, fp + tail) == Mantissa(ip, fp, tail)
  {
    DigitRunOfDigitsThen(fp, tail);
    assert (fp + tail)[..|fp|] == fp;
    assert (fp + tail)[|fp|..] == tail;
  }

  /** A mantissa ip.fp (at least one digit) followed by an exponent part scans as ip.fp * 10^e. */
  lemma UnsignedOfPointed(ip: string, fp: string, tail: string, e: int)
    requires AllDigits(ip) && AllDigits(fp) && |ip| + |fp| > 0
    requires tail == [] || !IsDigit(tail[0])
    requires ParseExponent(tail) == Some(e)
    ensures ScanUnsigned(ip + (['.'] + (fp + tail))) == Some(Decimal(false, ip, fp, e))
  {
    var r := ['.'] + (fp + tail);
    UnsignedOf(ip, r);
    assert r[1..] == fp + tail;
    FractionOf(ip, fp, tail);
  }

  /** A mantissa of digits alone, followed by an exponent part, scans as ip * 10^e. */
  lemma UnsignedOfInteger(ip: string, tail: string, e: int)
    requires AllDigits(ip) && |ip| > 0
    requires tail == [] || (!IsDigit(tail[0]) && tail[0] != '.')
    requires ParseExponent(tail) == Some(e)
    ensures ScanUnsigned(ip + tail) == Some(Decimal(false, ip, [], e))
  {
    UnsignedOf(ip, tail);
    FractionOf(ip, [], tail);
    assert [] + tail == tail;
  }

  lemma {:induction false} DigitRunOfDigitsThen(d: string, rest: string)
    requires AllDigits(d) && (rest == [] || !IsDigit(rest[0]))
    ensures DigitRun(d + rest) == |d|
    decreases |d|
  {
    if d != [] {
      assert (d + rest)[1..] == d[1..] + rest;
      DigitRunOfDigitsThen(d[1..], rest);
    } else {
      assert d + rest == rest;
    }
  }

  lemma {:induction false} ScanSigned(pre: string, neg: bool, u: string)
    requires AllSpace(pre) && |u| > 0 && !IsSpace(u[0]) && u[0] != '-' && u[0] != '+'
    ensures ScanFloat(pre + (SignText(neg) + u))
      == (if neg then Negated(ScanUnsigned(u)) else ScanUnsigned(u))
  {
    var w := SignText(neg) + u;
    SkipSpaceOfSpacedWord(pre, w);
    if neg {
      assert w[1..] == u;
    } else {
      assert w == u;
    }
  }

  lemma PointedValue(neg: bool, ip: string, fp: string)
    requires AllDigits(ip) && AllDigits(fp)
    ensures DecimalReal(Decimal(neg, ip, fp, 0)) == if neg then -DecimalValue(ip, fp) else DecimalValue(ip, fp)
  {
  }

  lemma {:induction false} ScanPointed(pre: string, neg: bool, ip: string, fp: string, post: string)
    requires AllSpace(pre) && AllSpace(post)
    requires AllDigits(ip) && AllDigits(fp) && |ip| + |fp| > 0
    ensures ScanFloat(pre + (SignText(neg) + (ip + (['.'] + (fp + post))))) == Some(Decimal(neg, ip, fp, 0))
  {
    var u := ip + (['.'] + (fp + post));
    ExponentOfSpace(post);
    assert post == [] || !IsDigit(post[0]) by {
      if post != [] { assert IsSpace(post[0]); }
    }
    UnsignedOfPointed(ip, fp, post, 0);
    assert u[0] == (if |ip| > 0 then ip[0] else '.');
    ScanSigned(pre, neg, u);
  }

  /** float() of whitespace, an optional '-', ip.fp and whitespace is ±ip.fp. */
  lemma ParseFloatOfPointed(pre: string, neg: bool, ip: string, fp: string, post: string)
    requires AllSpace(pre) && AllSpace(post)
    requires AllDigits(ip) && AllDigits(fp) && |ip| + |fp| > 0
    ensures ParseFloat(pre + (SignText(neg) + (ip + (['.'] + (fp + post)))))
      == Some(if neg then -DecimalValue(ip, fp) else DecimalValue(ip, fp))
  {
    ScanPointed(pre, neg, ip, fp, post);
    PointedValue(neg, ip, fp);
  }

  lemma {:induction false} ScanScientific(ip: string, mark: char, neg: bool, kd: string)
    requires AllDigits(ip) && |ip| > 0 && IsExponentMark(mark) && AllDigits(kd) && |kd| > 0
    ensures ScanFloat(ip + ([mark] + (SignText(neg) + kd)))
      == Some(Decimal(false, ip, [], Signed(neg, DigitsValue(kd))))
  {
    var e := Signed(neg, DigitsValue(kd));
    var tail := [mark] + (SignText(neg) + kd);
    ExponentOfDigits(mark, neg, kd, []);
    assert kd + [] == kd;
    UnsignedOfInteger(ip, tail, e);
    var u := ip + tail;
    assert u[0] == ip[0];
    ScanSigned([], false, u);
    assert [] + (SignText(false) + u) == u;
  }

  /** float() reads the digits ip followed by an exponent k written in decimal: ip * 10^(±k). */
  lemma ParseFloatOfScientific(ip: string, mark: char, neg: bool, k: nat)
    requires AllDigits(ip) && |ip| > 0 && IsExponentMark(mark)
    ensures ParseFloat(ip + ([mark] + (SignText(neg) + ShowNat(k))))
      == Some(DecimalReal(Decimal(false, ip, [], Signed(neg, k))))
  {
    ScanScientificShow(ip, mark, neg, k);
    ParseFloatOfScan(ip + ([mark] + (SignText(neg) + ShowNat(k))), Decimal(false, ip, [], Signed(neg, k)));
  }

  lemma ScanScientificShow(ip: string, mark: char, neg: bool, k: nat)
    requires AllDigits(ip) && |ip| > 0 && IsExponentMark(mark)
    ensures ScanFloat(ip + ([mark] + (SignText(neg) + ShowNat(k)))) == Some(Decimal(false, ip, [], Signed(neg, k)))
  {
    DigitsValueOfShowNat(k);
    ScanScientific(ip, mark, neg, ShowNat(k));
  }

  lemma ParseFloatOfScan(s: string, d: Decimal)
    requires ScanFloat(s) == Some(d) && WellFormed(d)
    ensures ParseFloat(s) == Some(DecimalReal(d))
  {
  }

  /** The value of digits with an exponent and no fraction: ip * 10^e. */
  lemma ScientificValue(ip: string, e: int)
    requires AllDigits(ip)
    ensures DecimalReal(Decimal(false, ip, [], e)) == DigitsValue(ip) as real * Scale10(e)
  {
    assert DecimalValue(ip, []) == DigitsValue(ip) as real;
  }

  lemma {:induction false} ScanShow(n: int, pre: string, post: string)
    requires AllSpace(pre) && AllSpace(post)
    ensures ScanFloat(pre + (Show(n) + post)) == Some(Decimal(n < 0, ShowNat(if n < 0 then -n else n), [], 0))
  {
    var m := if n < 0 then -n else n;
    var d := ShowNat(m);
    assert post == [] || (!IsDigit(post[0]) && post[0] != '.') by {
      if post != [] { assert IsSpace(post[0]); }
    }
    ExponentOfSpace(post);
    UnsignedOfInteger(d, post, 0);
    ScanSigned(pre, n < 0, d + post);
    assert Show(n) == SignText(n < 0) + d;
    assert Show(n) + post == SignText(n < 0) + (d + post);
  }

  /** float() reads back str(n) of any integer, whatever whitespace surrounds it. */
  lemma ParseFloatOfShow(n: int, pre: string, post: string)
    requires AllSpace(pre) && AllSpace(post)
    ensures ParseFloat(pre + (Show(n) + post)) == Some(n as real)
  {
    ScanShow(n, pre, post);
    ParseFloatOfScannedShow(pre + (Show(n) + post), n);
  }

  /** Digits with neither fraction nor exponent are read as the integer they spell. */
  lemma IntegerValue(neg: bool, d: string)
    requires AllDigits(d)
    ensures DecimalReal(Decimal(neg, d, [], 0)) == Signed(neg, DigitsValue(d)) as real
  {
    assert DecimalValue(d, []) == DigitsValue(d) as real;
    assert Scale10(0) == 1.0;
  }

  lemma ParseFloatOfScannedShow(s: string, n: int)
    requires ScanFloat(s) == Some(Decimal(n < 0, ShowNat(if n < 0 then -n else n), [], 0))
    ensures ParseFloat(s) == Some(n as real)
  {
    var m := if n < 0 then -n else n;
    ParseFloatOfScan(s, Decimal(n < 0, ShowNat(m), [], 0));
    IntegerValue(n < 0, ShowNat(m));
    DigitsValueOfShowNat(m);
    assert Signed(n < 0, DigitsValue(ShowNat(m))) == n;
  }

  lemma ScanPointedExample()
    ensures ScanFloat("2.0") == Some(Decimal(false, "2", "0", 0))
  {
    var s := [] + (SignText(false) + ("2" + (['.'] + ("0" + []))));
    assert s == "2.0" by {
      assert "0" + [] == "0";
      assert SignText(false) == [];
      assert s == "2" + (['.'] + "0");
      assert |s| == 3 && s[0] == '2' && s[1] == '.' && s[2] == '0';
    }
    ScanPointed([], false, "2", "0", []);
  }

  /** float("2.0") is 2.0. */
  lemma ParseFloatOfPointedExample()
    ensures ParseFloat("2.0") == Some(2.0)
  {
    ScanPointedExample();
    ParseFloatOfScan("2.0", Decimal(false, "2", "0", 0));
    assert DecimalReal(Decimal(false, "2", "0", 0)) == 2.0 by {
      assert DigitsValue("2") == 2;
      assert DigitsValue("0") == 0;
      assert Pow10(1) == 10;
    }
  }

  lemma ScientificTextExample()
    ensures "1" + (['e'] + (SignText(true) + ShowNat(5))) == "1e-5"
  {
    assert ShowNat(5) == "5";
    var s := "1" + (['e'] + (SignText(true) + ShowNat(5)));
    assert SignText(true) + ShowNat(5) == "-5";
    assert |s| == 4 && s[0] == '1' && s[1] == 'e' && s[2] == '-' && s[3] == '5';
  }

  lemma ScientificValueExample()
    ensures DecimalReal(Decimal(false, "1", [], -5)) == 0.00001
  {
    ScientificValue("1", -5);
    assert DigitsValue("1") == 1;
    assert Pow10(5) == 100000;
  }

  /** float("1e-5") is 10^-5; YAML hands such text over as a str. */
  lemma ParseFloatOfScientificExample()
    ensures ParseFloat("1e-5") == Some(0.00001)
  {
    ScientificTextExample();
    ParseFloatOfScientific("1", 'e', true, 5);
    ScientificValueExample();
  }

  // ----- what float() rejects -----

  lemma {:induction false} ExponentChars(r: string, k: nat)
    requires k < |r| && ParseExponent(r).Some?
    ensures IsFloatChar(r[k])
  {
    if !AllSpace(r) && k > 0 {
      var a := r[1..];
      assert a[k - 1] == r[k];
      if a[0] == '-' || a[0] == '+' {
        if k > 1 {
          assert a[1..][k - 2] == r[k];
          ParseDigitsChars(a[1..], k - 2);
        }
      } else {
        ParseDigitsChars(a, k - 1);
      }
    }
  }

  lemma {:induction false} FractionChars(ip: string, r: string, k: nat)
    requires AllDigits(ip) && k < |r| && Fraction(ip, r).Some?
    ensures IsFloatChar(r[k])
  {
    var n := DigitRun(r);
    if k < n {
      assert r[..n][k] == r[k];
    } else {
      assert r[n..][k - n] == r[k];
      ExponentChars(r[n..], k - n);
    }
  }

  lemma {:induction false} UnsignedChars(b: string, k: nat)
    requires k < |b| && ScanUnsigned(b).Some?
    ensures IsFloatChar(b[k])
  {
    var n1 := DigitRun(b);
    if k < n1 {
      assert b[..n1][k] == b[k];
    } else {
      var r1 := b[n1..];
      var k1 := k - n1;
      assert r1[k1] == b[k];
      if r1[0] == '.' {
        if k1 > 0 {
          assert r1[1..][k1 - 1] == b[k];
          FractionChars(b[..n1], r1[1..], k1 - 1);
        }
      } else {
        FractionChars(b[..n1], r1, k1);
      }
    }
  }

  /** float() raises ValueError on text holding a character that cannot be part of
      a number (a letter other than e or E, a colon, a comma ...). */
  lemma {:induction false} ParseFloatRejectsForeignChar(s: string, k: nat)
    requires k < |s| && !IsFloatChar(s[k])
    ensures ParseFloat(s) == None
  {
    var a := SkipSpace(s);
    var i0 := |s| - |a|;
    SkipSpaceChars(s, k);
    if k >= i0 {
      assert a[k - i0] == s[k];
      if a[0] == '-' || a[0] == '+' {
        var j := k - i0 - 1;
        assert a[1..][j] == s[k];
        if ScanUnsigned(a[1..]).Some? {
          UnsignedChars(a[1..], j);
        }
      } else if ScanUnsigned(a).Some? {
        UnsignedChars(a, k - i0);
      }
    }
  }
}
