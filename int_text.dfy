/**
  Decimal text of integers: Python's str() of an int, and Python 2's int() of a str
  in base 10 (the string path of PyOS_strtol: C isspace is skipped before the sign,
  after the sign and after the digits; at least one digit is needed).
*/
module IntText {
  import opened Wrappers

  /** The C isspace set in the "C" locale: tab, line feed, vertical tab, form feed, carriage return, space. */
  predicate IsSpace(c: char) {
    c == ' ' || ('\t' <= c <= '\r')
  }

  predicate IsDigit(c: char) {
    '0' <= c <= '9'
  }

  predicate AllSpace(s: string) {
    forall i | 0 <= i < |s| :: IsSpace(s[i])
  }

  predicate AllDigits(s: string) {
    forall i | 0 <= i < |s| :: IsDigit(s[i])
  }

  function DigitValue(c: char): (d: nat)
    requires IsDigit(c)
    ensures d < 10
  {
    c as int - '0' as int
  }

  function Digit(d: nat): (c: char)
    requires d < 10
    ensures IsDigit(c) && DigitValue(c) == d
  {
    ('0' as int + d) as char
  }

  /** The number a run of decimal digits denotes, most significant digit first. */
  function DigitsValue(s: string): nat
    requires AllDigits(s)
    decreases |s|
  {
    if s == [] then 0 else DigitsValue(s[..|s| - 1]) * 10 + DigitValue(s[|s| - 1])
  }

  /** str(n) for n >= 0: no leading zeros, at least one digit. */
  function ShowNat(n: nat): (s: string)
    ensures |s| > 0 && AllDigits(s)
    ensures |s| > 1 ==> s[0] != '0'
    decreases n
  {
    if n < 10 then [Digit(n)] else ShowNat(n / 10) + [Digit(n % 10)]
  }

  /** str(n): a minus sign for negative numbers, then the digits. */
  function Show(n: int): (s: string)
    ensures |s| > 0
    ensures forall i | 0 <= i < |s| :: IsDigit(s[i]) || s[i] == '-'
  {
    if n < 0 then "-" + ShowNat(-n) else ShowNat(n)
  }

  /** The string left after the leading whitespace. */
  function SkipSpace(s: string): (r: string)
    ensures |r| <= |s|
    ensures r == [] || !IsSpace(r[0])
    decreases |s|
  {
    if s != [] && IsSpace(s[0]) then SkipSpace(s[1..]) else s
  }

  /** The length of the run of digits at the front of s. */
  function DigitRun(s: string): (n: nat)
    ensures n <= |s| && AllDigits(s[..n])
    ensures n == |s| || !IsDigit(s[n])
    decreases |s|
  {
    if s != [] && IsDigit(s[0]) then 1 + DigitRun(s[1..]) else 0
  }

  /** Digits followed by nothing but whitespace, as an unsigned number. */
  function ParseDigits(b: string): Option<nat> {
    var n := DigitRun(b);
    if n == 0 || !AllSpace(b[n..]) then None else Some(DigitsValue(b[..n]))
  }

  /** Python 2 int(s) for a str s in base 10; None where int() raises ValueError. */
  function ParseInt(s: string): Option<int> {
    ParseSigned(SkipSpace(s))
  }

  /** int() of text that starts with no whitespace: an optional sign, then the digits. */
  function ParseSigned(a: string): Option<int> {
    if a == [] then None
    else if a[0] == '-' then Negate(ParseDigits(SkipSpace(a[1..])))
    else if a[0] == '+' then Widen(ParseDigits(SkipSpace(a[1..])))
    else Widen(ParseDigits(a))
  }

  function Negate(r: Option<nat>): Option<int> {
    match r
    case None => None
    case Some(m) => Some(-(m as int))
  }

  function Widen(r: Option<nat>): Option<int> {
    match r
    case None => None
    case Some(m) => Some(m as int)
  }

  lemma {:induction false} DigitsValueOfShowNat(n: nat)
    ensures DigitsValue(ShowNat(n)) == n
    decreases n
  {
    if n >= 10 {
      DigitsValueOfShowNat(n / 10);
      var s := ShowNat(n);
      assert s[..|s| - 1] == ShowNat(n / 10);
    }
  }

  lemma {:induction false} SkipSpaceOfSpacedWord(pad: string, w: string)
    requires AllSpace(pad)
    requires w == [] || !IsSpace(w[0])
    ensures SkipSpace(pad + w) == w
    decreases |pad|
  {
    if pad != [] {
      assert (pad + w)[1..] == pad[1..] + w;
      SkipSpaceOfSpacedWord(pad[1..], w);
    }
  }

  lemma {:induction false} DigitRunOfDigitsThenSpace(d: string, pad: string)
    requires AllDigits(d) && AllSpace(pad)
    ensures DigitRun(d + pad) == |d|
    decreases |d|
  {
    if d != [] {
      assert (d + pad)[1..] == d[1..] + pad;
      DigitRunOfDigitsThenSpace(d[1..], pad);
    } else if pad != [] {
      assert !IsDigit(pad[0]);
    }
  }

  lemma {:induction false} ParseDigitsOfDigitsThenSpace(d: string, post: string)
    requires |d| > 0 && AllDigits(d) && AllSpace(post)
    ensures ParseDigits(d + post) == Some(DigitsValue(d))
  {
    DigitRunOfDigitsThenSpace(d, post);
    assert (d + post)[..|d|] == d;
    assert (d + post)[|d|..] == post;
  }

  lemma {:induction false} ParseIntOfNegative(pre: string, d: string, post: string)
    requires AllSpace(pre) && AllSpace(post) && |d| > 0 && AllDigits(d)
    ensures ParseInt(pre + (['-'] + (d + post))) == Some(-(DigitsValue(d) as int))
  {
    var u := d + post;
    var w := ['-'] + u;
    assert ParseInt(pre + w) == ParseSigned(w) by {
      SkipSpaceOfSpacedWord(pre, w);
    }
    assert ParseSigned(w) == Negate(ParseDigits(u)) by {
      assert w[1..] == u;
      SkipSpaceOfSpacedWord([], u);
      assert [] + u == u;
    }
    ParseDigitsOfDigitsThenSpace(d, post);
  }

  lemma {:induction false} ParseIntOfUnsigned(pre: string, d: string, post: string)
    requires AllSpace(pre) && AllSpace(post) && |d| > 0 && AllDigits(d)
    ensures ParseInt(pre + (d + post)) == Some(DigitsValue(d) as int)
  {
    var u := d + post;
    SkipSpaceOfSpacedWord(pre, u);
    assert u[0] == d[0] && IsDigit(u[0]);
    assert ParseSigned(u) == Widen(ParseDigits(u));
    ParseDigitsOfDigitsThenSpace(d, post);
    assert ParseInt(pre + u) == ParseSigned(u);
  }

  /** int() inverts str(): optional whitespace around str(n) parses back to n. */
  lemma {:induction false} ParseShowRoundTrip(n: int, pre: string, post: string)
    requires AllSpace(pre) && AllSpace(post)
    ensures ParseInt(pre + Show(n) + post) == Some(n)
  {
    if n < 0 {
      var d := ShowNat(-n);
      DigitsValueOfShowNat(-n);
      ParseIntOfNegative(pre, d, post);
      assert pre + Show(n) + post == pre + (['-'] + (d + post));
    } else {
      var d := ShowNat(n);
      DigitsValueOfShowNat(n);
      ParseIntOfUnsigned(pre, d, post);
      assert pre + Show(n) + post == pre + (d + post);
    }
  }

  lemma {:induction false} ParseDigitsChars(b: string, k: nat)
    requires k < |b| && ParseDigits(b).Some?
    ensures IsDigit(b[k]) || IsSpace(b[k])
  {
    var n := DigitRun(b);
    if k < n {
      assert b[..n][k] == b[k];
    } else {
      assert b[n..][k - n] == b[k];
    }
  }

  /** SkipSpace drops exactly a run of leading whitespace. */
  lemma {:induction false} SkipSpaceChars(s: string, k: nat)
    requires k < |s|
    ensures k < |s| - |SkipSpace(s)| ==> IsSpace(s[k])
    ensures k >= |s| - |SkipSpace(s)| ==> SkipSpace(s)[k - (|s| - |SkipSpace(s)|)] == s[k]
    decreases |s|
  {
    if IsSpace(s[0]) {
      if k > 0 {
        SkipSpaceChars(s[1..], k - 1);
      }
    }
  }

  /** int() raises ValueError on any text holding a character that is not a digit,
      a sign or whitespace (a letter, a decimal point, a colon ...). */
  lemma {:induction false} ParseIntRejectsForeignChar(s: string, k: nat)
    requires k < |s|
    requires !IsDigit(s[k]) && !IsSpace(s[k]) && s[k] != '-' && s[k] != '+'
    ensures ParseInt(s) == None
  {
    var a := SkipSpace(s);
    var i0 := |s| - |a|;
    SkipSpaceChars(s, k);
    assert ParseInt(s) == ParseSigned(a);
    if k >= i0 {
      assert a[k - i0] == s[k];
      if a[0] == '-' || a[0] == '+' {
        var c := a[1..];
        var b := SkipSpace(c);
        var j := k - i0 - 1;
        assert c[j] == s[k];
        SkipSpaceChars(c, j);
        if ParseDigits(b).Some? {
          ParseDigitsChars(b, j - (|c| - |b|));
        }
      } else if ParseDigits(a).Some? {
        ParseDigitsChars(a, k - i0);
      }
    }
  }
}
