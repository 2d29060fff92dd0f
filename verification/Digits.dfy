/** ASCII decimal digits: reading a number from a string, writing one, and zero padding. */
module Digits {
  predicate IsDigit(c: char) {
    '0' <= c <= '9'
  }

  function DigitVal(c: char): (d: nat)
    requires IsDigit(c)
    ensures d < 10
  {
    c as int - '0' as int
  }

  function DigitChar(d: nat): (c: char)
    requires d < 10
    ensures IsDigit(c) && DigitVal(c) == d
  {
    "0123456789"[d]
  }

  /** Python's isascii() and isdigit(): some characters, all of them 0-9. */
  predicate IsNumeral(s: string) {
    s != "" && forall i :: 0 <= i < |s| ==> IsDigit(s[i])
  }

  predicate AllDigits(s: string) {
    forall i :: 0 <= i < |s| ==> IsDigit(s[i])
  }

  function Init<T>(s: seq<T>): seq<T>
    requires s != []
  {
    s[..|s| - 1]
  }

  function Last<T>(s: seq<T>): T
    requires s != []
  {
    s[|s| - 1]
  }

  /** int(s) of a digit string. */
  function Number(s: string): nat
    requires AllDigits(s)
    decreases |s|
  {
    if s == "" then 0 else Number(Init(s)) * 10 + DigitVal(Last(s))
  }

  /** str(n): no leading zero. */
  function Decimal(n: nat): (s: string)
    ensures IsNumeral(s)
  {
    if n < 10 then [DigitChar(n)] else Decimal(n / 10) + [DigitChar(n % 10)]
  }

  function Pow10(w: nat): (p: nat)
    ensures p >= 1
  {
    if w == 0 then 1 else 10 * Pow10(w - 1)
  }

  function Zeros(n: nat): string {
    seq(n, _ => '0')
  }

  /** Python's f"{n:0{width}d}". */
  function ZeroPad(n: nat, width: nat): (s: string)
    ensures AllDigits(s)
  {
    var digits := Decimal(n);
    if |digits| >= width then digits else Zeros(width - |digits|) + digits
  }

  lemma {:induction false} DecimalWidth(n: nat, w: nat)
    requires w >= 1
    ensures |Decimal(n)| <= w <==> n < Pow10(w)
    decreases w
  {
    if w == 1 {
      assert Pow10(1) == 10 * Pow10(0);
    } else if n >= 10 {
      DecimalWidth(n / 10, w - 1);
    } else {
      assert Pow10(w) >= 10;
    }
  }

  lemma {:induction false} NumberDecimal(n: nat)
    ensures Number(Decimal(n)) == n
  {
    if n >= 10 {
      NumberDecimal(n / 10);
      assert Init(Decimal(n)) == Decimal(n / 10);
    } else {
      assert Init(Decimal(n)) == "";
    }
  }

  lemma {:induction false} LeadingZeros(k: nat, s: string)
    requires AllDigits(s)
    ensures Number(Zeros(k) + s) == Number(s)
    decreases k + |s|
  {
    if s != "" {
      LeadingZeros(k, Init(s));
      assert Init(Zeros(k) + s) == Zeros(k) + Init(s);
    } else if k > 0 {
      LeadingZeros(k - 1, s);
      assert Init(Zeros(k) + s) == Zeros(k - 1) + s;
    }
  }

  /** Padding to a width that fits gives exactly that width and loses nothing. */
  lemma ZeroPadReadsBack(n: nat, width: nat)
    requires |Decimal(n)| <= width
    ensures |ZeroPad(n, width)| == width && Number(ZeroPad(n, width)) == n
  {
    NumberDecimal(n);
    LeadingZeros(width - |Decimal(n)|, Decimal(n));
  }
}
