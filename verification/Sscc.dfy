/** Serial Shipping Container Codes (engine/plugins/number_range.py): 18 digits, being a carrier prefix,
    a serial padded to fill a 17-digit body, and the mod-10 check digit of section 7.9 of the GS1
    General Specifications. */
module Sscc {
  import opened Digits
  import opened Prelude

  const BODY_DIGITS := 17

  datatype Error = PrefixNotDigits | NoRoomForSerial | SerialDoesNotFit

  /** The digits of `s` weighted from the right, alternating `weight` and 4 - `weight`. */
  function Total(s: string, weight: int): int
    requires AllDigits(s)
    decreases |s|
  {
    if s == "" then 0 else DigitVal(Last(s)) * weight + Total(Init(s), 4 - weight)
  }

  function CheckDigit(body: string): (c: char)
    requires AllDigits(body)
    ensures IsDigit(c)
  {
    DigitChar((10 - Total(body, 3) % 10) % 10)
  }

  function SerialWidth(prefix: string): Result<nat, Error> {
    if !IsNumeral(prefix) then Err(PrefixNotDigits)
    else if |prefix| >= BODY_DIGITS then Err(NoRoomForSerial)
    else Ok(BODY_DIGITS - |prefix|)
  }

  function WrapAfter(prefix: string): Result<nat, Error> {
    var width :- SerialWidth(prefix);
    Ok(Pow10(width) - 1)
  }

  function Assemble(prefix: string, serial: int): Result<string, Error> {
    var width :- SerialWidth(prefix);
    if serial <= 0 || |Decimal(serial)| > width then Err(SerialDoesNotFit)
    else
      var body := prefix + ZeroPad(serial, width);
      Ok(body + [CheckDigit(body)])
  }

  function SumOf(terms: seq<int>): (sum: int)
    ensures terms == [] ==> sum == 0
    decreases |terms|
  {
    if terms == [] then 0 else SumOf(Init(terms)) + Last(terms)
  }

  /** The weight at a distance from the last digit: `weight` at an even one, 4 - `weight` at an odd one. */
  function WeightAt(distance: int, weight: int): int {
    if distance % 2 == 0 then weight else 4 - weight
  }

  /** What each digit counts for. */
  function Weighted(s: string, weight: int): (terms: seq<int>)
    requires AllDigits(s)
  {
    seq(|s|, i requires 0 <= i < |s| => DigitVal(s[i]) * WeightAt(|s| - 1 - i, weight))
  }

  lemma WeightedInit(s: string, weight: int)
    requires AllDigits(s) && s != ""
    ensures Init(Weighted(s, weight)) == Weighted(Init(s), 4 - weight)
    ensures Last(Weighted(s, weight)) == DigitVal(Last(s)) * weight
  {
    var (all, rest) := (Weighted(s, weight), Weighted(Init(s), 4 - weight));
    forall i | 0 <= i < |rest|
      ensures all[i] == rest[i]
    {
      OneCloser(|s| - 1 - i, weight);
    }
  }

  lemma OneCloser(distance: int, weight: int)
    ensures WeightAt(distance, weight) == WeightAt(distance - 1, 4 - weight)
  {
  }

  /** The running total, taken from the right, is the sum over the places. */
  lemma {:induction false} TotalByPlaces(s: string, weight: int)
    requires AllDigits(s)
    ensures Total(s, weight) == SumOf(Weighted(s, weight))
    decreases |s|
  {
    if s != "" {
      TotalByPlaces(Init(s), 4 - weight);
      WeightedInit(s, weight);
    }
  }

  /** The check sum of a whole code: its last digit weighs 1, the one before it 3, and so on. */
  predicate Balanced(code: string) {
    AllDigits(code) && SumOf(Weighted(code, 1)) % 10 == 0
  }

  /** The same, told from the digit that closes the code: it brings the digits before it, weighing 3, 1, 3, ... from
      the right, to a multiple of ten. */
  predicate Closes(code: string) {
    && code != "" && AllDigits(code)
    && (SumOf(Weighted(Init(code), 3)) + DigitVal(Last(code))) % 10 == 0
  }

  lemma DigitToTen(total: int, d: nat)
    requires d < 10
    ensures (total + d) % 10 == 0 <==> d == (10 - total % 10) % 10
  {
  }

  lemma BalancedWith(body: string, c: char)
    requires AllDigits(body) && IsDigit(c)
    ensures Balanced(body + [c]) <==> (SumOf(Weighted(body, 3)) + DigitVal(c)) % 10 == 0
    ensures Closes(body + [c]) <==> (SumOf(Weighted(body, 3)) + DigitVal(c)) % 10 == 0
  {
    WeightedInit(body + [c], 1);
    assert Init(body + [c]) == body && Last(body + [c]) == c;
  }

  /** The check digit balances the body, and no other digit does. */
  lemma CheckDigitBalances(body: string)
    requires AllDigits(body)
    ensures Balanced(body + [CheckDigit(body)]) && Closes(body + [CheckDigit(body)])
    ensures forall c :: IsDigit(c) && Balanced(body + [c]) ==> c == CheckDigit(body)
  {
    var sum := SumOf(Weighted(body, 3));
    TotalByPlaces(body, 3);
    DigitToTen(sum, DigitVal(CheckDigit(body)));
    BalancedWith(body, CheckDigit(body));
    forall c | IsDigit(c) && Balanced(body + [c])
      ensures c == CheckDigit(body)
    {
      BalancedWith(body, c);
      DigitToTen(sum, DigitVal(c));
    }
  }

  /** Assembly accepts exactly the serials the allocator's bound admits, those the digits left by the prefix can
      hold, and the code says where it came from: it starts with the prefix, and the digits after the prefix are the
      serial. */
  lemma AssembleSound(prefix: string, serial: int)
    ensures WrapAfter(prefix) ==
            if !IsNumeral(prefix) then Err(PrefixNotDigits) else if |prefix| >= 17 then Err(NoRoomForSerial)
            else Ok(Pow10(17 - |prefix|) - 1)
    ensures Assemble(prefix, serial).Ok? <==> WrapAfter(prefix).Ok? && 1 <= serial <= WrapAfter(prefix).value
    ensures Assemble(prefix, serial).Ok? ==>
              var code := Assemble(prefix, serial).value;
              && |code| == 18
              && Balanced(code) && Closes(code)
              && prefix <= code
              && Number(code[|prefix|..17]) == serial
  {
    if WrapAfter(prefix).Ok? && serial > 0 {
      var width := SerialWidth(prefix).value;
      DecimalWidth(serial, width);
      if |Decimal(serial)| <= width {
        ZeroPadReadsBack(serial, width);
        var body := prefix + ZeroPad(serial, width);
        CheckDigitBalances(body);
        assert (body + [CheckDigit(body)])[|prefix|..17] == ZeroPad(serial, width);
      }
    }
  }

  /** Two codes differ when their serials do, or when neither prefix starts the other. */
  lemma CodesDiffer(prefix: string, serial: int, prefix': string, serial': int)
    requires Assemble(prefix, serial).Ok? && Assemble(prefix', serial').Ok?
    requires if prefix == prefix' then serial != serial' else !(prefix <= prefix') && !(prefix' <= prefix)
    ensures Assemble(prefix, serial).value != Assemble(prefix', serial').value
  {
    AssembleSound(prefix, serial);
    AssembleSound(prefix', serial');
  }

  /** Replacing one digit moves the sum by its change times its weight. */
  lemma {:induction false} TotalUpdate(s: string, weight: int, i: nat, c: char)
    requires AllDigits(s) && i < |s| && IsDigit(c)
    requires weight in {1, 3}
    ensures AllDigits(s[i := c])
    ensures var w := if (|s| - 1 - i) % 2 == 0 then weight else 4 - weight;
            Total(s[i := c], weight) == Total(s, weight) + w * (DigitVal(c) - DigitVal(s[i]))
    decreases |s|
  {
    if i < |s| - 1 {
      TotalUpdate(Init(s), 4 - weight, i, c);
      assert Init(s[i := c]) == Init(s)[i := c];
    } else {
      assert Init(s[i := c]) == Init(s);
    }
  }

  /** Among sums that are multiples of 10, a weighted change of one digit cannot go unseen. */
  lemma ChangeSeen(total: int, weight: int, change: int)
    requires total % 10 == 0 && weight in {1, 3} && -9 <= change <= 9
    ensures (total + weight * change) % 10 == 0 <==> change == 0
  {
  }

  /** Any single wrong digit is caught. */
  lemma SingleErrorCaught(code: string, i: nat, c: char)
    requires Balanced(code) && i < |code| && IsDigit(c) && c != code[i]
    ensures !Balanced(code[i := c])
  {
    var w := if (|code| - 1 - i) % 2 == 0 then 1 else 3;
    TotalUpdate(code, 1, i, c);
    TotalByPlaces(code, 1);
    TotalByPlaces(code[i := c], 1);
    ChangeSeen(Total(code, 1), w, DigitVal(c) - DigitVal(code[i]));
  }

  lemma SwapSum(code: string, i: nat)
    requires AllDigits(code) && i + 1 < |code|
    ensures var swapped := code[i := code[i + 1]][i + 1 := code[i]];
            var gap := DigitVal(code[i + 1]) - DigitVal(code[i]);
            && AllDigits(swapped)
            && Total(swapped, 1) - Total(code, 1) in {2 * gap, -2 * gap}
  {
    TotalUpdate(code, 1, i, code[i + 1]);
    TotalUpdate(code[i := code[i + 1]], 1, i + 1, code[i]);
  }

  lemma SwapSeen(total: int, swapped: int, gap: int)
    requires total % 10 == 0 && -9 <= gap <= 9 && swapped - total in {2 * gap, -2 * gap}
    ensures swapped % 10 == 0 <==> gap in {-5, 0, 5}
  {
  }

  /** Swapping two neighbouring digits is caught unless they are equal or differ by 5. */
  lemma SwapCaughtUnless(code: string, i: nat)
    requires Balanced(code) && i + 1 < |code|
    ensures var swapped := code[i := code[i + 1]][i + 1 := code[i]];
            Balanced(swapped) <==> DigitVal(code[i]) - DigitVal(code[i + 1]) in {-5, 0, 5}
  {
    var swapped := code[i := code[i + 1]][i + 1 := code[i]];
    SwapSum(code, i);
    TotalByPlaces(code, 1);
    TotalByPlaces(swapped, 1);
    SwapSeen(Total(code, 1), Total(swapped, 1), DigitVal(code[i + 1]) - DigitVal(code[i]));
  }
}
