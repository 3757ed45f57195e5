/** Decimal numbers: the loops of impl.h and what they compute. */
module Numbers {
  import opened Bytes

  predicate AllDigits(s: seq<byte>) {
    forall i :: 0 <= i < |s| ==> IsDigit(s[i])
  }

  function Pow10(n: nat): (p: nat)
    ensures p > 0
  {
    if n == 0 then 1 else 10 * Pow10(n - 1)
  }

  lemma {:induction false} Pow10Monotone(m: nat, n: nat)
    requires m <= n
    ensures Pow10(m) <= Pow10(n)
    decreases n
  {
    if m < n {
      Pow10Monotone(m, n - 1);
    }
  }

  /** The number a digit string writes, most significant digit first. */
  function DecimalValue(s: seq<byte>): nat
    requires AllDigits(s)
  {
    if s == [] then 0 else DigitValue(s[0]) * Pow10(|s| - 1) + DecimalValue(s[1..])
  }

  lemma {:induction false} DecimalBound(s: seq<byte>)
    requires AllDigits(s)
    ensures DecimalValue(s) < Pow10(|s|)
    decreases |s|
  {
    if s != [] {
      DecimalBound(s[1..]);
      NineAtMost(DigitValue(s[0]), Pow10(|s| - 1));
    }
  }

  lemma NineAtMost(d: nat, p: nat)
    requires d <= 9
    ensures d * p <= 9 * p
  {
  }

  /** At most seven digits are a number; anything else is -1. */
  function CharsToNum(s: seq<byte>): int {
    if 1 <= |s| <= 7 && AllDigits(s) then DecimalValue(s) else -1
  }

  const INT32_MAX: int := 0x7fff_ffff

  /** chars_to_num: from the last character to the first, in 32-bit arithmetic. */
  method CharsToNumLoop(s: seq<byte>) returns (r: int)
    ensures r == CharsToNum(s)
    ensures 1 <= |s| <= 7 && AllDigits(s) ==> r == DecimalValue(s) <= 9999999
    ensures s == [] || |s| > 7 || !AllDigits(s) ==> r == -1
  {
    if |s| > 7 || |s| == 0 {
      return -1;
    }
    var value, rank := 0, 1;
    var end := |s| - 1;
    assert Pow10(7) == 10000000;
    for i := 0 to |s|
      invariant AllDigits(s[|s| - i..]) && value == DecimalValue(s[|s| - i..]) && rank == Pow10(i)
      invariant 0 <= value < rank <= Pow10(7)
    {
      var c := s[end - i];
      var k := |s| - i - 1;
      assert s[k..][0] == c && s[k..][1..] == s[|s| - i..];
      if IsDigit(c) {
        assert value + DigitValue(c) * rank <= INT32_MAX;  // no 32-bit overflow
        value := value + DigitValue(c) * rank;
        DecimalBound(s[k..]);
        Pow10Monotone(i + 1, 7);
        rank := rank * 10;
      } else {
        assert s[k] == c;
        return -1;
      }
    }
    assert s[0..] == s;
    r := value;
  }

  /** decimal_digit */
  function DecimalDigit(value: nat): (d: byte)
    requires value <= 9
    ensures IsDigit(d) && DigitValue(d) == value
  {
    48 + value
  }

  /** The decimal digits of a number, as many as it takes. */
  function Decimal(value: nat): (s: seq<byte>)
    ensures s != [] && AllDigits(s)
    ensures value <= 9999 ==> |s| == if value <= 9 then 1 else if value <= 99 then 2 else if value <= 999 then 3 else 4
  {
    if value <= 9 then [DecimalDigit(value)] else Decimal(value / 10) + [DecimalDigit(value % 10)]
  }

  lemma {:induction false} DecimalSnoc(s: seq<byte>, last: byte)
    requires AllDigits(s) && IsDigit(last)
    ensures AllDigits(s + [last]) && DecimalValue(s + [last]) == 10 * DecimalValue(s) + DigitValue(last)
    decreases |s|
  {
    var t := s + [last];
    if s == [] {
      assert t[1..] == [];
      assert DecimalValue(t) == DigitValue(last) * Pow10(0) + DecimalValue([]);
    } else {
      assert t[1..] == s[1..] + [last];
      DecimalSnoc(s[1..], last);
      Shift(DigitValue(s[0]), Pow10(|s| - 1));
      DecimalStep(s);
      DecimalStep(t);
    }
  }

  lemma Shift(d: nat, p: nat)
    ensures d * (10 * p) == 10 * (d * p)
  {
  }

  lemma DecimalStep(s: seq<byte>)
    requires s != [] && AllDigits(s)
    ensures DecimalValue(s) == DigitValue(s[0]) * Pow10(|s| - 1) + DecimalValue(s[1..])
  {
  }

  /** The digits of a number write that number, without leading zeros. */
  lemma {:induction false} DecimalWrites(value: nat)
    ensures DecimalValue(Decimal(value)) == value
    ensures value > 0 ==> Decimal(value)[0] != 48
    decreases value
  {
    if value <= 9 {
      var d := DecimalDigit(value);
      assert [] + [d] == [d];
      DecimalSnoc([], d);
    } else {
      DecimalWrites(value / 10);
      DecimalSnoc(Decimal(value / 10), DecimalDigit(value % 10));
    }
  }

  lemma {:induction false} DecimalLength(value: nat)
    ensures value < Pow10(|Decimal(value)|) && (value > 9 ==> Pow10(|Decimal(value)| - 1) <= value)
    decreases value
  {
    if value > 9 {
      DecimalLength(value / 10);
    } else {
      assert Pow10(1) == 10;
    }
  }

  /** Printing and reading back a number: this works for every number of up to seven digits, and for no other. */
  lemma DecimalRoundTrip(value: nat)
    ensures CharsToNum(Decimal(value)) == if value <= 9999999 then value else -1
  {
    DecimalWrites(value);
    DecimalLength(value);
    var n := |Decimal(value)|;
    hide Decimal, DecimalValue;
    assert Pow10(7) == 10000000;
    hide Pow10;
    if n <= 7 {
      Pow10Monotone(n, 7);
    } else {
      Pow10Monotone(7, n - 1);
    }
  }

  /** num_to_four_chars: writes the digits to the start of the caller's array. */
  method NumToFourChars(value: nat, s: array<byte>) returns (len: nat)
    requires value <= 9999 && s.Length >= 4
    modifies s
    ensures len == |Decimal(value)| && s[..len] == Decimal(value)
    ensures forall i :: len <= i < s.Length ==> s[i] == old(s[i])
  {
    if value <= 9 {
      s[0] := DecimalDigit(value);
      assert s[..1] == [s[0]];
      return 1;
    }
    assert Decimal(value) == Decimal(value / 10) + [DecimalDigit(value % 10)];
    if value <= 99 {
      var ten, one := value / 10, value % 10;
      s[0] := DecimalDigit(ten);
      s[1] := DecimalDigit(one);
      assert s[..2] == [s[0], s[1]];
      return 2;
    }
    assert Decimal(value / 10) == Decimal(value / 10 / 10) + [DecimalDigit(value / 10 % 10)];
    if value <= 999 {
      var one := value % 10;
      var rest := value / 10;
      var ten := rest % 10;
      var hundred := rest / 10;
      s[0] := DecimalDigit(hundred);
      s[1] := DecimalDigit(ten);
      s[2] := DecimalDigit(one);
      assert s[..3] == [s[0], s[1], s[2]];
      return 3;
    }
    assert Decimal(value / 10 / 10) == Decimal(value / 10 / 10 / 10) + [DecimalDigit(value / 10 / 10 % 10)];
    var one := value % 10;
    var rest := value / 10;
    var ten := rest % 10;
    rest := rest / 10;
    var hundred := rest % 10;
    var thousand := rest / 10;
    s[0] := DecimalDigit(thousand);
    s[1] := DecimalDigit(hundred);
    s[2] := DecimalDigit(ten);
    s[3] := DecimalDigit(one);
    assert s[..4] == [s[0], s[1], s[2], s[3]];
    return 4;
  }
}
