/** The text of a signed integer in a base: what tostring writes, and the parser that reads it back. */
module Numerals {
  import opened Bytes

  const INT_MIN: int := -0x8000_0000
  const INT_MAX: int := 0x7FFF_FFFF
  const MAX_INT_CHARS: nat := 15
  const MINUS: byte := 45

  predicate ValidBase(base: int) {
    2 <= base <= 35
  }

  /** The table of tostring has these two parts. */
  const DECIMALS: string := "0123456789"
  const LETTERS: string := "abcdefghijklmnopqrstuvwxyz"

  /** Entry d of the table. */
  function DigitByte(d: nat): byte
    requires d < 36
  {
    if d < 10 then 48 + d else 87 + d
  }

  /** v in the given base, most significant digit first. */
  function Numeral(v: nat, base: nat): (t: seq<byte>)
    requires ValidBase(base)
    ensures t != []
    ensures forall i :: 0 <= i < |t| ==> t[i] != 0 && t[i] != MINUS
    decreases v
  {
    if v < base then [DigitByte(v)] else DivLess(v, base); Numeral(v / base, base) + [DigitByte(v % base)]
  }

  function IntText(val: int, base: nat): (t: seq<byte>)
    requires ValidBase(base)
    ensures t != [] && forall i :: 0 <= i < |t| ==> t[i] != 0
  {
    if val < 0 then [MINUS] + Numeral(-val, base) else Numeral(val, base)
  }

  // ---------- reading back ----------

  /** The digit a character stands for, or 36 for none. */
  function DigitValue(c: byte): nat {
    if 48 <= c <= 57 then c - 48 else if 97 <= c <= 122 then c - 87 else 36
  }

  function ParseNat(t: seq<byte>, base: nat): nat {
    if t == [] then 0 else ParseNat(t[..|t| - 1], base) * base + DigitValue(t[|t| - 1])
  }

  function ParseInt(t: seq<byte>, base: nat): int {
    if t != [] && t[0] == MINUS then -(ParseNat(t[1..], base) as int) else ParseNat(t, base)
  }

  lemma MulMonotone(a: nat, b: nat, c: nat)
    requires a <= b
    ensures a * c <= b * c
  {
    assert b * c == a * c + (b - a) * c;
  }

  lemma DivMod(v: nat, base: nat)
    requires 0 < base
    ensures v / base * base + v % base == v && v % base < base
  {
  }

  lemma DivLess(v: nat, base: nat)
    requires 1 < base && 0 < v
    ensures v / base < v
  {
    DivMod(v, base);
    MulMonotone(2, base, v / base);
  }

  lemma DigitReads(d: nat)
    requires d < 36
    ensures DigitValue(DigitByte(d)) == d && (DigitByte(d) == 48 <==> d == 0)
  {
  }

  /** One more digit at the end. */
  lemma ParseSnoc(t: seq<byte>, c: byte, base: nat)
    ensures ParseNat(t + [c], base) == ParseNat(t, base) * base + DigitValue(c)
  {
    assert (t + [c])[..|t|] == t;
  }

  lemma {:induction false} ParseNumeral(v: nat, base: nat)
    requires ValidBase(base)
    ensures ParseNat(Numeral(v, base), base) == v
    decreases v
  {
    if v < base {
      ParseSnoc([], DigitByte(v), base);
      assert [] + [DigitByte(v)] == [DigitByte(v)];
      DigitReads(v);
    } else {
      var q, r := v / base, v % base;
      DivLess(v, base);
      DivMod(v, base);
      ParseNumeral(q, base);
      DigitReads(r);
      ParseSnoc(Numeral(q, base), DigitByte(r), base);
    }
  }

  /** Reading back the signed text gives the number it was made from. */
  lemma ParseIntText(val: int, base: nat)
    requires ValidBase(base)
    ensures ParseInt(IntText(val, base), base) == val
  {
    if val < 0 {
      ParseNumeral(-val, base);
      assert IntText(val, base)[1..] == Numeral(-val, base);
    } else {
      ParseNumeral(val, base);
      assert Numeral(val, base)[0] != MINUS;
    }
  }

  /** A text of digits of the base without a leading zero. */
  predicate Canonical(t: seq<byte>, base: nat) {
    && t != []
    && (forall i :: 0 <= i < |t| ==> DigitValue(t[i]) < base)
    && (|t| > 1 ==> t[0] != 48)
  }

  lemma {:induction false} NumeralCanonical(v: nat, base: nat)
    requires ValidBase(base)
    ensures Canonical(Numeral(v, base), base)
    ensures 0 < v ==> Numeral(v, base)[0] != 48
    decreases v
  {
    if v < base {
      DigitReads(v);
    } else {
      DivLess(v, base);
      DivMod(v, base);
      DigitReads(v % base);
      NumeralCanonical(v / base, base);
    }
  }

  lemma {:induction false} CanonicalPositive(t: seq<byte>, base: nat)
    requires ValidBase(base) && Canonical(t, base) && t[0] != 48
    ensures 0 < ParseNat(t, base)
  {
    var rest := t[..|t| - 1];
    if |t| == 1 {
      ShiftPositive(0, DigitValue(t[0]), base);
      assert ParseNat(rest, base) == 0;
    } else {
      CanonicalRest(t, base);
      CanonicalPositive(rest, base);
      ShiftPositive(ParseNat(rest, base), DigitValue(t[|t| - 1]), base);
    }
  }

  lemma CanonicalRest(t: seq<byte>, base: nat)
    requires Canonical(t, base) && |t| > 1
    ensures Canonical(t[..|t| - 1], base) && t[..|t| - 1][0] == t[0] != 48
  {
  }

  lemma ShiftPositive(q: nat, d: nat, base: nat)
    requires 0 < base && (0 < q || 0 < d)
    ensures 0 < q * base + d
  {
    if 0 < q {
      MulMonotone(1, q, base);
    }
  }

  lemma DivModOf(q: nat, r: nat, base: nat)
    requires r < base
    ensures (q * base + r) / base == q && (q * base + r) % base == r
  {
    DivMod(q * base + r, base);
    var d := (q * base + r) / base;
    if d < q {
      MulMonotone(d + 1, q, base);
    } else if q < d {
      MulMonotone(q + 1, d, base);
    }
  }

  /** The text is the only canonical one that reads back as v. */
  lemma {:induction false} NumeralUnique(t: seq<byte>, base: nat)
    requires ValidBase(base) && Canonical(t, base)
    ensures Numeral(ParseNat(t, base), base) == t
  {
    var d, rest := DigitValue(t[|t| - 1]), t[..|t| - 1];
    if |t| == 1 {
      assert ParseNat(rest, base) == 0;
    } else {
      CanonicalPositive(rest, base);
      NumeralUnique(rest, base);
      var q := ParseNat(rest, base);
      DivModOf(q, d, base);
      MulMonotone(1, q, base);
      assert t == rest + [t[|t| - 1]];
    }
  }

  // ---------- the digits ----------

  function Pow(base: nat, k: nat): nat {
    if k == 0 then 1 else Pow(base, k - 1) * base
  }

  /** The digits are those of the table. */
  lemma DigitTable(d: nat)
    requires d < 36
    ensures |DECIMALS| == 10 && |LETTERS| == 26
    ensures DigitByte(d) == (if d < 10 then DECIMALS[d] else LETTERS[d - 10]) as int
  {
    if d >= 23 {
      assert LETTERS[13..] == "nopqrstuvwxyz";
      assert LETTERS[d - 10] == LETTERS[13..][d - 23];
    } else if d >= 10 {
      assert LETTERS[..13] == "abcdefghijklm";
      assert LETTERS[d - 10] == LETTERS[..13][d - 10];
    }
  }

  lemma DivDiv(v: nat, base: nat, p: nat)
    requires 0 < base && 0 < p
    ensures 0 < p * base && v / (p * base) == v / base / p
  {
    DivMod(v, base);
    DivMod(v / base, p);
    MulMonotone(1, p, base);
    Regrouped(v / base / p, v / base % p, v % base, p, base);
    DivModOf(v / base / p, v / base % p * base + v % base, p * base);
  }

  lemma Regrouped(q: nat, r: nat, d: nat, p: nat, base: nat)
    requires r < p && d < base
    ensures (q * p + r) * base + d == q * (p * base) + (r * base + d) && r * base + d < p * base
  {
    MulMonotone(r + 1, p, base);
    assert q * p * base == q * (p * base);
  }

  lemma {:induction false} PowPositive(base: nat, k: nat)
    requires 0 < base
    ensures 0 < Pow(base, k)
  {
    if k > 0 {
      PowPositive(base, k - 1);
      MulMonotone(1, Pow(base, k - 1), base);
    }
  }

  lemma {:induction false} NumeralDigit(v: nat, base: nat, k: nat)
    requires ValidBase(base) && k < |Numeral(v, base)|
    ensures 0 < Pow(base, k)
    ensures Numeral(v, base)[|Numeral(v, base)| - 1 - k] == DigitByte(v / Pow(base, k) % base)
    decreases v
  {
    PowPositive(base, k);
    if v < base {
      DivModOf(0, v, base);
    } else if k > 0 {
      DivLess(v, base);
      PowPositive(base, k - 1);
      DivDiv(v, base, Pow(base, k - 1));
      NumeralDigit(v / base, base, k - 1);
    }
  }

  lemma SignedText(val: int, base: nat)
    requires ValidBase(base)
    ensures 2 <= base <= 35
    ensures var v := if val < 0 then -val else val;
      IntText(val, base) == (if val < 0 then ['-' as int] else []) + Numeral(v, base) && Numeral(v, base) != []
    ensures IntText(val, base)[0] == '-' as int <==> val < 0
  {
  }

  /** A minus sign stands exactly in front of the negative numbers, and digit k from the end has the weight base^k. */
  lemma IntTextDigits(val: int, base: nat, k: nat)
    requires ValidBase(base) && k < |Numeral(if val < 0 then -val else val, base)|
    ensures 0 < Pow(base, k)
    ensures var t, v := IntText(val, base), if val < 0 then -val else val;
      && (t[0] == '-' as int <==> val < 0) && k < |t|
      && t[|t| - 1 - k] == DigitByte(v / Pow(base, k) % base)
  {
    hide *;
    SignedText(val, base);
    NumeralDigit(if val < 0 then -val else val, base, k);
  }

  // ---------- length ----------

  lemma DivBelow(v: nat, base: nat, p: nat)
    requires 0 < base
    ensures v / base < p <==> v < p * base
  {
    DivMod(v, base);
    if v / base < p {
      MulMonotone(v / base + 1, p, base);
    } else {
      MulMonotone(p, v / base, base);
    }
  }

  /** A numeral has at most k digits exactly when the number is below base^k. */
  lemma {:induction false} NumeralLength(v: nat, base: nat, k: nat)
    requires ValidBase(base) && 1 <= k
    ensures |Numeral(v, base)| <= k <==> v < Pow(base, k)
    decreases v
  {
    if v < base {
      PowAtLeast(base, k);
    } else if k == 1 {
      TwoDigits(v, base);
      PowOne(base);
    } else {
      var q := v / base;
      DivLess(v, base);
      NumeralLength(q, base, k - 1);
      DivBelow(v, base, Pow(base, k - 1));
    }
  }

  lemma TwoDigits(v: nat, base: nat)
    requires ValidBase(base) && base <= v
    ensures 1 < |Numeral(v, base)|
  {
    DivMod(v, base);
    DivLess(v, base);
    assert Numeral(v / base, base) != [];
  }

  lemma PowOne(base: nat)
    ensures Pow(base, 1) == base
  {
    assert Pow(base, 0) == 1;
  }

  lemma {:induction false} PowAtLeast(base: nat, k: nat)
    requires 1 <= base && 1 <= k
    ensures base <= Pow(base, k)
  {
    if k > 1 {
      PowAtLeast(base, k - 1);
      MulMonotone(1, Pow(base, k - 1), base);
    }
  }

  lemma {:induction false} PowMonotone(a: nat, b: nat, k: nat)
    requires a <= b
    ensures Pow(a, k) <= Pow(b, k)
  {
    if k > 0 {
      PowMonotone(a, b, k - 1);
      MulMonotone(Pow(a, k - 1), Pow(b, k - 1), a);
      MulMonotone(a, b, Pow(b, k - 1));
    }
  }

  lemma PowersOfSix()
    ensures Pow(6, 12) == 2176782336
  {
    assert Pow(6, 4) == 1296;
    assert Pow(6, 8) == 1679616;
  }

  lemma PowersOfFive()
    ensures Pow(5, 13) == 1220703125
  {
    assert Pow(5, 4) == 625;
    assert Pow(5, 8) == 390625;
    assert Pow(5, 12) == 244140625;
  }

  /** Sign, digits and terminator fit the number buffer for every int exactly when the base is at least six. */
  lemma FitsNumberBuffer(base: nat)
    requires ValidBase(base)
    ensures (forall val :: INT_MIN < val <= INT_MAX ==> |IntText(val, base)| + 1 <= MAX_INT_CHARS) <==> 6 <= base
  {
    if 6 <= base {
      forall val | INT_MIN < val <= INT_MAX
        ensures |IntText(val, base)| + 1 <= MAX_INT_CHARS
      {
        PowersOfSix();
        PowMonotone(6, base, 12);
        NumeralLength(if val < 0 then -val else val, base, 12);
      }
    } else {
      PowersOfFive();
      PowMonotone(base, 5, 13);
      NumeralLength(INT_MAX, base, 13);
      assert |IntText(-INT_MAX, base)| + 1 > MAX_INT_CHARS;
    }
  }

  // ---------- INT_MIN ----------

  function Quot(m: nat, b: nat): (q: nat)
    requires 1 < b
    ensures 0 < m ==> q < m
  {
    if 0 < m then DivLess(m, b); m / b else 0
  }

  function Rem(m: nat, b: nat): (r: nat)
    requires 1 < b
    ensures r < b && (Quot(m, b) == 0 ==> r == m)
  {
    DivMod(m, b);
    m % b
  }

  /** C division and remainder, truncating toward zero. */
  function CDiv(a: int, b: nat): int
    requires 1 < b
  {
    if a < 0 then 0 - Quot(-a, b) else Quot(a, b)
  }

  function CRem(a: int, b: nat): int
    requires 1 < b
  {
    if a < 0 then 0 - Rem(-a, b) else Rem(a, b)
  }

  /** The table indices that the digit loop of tostring computes from v. */
  function Indices(v: int, base: nat): seq<int>
    requires ValidBase(base)
    decreases if v < 0 then -v else v
  {
    [CRem(v, base)] + if CDiv(v, base) == 0 then [] else Indices(CDiv(v, base), base)
  }

  /** The magnitude tostring works on: -val in 32 bits, which for INT_MIN is INT_MIN again. */
  function Magnitude(val: int): int {
    if val >= 0 then val else if val == INT_MIN then INT_MIN else -val
  }

  lemma {:induction false} IndicesSign(v: int, base: nat)
    requires ValidBase(base)
    ensures (forall i :: 0 <= i < |Indices(v, base)| ==> 0 <= Indices(v, base)[i] < base) <==> 0 <= v
    decreases if v < 0 then -v else v
  {
    var w := CDiv(v, base);
    if w != 0 {
      IndicesSign(w, base);
      assert Indices(v, base)[1..] == Indices(w, base);
      assert forall i :: 0 <= i < |Indices(w, base)| ==> Indices(w, base)[i] == Indices(v, base)[i + 1];
    } else {
      assert Indices(v, base)[0] == v;
    }
  }

  /** The digit loop stays inside its table for every int but INT_MIN. */
  lemma DigitsInTable(val: int, base: nat)
    requires ValidBase(base) && INT_MIN <= val <= INT_MAX
    ensures (forall i :: 0 <= i < |Indices(Magnitude(val), base)| ==> 0 <= Indices(Magnitude(val), base)[i] < base)
       <==> val != INT_MIN
  {
    IndicesSign(Magnitude(val), base);
  }
}
