/** Positional numerals: the digits of a natural number in a base, the value
    of a digit sequence, and the characters that spell digits. The base
    converter and the ledger's record format both render and read numbers
    through these definitions. */
module Numerals {

  /** Exclusive upper bound of C's 64-bit `unsigned long long`. */
  const U64_LIMIT: nat := 0x1_0000_0000_0000_0000

  type u64 = n: nat | n < U64_LIMIT

  function Pow(b: nat, k: nat): (p: nat)
    ensures b >= 1 ==> p >= 1
  {
    if k == 0 then 1 else b * Pow(b, k - 1)
  }

  lemma {:induction false} PowAdd(b: nat, j: nat, k: nat)
    ensures Pow(b, j + k) == Pow(b, j) * Pow(b, k)
    decreases k
  {
    if k > 0 {
      PowAdd(b, j, k - 1);
      assert Pow(b, j + k) == b * Pow(b, j + k - 1);
      MulSwap(b, Pow(b, j), Pow(b, k - 1));
    }
  }

  lemma MulSwap(a: nat, x: nat, y: nat)
    ensures a * (x * y) == x * (a * y)
  {
  }

  /** 2^64 is the width of `unsigned long long`. */
  lemma Pow2To64()
    ensures Pow(2, 64) == U64_LIMIT
  {
    assert Pow(2, 4) == 16;
    assert Pow(2, 8) == 0x100 by {
      PowAdd(2, 4, 4);
    }
    assert Pow(2, 16) == 0x1_0000 by {
      PowAdd(2, 8, 8);
    }
    assert Pow(2, 32) == 0x1_0000_0000 by {
      PowAdd(2, 16, 16);
    }
    PowAdd(2, 32, 32);
  }

  /** The most significant digits of a value in base `base`, most
      significant first; zero has none. This is the order in which every
      renderer of the source emits digits after reversing its buffer. */
  function Digits(n: nat, base: nat): (ds: seq<nat>)
    requires base >= 2
    ensures forall i :: 0 <= i < |ds| ==> ds[i] < base
    ensures n == 0 <==> ds == []
    ensures n > 0 ==> ds[0] != 0
    decreases n
  {
    if n == 0 then [] else Digits(n / base, base) + [n % base]
  }

  /** The value of a most-significant-first digit sequence. */
  function Value(ds: seq<nat>, base: nat): nat
  {
    if |ds| == 0 then 0 else Value(ds[..|ds| - 1], base) * base + ds[|ds| - 1]
  }

  /** Rendering and evaluating are inverse: the digits of n are worth n. */
  lemma {:induction false} ValueOfDigits(n: nat, base: nat)
    requires base >= 2
    ensures Value(Digits(n, base), base) == n
    decreases n
  {
    if n > 0 {
      var ds := Digits(n, base);
      var q, r := n / base, n % base;
      DivMod(n, base);
      assert ds == Digits(q, base) + [r];
      assert ds[..|ds| - 1] == Digits(q, base);
      ValueOfDigits(q, base);
      assert Value(ds, base) == q * base + r;
    }
  }

  /** Concatenating digit sequences shifts the left part by the length of
      the right part. */
  lemma {:induction false} ValueAppend(xs: seq<nat>, ys: seq<nat>, base: nat)
    ensures Value(xs + ys, base) == Value(xs, base) * Pow(base, |ys|) + Value(ys, base)
    decreases |ys|
  {
    if |ys| == 0 {
      assert xs + ys == xs;
    } else {
      var init := ys[..|ys| - 1];
      var last := ys[|ys| - 1];
      assert (xs + ys)[..|xs + ys| - 1] == xs + init;
      ValueAppend(xs, init, base);
      var v, p, w := Value(xs, base), Pow(base, |init|), Value(init, base);
      assert Value(xs + ys, base) == (v * p + w) * base + last;
      assert Value(ys, base) == w * base + last by {
        assert ys[..|ys| - 1] == init;
      }
      assert Pow(base, |ys|) == p * base;
      Distribute(v, p, w, base, last);
    }
  }

  lemma Distribute(v: int, p: int, w: int, b: int, d: int)
    ensures (v * p + w) * b + d == v * (p * b) + (w * b + d)
  {
  }

  lemma DivMod(n: nat, base: nat)
    requires base >= 1
    ensures n == (n / base) * base + n % base
    ensures base >= 2 && n > 0 ==> n / base < n
  {
  }

  lemma DivBound(n: nat, base: nat, p: nat)
    requires base >= 1
    requires n < base * p
    ensures n / base < p
  {
  }

  /** A value below base^k has at most k digits. */
  lemma {:induction false} DigitsLength(n: nat, base: nat, k: nat)
    requires base >= 2
    requires n < Pow(base, k)
    ensures |Digits(n, base)| <= k
    decreases n
  {
    if n > 0 {
      assert k > 0;
      var q := n / base;
      DivMod(n, base);
      DivBound(n, base, Pow(base, k - 1));
      DigitsLength(q, base, k - 1);
    }
  }

  /** The character the source prints for a digit below sixteen; letters are
      upper case, as `%llX` prints them. */
  function DigitChar(d: nat): char
    requires d < 16
  {
    "0123456789ABCDEF"[d]
  }

  predicate IsDecimalDigit(c: char) {
    '0' <= c <= '9'
  }

  lemma DecimalDigitChar(d: nat)
    requires d < 10
    ensures IsDecimalDigit(DigitChar(d))
  {
  }

  /** The digit a character stands for in C's `isxdigit` sense, either case;
      zero for any other character. */
  function CharValue(c: char): (d: nat)
    ensures d < 16
  {
    if '0' <= c <= '9' then (c as int - '0' as int)
    else if 'a' <= c <= 'f' then (c as int - 'a' as int) + 10
    else if 'A' <= c <= 'F' then (c as int - 'A' as int) + 10
    else 0
  }

  lemma CharValueOfDigitChar(d: nat)
    requires d < 16
    ensures CharValue(DigitChar(d)) == d
  {
  }

  /** Spells a digit sequence. */
  function Render(ds: seq<nat>): (s: string)
    requires forall i :: 0 <= i < |ds| ==> ds[i] < 16
  {
    seq(|ds|, i requires 0 <= i < |ds| => DigitChar(ds[i]))
  }

  /** Reads each character of a string as a digit. */
  function DigitValues(s: string): seq<nat>
  {
    seq(|s|, i requires 0 <= i < |s| => CharValue(s[i]))
  }

  lemma DigitValuesAppend(a: string, b: string)
    ensures DigitValues(a + b) == DigitValues(a) + DigitValues(b)
  {
  }

  lemma {:induction false} DigitValuesOfRender(ds: seq<nat>)
    requires forall i :: 0 <= i < |ds| ==> ds[i] < 16
    ensures DigitValues(Render(ds)) == ds
  {
    forall i | 0 <= i < |ds|
      ensures DigitValues(Render(ds))[i] == ds[i]
    {
      CharValueOfDigitChar(ds[i]);
    }
  }

  /** The text of a natural number in base `base` as `%llo`, `%llX`, `%d`
      and the source's own binary renderer print it: no leading zero, and
      "0" for zero. */
  function Numeral(n: nat, base: nat): (s: string)
    requires 2 <= base <= 16
    ensures 1 <= |s|
    ensures forall i :: 0 <= i < |s| ==> CharValue(s[i]) < base && s[i] == DigitChar(CharValue(s[i]))
    ensures n > 0 ==> CharValue(s[0]) != 0
    ensures n == 0 ==> s == "0"
    ensures Value(DigitValues(s), base) == n
  {
    if n == 0 then "0"
    else
      var ds := Digits(n, base);
      ValueOfDigits(n, base);
      DigitValuesOfRender(ds);
      assert DigitValues(Render(ds)) == ds;
      Render(ds)
  }

  /** A numeral is no longer than the digit count its bound allows. */
  lemma NumeralLength(n: nat, base: nat, k: nat)
    requires 2 <= base <= 16 && k >= 1
    requires n < Pow(base, k)
    ensures |Numeral(n, base)| <= k
  {
    if n > 0 {
      DigitsLength(n, base, k);
    }
  }
}
