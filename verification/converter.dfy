/** The number-base converter: digit-set validators, the binary parser,
    the binary/octal/hex renderers and the bit-group renderers of
    converter.c, over 64-bit unsigned values. */
module Converter {
  import opened Wrappers
  import opened Numerals

  /** The three digit sets the converter's validators accept. */
  datatype Radix = Binary | Octal | Hex

  function Base(r: Radix): nat {
    match r
    case Binary => 2
    case Octal => 8
    case Hex => 16
  }

  predicate IsDigitOf(c: char, r: Radix) {
    match r
    case Binary => c == '0' || c == '1'
    case Octal => '0' <= c <= '7'
    case Hex => '0' <= c <= '9' || 'a' <= c <= 'f' || 'A' <= c <= 'F'
  }

  /** Walks `s` from `from` and stops at the first character outside the
      digit set: the loop shared by the validators and by `strtoull`. */
  function DigitRun(s: string, r: Radix, from: nat): (k: nat)
    requires from <= |s|
    ensures from <= k <= |s|
    ensures forall i :: from <= i < k ==> IsDigitOf(s[i], r)
    ensures k < |s| ==> !IsDigitOf(s[k], r)
    decreases |s| - from
  {
    if from == |s| || !IsDigitOf(s[from], r) then from else DigitRun(s, r, from + 1)
  }

  /** isValidBinary: only '0' and '1'; the empty string passes. */
  function IsValidBinary(s: string): (ok: bool)
    ensures ok <==> forall i :: 0 <= i < |s| ==> s[i] == '0' || s[i] == '1'
  {
    DigitRun(s, Binary, 0) == |s|
  }

  /** isValidOctal: only '0' through '7'; the empty string passes. */
  function IsValidOctal(s: string): (ok: bool)
    ensures ok <==> forall i :: 0 <= i < |s| ==> '0' <= s[i] <= '7'
  {
    DigitRun(s, Octal, 0) == |s|
  }

  /** isValidHex: only hexadecimal digits, in either case; the empty string
      passes. */
  function IsValidHex(s: string): (ok: bool)
    ensures ok <==> forall i :: 0 <= i < |s| ==>
                      '0' <= s[i] <= '9' || 'a' <= s[i] <= 'f' || 'A' <= s[i] <= 'F'
  {
    DigitRun(s, Hex, 0) == |s|
  }

  /** The mathematical value of a string of binary digits. */
  function BinValue(s: string): nat {
    Value(DigitValues(s), 2)
  }

  /** binToDec: doubles an unsigned 64-bit accumulator and adds
      `c - '0'` for every character, wrapping modulo 2^64. */
  function BinToDec(s: string): u64
  {
    if |s| == 0 then 0
    else (BinToDec(s[..|s| - 1]) * 2 + (s[|s| - 1] as int - '0' as int)) % U64_LIMIT
  }

  lemma WrapStep(a: nat, d: int)
    ensures ((a % U64_LIMIT) * 2 + d) % U64_LIMIT == (a * 2 + d) % U64_LIMIT
  {
  }

  /** On a valid binary string, binToDec is the string's value modulo 2^64. */
  lemma {:induction false} BinToDecValue(s: string)
    requires IsValidBinary(s)
    ensures BinToDec(s) == BinValue(s) % U64_LIMIT
    decreases |s|
  {
    if |s| > 0 {
      var init := s[..|s| - 1];
      assert DigitValues(s)[..|s| - 1] == DigitValues(init);
      BinToDecValue(init);
      assert s[|s| - 1] as int - '0' as int == CharValue(s[|s| - 1]);
      WrapStep(BinValue(init), CharValue(s[|s| - 1]));
    }
  }

  /** A leading '0' never changes what binToDec returns, whatever follows. */
  lemma {:induction false} BinToDecLeadingZero(s: string)
    ensures BinToDec("0" + s) == BinToDec(s)
    decreases |s|
  {
    if |s| > 0 {
      var init := s[..|s| - 1];
      assert ("0" + s)[..|"0" + s| - 1] == "0" + init;
      BinToDecLeadingZero(init);
    } else {
      assert "0" + s == "0";
      assert "0"[..0] == "";
    }
  }

  /** Any number of leading zeros leaves binToDec unchanged. */
  lemma {:induction false} BinToDecLeadingZeros(k: nat, s: string)
    ensures BinToDec(seq(k, _ => '0') + s) == BinToDec(s)
    decreases k
  {
    if k > 0 {
      var zeros := seq(k - 1, _ => '0');
      assert seq(k, _ => '0') + s == "0" + (zeros + s);
      BinToDecLeadingZero(zeros + s);
      BinToDecLeadingZeros(k - 1, s);
    } else {
      assert seq(k, _ => '0') + s == s;
    }
  }

  /** decToBin: "0" for zero, otherwise the base-2 digits of n most
      significant first, with no leading zero, fitting `char bin[65]`. */
  function DecToBin(n: u64): (r: string)
    ensures 1 <= |r| <= 64
    ensures IsValidBinary(r)
    ensures n == 0 ==> r == "0"
    ensures n > 0 ==> r[0] == '1'
    ensures BinValue(r) == n
  {
    var r := Numeral(n, 2);
    assert |r| <= 64 by {
      Pow2To64();
      NumeralLength(n, 2, 64);
    }
    r
  }

  /** decToOct (`%llo`): the base-8 digits of n, no leading zero, at most
      22 of them. */
  function DecToOct(n: u64): (r: string)
    ensures 1 <= |r| <= 22
    ensures IsValidOctal(r)
    ensures n == 0 ==> r == "0"
    ensures n > 0 ==> r[0] != '0'
    ensures Value(DigitValues(r), 8) == n
  {
    var r := Numeral(n, 8);
    assert |r| <= 22 by {
      Pow8To22();
      NumeralLength(n, 8, 22);
    }
    r
  }

  /** decToHex (`%llX`): the base-16 digits of n in upper case, no leading
      zero, at most 16 of them. */
  function DecToHex(n: u64): (r: string)
    ensures 1 <= |r| <= 16
    ensures forall i :: 0 <= i < |r| ==> '0' <= r[i] <= '9' || 'A' <= r[i] <= 'F'
    ensures n == 0 ==> r == "0"
    ensures n > 0 ==> r[0] != '0'
    ensures Value(DigitValues(r), 16) == n
  {
    var r := Numeral(n, 16);
    assert forall i :: 0 <= i < |r| ==> '0' <= r[i] <= '9' || 'A' <= r[i] <= 'F' by {
      forall i | 0 <= i < |r|
        ensures '0' <= r[i] <= '9' || 'A' <= r[i] <= 'F'
      {
        UpperHexChar(CharValue(r[i]));
      }
    }
    assert |r| <= 16 by {
      Pow16To16();
      NumeralLength(n, 16, 16);
    }
    r
  }

  /** The digits `%llX` prints are decimal digits or upper-case letters. */
  lemma UpperHexChar(d: nat)
    requires d < 16
    ensures '0' <= DigitChar(d) <= '9' || 'A' <= DigitChar(d) <= 'F'
  {
  }

  lemma Pow8To22()
    ensures Pow(8, 22) > U64_LIMIT
  {
    assert Pow(8, 2) == 64;
    PowAdd(8, 2, 2);
    PowAdd(8, 4, 4);
    PowAdd(8, 8, 8);
    PowAdd(8, 16, 4);
    PowAdd(8, 20, 2);
  }

  lemma Pow16To16()
    ensures Pow(16, 16) == U64_LIMIT
  {
    assert Pow(16, 2) == 256;
    PowAdd(16, 2, 2);
    PowAdd(16, 4, 4);
    PowAdd(16, 8, 8);
  }

  /** strtoull on octal or hex text: the value of the longest run of digits
      at the front, saturating at the largest `unsigned long long` as
      strtoull does on overflow. */
  function StrToULL(s: string, r: Radix): (v: u64)
    requires r != Binary
  {
    var k := DigitRun(s, r, 0);
    var total := Value(DigitValues(s[..k]), Base(r));
    if total < U64_LIMIT then total else U64_LIMIT - 1
  }

  /** strtoull stops at the first character outside the digit set: what
      follows it never changes the value read. */
  lemma StrToULLStops(s: string, t: string, r: Radix)
    requires r != Binary
    requires forall i :: 0 <= i < |s| ==> IsDigitOf(s[i], r)
    requires |t| > 0 && !IsDigitOf(t[0], r)
    ensures StrToULL(s + t, r) == StrToULL(s, r)
  {
    var st := s + t;
    assert forall i :: 0 <= i < |s| ==> st[i] == s[i];
    assert st[|s|] == t[0];
    assert DigitRun(st, r, 0) == |s|;
    assert st[..|s|] == s[..|s|];
  }

  lemma OctalRoundTrip(n: u64)
    ensures StrToULL(DecToOct(n), Octal) == n
  {
    var s := DecToOct(n);
    assert s[..|s|] == s;
  }

  lemma HexRoundTrip(n: u64)
    ensures StrToULL(DecToHex(n), Hex) == n
  {
    var s := DecToHex(n);
    assert s[..|s|] == s;
  }

  /** binToDec undoes decToBin for every 64-bit value. */
  lemma BinaryRoundTrip(n: u64)
    ensures BinToDec(DecToBin(n)) == n
  {
    var r := DecToBin(n);
    BinToDecValue(r);
    SmallMod(BinValue(r));
  }

  lemma SmallMod(v: nat)
    requires v < U64_LIMIT
    ensures v % U64_LIMIT == v
  {
  }

  /** decToOctBits' lookup table: entry d spells octal digit d in 3 bits. */
  const OCTAL_BITS: seq<string> := ["000", "001", "010", "011", "100", "101", "110", "111"]

  /** decToHexBits' lookup table: entry d spells hex digit d in 4 bits. */
  const HEX_BITS: seq<string> :=
    ["0000", "0001", "0010", "0011", "0100", "0101", "0110", "0111",
     "1000", "1001", "1010", "1011", "1100", "1101", "1110", "1111"]

  /** Entry d of the table is the `width`-bit binary code of d. */
  predicate IsCodeTable(table: seq<string>, width: nat) {
    && |table| == Pow(2, width)
    && forall d :: 0 <= d < |table| ==>
         |table[d]| == width && IsValidBinary(table[d]) && BinValue(table[d]) == d
  }

  lemma BinValueSnoc(s: string)
    requires |s| > 0
    ensures BinValue(s) == BinValue(s[..|s| - 1]) * 2 + CharValue(s[|s| - 1])
  {
    assert DigitValues(s)[..|s| - 1] == DigitValues(s[..|s| - 1]);
  }

  lemma BinValueOf3(s: string)
    requires |s| == 3
    ensures BinValue(s) == CharValue(s[0]) * 4 + CharValue(s[1]) * 2 + CharValue(s[2])
  {
    BinValueSnoc(s);
    BinValueSnoc(s[..2]);
    BinValueSnoc(s[..1]);
    assert s[..2][..1] == s[..1];
    assert s[..1][..0] == "";
  }

  lemma BinValueOf4(s: string)
    requires |s| == 4
    ensures BinValue(s) == BinValue(s[..3]) * 2 + CharValue(s[3])
  {
    BinValueSnoc(s);
  }

  lemma OctalBitsTable()
    ensures IsCodeTable(OCTAL_BITS, 3)
  {
    assert Pow(2, 3) == 8;
    forall d | 0 <= d < 8
      ensures BinValue(OCTAL_BITS[d]) == d
    {
      BinValueOf3(OCTAL_BITS[d]);
    }
  }

  lemma HexBitsTable()
    ensures IsCodeTable(HEX_BITS, 4)
  {
    assert Pow(2, 4) == 16;
    forall d | 0 <= d < 16
      ensures BinValue(HEX_BITS[d]) == d
    {
      BinValueOf4(HEX_BITS[d]);
      BinValueOf3(HEX_BITS[d][..3]);
    }
  }

  /** The code of each digit, most significant digit first. */
  function Spell(ds: seq<nat>, table: seq<string>): seq<string>
    requires forall i :: 0 <= i < |ds| ==> ds[i] < |table|
  {
    seq(|ds|, i requires 0 <= i < |ds| => table[ds[i]])
  }

  /** Groups joined by single spaces with no trailing space, as the
      group-reversing loop of the bit-group renderers writes them. */
  function JoinGroups(gs: seq<string>): string
  {
    if |gs| == 0 then ""
    else if |gs| == 1 then gs[0]
    else JoinGroups(gs[..|gs| - 1]) + " " + gs[|gs| - 1]
  }

  /** Where group k of a join of groups of width w starts: k * (w + 1). */
  function Stride(k: nat, w: nat): nat
  {
    if k == 0 then 0 else Stride(k - 1, w) + w + 1
  }

  lemma {:induction false} StrideIsProduct(k: nat, w: nat)
    ensures Stride(k, w) == k * (w + 1)
    decreases k
  {
    if k > 0 {
      StrideIsProduct(k - 1, w);
    }
  }

  lemma {:induction false} JoinGroupsLength(gs: seq<string>, w: nat)
    requires |gs| >= 1
    requires forall i :: 0 <= i < |gs| ==> |gs[i]| == w
    ensures |JoinGroups(gs)| == Stride(|gs|, w) - 1
    decreases |gs|
  {
    if |gs| > 1 {
      JoinGroupsLength(gs[..|gs| - 1], w);
    }
  }

  /** Where the last space of `s` is, or |s| when it holds none. */
  function LastSpace(s: string): (k: nat)
    ensures k <= |s|
    ensures k < |s| ==> s[k] == ' '
    ensures forall i :: k < i < |s| ==> s[i] != ' '
    ensures k == |s| ==> forall i :: 0 <= i < |s| ==> s[i] != ' '
  {
    if |s| == 0 then 0
    else if s[|s| - 1] == ' ' then |s| - 1
    else
      var k := LastSpace(s[..|s| - 1]);
      if k == |s| - 1 then |s| else k
  }

  /** The space-separated groups of a text, cut at every space; the
      inverse of JoinGroups. */
  function SplitGroups(s: string): (gs: seq<string>)
    ensures |gs| >= 1
    decreases |s|
  {
    var k := LastSpace(s);
    if k == |s| then [s] else SplitGroups(s[..k]) + [s[k + 1..]]
  }

  predicate NoSpace(g: string) {
    forall i :: 0 <= i < |g| ==> g[i] != ' '
  }

  /** The last space of a text that ends in a space and a group is that
      space. */
  lemma {:induction false} LastSpaceOfJoin(a: string, b: string)
    requires NoSpace(b)
    ensures LastSpace(a + " " + b) == |a|
    decreases |b|
  {
    var s := a + " " + b;
    if |b| > 0 {
      assert s[..|s| - 1] == a + " " + b[..|b| - 1];
      assert s[|s| - 1] == b[|b| - 1];
      LastSpaceOfJoin(a, b[..|b| - 1]);
    } else {
      assert s[|s| - 1] == ' ';
    }
  }

  /** Cutting a join of groups at its spaces gives back the groups, as long
      as no group holds a space itself. */
  lemma {:induction false} SplitJoin(gs: seq<string>)
    requires |gs| >= 1
    requires forall i :: 0 <= i < |gs| ==> NoSpace(gs[i])
    ensures SplitGroups(JoinGroups(gs)) == gs
    decreases |gs|
  {
    if |gs| == 1 {
      assert JoinGroups(gs) == gs[0];
      assert LastSpace(gs[0]) == |gs[0]|;
    } else {
      var init := gs[..|gs| - 1];
      var prev := JoinGroups(init);
      var s := prev + " " + gs[|gs| - 1];
      assert JoinGroups(gs) == s;
      LastSpaceOfJoin(prev, gs[|gs| - 1]);
      assert s[..|prev|] == prev;
      assert s[|prev| + 1..] == gs[|gs| - 1];
      SplitJoin(init);
      assert init + [gs[|gs| - 1]] == gs;
    }
  }

  lemma MulMonotone(a: nat, b: nat, c: nat)
    requires b <= c
    ensures a * b <= a * c
  {
  }

  /** The bit-group text of a positive n: one group per digit, its length
      from the number of digits, and a bound from a bound on that number. */
  lemma GroupedText(n: nat, base: nat, table: seq<string>, w: nat, maxDigits: nat)
    requires n > 0 && base >= 2 && |table| == base
    requires forall d :: 0 <= d < |table| ==> |table[d]| == w && IsValidBinary(table[d])
    requires |Digits(n, base)| <= maxDigits
    ensures var ds := Digits(n, base);
            var r := JoinGroups(Spell(ds, table));
            && |r| == |ds| * (w + 1) - 1
            && |r| <= maxDigits * (w + 1) - 1
            && SplitGroups(r) == Spell(ds, table)
  {
    var ds := Digits(n, base);
    var gs := Spell(ds, table);
    assert |gs| == |ds| >= 1;
    assert forall i :: 0 <= i < |gs| ==> |gs[i]| == w && NoSpace(gs[i]) by {
      forall i | 0 <= i < |gs| ensures |gs[i]| == w && NoSpace(gs[i]) {
        assert gs[i] == table[ds[i]];
      }
    }
    assert |JoinGroups(gs)| == |ds| * (w + 1) - 1 by {
      JoinGroupsLength(gs, w);
      StrideIsProduct(|ds|, w);
    }
    assert |ds| * (w + 1) <= maxDigits * (w + 1) by {
      MulMonotone(w + 1, |ds|, maxDigits);
    }
    SplitJoin(gs);
  }

  /** decToOctBits: "000" for zero; otherwise one 3-bit group per octal
      digit of n, most significant first, each the code of its digit, with
      a single space between groups and none at the end. The text fits the
      256-byte buffers the source uses. */
  function DecToOctBits(n: u64): (r: string)
    ensures |r| < 256
    ensures n == 0 ==> r == "000"
    ensures n > 0 ==>
              && |r| == 4 * |Digits(n, 8)| - 1
              && SplitGroups(r) == Spell(Digits(n, 8), OCTAL_BITS)
  {
    if n == 0 then "000"
    else
      OctBitsShape(n);
      JoinGroups(Spell(Digits(n, 8), OCTAL_BITS))
  }

  lemma OctBitsShape(n: u64)
    requires n > 0
    ensures var r := JoinGroups(Spell(Digits(n, 8), OCTAL_BITS));
            && |r| < 256
            && |r| == 4 * |Digits(n, 8)| - 1
            && SplitGroups(r) == Spell(Digits(n, 8), OCTAL_BITS)
  {
    OctalBitsTable();
    assert |Digits(n, 8)| <= 22 by {
      Pow8To22();
      DigitsLength(n, 8, 22);
    }
    GroupedText(n, 8, OCTAL_BITS, 3, 22);
  }

  /** decToHexBits: "0000" for zero; otherwise one 4-bit group per hex digit
      of n, most significant first, each the code of its digit, with a
      single space between groups and none at the end. */
  function DecToHexBits(n: u64): (r: string)
    ensures |r| < 256
    ensures n == 0 ==> r == "0000"
    ensures n > 0 ==>
              && |r| == 5 * |Digits(n, 16)| - 1
              && SplitGroups(r) == Spell(Digits(n, 16), HEX_BITS)
  {
    if n == 0 then "0000"
    else
      HexBitsShape(n);
      JoinGroups(Spell(Digits(n, 16), HEX_BITS))
  }

  lemma HexBitsShape(n: u64)
    requires n > 0
    ensures var r := JoinGroups(Spell(Digits(n, 16), HEX_BITS));
            && |r| < 256
            && |r| == 5 * |Digits(n, 16)| - 1
            && SplitGroups(r) == Spell(Digits(n, 16), HEX_BITS)
  {
    HexBitsTable();
    assert |Digits(n, 16)| <= 16 by {
      Pow16To16();
      DigitsLength(n, 16, 16);
    }
    GroupedText(n, 16, HEX_BITS, 4, 16);
  }

  /** Deletes every space. */
  function RemoveSpaces(s: string): string
  {
    if |s| == 0 then ""
    else if s[|s| - 1] == ' ' then RemoveSpaces(s[..|s| - 1])
    else RemoveSpaces(s[..|s| - 1]) + [s[|s| - 1]]
  }

  /** All groups run together. */
  function Concat(gs: seq<string>): string
  {
    if |gs| == 0 then "" else Concat(gs[..|gs| - 1]) + gs[|gs| - 1]
  }

  lemma {:induction false} RemoveSpacesAppend(a: string, b: string)
    ensures RemoveSpaces(a + b) == RemoveSpaces(a) + RemoveSpaces(b)
    decreases |b|
  {
    if |b| == 0 {
      assert a + b == a;
    } else {
      assert (a + b)[..|a + b| - 1] == a + b[..|b| - 1];
      RemoveSpacesAppend(a, b[..|b| - 1]);
    }
  }

  lemma {:induction false} RemoveSpacesOfBinary(s: string)
    requires IsValidBinary(s)
    ensures RemoveSpaces(s) == s
    decreases |s|
  {
    if |s| > 0 {
      RemoveSpacesOfBinary(s[..|s| - 1]);
      assert s[..|s| - 1] + [s[|s| - 1]] == s;
    }
  }

  /** Deleting the separators of a join of binary groups leaves the groups
      run together. */
  lemma {:induction false} RemoveSpacesOfJoin(gs: seq<string>)
    requires forall i :: 0 <= i < |gs| ==> IsValidBinary(gs[i])
    ensures RemoveSpaces(JoinGroups(gs)) == Concat(gs)
    decreases |gs|
  {
    if |gs| == 1 {
      RemoveSpacesOfBinary(gs[0]);
      assert Concat(gs) == Concat([]) + gs[0];
    } else if |gs| > 1 {
      var init := gs[..|gs| - 1];
      RemoveSpacesOfJoin(init);
      RemoveSpacesAppend(JoinGroups(init) + " ", gs[|gs| - 1]);
      RemoveSpacesAppend(JoinGroups(init), " ");
      assert RemoveSpaces(" ") == "";
      RemoveSpacesOfBinary(gs[|gs| - 1]);
    }
  }

  /** The codes of base-2^w digits, run together, spell the same number in
      binary. */
  lemma {:induction false} ConcatOfCodes(ds: seq<nat>, table: seq<string>, w: nat)
    requires IsCodeTable(table, w)
    requires forall i :: 0 <= i < |ds| ==> ds[i] < |table|
    ensures IsValidBinary(Concat(Spell(ds, table)))
    ensures BinValue(Concat(Spell(ds, table))) == Value(ds, Pow(2, w))
    decreases |ds|
  {
    if |ds| > 0 {
      var init := ds[..|ds| - 1];
      var d := ds[|ds| - 1];
      assert Spell(ds, table)[..|ds| - 1] == Spell(init, table);
      ConcatOfCodes(init, table, w);
      var head := Concat(Spell(init, table));
      assert Concat(Spell(ds, table)) == head + table[d];
      DigitValuesAppend(head, table[d]);
      ValueAppend(DigitValues(head), DigitValues(table[d]), 2);
    }
  }

  /** Reading decToOctBits' output as binary, spaces deleted, gives back n. */
  lemma OctBitsRoundTrip(n: u64)
    ensures BinToDec(RemoveSpaces(DecToOctBits(n))) == n
  {
    if n == 0 {
      RemoveSpacesOfBinary("000");
      ZerosAreZero(3);
      assert seq(3, _ => '0') == "000";
    } else {
      OctalBitsTable();
      GroupsRoundTrip(n, 8, OCTAL_BITS, 3);
    }
  }

  /** Reading decToHexBits' output as binary, spaces deleted, gives back n. */
  lemma HexBitsRoundTrip(n: u64)
    ensures BinToDec(RemoveSpaces(DecToHexBits(n))) == n
  {
    if n == 0 {
      RemoveSpacesOfBinary("0000");
      ZerosAreZero(4);
      assert seq(4, _ => '0') == "0000";
    } else {
      HexBitsTable();
      GroupsRoundTrip(n, 16, HEX_BITS, 4);
    }
  }

  lemma ZerosAreZero(k: nat)
    ensures BinToDec(seq(k, _ => '0')) == 0
  {
    BinToDecLeadingZeros(k, "");
    assert seq(k, _ => '0') + "" == seq(k, _ => '0');
  }

  lemma GroupsRoundTrip(n: u64, base: nat, table: seq<string>, w: nat)
    requires n > 0 && base >= 2
    requires IsCodeTable(table, w) && Pow(2, w) == base
    ensures BinToDec(RemoveSpaces(JoinGroups(Spell(Digits(n, base), table)))) == n
  {
    var ds := Digits(n, base);
    var gs := Spell(ds, table);
    ConcatOfCodes(ds, table, w);
    RemoveSpacesOfJoin(gs);
    ValueOfDigits(n, base);
    BinToDecValue(Concat(gs));
    SmallMod(n);
  }

  /** The six texts printAll shows for one value; `decimal` is the number on
      its Decimal line. */
  datatype Report = Report(binary: string, octal: string, decimal: int, hex: string,
                           octalBits: string, hexBits: string)

  /** Exclusive upper bound of C's 64-bit `long long`: 2^63. */
  const I64_LIMIT: int := 0x8000_0000_0000_0000

  /** printAll as written: its parameter is `long long`, so the Decimal line
      prints the two's-complement reading of the unsigned value. */
  function PrintAllAsWritten(n: u64): (r: Report)
    ensures -I64_LIMIT <= r.decimal < I64_LIMIT
    ensures r.decimal == n || r.decimal == n - U64_LIMIT
    ensures r == PrintAll(n).(decimal := r.decimal)
  {
    var shown := if n < I64_LIMIT then n as int else n as int - U64_LIMIT;
    Report(DecToBin(n), DecToOct(n), shown, DecToHex(n), DecToOctBits(n), DecToHexBits(n))
  }

  /** printAll as intended: every line shows the same unsigned value. */
  function PrintAll(n: u64): (r: Report)
    ensures r.decimal == n
    ensures IsValidBinary(r.binary) && IsValidOctal(r.octal)
    ensures |r.binary| <= 64 && |r.octal| <= 22 && |r.hex| <= 16
    ensures |r.octalBits| < 256 && |r.hexBits| < 256
  {
    Report(DecToBin(n), DecToOct(n), n, DecToHex(n), DecToOctBits(n), DecToHexBits(n))
  }

  lemma {:induction false} AllOnesValue(k: nat)
    ensures IsValidBinary(seq(k, _ => '1'))
    ensures BinValue(seq(k, _ => '1')) + 1 == Pow(2, k)
  {
    if k > 0 {
      var ones := seq(k, _ => '1');
      assert ones[..k - 1] == seq(k - 1, _ => '1');
      AllOnesValue(k - 1);
      BinValueSnoc(ones);
    }
  }

  /** Sixty-four '1's pass isValidBinary and parse to 2^64 - 1, and the
      Decimal line of printAll as written shows -1 for them. */
  lemma DecimalLineShowsNegative()
    ensures var input := seq(64, _ => '1');
            && IsValidBinary(input)
            && BinToDec(input) == U64_LIMIT - 1
            && PrintAllAsWritten(BinToDec(input)).decimal == -1
  {
    var input := seq(64, _ => '1');
    AllOnesValue(64);
    Pow2To64();
    BinToDecValue(input);
    SmallMod(BinValue(input));
  }

  /** Every line of the corrected report reads back as the value reported:
      the binary text through binToDec, the octal and hex texts through
      strtoull, and the bit groups through binToDec once spaces are
      deleted. */
  lemma ReportReadsBack(n: u64)
    ensures var rep := PrintAll(n);
            && BinToDec(rep.binary) == n
            && StrToULL(rep.octal, Octal) == n
            && rep.decimal == n
            && StrToULL(rep.hex, Hex) == n
            && BinToDec(RemoveSpaces(rep.octalBits)) == n
            && BinToDec(RemoveSpaces(rep.hexBits)) == n
  {
    BinaryRoundTrip(n);
    OctalRoundTrip(n);
    HexRoundTrip(n);
    OctBitsRoundTrip(n);
    HexBitsRoundTrip(n);
  }

  /** The C string a buffer holds: its characters up to the first NUL,
      where `strcspn`, the validators, binToDec and strtoull all stop. */
  function CString(line: string): (t: string)
    ensures |t| <= |line| && t == line[..|t|]
    ensures forall i :: 0 <= i < |t| ==> t[i] != '\0'
    ensures |t| == |line| || line[|t|] == '\0'
  {
    if |line| == 0 || line[0] == '\0' then "" else [line[0]] + CString(line[1..])
  }

  /** A line without a NUL byte is its own C string. */
  lemma {:induction false} CStringOfPlain(line: string)
    requires forall i :: 0 <= i < |line| ==> line[i] != '\0'
    ensures CString(line) == line
  {
    if |line| > 0 {
      assert forall i :: 0 <= i < |line| - 1 ==> line[1..][i] == line[i + 1];
      CStringOfPlain(line[1..]);
      assert line == [line[0]] + line[1..];
    }
  }

  /** Menu options 1 to 3 on the line `fgets` read, newline removed: the
      C string it holds is checked and converted. Text that fails the
      validator gets no report; valid binary text is reported at its value
      modulo 2^64, valid octal or hex text at its value capped at
      2^64 - 1. */
  function Convert(input: string, r: Radix): (report: Option<Report>)
    ensures report.Some? <==>
              forall i :: 0 <= i < |CString(input)| ==> IsDigitOf(CString(input)[i], r)
    ensures report.Some? ==>
              && 0 <= report.value.decimal < U64_LIMIT
              && report.value == PrintAll(report.value.decimal)
    ensures report.Some? && r == Binary ==>
              report.value.decimal == Value(DigitValues(CString(input)), 2) % U64_LIMIT
    ensures report.Some? && r != Binary ==>
              var v := Value(DigitValues(CString(input)), Base(r));
              report.value.decimal == if v < U64_LIMIT then v else U64_LIMIT - 1
  {
    var text := CString(input);
    var k := DigitRun(text, r, 0);
    if k == |text| then
      if r == Binary then
        BinToDecValue(text);
        Some(PrintAll(BinToDec(text)))
      else
        assert text[..|text|] == text;
        Some(PrintAll(StrToULL(text, r)))
    else
      assert !IsDigitOf(text[k], r);
      None
  }

  /** Whatever follows a NUL byte in the line is never looked at: the
      report is the one for the text before it. */
  lemma NulEndsLine(s: string, rest: string, r: Radix)
    requires forall i :: 0 <= i < |s| ==> s[i] != '\0'
    ensures Convert(s + "\0" + rest, r) == Convert(s, r)
  {
    var line := s + "\0" + rest;
    var t := CString(line);
    assert forall i :: 0 <= i < |s| ==> line[i] == s[i] && line[i] != '\0';
    assert line[|s|] == '\0';
    assert t == s;
    CStringOfPlain(s);
  }

  /** Every line of what options 1 to 3 report reads back as the value on
      its Decimal line. */
  lemma ConvertReadsBack(input: string, r: Radix)
    requires Convert(input, r).Some?
    ensures var rep := Convert(input, r).value;
            && BinToDec(rep.binary) == rep.decimal
            && StrToULL(rep.octal, Octal) == rep.decimal
            && StrToULL(rep.hex, Hex) == rep.decimal
            && BinToDec(RemoveSpaces(rep.octalBits)) == rep.decimal
            && BinToDec(RemoveSpaces(rep.hexBits)) == rep.decimal
  {
    ReportReadsBack(Convert(input, r).value.decimal);
  }
}
