/** The loop that reads a hexadecimal operand by shifting and or-ing, and the number it reads. */
module HexDigits {
  import opened CStrings
  import opened Words

  /** Character c is the digit d, in either case. */
  predicate IsDigit(c: Byte, d: nat) {
    if d < 10 then c == 48 + d else d < 16 && (c == 97 + d - 10 || c == 65 + d - 10)
  }

  ghost predicate IsHexChar(c: Byte) {
    exists d: nat :: IsDigit(c, d)
  }

  ghost predicate IsHex(s: seq<Byte>) {
    forall i :: 0 <= i < |s| ==> IsHexChar(s[i])
  }

  /** hctoc: any other character stands for itself. */
  function Hctoc(c: Byte): Byte {
    if 48 <= c <= 57 then c - 48
    else if 97 <= c <= 102 then c - (97 - 10)
    else if 65 <= c <= 70 then c - (65 - 10)
    else c
  }

  /** Digit d is the character in place d of the alphabet, in either case. */
  lemma DigitAlphabet(c: Byte, d: nat)
    ensures IsDigit(c, d) <==>
            d < 16 && (c == "0123456789abcdef"[d] as int || c == "0123456789ABCDEF"[d] as int)
  {
  }

  /** The place of a character in the alphabet of digits. */
  ghost function DigitOf(c: Byte): nat {
    if d: nat :| IsDigit(c, d) then d else 0
  }

  lemma HctocIsDigit(c: Byte, d: nat)
    requires IsDigit(c, d)
    ensures Hctoc(c) == d == DigitOf(c)
  {
    var e := DigitOf(c);
    assert IsDigit(c, e);
  }

  /** The value of a string of digits, by position. */
  ghost function Positional(s: seq<Byte>): nat {
    if s == [] then 0 else 16 * Positional(s[..|s| - 1]) + DigitOf(s[|s| - 1])
  }

  /** Four places to the left, and a digit in the places made free. */
  lemma ShiftAndOr(w: Word, d: nat)
    requires d < 16
    ensures Value(Or(Shl(w, 4), ToWord(d))) == (16 * Value(w) + d) % RANGE
  {
    assert Pow2(4) == 16;
    LowBits(d, 4);
    Inserted(w, BitsOf(d, 4), ToWord(d));
    JoinedValue(w, BitsOf(d, 4), 28, d);
  }

  lemma JoinedValue(w: Word, low: Bits, k: nat, d: nat)
    requires |low| == 4 && k == 28 && Value(low) == d < 16
    ensures Value(low + w[..k]) == (16 * Value(w) + d) % RANGE
  {
    FourMore(low, w[..k]);
    ValueSplit(w, k);
    FourPlaces(k);
    SixteenTimes(Value(w), Pow2(k), d);
  }

  lemma LowBits(d: nat, k: nat)
    requires k <= 32 && d < Pow2(k)
    ensures ToWord(d) == BitsOf(d, k) + Zeros(32 - k) && Value(BitsOf(d, k)) == d
  {
    PaddedBits(d, k, 32 - k);
    ValueOfBits(d, k);
    DivMod(d, Pow2(k), 0, d);
  }

  lemma FourPlaces(k: nat)
    requires k == 28
    ensures Pow2(k) * 16 == RANGE
  {
    Pow2Sum(k, 4);
    Pow2Of32();
  }

  lemma FourMore(low: Bits, high: Bits)
    requires |low| == 4
    ensures Value(low + high) == Value(high) * 16 + Value(low)
  {
    ValueConcat(low, high);
    assert Pow2(4) == 16;
    SameFactor(Value(high), Pow2(|low|), 16);
  }

  lemma SameFactor(a: int, b: int, c: int)
    requires b == c
    ensures a * b == a * c
  {
  }

  lemma Inserted(w: Word, low: Bits, digit: Word)
    requires |low| == 4 && digit == low + Zeros(28)
    ensures Or(Shl(w, 4), digit) == low + w[..28]
  {
  }

  lemma PaddedBits(d: nat, k: nat, m: nat)
    requires d < Pow2(k)
    ensures BitsOf(d, k + m) == BitsOf(d, k) + Zeros(m)
  {
    var low := BitsOf(d, k);
    ValueOfBits(d, k);
    DivMod(d, Pow2(k), 0, d);
    ValueConcat(low, Zeros(m));
    ValueZeros(m);
    Times(Pow2(k));
    BitsOfValue(low + Zeros(m));
  }

  lemma SixteenTimes(n: nat, m: nat, d: nat)
    requires m > 0 && d < 16
    ensures (16 * n + d) % (m * 16) == (n % m) * 16 + d
  {
    var q, r := n / m, n % m;
    MulAssoc(q, m, 16);
    DivMod(16 * n + d, m * 16, q, 16 * r + d);
  }

  lemma OneMoreDigit(s: seq<Byte>, i: nat)
    requires i < |s|
    ensures Positional(s[..i + 1]) == 16 * Positional(s[..i]) + DigitOf(s[i])
  {
    assert s[..i + 1][..i] == s[..i];
  }

  /** Only the remainder of the digits before matters for the remainder with one more. */
  lemma RemainderStep(n: nat, m: nat, d: nat)
    requires m > 0
    ensures (16 * (n % m) + d) % m == (16 * n + d) % m
  {
    var q, r := n / m, n % m;
    var a, b := (16 * r + d) / m, (16 * r + d) % m;
    MulAssoc(16, q, m);
    assert n == q * m + r;
    assert (16 * q + a) * m == 16 * q * m + a * m;
    DivMod(16 * n + d, m, 16 * q + a, b);
  }

  /** What has been read of a string after i digits. */
  ghost predicate HasRead(s: seq<Byte>, i: nat, operand: Word)
    requires i <= |s|
  {
    Value(operand) == Positional(s[..i]) % RANGE
  }

  lemma ReadsDigit(s: seq<Byte>, i: nat, operand: Word)
    requires IsHex(s) && i < |s| && HasRead(s, i, operand)
    ensures HasRead(s, i + 1, Or(Shl(operand, 4), ToWord(Hctoc(s[i]))))
  {
    assert IsHexChar(s[i]);
    var d: nat :| IsDigit(s[i], d);
    HctocIsDigit(s[i], d);
    ShiftAndOr(operand, d);
    OneMoreDigit(s, i);
    RemainderStep(Positional(s[..i]), RANGE, d);
  }

  lemma NothingRead(s: seq<Byte>)
    ensures HasRead(s, 0, Zeros(32)) && Shl(Zeros(32), 4) == Zeros(32)
  {
    ValueZeros(32);
    assert s[..0] == [] && Positional(s[..0]) == 0;
  }

  /** The loop: an operand of any number of digits, modulo 2^32. */
  method ReadHex(s: seq<Byte>) returns (operand: Word)
    requires |s| > 0
    ensures IsHex(s) ==> Value(operand) == Positional(s) % RANGE
  {
    operand := Zeros(32);
    NothingRead(s);
    if IsHex(s) {
      ReadsDigit(s, 0, operand);
    }
    var i := 0;
    operand := Or(operand, ToWord(Hctoc(s[i])));
    i := i + 1;
    while i < |s|
      invariant 1 <= i <= |s|
      invariant IsHex(s) ==> HasRead(s, i, operand)
    {
      if IsHex(s) {
        ReadsDigit(s, i, operand);
      }
      operand := Shl(operand, 4);
      operand := Or(operand, ToWord(Hctoc(s[i])));
      i := i + 1;
    }
    assert s[..|s|] == s;
  }

  // ---------------------------------------------------------------- the printer that it inverts

  function UpperDigit(d: nat): Byte
    requires d < 16
  {
    if d < 10 then 48 + d else 65 + d - 10
  }

  /** The last k hexadecimal digits of n. */
  function Print(n: nat, k: nat): (s: seq<Byte>)
    ensures |s| == k
  {
    if k == 0 then [] else Print(n / 16, k - 1) + [UpperDigit(n % 16)]
  }

  function Pow16(k: nat): nat {
    if k == 0 then 1 else 16 * Pow16(k - 1)
  }

  lemma {:induction false} PrintedValue(n: nat, k: nat)
    requires n < Pow16(k)
    ensures Positional(Print(n, k)) == n && IsHex(Print(n, k))
  {
    if k > 0 {
      PrintedValue(n / 16, k - 1);
      var s := Print(n, k);
      assert s[..k - 1] == Print(n / 16, k - 1);
      assert IsDigit(s[k - 1], n % 16);
      HctocIsDigit(s[k - 1], n % 16);
      forall i | 0 <= i < k ensures IsHexChar(s[i]) {
        if i == k - 1 {
          assert IsDigit(s[i], n % 16);
        } else {
          assert s[i] == Print(n / 16, k - 1)[i];
        }
      }
    }
  }

  lemma PrintedWord(w: Word, k: nat)
    requires k == 8
    ensures Positional(Print(Value(w), k)) == Value(w) < RANGE && IsHex(Print(Value(w), k))
  {
    ValueInRange(w);
    assert Pow16(4) == 0x1_0000;
    assert Pow16(8) == 16 * 16 * 16 * 16 * Pow16(4);
    PrintedValue(Value(w), k);
  }

  lemma SameRemainder(n: nat, m: nat)
    requires n < m
    ensures n % m == n
  {
  }

  /** Reading what was printed in eight digits gives the word back. */
  method PrintThenRead(w: Word) returns (r: Word)
    ensures r == w
  {
    var printed := Print(Value(w), 8);
    PrintedWord(w, 8);
    r := ReadHex(printed);
    SameRemainder(Value(w), RANGE);
    ValueInjective(r, w);
  }

  ghost predicate IsUpperHex(s: seq<Byte>) {
    forall i :: 0 <= i < |s| ==> exists d: nat :: d < 16 && s[i] == UpperDigit(d)
  }

  /** And every string of upper-case digits is the print of the number that it is read as. */
  lemma {:induction false} ReadThenPrint(s: seq<Byte>)
    requires IsUpperHex(s)
    ensures Print(Positional(s), |s|) == s && Positional(s) < Pow16(|s|)
  {
    if s != [] {
      var front, c := s[..|s| - 1], s[|s| - 1];
      ReadThenPrint(front);
      var d: nat :| d < 16 && c == UpperDigit(d);
      UpperIsDigit(d);
      DivMod(Positional(s), 16, Positional(front), d);
      assert s == front + [c];
    }
  }

  lemma UpperIsDigit(d: nat)
    requires d < 16
    ensures IsDigit(UpperDigit(d), d) && DigitOf(UpperDigit(d)) == d
  {
    HctocIsDigit(UpperDigit(d), d);
  }
}
