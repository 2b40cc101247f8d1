/** What a shift by c bits makes of a word, and that it is arithmetic: multiplication modulo 2^32,
    unsigned division and signed division, both rounding down. */
module Shifts {
  import opened Words

  datatype Instruction = SAL | SAR | SHL | SHR

  predicate IsLeft(ins: Instruction) {
    ins.SAL? || ins.SHL?
  }

  function Copies(b: bool, k: nat): (s: Bits)
    ensures |s| == k
  {
    seq(k, i => b)
  }

  function Shifted(ins: Instruction, w: Word, c: nat): Word
    requires c < 32
  {
    if IsLeft(ins) then Shl(w, c)
    else if ins.SHR? then Shr(w, c)
    else w[c..] + Copies(w[31], c)
  }

  /** The last bit shifted out. */
  predicate Carry(ins: Instruction, w: Word, c: nat)
    requires 1 <= c < 32
  {
    if IsLeft(ins) then w[32 - c] else w[c - 1]
  }

  /** The product or quotient that a shift stands for. */
  ghost predicate IsArithmetic(ins: Instruction, w: Word, c: nat, r: Word) {
    match ins
    case SAL => Value(r) == Value(w) * Pow2(c) % Pow2(32)
    case SHL => Value(r) == Value(w) * Pow2(c) % Pow2(32)
    case SHR => Value(r) == Value(w) / Pow2(c)
    case SAR => Signed(r) == Signed(w) / Pow2(c)
  }

  lemma ScaledRemainder(n: nat, d: nat, m: nat)
    requires d > 0 && m > 0
    ensures n % d * m == n * m % (d * m)
  {
    var q, r := n / d, n % d;
    assert n * m == q * (d * m) + r * m by {
      assert n == q * d + r;
      Distribute(q * d, r, m);
      MulAssoc(q, d, m);
    }
    LessTimes(r, d, m);
    assert d * m > 0;
    DivMod(n * m, d * m, q, r * m);
  }

  lemma Distribute(a: int, b: int, m: int)
    ensures (a + b) * m == a * m + b * m
  {
  }

  lemma LessTimes(r: nat, d: nat, m: nat)
    requires r < d && m > 0
    ensures 0 <= r * m < d * m
  {
    AtLeastOnce(d - r, m);
    Distribute(d - r, r, m);
  }

  lemma LeftIsProduct(w: Word, c: nat)
    requires c < 32
    ensures Value(Shl(w, c)) == Value(w) * Pow2(c) % Pow2(32)
  {
    ValueConcat(Zeros(c), w[..32 - c]);
    ValueZeros(c);
    ValueSplit(w, 32 - c);
    Pow2Sum(32 - c, c);
    ScaledRemainder(Value(w), Pow2(32 - c), Pow2(c));
  }

  lemma RightIsQuotient(w: Word, c: nat)
    requires c < 32
    ensures Value(Shr(w, c)) == Value(w) / Pow2(c)
  {
    ValueSplit(w, c);
    ValueConcat(w[c..], Zeros(c));
    ValueZeros(c);
  }

  lemma {:induction false} ValueCopies(k: nat)
    ensures Value(Copies(true, k)) == Pow2(k) - 1
  {
    if k > 0 {
      ValueCopies(k - 1);
      assert Copies(true, k)[1..] == Copies(true, k - 1);
    }
  }

  /** A quotient of a number less a multiple. */
  lemma QuotientLess(n: int, d: int, e: int)
    requires d > 0
    ensures (n - e * d) / d == n / d - e
  {
    Distribute(n / d, -e, d);
    assert n - e * d == (n / d - e) * d + n % d;
    DivMod(n - e * d, d, n / d - e, n % d);
  }

  lemma OneLess(a: int, m: int)
    ensures (a - 1) * m == a * m - m
  {
  }

  lemma FilledWithOnes(high: Bits, c: nat)
    requires |high| + c == 32
    ensures Value(high + Copies(true, c)) == Value(high) + Pow2(32) - Pow2(|high|)
  {
    ValueConcat(high, Copies(true, c));
    ValueCopies(c);
    Pow2Sum(c, |high|);
    OneLess(Pow2(c), Pow2(|high|));
  }

  lemma NegativeQuotient(w: Word, c: nat)
    requires c < 32
    ensures (Value(w) - Pow2(32)) / Pow2(c) == Value(w[c..]) - Pow2(32 - c)
  {
    ValueSplit(w, c);
    Pow2Sum(32 - c, c);
    QuotientLess(Value(w), Pow2(c), Pow2(32 - c));
  }

  lemma SignedFilled(high: Bits, c: nat)
    requires 0 < |high| && |high| + c == 32 && high[|high| - 1]
    ensures Signed(high + Copies(true, c)) == Value(high) - Pow2(|high|)
  {
    FilledWithOnes(high, c);
  }

  lemma TopBitSet(w: Word, high: Bits, c: nat)
    requires c < 32 && w[31] && high == w[c..]
    ensures Signed(high + Copies(true, c)) == Signed(w) / Pow2(c)
  {
    SignedFilled(high, c);
    NegativeQuotient(w, c);
  }

  lemma TopBitClear(w: Word, c: nat)
    requires c < 32 && !w[31]
    ensures Signed(w) == Value(w) && Signed(w[c..] + Copies(false, c)) == Value(Shr(w, c))
  {
    ZerosAreCopies(c);
  }

  lemma SignedRightIsQuotient(w: Word, c: nat)
    requires c < 32
    ensures Signed(w[c..] + Copies(w[31], c)) == Signed(w) / Pow2(c)
  {
    if w[31] {
      TopBitSet(w, w[c..], c);
    } else {
      TopBitClear(w, c);
      RightIsQuotient(w, c);
    }
  }

  /** Shifts are arithmetic, for every word and every count. */
  lemma ShiftedIsArithmetic(ins: Instruction, w: Word, c: nat)
    requires c < 32
    ensures IsArithmetic(ins, w, c, Shifted(ins, w, c))
  {
    LeftIsProduct(w, c);
    RightIsQuotient(w, c);
    SignedRightIsQuotient(w, c);
  }

  /** And no other word is the result of the arithmetic. */
  lemma ArithmeticIsShifted(ins: Instruction, w: Word, c: nat, r: Word)
    requires c < 32 && IsArithmetic(ins, w, c, r)
    ensures r == Shifted(ins, w, c)
  {
    ShiftedIsArithmetic(ins, w, c);
    if ins.SAR? {
      SignedInjective(r, Shifted(ins, w, c));
    } else {
      ValueInjective(r, Shifted(ins, w, c));
    }
  }

  /** The carry is bit 32 - c of the number for a left shift, and bit c - 1 for a right one. */
  lemma CarryIsBit(ins: Instruction, w: Word, c: nat)
    requires 1 <= c < 32
    ensures Carry(ins, w, c) <==> BitAt(Value(w), if IsLeft(ins) then 32 - c else c - 1)
  {
    BitOfValue(w, if IsLeft(ins) then 32 - c else c - 1);
  }

  lemma ShlTwice(w: Word, a: nat, b: nat)
    requires a + b < 32
    ensures Shl(Shl(w, a), b) == Shl(w, a + b)
    ensures b >= 1 ==> Shl(w, a)[32 - b] == w[32 - (a + b)]
  {
    var kept := w[..32 - (a + b)];
    assert Shl(w, a)[..32 - b] == Zeros(a) + kept;
    assert Zeros(b) + Zeros(a) == Zeros(a + b);
    assert Zeros(b) + (Zeros(a) + kept) == Zeros(b) + Zeros(a) + kept;
  }

  /** Shifting right with copies of b coming in. */
  lemma FilledTwice(w: Word, a: nat, b: nat, fill: bool)
    requires a + b < 32
    ensures (w[a..] + Copies(fill, a))[b..] + Copies(fill, b) == w[a + b..] + Copies(fill, a + b)
    ensures b >= 1 ==> (w[a..] + Copies(fill, a))[b - 1] == w[a + b - 1]
  {
    assert (w[a..] + Copies(fill, a))[b..] == w[a + b..] + Copies(fill, a);
    assert Copies(fill, a) + Copies(fill, b) == Copies(fill, a + b);
    assert w[a + b..] + (Copies(fill, a) + Copies(fill, b)) == w[a + b..] + Copies(fill, a) + Copies(fill, b);
  }

  lemma TopStays(w: Word, c: nat)
    requires c < 32
    ensures (w[c..] + Copies(w[31], c))[31] == w[31]
  {
  }

  lemma ZerosAreCopies(k: nat)
    ensures Zeros(k) == Copies(false, k)
  {
  }

  /** Shifting by a and then by b is shifting by a + b, carry included. */
  lemma ShiftsCompose(ins: Instruction, w: Word, a: nat, b: nat)
    requires a + b < 32
    ensures Shifted(ins, Shifted(ins, w, a), b) == Shifted(ins, w, a + b)
    ensures b >= 1 ==> Carry(ins, Shifted(ins, w, a), b) == Carry(ins, w, a + b)
  {
    if IsLeft(ins) {
      ShlTwice(w, a, b);
    } else if ins.SHR? {
      ZerosAreCopies(a);
      ZerosAreCopies(b);
      ZerosAreCopies(a + b);
      FilledTwice(w, a, b, false);
    } else {
      TopStays(w, a);
      FilledTwice(w, a, b, w[31]);
    }
  }

  predicate FitsSigned(n: int) {
    -0x8000_0000 <= n < 0x8000_0000
  }

  lemma TopTwoBits(w: Word)
    ensures Signed(w) == Value(w[..30]) + (if w[30] then Pow2(30) else 0) - if w[31] then 2 * Pow2(30) else 0
    ensures Pow2(30) == 0x4000_0000
  {
    assert w[..31] == w[..30] + [w[30]];
    TopBit(w[..30], w[30]);
    SignedSplit(w);
    Pow2Of32();
    assert Pow2(31) == 2 * Pow2(30);
  }

  /** A one-bit left shift changes the sign bit exactly when doubling the signed number overflows. */
  lemma DoublingOverflow(w: Word)
    ensures Shl(w, 1)[31] == w[30]
    ensures w[30] != w[31] <==> !FitsSigned(2 * Signed(w))
    ensures w[30] == w[31] ==> Signed(Shl(w, 1)) == 2 * Signed(w)
  {
    TopTwoBits(w);
    ValueBelow(w[..30]);
    var r := Shl(w, 1);
    SignedSplit(r);
    assert r[..31] == [false] + w[..30] && ([false] + w[..30])[1..] == w[..30];
    Pow2Of32();
  }
}
