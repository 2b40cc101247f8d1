/** Machine words as their bits, least significant first, the operators of C on them, and the
    numbers that they stand for. */
module Words {

  type Bits = seq<bool>

  type Word = w: Bits | |w| == 32 witness seq(32, i => false)

  function Pow2(k: nat): (p: nat)
    ensures p > 0
  {
    if k == 0 then 1 else 2 * Pow2(k - 1)
  }

  function Digit(b: bool): nat {
    if b then 1 else 0
  }

  /** The number with the binary digits s. */
  function Value(s: Bits): nat {
    if s == [] then 0 else Digit(s[0]) + 2 * Value(s[1..])
  }

  /** The lowest w binary digits of n. */
  function BitsOf(n: nat, w: nat): (s: Bits)
    ensures |s| == w
  {
    if w == 0 then [] else [n % 2 == 1] + BitsOf(n / 2, w - 1)
  }

  /** Bit k of a number. */
  predicate BitAt(n: nat, k: nat) {
    n / Pow2(k) % 2 == 1
  }

  /** The number that w encodes in two's complement. */
  function Signed(w: Word): int {
    if w[31] then Value(w) - Pow2(32) else Value(w)
  }

  function Zeros(k: nat): (s: Bits)
    ensures |s| == k
  {
    seq(k, i => false)
  }

  function ToWord(n: nat): Word {
    BitsOf(n, 32)
  }

  // ---------------------------------------------------------------- the operators

  function Shl(w: Word, k: nat): Word
    requires k <= 32
  {
    Zeros(k) + w[..32 - k]
  }

  function Shr(w: Word, k: nat): Word
    requires k <= 32
  {
    w[k..] + Zeros(k)
  }

  function And(a: Word, b: Word): Word {
    seq(32, i requires 0 <= i < 32 => a[i] && b[i])
  }

  function Or(a: Word, b: Word): Word {
    seq(32, i requires 0 <= i < 32 => a[i] || b[i])
  }

  function Xor(a: Word, b: Word): Word {
    seq(32, i requires 0 <= i < 32 => a[i] != b[i])
  }

  function Reversed(s: Bits): (r: Bits)
    ensures |r| == |s|
    ensures forall i :: 0 <= i < |s| ==> r[i] == s[|s| - 1 - i]
  {
    seq(|s|, i requires 0 <= i < |s| => s[|s| - 1 - i])
  }

  // ---------------------------------------------------------------- arithmetic facts

  lemma {:induction false} Pow2Sum(a: nat, b: nat)
    ensures Pow2(a + b) == Pow2(a) * Pow2(b)
  {
    if a > 0 {
      Pow2Sum(a - 1, b);
      assert Pow2(a + b) == 2 * Pow2(a - 1 + b);
    }
  }

  lemma Pow2Of32()
    ensures Pow2(4) == 16 && Pow2(8) == 256 && Pow2(16) == 0x1_0000
    ensures Pow2(31) == 0x8000_0000 && Pow2(32) == 0x1_0000_0000
  {
    assert Pow2(4) == 16;
    Pow2Sum(4, 4);
    Pow2Sum(8, 8);
    Pow2Sum(16, 16);
  }

  const RANGE := 0x1_0000_0000

  lemma {:induction false} ValueBelow(s: Bits)
    ensures Value(s) < Pow2(|s|)
  {
    if s != [] {
      ValueBelow(s[1..]);
    }
  }

  lemma ValueInRange(w: Word)
    ensures Value(w) < RANGE
  {
    Pow2Of32();
    ValueBelow(w);
  }

  lemma MulAssoc(a: int, b: int, c: int)
    ensures (a * b) * c == a * (b * c)
  {
  }

  lemma AtLeastOnce(e: int, d: int)
    requires e >= 1 && d > 0
    ensures e * d >= d
  {
  }

  lemma SmallMultiple(e: int, d: int)
    requires d > 0 && -d < e * d < d
    ensures e == 0
  {
    if e >= 1 {
      AtLeastOnce(e, d);
    } else if e <= -1 {
      AtLeastOnce(-e, d);
    }
  }

  /** Quotient and remainder are determined by the equation between them. */
  lemma DivMod(n: int, d: int, q: int, r: int)
    requires d > 0 && n == q * d + r && 0 <= r < d
    ensures n / d == q && n % d == r
  {
    assert n == n / d * d + n % d;
    assert (n / d - q) * d == r - n % d;
    SmallMultiple(n / d - q, d);
  }

  lemma {:induction false} ValueConcat(a: Bits, b: Bits)
    ensures Value(a + b) == Value(b) * Pow2(|a|) + Value(a)
  {
    if a == [] {
      assert a + b == b;
    } else {
      ValueConcat(a[1..], b);
      assert (a + b)[1..] == a[1..] + b;
      MulAssoc(Value(b), Pow2(|a| - 1), 2);
      assert Pow2(|a|) == Pow2(|a| - 1) * 2;
    }
  }

  lemma {:induction false} ValueZeros(k: nat)
    ensures Value(Zeros(k)) == 0
  {
    if k > 0 {
      ValueZeros(k - 1);
      assert Zeros(k)[1..] == Zeros(k - 1);
    }
  }

  lemma {:induction false} BitsOfValue(s: Bits)
    ensures BitsOf(Value(s), |s|) == s
  {
    if s != [] {
      BitsOfValue(s[1..]);
      DivMod(Value(s), 2, Value(s[1..]), Digit(s[0]));
    }
  }

  lemma ValueInjective(a: Bits, b: Bits)
    requires |a| == |b| && Value(a) == Value(b)
    ensures a == b
  {
    BitsOfValue(a);
    BitsOfValue(b);
  }

  /** The remainder by twice p, from that of the half by p. */
  lemma HalfRemainder(n: nat, p: nat)
    requires p > 0
    ensures n % (2 * p) == 2 * (n / 2 % p) + n % 2
  {
    var q, r := n / 2 / p, n / 2 % p;
    assert n / 2 == q * p + r;
    MulAssoc(2, q, p);
    MulAssoc(q, 2, p);
    DivMod(n, 2 * p, q, 2 * r + n % 2);
  }

  /** The number with the lowest w digits of n is the remainder modulo 2^w. */
  lemma {:induction false} ValueOfBits(n: nat, w: nat)
    ensures Value(BitsOf(n, w)) == n % Pow2(w)
  {
    if w == 0 {
      DivMod(n, 1, n, 0);
    } else {
      ValueOfBits(n / 2, w - 1);
      HalfRemainder(n, Pow2(w - 1));
      assert BitsOf(n, w)[1..] == BitsOf(n / 2, w - 1);
    }
  }

  lemma ToWordValue(n: nat)
    requires n < RANGE
    ensures Value(ToWord(n)) == n
  {
    WideValue(n, 32);
  }

  lemma WideValue(n: nat, w: nat)
    requires n < RANGE && w == 32
    ensures Value(BitsOf(n, w)) == n
  {
    Pow2Of32();
    ValueOfBits(n, w);
    DivMod(n, Pow2(w), 0, n);
  }

  lemma ValueJoin(low: Bits, high: Bits)
    ensures Value(high) == Value(low + high) / Pow2(|low|)
    ensures Value(low) == Value(low + high) % Pow2(|low|)
  {
    ValueConcat(low, high);
    ValueBelow(low);
    DivMod(Value(low + high), Pow2(|low|), Value(high), Value(low));
  }

  /** Cutting a word in two divides its value with remainder. */
  lemma ValueSplit(s: Bits, k: nat)
    requires k <= |s|
    ensures Value(s[k..]) == Value(s) / Pow2(k)
    ensures Value(s[..k]) == Value(s) % Pow2(k)
  {
    assert s == s[..k] + s[k..];
    ValueJoin(s[..k], s[k..]);
  }

  lemma BitOfValue(s: Bits, k: nat)
    requires k < |s|
    ensures BitAt(Value(s), k) <==> s[k]
  {
    ValueSplit(s, k);
    DivMod(Value(s[k..]), 2, Value(s[k..][1..]), Digit(s[k]));
  }

  lemma TopBit(low: Bits, b: bool)
    ensures Value(low + [b]) == Value(low) + if b then Pow2(|low|) else 0
  {
    ValueConcat(low, [b]);
    OneBit(b);
    Times(Pow2(|low|));
  }

  lemma OneBit(b: bool)
    ensures Value([b]) == Digit(b)
  {
    assert [b][1..] == [];
  }

  lemma Times(n: int)
    ensures 0 * n == 0 && 1 * n == n
  {
  }

  /** A signed value is that of the low 31 bits, less 2^31 if the top bit is set. */
  lemma SignedSplit(w: Word)
    ensures Signed(w) == Value(w[..31]) - if w[31] then Pow2(31) else 0
    ensures Value(w) == Value(w[..31]) + if w[31] then Pow2(31) else 0
  {
    assert w == w[..31] + [w[31]];
    TopBit(w[..31], w[31]);
    assert Pow2(32) == 2 * Pow2(31);
  }

  lemma SignBit(w: Word)
    ensures w[31] <==> Signed(w) < 0
  {
    SignedSplit(w);
    ValueBelow(w[..31]);
  }

  lemma SignedInjective(a: Word, b: Word)
    requires Signed(a) == Signed(b)
    ensures a == b
  {
    SignedSplit(a);
    SignedSplit(b);
    ValueBelow(a[..31]);
    ValueBelow(b[..31]);
    ValueInjective(a, b);
  }
}
