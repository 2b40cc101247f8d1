/** The bit-reversal table of bits.h, made by nested macros, and the macros built on it. */
module BitReverse {
  import opened Words

  function R2(n: nat): seq<nat> {
    [n, n + 2 * 64, n + 1 * 64, n + 3 * 64]
  }

  function R4(n: nat): seq<nat> {
    R2(n) + R2(n + 2 * 16) + R2(n + 1 * 16) + R2(n + 3 * 16)
  }

  function R6(n: nat): seq<nat> {
    R4(n) + R4(n + 2 * 4) + R4(n + 1 * 4) + R4(n + 3 * 4)
  }

  function BitReverseTable256(): seq<nat> {
    R6(0) + R6(2) + R6(1) + R6(3)
  }

  /** The scheme of the macros: k levels, the outermost adding multiples of `step`, and every
      further one of four times as much. */
  function Levels(n: nat, step: nat, k: nat): seq<nat>
    decreases k
  {
    if k == 0 then [n]
    else Levels(n, 4 * step, k - 1) + Levels(n + 2 * step, 4 * step, k - 1) +
         Levels(n + 1 * step, 4 * step, k - 1) + Levels(n + 3 * step, 4 * step, k - 1)
  }

  /** A macro that is the scheme from the next level on, put together four times. */
  lemma OneLevel(n: nat, step: nat, k: nat, macro: nat -> seq<nat>)
    requires k > 0 && forall i: nat :: macro(i) == Levels(i, 4 * step, k - 1)
    ensures macro(n) + macro(n + 2 * step) + macro(n + 1 * step) + macro(n + 3 * step) == Levels(n, step, k)
  {
  }

  lemma R2IsScheme(n: nat, k: nat)
    requires k == 1
    ensures R2(n) == Levels(n, 64, k)
  {
    OneLevel(n, 64, k, (i: nat) => [i]);
  }

  lemma R4IsScheme(n: nat, k: nat)
    requires k == 2
    ensures R4(n) == Levels(n, 16, k)
  {
    forall i: nat ensures R2(i) == Levels(i, 64, k - 1) {
      R2IsScheme(i, k - 1);
    }
    OneLevel(n, 16, k, R2);
  }

  lemma R6IsScheme(n: nat, k: nat)
    requires k == 3
    ensures R6(n) == Levels(n, 4, k)
  {
    forall i: nat ensures R4(i) == Levels(i, 16, k - 1) {
      R4IsScheme(i, k - 1);
    }
    OneLevel(n, 4, k, R4);
  }

  lemma FourLevels(k: nat)
    requires k == 4
    ensures R6(0) + R6(2) + R6(1) + R6(3) == Levels(0, 1, k)
  {
    forall i: nat ensures R6(i) == Levels(i, 4, k - 1) {
      R6IsScheme(i, k - 1);
    }
    OneLevel(0, 1, k, R6);
  }

  /** The table that the macros expand to is the scheme at four levels. */
  lemma TableIsScheme()
    ensures BitReverseTable256() == Levels(0, 1, 4)
  {
    FourLevels(4);
  }

  /** The reversal of two binary digits. */
  function Swap(d: nat): nat
    requires d < 4
  {
    if d == 1 then 2 else if d == 2 then 1 else d
  }

  lemma {:induction false} LevelsLength(n: nat, step: nat, k: nat)
    ensures |Levels(n, step, k)| == Pow2(2 * k)
    decreases k
  {
    if k > 0 {
      LevelsLength(n, 4 * step, k - 1);
      LevelsLength(n + 2 * step, 4 * step, k - 1);
      LevelsLength(n + 1 * step, 4 * step, k - 1);
      LevelsLength(n + 3 * step, 4 * step, k - 1);
      assert Pow2(2 * k) == 2 * Pow2(2 * k - 1) == 4 * Pow2(2 * (k - 1));
    }
  }

  function BlockStart(n: nat, step: nat, d: nat): nat
    requires d < 4
  {
    if d == 0 then n else if d == 1 then n + 2 * step else if d == 2 then n + 1 * step else n + 3 * step
  }

  lemma BlockStartIs(n: nat, step: nat, d: nat)
    requires d < 4
    ensures BlockStart(n, step, d) == n + Swap(d) * step
  {
  }

  /** Entry d * p + r is entry r of the block that Swap(d) steps begin, if blocks have p entries. */
  lemma Block(n: nat, step: nat, k: nat, p: nat, d: nat, r: nat)
    requires k > 0 && p == Pow2(2 * (k - 1)) && d < 4 && r < p
    ensures 0 <= d * p + r < |Levels(n, step, k)|
    ensures r < |Levels(BlockStart(n, step, d), 4 * step, k - 1)|
    ensures Levels(n, step, k)[d * p + r] == Levels(BlockStart(n, step, d), 4 * step, k - 1)[r]
  {
    var block := (i: nat) => Levels(i, 4 * step, k - 1);
    forall i: nat ensures |block(i)| == p {
      LevelsLength(i, 4 * step, k - 1);
    }
    OneLevel(n, step, k, block);
    BlockOf(n, step, p, d, r, block);
  }

  lemma BlockOf(n: nat, step: nat, p: nat, d: nat, r: nat, block: nat -> seq<nat>)
    requires d < 4 && r < p && forall i: nat :: |block(i)| == p
    ensures var all := block(n) + block(n + 2 * step) + block(n + 1 * step) + block(n + 3 * step);
            0 <= d * p + r < |all| && all[d * p + r] == block(BlockStart(n, step, d))[r]
  {
    FourBlocks(block(n), block(n + 2 * step), block(n + 1 * step), block(n + 3 * step), p, d, r);
  }

  lemma FourBlocks(a: seq<nat>, b: seq<nat>, c: seq<nat>, e: seq<nat>, p: nat, d: nat, r: nat)
    requires |a| == |b| == |c| == |e| == p && d < 4 && r < p
    ensures 0 <= d * p + r < |a + b + c + e|
    ensures (a + b + c + e)[d * p + r] == (if d == 0 then a else if d == 1 then b else if d == 2 then c else e)[r]
  {
    if d == 0 {
      assert d * p == 0;
    } else if d == 1 {
      assert d * p == p;
    } else if d == 2 {
      assert d * p == p + p;
    } else {
      assert d * p == p + p + p;
    }
  }

  lemma ReversedConcat(a: Bits, b: Bits)
    ensures Reversed(a + b) == Reversed(b) + Reversed(a)
  {
  }

  /** Two digits, as a number and reversed. */
  lemma TwoBits(s: Bits)
    requires |s| == 2
    ensures Value(s) < 4 && Value(Reversed(s)) == Swap(Value(s))
  {
    assert s[1..][1..] == [] && Reversed(s) == [s[1], s[0]] && Reversed(s)[1..] == [s[0]];
    assert [s[0]][1..] == [] && s[1..] == [s[1]];
  }

  /** Every entry of the scheme is its index with the binary digits reversed, at any even width. */
  lemma {:induction false} SchemeReverses(n: nat, step: nat, k: nat, s: Bits)
    requires |s| == 2 * k
    ensures Value(s) < |Levels(n, step, k)|
    ensures Levels(n, step, k)[Value(s)] == n + Value(Reversed(s)) * step
    decreases k
  {
    LevelsLength(n, step, k);
    ValueBelow(s);
    if k == 0 {
      assert s == [];
    } else {
      var low, high := s[..2 * (k - 1)], s[2 * (k - 1)..];
      assert s == low + high;
      var d, r := Value(high), Value(low);
      SplitInTwo(low, high);
      ValueBelow(low);
      Block(n, step, k, Pow2(2 * (k - 1)), d, r);
      SchemeReverses(BlockStart(n, step, d), 4 * step, k - 1, low);
      BlockStartIs(n, step, d);
      StepsAdd(Swap(d), Value(Reversed(low)), step);
    }
  }

  lemma SplitInTwo(low: Bits, high: Bits)
    requires |high| == 2
    ensures Value(low + high) == Value(high) * Pow2(|low|) + Value(low)
    ensures Value(high) < 4
    ensures Value(Reversed(low + high)) == Value(Reversed(low)) * 4 + Swap(Value(high))
  {
    ValueConcat(low, high);
    TwoBits(high);
    ReversedConcat(low, high);
    ValueConcat(Reversed(high), Reversed(low));
    assert Pow2(2) == 2 * Pow2(1) == 4;
  }

  lemma StepsAdd(a: nat, b: nat, step: nat)
    ensures a * step + b * (4 * step) == (b * 4 + a) * step
  {
  }

  /** Entry i of the table is i with its w binary digits reversed. */
  ghost predicate ReversesIndex(table: seq<nat>, w: nat) {
    |table| == Pow2(w) &&
    forall s: Bits :: |s| == w ==> Value(s) < |table| && table[Value(s)] == Value(Reversed(s))
  }

  lemma SchemeReversesIndex(k: nat)
    ensures ReversesIndex(Levels(0, 1, k), 2 * k)
  {
    LevelsLength(0, 1, k);
    forall s: Bits | |s| == 2 * k
      ensures Value(s) < |Levels(0, 1, k)| && Levels(0, 1, k)[Value(s)] == Value(Reversed(s))
    {
      SchemeReverses(0, 1, k, s);
    }
  }

  lemma ReversingTable(k: nat, w: nat) returns (table: seq<nat>)
    requires k == 4 && w == 2 * k
    ensures table == BitReverseTable256() && ReversesIndex(table, w)
  {
    FourLevels(k);
    SchemeReversesIndex(k);
    table := BitReverseTable256();
  }

  /** The macro table is the bit-reversal permutation of the bytes. */
  lemma TableReverses() returns (table: seq<nat>)
    ensures table == BitReverseTable256() && ReversesIndex(table, 8)
  {
    table := ReversingTable(4, 8);
  }

  /** The static table. */
  method MakeTable() returns (table: seq<nat>)
    ensures ReversesIndex(table, 8)
  {
    table := BitReverseTable256();
    ghost var same := TableReverses();
  }

  // ---------------------------------------------------------------- the word macros

  // The macros use the table by name; here it is their first argument.

  function LowByteMask(): Word {
    ToWord(0xFF)
  }

  function Entry(table: seq<nat>, w: Word): Word {
    if Value(w) < |table| then ToWord(table[Value(w)]) else Zeros(32)
  }

  function BitwiseReverse(table: seq<nat>, v: Word): Word {
    Or(Or(Or(Shl(Entry(table, And(v, LowByteMask())), 24),
             Shl(Entry(table, And(Shr(v, 8), LowByteMask())), 16)),
          Shl(Entry(table, And(Shr(v, 16), LowByteMask())), 8)),
       Entry(table, And(Shr(v, 24), LowByteMask())))
  }

  function Ones(k: nat): Bits {
    seq(k, i => true)
  }

  lemma {:induction false} ValueOnes(k: nat)
    ensures Value(Ones(k)) == Pow2(k) - 1
  {
    if k > 0 {
      ValueOnes(k - 1);
      assert Ones(k)[1..] == Ones(k - 1);
    }
  }

  lemma ValuePadded(s: Bits, k: nat)
    ensures Value(s + Zeros(k)) == Value(s)
  {
    ValueConcat(s, Zeros(k));
    ValueZeros(k);
  }

  lemma MaskBits(k: nat, mask: nat)
    requires k <= 32 && mask == Pow2(k) - 1
    ensures ToWord(mask) == Ones(k) + Zeros(32 - k)
  {
    ValueOnes(k);
    ValuePadded(Ones(k), 32 - k);
    BitsOfValue(Ones(k) + Zeros(32 - k));
  }

  lemma AndOnes(w: Word, k: nat, mask: Word)
    requires k <= 32 && mask == Ones(k) + Zeros(32 - k)
    ensures And(w, mask) == w[..k] + Zeros(32 - k)
  {
  }

  /** Masking with 2^k - 1 keeps the low k bits. */
  lemma Masked(w: Word, k: nat, mask: nat)
    requires k <= 32 && mask == Pow2(k) - 1
    ensures And(w, ToWord(mask)) == w[..k] + Zeros(32 - k)
  {
    MaskBits(k, mask);
    AndOnes(w, k, ToWord(mask));
  }

  lemma MaskedByte(w: Word)
    ensures And(w, LowByteMask()) == w[..8] + Zeros(24)
  {
    Pow2Of32();
    Masked(w, 8, 0xFF);
  }

  lemma ShiftedByte(v: Word, k: nat)
    requires k <= 24
    ensures And(Shr(v, k), LowByteMask()) == v[k..k + 8] + Zeros(24)
  {
    MaskedByte(Shr(v, k));
    assert Shr(v, k)[..8] == v[k..k + 8];
  }

  lemma EntryReverses(table: seq<nat>, byte: Bits)
    requires ReversesIndex(table, 8) && |byte| == 8
    ensures Entry(table, byte + Zeros(24)) == Reversed(byte) + Zeros(24)
  {
    ValuePadded(byte, 24);
    assert table[Value(byte)] == Value(Reversed(byte));
    ValuePadded(Reversed(byte), 24);
    BitsOfValue(Reversed(byte) + Zeros(24));
  }

  lemma ByteOfWord(table: seq<nat>, v: Word, k: nat)
    requires ReversesIndex(table, 8) && k <= 24
    ensures Entry(table, And(Shr(v, k), LowByteMask())) == Reversed(v[k..k + 8]) + Zeros(24)
  {
    ShiftedByte(v, k);
    EntryReverses(table, v[k..k + 8]);
  }

  /** Four table look-ups reverse a word: bit i of the result is bit 31 - i of the argument. */
  lemma WordReversed(table: seq<nat>, v: Word)
    requires ReversesIndex(table, 8)
    ensures BitwiseReverse(table, v) == Reversed(v)
  {
    assert Shr(v, 0) == v;
    ByteOfWord(table, v, 0);
    ByteOfWord(table, v, 8);
    ByteOfWord(table, v, 16);
    ByteOfWord(table, v, 24);
    Assembled(v);
  }

  lemma Assembled(v: Word)
    ensures Or(Or(Or(Shl(Reversed(v[0..8]) + Zeros(24), 24),
                     Shl(Reversed(v[8..16]) + Zeros(24), 16)),
                  Shl(Reversed(v[16..24]) + Zeros(24), 8)),
               Reversed(v[24..32]) + Zeros(24)) == Reversed(v)
  {
    var b0, b1, b2, b3 := Reversed(v[0..8]), Reversed(v[8..16]), Reversed(v[16..24]), Reversed(v[24..32]);
    var s0, s1, s2: Word := Shl(b0 + Zeros(24), 24), Shl(b1 + Zeros(24), 16), Shl(b2 + Zeros(24), 8);
    assert s0 == Zeros(24) + b0;
    assert s1 == Zeros(16) + b1 + Zeros(8);
    assert s2 == Zeros(8) + b2 + Zeros(16);
    assert Or(s0, s1) == Zeros(16) + b1 + b0;
    assert Or(Or(s0, s1), s2) == Zeros(8) + b2 + b1 + b0;
    assert Or(Or(Or(s0, s1), s2), b3 + Zeros(24)) == b3 + b2 + b1 + b0;
    assert b3 + b2 + b1 + b0 == Reversed(v);
  }

  /** Reversing twice gives the word back. */
  lemma ReverseInvolution(table: seq<nat>, v: Word)
    requires ReversesIndex(table, 8)
    ensures BitwiseReverse(table, BitwiseReverse(table, v)) == v
  {
    WordReversed(table, v);
    ReversedBack(table, v, BitwiseReverse(table, v));
  }

  lemma ReversedBack(table: seq<nat>, v: Word, r: Word)
    requires ReversesIndex(table, 8) && r == Reversed(v)
    ensures BitwiseReverse(table, r) == v
  {
    WordReversed(table, r);
  }
}
