/** The instructions of the emulator that shift, test and jump, and the flags between them. */
module Emulator {
  import opened Words
  import opened BitReverse
  import opened Shifts

  // Positions of the flags in the flags register.
  const CF := 0
  const PF := 2
  const ZF := 6
  const SF := 7
  const OF := 11

  datatype Jump =
    | JA | JAE | JB | JBE | JC | JE | JG | JGE | JL | JLE | JNA | JNAE | JNB | JNBE | JNC
    | JNE | JNG | JNGE | JNL | JNLE | JNO | JNP | JNS | JNZ | JO | JP | JPE | JPO | JS | JZ

  /** Whether an instruction jumps, by the flags. */
  predicate Jumps(jump: Jump, e: Word) {
    match jump
    case JNB | JNC | JAE => !e[CF]
    case JNO => !e[OF]
    case JPO | JNP => !e[PF]
    case JNS => !e[SF]
    case JNE | JNZ => !e[ZF]
    case JC | JNAE | JB => e[CF]
    case JO => e[OF]
    case JPE | JP => e[PF]
    case JS => e[SF]
    case JE | JZ => e[ZF]
    case JNBE | JA => !e[CF] && !e[ZF]
    case JBE | JNA => e[CF] || e[ZF]
    case JNLE | JG => !e[ZF] && e[SF] == e[OF]
    case JNG | JLE => e[ZF] || e[SF] != e[OF]
    case JNL | JGE => e[SF] == e[OF]
    case JNGE | JL => e[SF] != e[OF]
  }

  /** Exclusive or of all the bits. */
  predicate XorAll(s: Bits) {
    s != [] && s[0] != XorAll(s[1..])
  }

  predicate BitwiseXNOR32(w: Word) {
    !XorAll(w)
  }

  function SetBits(s: Bits): nat {
    if s == [] then 0 else Digit(s[0]) + SetBits(s[1..])
  }

  lemma {:induction false} XorIsParity(s: Bits)
    ensures XorAll(s) <==> SetBits(s) % 2 == 1
  {
    if s != [] {
      XorIsParity(s[1..]);
    }
  }

  class Machine {
    const table: seq<nat>
    var eflags: Word
    var buffer: Word
    var tmpLsb: Word
    var tmpMsb: Word

    ghost predicate Valid()
      reads this
    {
      ReversesIndex(table, 8)
    }

    constructor (eflags: Word)
      ensures Valid() && this.eflags == eflags
    {
      var made := MakeTable();
      table := made;
      this.eflags := eflags;
      buffer, tmpLsb, tmpMsb := Zeros(32), Zeros(32), Zeros(32);
    }

    /** Shifts one bit at a time. */
    method Shift(ins: Instruction, dst: Word, cnt: Word) returns (r: Word)
      requires Valid()
      modifies this`eflags, this`tmpLsb, this`tmpMsb
      ensures var c := Value(cnt) % 32;
              && r == Shifted(ins, dst, c)
              && eflags == FlagsAfterShift(old(eflags), ins, dst, c)
    {
      var count := MaskCount(cnt);
      r := ShiftBits(ins, dst, count);
      if count == 1 {
        DetermineOverflow(ins, dst, r);
      }
    }

    /** The loop of `Shift`. */
    method ShiftBits(ins: Instruction, dst: Word, count: nat) returns (r: Word)
      requires Valid() && count < 32
      modifies this`eflags, this`tmpLsb, this`tmpMsb
      ensures r == Shifted(ins, dst, count) && eflags == FlagsDuringShift(old(eflags), ins, dst, count)
    {
      var left := count;
      ghost var e0 := eflags;
      r := dst;
      NoStep(e0, ins, dst);
      while left != 0
        invariant 0 <= left <= count
        invariant r == Shifted(ins, dst, count - left)
        invariant eflags == FlagsDuringShift(e0, ins, dst, count - left)
        decreases left
      {
        StepsFollow(e0, ins, dst, count - left);
        r := ShiftOneBit(ins, r);
        left := left - 1;
      }
    }

    /** Only the low five bits of a count are used. */
    method MaskCount(cnt: Word) returns (count: nat)
      ensures count == Value(cnt) % 32
    {
      MaskedCount(cnt);
      count := Value(And(cnt, ToWord(0x1F)));
    }

    /** One round of the loop. */
    method ShiftOneBit(ins: Instruction, dst: Word) returns (r: Word)
      requires Valid()
      modifies this`eflags, this`tmpLsb, this`tmpMsb
      ensures r == Shifted(ins, dst, 1) && eflags == old(eflags)[CF := Carry(ins, dst, 1)]
    {
      OneStep(ins, dst);
      r := dst;
      if ins == SAL || ins == SHL {
        var msb := MsbMacro(r);
        eflags := eflags[CF := msb[0]];
        r := Shl(r, 1);
      } else {
        var lsb := LsbMacro(r);
        eflags := eflags[CF := lsb[0]];
        if ins == SAR {
          var signum := And(r, SignMask());
          r := Shr(r, 1);
          r := Or(r, signum);
        } else {
          r := Shr(r, 1);
        }
      }
    }

    /** The overflow flag of a one-bit shift of `before` to `dst`. */
    method DetermineOverflow(ins: Instruction, ghost before: Word, dst: Word)
      requires Valid() && dst == Shifted(ins, before, 1) && eflags[CF] == Carry(ins, before, 1)
      modifies this`eflags, this`tmpLsb, this`tmpMsb
      ensures eflags == old(eflags)[OF := IsLeft(ins) && before[30] != before[31]]
    {
      OneStep(ins, before);
      if ins == SAL || ins == SHL {
        var msb := MsbMacro(dst);
        eflags := eflags[OF := msb[0] != eflags[CF]];
      } else if ins == SAR {
        eflags := eflags[OF := false];
      } else {
        var msb := MsbMacro(dst);
        eflags := eflags[OF := msb[0]];
      }
    }

    /** The macro LSB: the word 1 or 0 for bit 0. */
    method LsbMacro(data: Word) returns (r: Word)
      modifies this`tmpLsb
      ensures r == [data[0]] + Zeros(31)
    {
      tmpLsb := data;
      tmpLsb := Shr(tmpLsb, 1);
      tmpLsb := Shl(tmpLsb, 1);
      tmpLsb := Xor(tmpLsb, data);
      r := tmpLsb;
    }

    /** The macro MSB: the word 1 or 0 for bit 31, found by reversing the word. */
    method MsbMacro(data: Word) returns (r: Word)
      requires Valid()
      modifies this`tmpLsb, this`tmpMsb
      ensures r == [data[31]] + Zeros(31)
    {
      WordReversed(table, data);
      tmpMsb := data;
      tmpMsb := BitwiseReverse(table, tmpMsb);
      tmpMsb := LsbMacro(tmpMsb);
      r := tmpMsb;
    }

    /** The TEST instruction: the conjunction goes to the buffer and is told by the flags. */
    method Test(dst: Word, src: Word)
      requires Valid()
      modifies this`eflags, this`buffer, this`tmpLsb, this`tmpMsb
      ensures buffer == And(dst, src)
      ensures eflags == FlagsAfterTest(old(eflags), And(dst, src))
    {
      buffer := And(dst, src);
      eflags := eflags[CF := false];
      eflags := eflags[OF := false];
      var msb := MsbMacro(buffer);
      eflags := eflags[SF := msb[0]];
      eflags := eflags[ZF := buffer == Zeros(32)];
      TestFlags(buffer);
      eflags := eflags[PF := BitwiseXNOR32(buffer)];
      eflags := eflags[ZF := buffer == Zeros(32)];
      assert eflags == FlagsAfterTest(old(eflags), buffer);
    }
  }

  lemma MaskedCount(cnt: Word)
    ensures Value(And(cnt, ToWord(0x1F))) == Value(cnt) % 32
  {
    assert Pow2(5) == 32;
    Masked(cnt, 5, 0x1F);
    ValuePadded(cnt[..5], 27);
    ValueSplit(cnt, 5);
  }

  /** The word 0x80000000. */
  function SignMask(): Word {
    Zeros(31) + [true]
  }

  /** What one round of the shift loop does. */
  lemma OneStep(ins: Instruction, w: Word)
    ensures IsLeft(ins) ==> Shifted(ins, w, 1) == Shl(w, 1) && Carry(ins, w, 1) == w[31] && Shl(w, 1)[31] == w[30]
    ensures ins.SHR? ==> Shifted(ins, w, 1) == Shr(w, 1) && !Shr(w, 1)[31]
    ensures ins.SAR? ==> Shifted(ins, w, 1) == Or(Shr(w, 1), And(w, SignMask()))
    ensures !IsLeft(ins) ==> Carry(ins, w, 1) == w[0]
  {
  }

  function FlagsDuringShift(e: Word, ins: Instruction, w: Word, c: nat): Word
    requires c < 32
  {
    if c == 0 then e else e[CF := Carry(ins, w, c)]
  }

  lemma NoStep(e: Word, ins: Instruction, w: Word)
    ensures Shifted(ins, w, 0) == w && FlagsDuringShift(e, ins, w, 0) == e
  {
  }

  lemma StepsFollow(e: Word, ins: Instruction, w: Word, c: nat)
    requires c + 1 < 32
    ensures Shifted(ins, Shifted(ins, w, c), 1) == Shifted(ins, w, c + 1)
    ensures FlagsDuringShift(e, ins, w, c)[CF := Carry(ins, Shifted(ins, w, c), 1)] ==
            FlagsDuringShift(e, ins, w, c + 1)
  {
    ShiftsCompose(ins, w, c, 1);
  }

  /** The flags of a word, by its bits and by its numbers. */
  lemma TestFlags(w: Word)
    ensures w[31] <==> Signed(w) < 0
    ensures w == Zeros(32) <==> Value(w) == 0
    ensures BitwiseXNOR32(w) <==> SetBits(w) % 2 == 0
  {
    SignBit(w);
    XorIsParity(w);
    ValueZeros(32);
    if Value(w) == 0 {
      ValueInjective(w, Zeros(32));
    }
  }

  /** With a count of zero no flag changes.  Otherwise CF is the last bit shifted out, and for a
      count of one OF is: after a left shift, whether the sign changed; after a right one, off. */
  function FlagsAfterShift(e: Word, ins: Instruction, w: Word, c: nat): Word
    requires c < 32
  {
    if c == 0 then e
    else
      var e1 := FlagsDuringShift(e, ins, w, c);
      if c == 1 then e1[OF := IsLeft(ins) && w[30] != w[31]] else e1
  }

  function FlagsAfterTest(e: Word, result: Word): Word {
    e[CF := false][OF := false][SF := Signed(result) < 0][ZF := Value(result) == 0][PF := SetBits(result) % 2 == 0]
  }

  // ---------------------------------------------------------------- what the jumps mean in general

  /** The flags tell of a difference d = a - b what the manual has a comparison tell. */
  ghost predicate Compared(e: Word, a: Word, b: Word, d: Word) {
    && Value(d) == (Value(a) - Value(b)) % RANGE
    && (e[CF] <==> Value(a) < Value(b))
    && (e[ZF] <==> Value(d) == 0)
    && (e[SF] <==> Signed(d) < 0)
    && (e[OF] <==> !FitsSigned(Signed(a) - Signed(b)))
    && (e[PF] <==> SetBits(d) % 2 == 0)
  }

  predicate Compares(jump: Jump, a: Word, b: Word, d: Word) {
    match jump
    case JE | JZ => a == b
    case JNE | JNZ => a != b
    case JA | JNBE => Value(a) > Value(b)
    case JAE | JNB | JNC => Value(a) >= Value(b)
    case JB | JNAE | JC => Value(a) < Value(b)
    case JBE | JNA => Value(a) <= Value(b)
    case JG | JNLE => Signed(a) > Signed(b)
    case JGE | JNL => Signed(a) >= Signed(b)
    case JL | JNGE => Signed(a) < Signed(b)
    case JLE | JNG => Signed(a) <= Signed(b)
    case JO => !FitsSigned(Signed(a) - Signed(b))
    case JNO => FitsSigned(Signed(a) - Signed(b))
    case JS => Signed(d) < 0
    case JNS => Signed(d) >= 0
    case JP | JPE => SetBits(d) % 2 == 0
    case JNP | JPO => SetBits(d) % 2 == 1
  }

  function Centred(n: int): int {
    if n >= RANGE / 2 then n - RANGE else n
  }

  lemma SignedIsCentred(w: Word)
    ensures Signed(w) == Centred(Value(w)) && Value(w) < RANGE
  {
    SignBit(w);
    SignedSplit(w);
    ValueBelow(w[..31]);
    Pow2Of32();
  }

  /** Sign and overflow of a difference together tell the signed order. */
  lemma SignAndOverflow(x: int, y: int, z: int)
    requires 0 <= x < RANGE && 0 <= y < RANGE && z == (x - y) % RANGE
    ensures z == 0 <==> x == y
    ensures Centred(x) < Centred(y) <==> (Centred(z) < 0) != !FitsSigned(Centred(x) - Centred(y))
  {
    assert z == if x < y then x - y + RANGE else x - y;
  }

  /** When the flags are those of a comparison, every jump decides the order that its name says. */
  lemma JumpCompares(e: Word, a: Word, b: Word, d: Word, jump: Jump)
    requires Compared(e, a, b, d)
    ensures Jumps(jump, e) <==> Compares(jump, a, b, d)
  {
    SignedIsCentred(a);
    SignedIsCentred(b);
    SignedIsCentred(d);
    SignAndOverflow(Value(a), Value(b), Value(d));
    if Value(a) == Value(b) {
      ValueInjective(a, b);
    }
  }

  // ---------------------------------------------------------------- the flags by their places in the stored number

  lemma BitsOfNumber(w: Word)
    ensures forall k :: 0 <= k < 32 ==> (BitAt(Value(w), k) <==> w[k])
  {
    forall k | 0 <= k < 32 ensures BitAt(Value(w), k) <==> w[k] {
      BitOfValue(w, k);
    }
  }

  /** After a shift: with a count of zero the flags are as before.  Otherwise bit 0 is the last bit
      shifted out; bit 11 is set by a one-bit left shift when doubling the signed number overflows,
      reset by every other one-bit shift, and else as before; and so are all other bits. */
  lemma FlagsOfShift(e: Word, ins: Instruction, w: Word, c: nat)
    requires c < 32
    ensures var f := FlagsAfterShift(e, ins, w, c);
            && (c == 0 ==> f == e)
            && (c >= 1 ==> (f[0] <==> BitAt(Value(w), if ins == SAL || ins == SHL then 32 - c else c - 1)))
            && (f[11] <==> if c == 1 then (ins == SAL || ins == SHL) && !FitsSigned(2 * Signed(w)) else e[11])
            && (forall k :: 0 <= k < 32 && k != 0 && k != 11 ==> f[k] == e[k])
  {
    FlagPlaces(e, ins, w, c);
    if c >= 1 {
      CarryIsBit(ins, w, c);
    }
    OverflowIsSignChange(w);
  }

  lemma FlagPlaces(e: Word, ins: Instruction, w: Word, c: nat)
    requires c < 32
    ensures var f := FlagsAfterShift(e, ins, w, c);
            && (c == 0 ==> f == e)
            && (c >= 1 ==> (f[0] <==> Carry(ins, w, c)))
            && (f[11] <==> if c == 1 then IsLeft(ins) && w[30] != w[31] else e[11])
            && (forall k :: 0 <= k < 32 && k != 0 && k != 11 ==> f[k] == e[k])
  {
  }

  lemma OverflowIsSignChange(w: Word)
    ensures w[30] != w[31] <==> !FitsSigned(2 * Signed(w))
  {
    DoublingOverflow(w);
  }

  /** After TEST: bit 2 is even parity, bit 6 zero, bit 7 the sign; bits 0 and 11 are reset, and all
      others as before. */
  lemma FlagsOfTest(e: Word, result: Word)
    ensures var f := FlagsAfterTest(e, result);
            && !f[0] && !f[11]
            && (f[2] <==> SetBits(result) % 2 == 0)
            && (f[6] <==> Value(result) == 0)
            && (f[7] <==> Signed(result) < 0)
            && (forall k :: 0 <= k < 32 && k !in {0, 2, 6, 7, 11} ==> f[k] == e[k])
  {
  }

  /** The condition of a jump on the carry (bit 0), parity (2), zero (6), sign (7) and overflow (11). */
  predicate Condition(jump: Jump, c: bool, p: bool, z: bool, s: bool, o: bool) {
    match jump
    case JA | JNBE => !(c || z)
    case JAE | JNB | JNC => !c
    case JB | JC | JNAE => c
    case JBE | JNA => c || z
    case JE | JZ => z
    case JNE | JNZ => !z
    case JG | JNLE => !z && !(s != o)
    case JGE | JNL => !(s != o)
    case JL | JNGE => s != o
    case JLE | JNG => z || s != o
    case JO => o
    case JNO => !o
    case JS => s
    case JNS => !s
    case JP | JPE => p
    case JNP | JPO => !p
  }

  lemma JumpsByBits(jump: Jump, e: Word)
    ensures Jumps(jump, e) <==> Condition(jump, e[0], e[2], e[6], e[7], e[11])
  {
  }

  /** The same for the stored number. */
  lemma JumpsOnNumber(jump: Jump, e: Word)
    ensures var n := Value(e);
            Jumps(jump, e) <==> Condition(jump, BitAt(n, 0), BitAt(n, 2), BitAt(n, 6), BitAt(n, 7), BitAt(n, 11))
  {
    BitsOfNumber(e);
    JumpsByBits(jump, e);
  }

  function Places(s: Bits, from: nat): set<nat> {
    set i: nat | from <= i < |s| && s[i]
  }

  lemma {:induction false} SetBitsFrom(s: Bits, from: nat)
    requires from <= |s|
    ensures SetBits(s[from..]) == |Places(s, from)|
    decreases |s| - from
  {
    if from < |s| {
      SetBitsFrom(s, from + 1);
      assert s[from..][1..] == s[from + 1..];
      if s[from] {
        assert Places(s, from) == Places(s, from + 1) + {from};
      } else {
        assert Places(s, from) == Places(s, from + 1);
      }
    }
  }

  /** The number of set bits is how many places hold one. */
  lemma SetBitsCount(s: Bits)
    ensures SetBits(s) == |set i: nat | 0 <= i < |s| && s[i]|
  {
    SetBitsFrom(s, 0);
    assert s[0..] == s && Places(s, 0) == set i: nat | 0 <= i < |s| && s[i];
  }
}
