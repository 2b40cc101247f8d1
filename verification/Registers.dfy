/** The five registers of the emulator, kept between runs in the words of a guarded segment, and
    what a conditional jump in one run says of a TEST in an earlier one. */
module Registers {
  import opened CStrings
  import opened IpcKernel
  import opened SharedSegments
  import opened Semaphores
  import opened Words
  import opened Emulator

  const SHMEM_KEY := 32
  const GUARD_KEY := 160
  const SEGMENT_SIZE := 20

  const OFFSET_EFLAGS := 0
  const OFFSET_EAX := 1
  const OFFSET_EBX := 2
  const OFFSET_ECX := 3
  const OFFSET_EDX := 4

  /** The segment of the registers and its guard exist, and the guard is free; or neither exists. */
  ghost predicate Ready(k: Kernel)
    reads k
  {
    if SHMEM_KEY in k.segs
    then |k.segs[SHMEM_KEY]| == SEGMENT_SIZE && GUARD_KEY in k.sems && k.sems[GUARD_KEY].values == [1]
    else GUARD_KEY !in k.sems
  }

  /** The segment with key 32 has these numbers for its words, and its guard, set 160, is free. */
  ghost predicate Layout(k: Kernel, words: seq<Word>)
    reads k
  {
    && 32 in k.segs && |k.segs[32]| == 20 && |words| == 5
    && 160 in k.sems && k.sems[160].values == [1]
    && forall i :: 0 <= i < 5 ==> WordAt(k.segs[32], i) == Value(words[i])
  }

  /** Register i as it is stored; a new segment is zero. */
  ghost function Stored(k: Kernel, i: nat): Word
    requires Ready(k) && i < 5
    reads k
  {
    if SHMEM_KEY in k.segs then ToWord(WordAt(k.segs[SHMEM_KEY], i)) else Zeros(32)
  }

  /** The reserved bits that are set on loading the flags. */
  function Reserved(e: Word): Word {
    e[1 := true][3 := false][5 := false][15 := false]
  }

  class RegisterFile {
    var shmem: SharedMemory
    var eflags: Word
    var eax: Word
    var ebx: Word
    var ecx: Word
    var edx: Word

    ghost predicate Valid(k: Kernel)
      reads this, k, shmem, shmem.shsem
    {
      shmem.id == SHMEM_KEY && shmem.shsem != null && shmem.shsem.id == GUARD_KEY && shmem.shsem.size == 1 &&
      Ready(k) && SHMEM_KEY in k.segs
    }

    constructor (shmem: SharedMemory)
      ensures this.shmem == shmem
    {
      this.shmem := shmem;
      eflags, eax, ebx, ecx, edx := Zeros(32), Zeros(32), Zeros(32), Zeros(32), Zeros(32);
    }

    /** Loads the registers, making the segment if there is none. */
    static method Init(k: Kernel) returns (r: RegisterFile)
      requires Ready(k)
      modifies k`sems, k`segs, k`now
      ensures fresh(r) && fresh(r.shmem) && r.Valid(k)
      ensures r.eflags == Reserved(old(Stored(k, OFFSET_EFLAGS)))
      ensures r.eax == old(Stored(k, OFFSET_EAX)) && r.ebx == old(Stored(k, OFFSET_EBX))
      ensures r.ecx == old(Stored(k, OFFSET_ECX)) && r.edx == old(Stored(k, OFFSET_EDX))
    {
      ghost var blank := SHMEM_KEY !in k.segs;
      var shmem := SharedMemory.New(k, SHMEM_KEY, 5 * 4, true);
      assert shmem != null;
      r := new RegisterFile(shmem);
      assert r.Valid(k);
      if blank {
        NewSegmentIsZero(k.segs[SHMEM_KEY]);
      }
      r.Load(k);
    }

    method Load(k: Kernel)
      requires Valid(k)
      modifies this`eflags, this`eax, this`ebx, this`ecx, this`edx, k`sems, k`now
      ensures Valid(k) && k.sems == old(k.sems) && k.now == old(k.now)
      ensures eflags == Reserved(Stored(k, OFFSET_EFLAGS))
      ensures eax == Stored(k, OFFSET_EAX) && ebx == Stored(k, OFFSET_EBX)
      ensures ecx == Stored(k, OFFSET_ECX) && edx == Stored(k, OFFSET_EDX)
    {
      var n := shmem.ReadUInt(k, OFFSET_EFLAGS);
      eflags := ToWord(n);
      eflags := eflags[1 := true];
      eflags := eflags[3 := false];
      eflags := eflags[5 := false];
      eflags := eflags[15 := false];
      n := shmem.ReadUInt(k, OFFSET_EAX);
      eax := ToWord(n);
      n := shmem.ReadUInt(k, OFFSET_EBX);
      ebx := ToWord(n);
      n := shmem.ReadUInt(k, OFFSET_ECX);
      ecx := ToWord(n);
      n := shmem.ReadUInt(k, OFFSET_EDX);
      edx := ToWord(n);
    }

    /** Stores the registers; the segment stays. */
    method Delete(k: Kernel)
      requires Valid(k)
      modifies k`sems, k`segs, k`now
      ensures Ready(k) && SHMEM_KEY in k.segs && k.sems == old(k.sems)
      ensures Stored(k, OFFSET_EFLAGS) == eflags
      ensures Stored(k, OFFSET_EAX) == eax && Stored(k, OFFSET_EBX) == ebx
      ensures Stored(k, OFFSET_ECX) == ecx && Stored(k, OFFSET_EDX) == edx
      ensures Layout(k, [eflags, eax, ebx, ecx, edx])
    {
      Save(k, OFFSET_EFLAGS, eflags);
      Save(k, OFFSET_EAX, eax);
      Save(k, OFFSET_EBX, ebx);
      Save(k, OFFSET_ECX, ecx);
      Save(k, OFFSET_EDX, edx);
      shmem.Delete(k, false);
      LayoutOf(k, [eflags, eax, ebx, ecx, edx]);
    }

    method Save(k: Kernel, offset: nat, w: Word)
      requires Valid(k) && offset < 5
      modifies k`sems, k`segs, k`now
      ensures Valid(k) && k.sems == old(k.sems)
      ensures forall i :: 0 <= i < 5 ==> Stored(k, i) == if i == offset then w else old(Stored(k, i))
    {
      WordFits(w);
      ghost var before := k.segs[SHMEM_KEY];
      shmem.WriteUInt(k, offset, Value(w));
      forall i | 0 <= i < 5 ensures Stored(k, i) == if i == offset then w else ToWord(WordAt(before, i)) {
        WordAfterSetWord(before, offset, ToUInt(Value(w)), i);
      }
    }
  }

  lemma LayoutOf(k: Kernel, words: seq<Word>)
    requires Ready(k) && SHMEM_KEY in k.segs && |words| == 5
    requires Stored(k, 0) == words[0] && Stored(k, 1) == words[1] && Stored(k, 2) == words[2]
    requires Stored(k, 3) == words[3] && Stored(k, 4) == words[4]
    ensures Layout(k, words)
  {
    forall i | 0 <= i < 5 ensures WordAt(k.segs[32], i) == Value(words[i]) {
      assert Stored(k, i) == words[i];
      ToWordValue(WordAt(k.segs[32], i));
    }
  }

  /** The reserved bits: bit 1 is set, bits 3, 5 and 15 are reset, and the others kept; so no flag
      changes. */
  lemma ReservedBits(e: Word)
    ensures var r := Reserved(e);
            && r[1] && !r[3] && !r[5] && !r[15]
            && (forall i :: 0 <= i < 32 && i !in {1, 3, 5, 15} ==> r[i] == e[i])
            && Reserved(r) == r
  {
  }

  lemma WordFits(w: Word)
    ensures Value(w) < UINT_RANGE && ToUInt(Value(w)) == Value(w) && ToWord(Value(w)) == w
  {
    ValueInRange(w);
    BitsOfValue(w);
  }

  lemma NewSegmentIsZero(seg: seq<Byte>)
    requires seg == seq(SEGMENT_SIZE, i => 0)
    ensures forall i :: 0 <= i < 5 ==> ToWord(WordAt(seg, i)) == Zeros(32)
  {
    forall i | 0 <= i < 5 ensures ToWord(WordAt(seg, i)) == Zeros(32) {
      ZeroBytes(seg[4 * i..4 * i + 4]);
      ZeroBits(32);
    }
  }

  lemma {:induction false} ZeroBytes(b: seq<Byte>)
    requires forall i :: 0 <= i < |b| ==> b[i] == 0
    ensures FromBytes(b) == 0
  {
    if b != [] {
      ZeroBytes(b[1..]);
    }
  }

  lemma {:induction false} ZeroBits(w: nat)
    ensures BitsOf(0, w) == Zeros(w)
  {
    if w > 0 {
      ZeroBits(w - 1);
      assert Zeros(w) == [false] + Zeros(w - 1);
    }
  }

  // ---------------------------------------------------------------- TEST in one run, a jump in the next

  /** What a jump after a TEST asks of the conjunction. */
  predicate Decides(jump: Jump, w: Word) {
    match jump
    case JE | JZ => Signed(w) == 0
    case JNE | JNZ => Signed(w) != 0
    case JG | JNLE => Signed(w) > 0
    case JGE | JNL => Signed(w) >= 0
    case JL | JNGE => Signed(w) < 0
    case JLE | JNG => Signed(w) <= 0
    case JS => Signed(w) < 0
    case JNS => Signed(w) >= 0
    case JA | JNBE => Value(w) > 0
    case JBE | JNA => Value(w) == 0
    case JP | JPE => SetBits(w) % 2 == 0
    case JNP | JPO => SetBits(w) % 2 == 1
    case JB | JC | JNAE | JO => false
    case JAE | JNB | JNC | JNO => true
  }

  /** The flags that TEST sets survive being stored and loaded, and every jump then decides on
      the conjunction as a number. */
  lemma JumpDecides(e: Word, a: Word, b: Word, jump: Jump)
    ensures Jumps(jump, Reserved(FlagsAfterTest(e, And(a, b)))) <==> Decides(jump, And(a, b))
  {
    FlagsLoaded(e, And(a, b));
    JumpOnFlags(Reserved(FlagsAfterTest(e, And(a, b))), And(a, b), jump);
  }

  ghost predicate Tells(flags: Word, w: Word) {
    !flags[CF] && !flags[OF] &&
    (flags[SF] <==> Signed(w) < 0) &&
    (flags[ZF] <==> Value(w) == 0) &&
    (flags[PF] <==> SetBits(w) % 2 == 0)
  }

  lemma FlagsLoaded(e: Word, w: Word)
    ensures Tells(Reserved(FlagsAfterTest(e, w)), w)
  {
  }

  lemma JumpOnFlags(flags: Word, w: Word, jump: Jump)
    requires Tells(flags, w)
    ensures Jumps(jump, flags) <==> Decides(jump, w)
  {
    SignedZero(w);
  }

  lemma SignedZero(w: Word)
    ensures Signed(w) == 0 <==> Value(w) == 0
  {
    SignedSplit(w);
    SignBit(w);
  }

  /** A run of the emulator that sets eax and ebx and tests them.  The general registers come back as
      they were left. */
  method TestRun(k: Kernel, a: Word, b: Word) returns (ghost e: Word)
    requires Ready(k)
    modifies k`sems, k`segs, k`now
    ensures Ready(k) && Stored(k, OFFSET_EAX) == a && Stored(k, OFFSET_EBX) == b
    ensures Stored(k, OFFSET_EFLAGS) == FlagsAfterTest(e, And(a, b))
  {
    var registers := RegisterFile.Init(k);
    e := registers.eflags;
    registers.eax, registers.ebx := a, b;
    var machine := new Machine(registers.eflags);
    machine.Test(registers.eax, registers.ebx);
    registers.eflags := machine.eflags;
    registers.Delete(k);
  }

  /** A run that jumps or does not. */
  method JumpRun(k: Kernel, jump: Jump) returns (jumps: bool)
    requires Ready(k)
    modifies k`sems, k`segs, k`now
    ensures Ready(k) && Stored(k, OFFSET_EAX) == old(Stored(k, OFFSET_EAX))
    ensures Stored(k, OFFSET_EBX) == old(Stored(k, OFFSET_EBX))
    ensures jumps <==> Jumps(jump, Reserved(old(Stored(k, OFFSET_EFLAGS))))
  {
    var registers := RegisterFile.Init(k);
    jumps := Jumps(jump, registers.eflags);
    registers.Delete(k);
  }

  /** One after the other: the jump decides on the conjunction as a number. */
  method TestThenJump(k: Kernel, a: Word, b: Word, jump: Jump) returns (jumps: bool)
    requires Ready(k)
    modifies k`sems, k`segs, k`now
    ensures Ready(k) && Stored(k, OFFSET_EAX) == a && Stored(k, OFFSET_EBX) == b
    ensures jumps <==> Decides(jump, And(a, b))
  {
    ghost var e := TestRun(k, a, b);
    jumps := JumpRun(k, jump);
    JumpDecides(e, a, b, jump);
  }
}
