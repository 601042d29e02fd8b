/**
 The embedded-runtime command packet (core/include/ert.h).  A packet is a run of 32-bit words in
 memory: a header of bit fields, then count words of payload.  Positions below are word indices
 from the header; memory is a function so that accessors may look where C pointers may.
 */
module ErtPacket {
  import opened Common
  import opened Bits

  type Memory = nat -> nat

  ghost predicate IsMemory(m: Memory) { forall k: nat :: m(k) < U32 }

  // ----- Header bit fields -----

  function StatEnabled(h: nat): nat { h / 0x10 % 2 }
  function ExtraCuMasks(h: nat): nat { h / 0x400 % 4 }
  function Count(h: nat): nat { h / 0x1000 % 0x800 }
  function Opcode(h: nat): nat { h / 0x80_0000 % 0x20 }

  /** The fields of a start command's header, by their widths from bit 0 up. */
  datatype StartHeader = StartHeader(
    state: nat, statEnabled: nat, unused: nat, extraCuMasks: nat, count: nat, opcode: nat, typ: nat)

  predicate WidthsHold(f: StartHeader) {
    && f.state < 0x10 && f.statEnabled < 2 && f.unused < 0x20 && f.extraCuMasks < 4
    && f.count < 0x800 && f.opcode < 0x20 && f.typ < 0x10
  }

  /** The header word: each field above the ones before it. */
  function StartWord(f: StartHeader): nat {
    f.state + 0x10 * (f.statEnabled + 2 * (f.unused + 0x20 * (f.extraCuMasks
    + 4 * (f.count + 0x800 * (f.opcode + 0x20 * f.typ)))))
  }

  lemma PeelState(r: nat, x: nat)
    requires r < 0x10
    ensures (r + 0x10 * x) / 0x10 == x
  {
  }

  lemma PeelUnused(e: nat, u: nat, x: nat)
    requires e < 2 && u < 0x20
    ensures var y := e + 2 * (u + 0x20 * x); y % 2 == e && y / 0x40 == x
  {
    var z := u + 0x20 * x;
    assert (e + 2 * z) / 2 == z && (e + 2 * z) % 2 == e;
    assert z / 0x20 == x by { PeelFive(u, x); }
  }

  lemma PeelFive(u: nat, x: nat)
    requires u < 0x20
    ensures (u + 0x20 * x) / 0x20 == x
  {
  }

  lemma PeelMasks(r: nat, x: nat)
    requires r < 4
    ensures (r + 4 * x) % 4 == r && (r + 4 * x) / 4 == x
  {
  }

  lemma DivChain(h: nat)
    ensures h / 0x400 == h / 0x10 / 0x40 && h / 0x1000 == h / 0x400 / 4 && h / 0x80_0000 == h / 0x1000 / 0x800
  {
  }

  lemma LowHalf(f: StartHeader)
    requires WidthsHold(f)
    ensures var rest := f.count + 0x800 * (f.opcode + 0x20 * f.typ);
      StatEnabled(StartWord(f)) == f.statEnabled && ExtraCuMasks(StartWord(f)) == f.extraCuMasks
      && StartWord(f) / 0x1000 == rest && StartWord(f) / 0x80_0000 == rest / 0x800
  {
    var rest := f.count + 0x800 * (f.opcode + 0x20 * f.typ);
    var high := f.extraCuMasks + 4 * rest;
    PeelState(f.state, f.statEnabled + 2 * (f.unused + 0x20 * high));
    PeelUnused(f.statEnabled, f.unused, high);
    PeelMasks(f.extraCuMasks, rest);
    DivChain(StartWord(f));
  }

  /** The accessors read the fields where the struct lays them out. */
  lemma StartFields(f: StartHeader)
    requires WidthsHold(f)
    ensures StatEnabled(StartWord(f)) == f.statEnabled && ExtraCuMasks(StartWord(f)) == f.extraCuMasks
    ensures Count(StartWord(f)) == f.count && Opcode(StartWord(f)) == f.opcode
  {
    hide StartWord, StatEnabled, ExtraCuMasks;
    LowHalf(f);
    var rest := f.count + 0x800 * (f.opcode + 0x20 * f.typ);
    assert rest % 0x800 == f.count && rest / 0x800 == f.opcode + 0x20 * f.typ;
  }

  const START_CU := 0
  const CONFIGURE := 2
  const EXIT := 3
  const ABORT := 4
  const EXEC_WRITE := 5
  const CU_STAT := 6
  const START_COPYBO := 7
  const SK_CONFIG := 8
  const SK_START := 9
  const INIT_CU := 11
  const START_FA := 12
  const CLK_CALIB := 13
  const MB_VALIDATE := 14
  const START_KEY_VAL := 15
  const ACCESS_TEST_C := 16
  const START_DPU := 18
  const CMD_CHAIN := 19
  const START_NPU := 20
  const START_NPU_PREEMPT := 21

  const DPU_WORDS := 4
  const NPU_WORDS := 4
  const PREEMPT_WORDS := 10

  /** ert_valid_opcode.  Sums with a 32-bit operand from the payload wrap at 2^32. */
  predicate ValidOpcode(m: Memory) {
    var h := m(0);
    var op, count, extra := Opcode(h), Count(h), ExtraCuMasks(h);
    if op == START_CU then count >= extra + 1 + 4
    else if op == START_DPU then count >= 1 + extra + DPU_WORDS
    else if op == CMD_CHAIN then count == (m(1) * 8 + 24) / 4
    else if op == START_NPU then count >= 1 + extra + NPU_WORDS
    else if op == START_NPU_PREEMPT then count >= 1 + extra + PREEMPT_WORDS
    else if op == START_KEY_VAL then count >= extra + 1
    else if op == EXEC_WRITE then count >= extra + 1 + 6
    else if op == START_FA then count >= extra + 1
    else if op == SK_START then count >= extra + 1 + 1
    else if op == CONFIGURE then count >= (5 + m(2)) % U32
    else if op == START_COPYBO then count == 16
    else if op == INIT_CU then count >= extra + 9 + 4
    else if op == SK_CONFIG then count == 28 * m(1) / 4 + 1
    else op in {CLK_CALIB, MB_VALIDATE, ACCESS_TEST_C, CU_STAT, EXIT, ABORT}
  }

  // ----- Where things are -----

  /** The descriptor follows the header, the mandatory mask and the extra masks. */
  function DescriptorAt(m: Memory): nat { 2 + ExtraCuMasks(m(0)) }

  function Chained(m: Memory, dpu: nat): nat { m(dpu + 3) }

  function GetDpuData(m: Memory): Option<nat> {
    if Opcode(m(0)) != START_DPU then None else Some(DescriptorAt(m))
  }

  function GetDpuDataNext(m: Memory, dpu: nat): Option<nat> {
    if Chained(m, dpu) == 0 then None else Some(dpu + DPU_WORDS)
  }

  function RegmapBegin(m: Memory): nat {
    var d := DescriptorAt(m);
    var op := Opcode(m(0));
    if op == START_DPU then d + (Chained(m, d) + 1) % U32 * 16 / 4
    else if op == START_NPU then d + NPU_WORDS + m(d + 3)
    else if op == START_NPU_PREEMPT then d + PREEMPT_WORDS + m(d + 9)
    else d
  }

  function RegmapEnd(m: Memory): nat { 1 + Count(m(0)) }

  function RegmapSizeBytes(m: Memory): nat { (RegmapEnd(m) - RegmapBegin(m)) * 4 % U64 }

  function PacketSizeBytes(m: Memory): nat { 4 + Count(m(0)) * 4 }

  /** What the check asks of each opcode, by number. */
  lemma AcceptanceByOpcode(m: Memory)
    ensures var op, count, extra, bytes := Opcode(m(0)), Count(m(0)), ExtraCuMasks(m(0)), PacketSizeBytes(m);
      && (op == 0 || op == 18 || op == 20 ==> (ValidOpcode(m) <==> count >= 5 + extra))
      && (op == 5 ==> (ValidOpcode(m) <==> count >= 7 + extra))
      && (op == 9 ==> (ValidOpcode(m) <==> count >= 2 + extra))
      && (op == 12 || op == 15 ==> (ValidOpcode(m) <==> count >= 1 + extra))
      && (op == 21 ==> (ValidOpcode(m) <==> count >= 11 + extra))
      && (op == 11 ==> (ValidOpcode(m) <==> count >= 13 + extra))
      && (op == 2 ==> (ValidOpcode(m) <==> count >= (5 + m(2)) % U32))
      && (op == 7 ==> (ValidOpcode(m) <==> bytes == 68))
      && (op == 8 ==> (ValidOpcode(m) <==> bytes == 8 + 28 * m(1)))
      && (op == 19 ==> (ValidOpcode(m) <==> bytes == 28 + 8 * m(1)))
      && (op in {3, 4, 6, 13, 14, 16} ==> ValidOpcode(m))
      && (op in {1, 10, 17} || op > 21 ==> !ValidOpcode(m))
  {
    hide Opcode, Count, ExtraCuMasks;
  }

  /** Where the register map starts, in words: the count that moves it is the descriptor's last word. */
  lemma RegmapBeginAt(m: Memory)
    ensures var op, extra := Opcode(m(0)), ExtraCuMasks(m(0));
      RegmapBegin(m) ==
      if op == 18 then 2 + extra + 4 * ((m(5 + extra) + 1) % U32)
      else if op == 20 then 6 + extra + m(5 + extra)
      else if op == 21 then 12 + extra + m(11 + extra)
      else 2 + extra
  {
    hide Opcode, ExtraCuMasks;
  }

  /** A packet has DPU descriptors exactly when it starts a DPU kernel, behind its extra masks. */
  lemma DpuDataAt(m: Memory)
    ensures GetDpuData(m) == if Opcode(m(0)) == 18 then Some(2 + ExtraCuMasks(m(0))) else None
  {
  }

  // ----- Descriptor chains -----

  /** Each element of the chain counts the elements after it. */
  ghost predicate WellFormedChain(m: Memory, d: nat) {
    forall i: nat | i <= Chained(m, d) :: Chained(m, d + DPU_WORDS * i) == Chained(m, d) - i
  }

  /** The descriptor reached after n uses of the next accessor. */
  function Walk(m: Memory, dpu: nat, n: nat): Option<nat> {
    if n == 0 then Some(dpu)
    else match Walk(m, dpu, n - 1)
      case None => None
      case Some(p) => GetDpuDataNext(m, p)
  }

  lemma {:induction false} WalkStep(m: Memory, d: nat, n: nat)
    requires WellFormedChain(m, d) && n <= Chained(m, d)
    ensures Walk(m, d, n) == Some(d + DPU_WORDS * n)
  {
    if n > 0 {
      WalkStep(m, d, n - 1);
      assert Chained(m, d + DPU_WORDS * (n - 1)) == Chained(m, d) - (n - 1);
    }
  }

  /**
   Walking a well-formed chain visits exactly chained + 1 consecutive descriptors and then stops.
   The word after the last one is the computed start of the register map exactly when chained + 1
   does not wrap around.
   */
  lemma {:induction false} ChainWalk(m: Memory, n: nat)
    requires IsMemory(m) && Opcode(m(0)) == START_DPU && WellFormedChain(m, DescriptorAt(m))
    ensures var d := DescriptorAt(m); var c := Chained(m, d);
      && GetDpuData(m) == Some(d)
      && Walk(m, d, n) == (if n <= c then Some(d + DPU_WORDS * n) else None)
      && (d + DPU_WORDS * c + DPU_WORDS == RegmapBegin(m) <==> c + 1 != U32)
  {
    hide Opcode, ExtraCuMasks;
    var d := DescriptorAt(m);
    var c := Chained(m, d);
    assert m(d + 3) < U32;
    if n <= c {
      WalkStep(m, d, n);
    } else {
      WalkEnds(m, d, n);
    }
  }

  lemma {:induction false} WalkEnds(m: Memory, d: nat, n: nat)
    requires WellFormedChain(m, d) && n > Chained(m, d)
    ensures Walk(m, d, n) == None
  {
    var c := Chained(m, d);
    if n == c + 1 {
      WalkStep(m, d, c);
      assert Chained(m, d + DPU_WORDS * c) == 0;
    } else {
      WalkEnds(m, d, n - 1);
    }
  }

  // ----- Accepted start packets -----

  predicate IsStart(op: nat) {
    op in {START_CU, START_DPU, START_NPU, START_NPU_PREEMPT, START_KEY_VAL, EXEC_WRITE, START_FA, SK_START}
  }

  /** Registers a start command must have. */
  function MinRegmap(op: nat): nat {
    if op == START_CU then 4 else if op == EXEC_WRITE then 6 else if op == SK_START then 1 else 0
  }

  function DescriptorWords(op: nat): nat {
    if op == START_DPU then DPU_WORDS else if op == START_NPU then NPU_WORDS
    else if op == START_NPU_PREEMPT then PREEMPT_WORDS else 0
  }

  /** The words of chained descriptors or properties after the first descriptor; the check ignores them. */
  function Trailing(m: Memory): nat {
    var d, op := DescriptorAt(m), Opcode(m(0));
    if op == START_DPU then DPU_WORDS * Chained(m, d)
    else if op == START_NPU then m(d + 3)
    else if op == START_NPU_PREEMPT then m(d + 9)
    else 0
  }

  /**
   The acceptance rule, without reference to opcodes' cases: a start packet is accepted exactly
   when masks, one descriptor and the minimum register map fit in count words.
   */
  lemma AcceptedIffFits(m: Memory)
    requires IsStart(Opcode(m(0)))
    ensures ValidOpcode(m) <==>
            1 + ExtraCuMasks(m(0)) + DescriptorWords(Opcode(m(0))) + MinRegmap(Opcode(m(0))) <= Count(m(0))
  {
    hide Opcode, Count, ExtraCuMasks;
  }

  /** The masks, the descriptor and what trails it fit in the count words. */
  predicate PartsFit(m: Memory) {
    1 + ExtraCuMasks(m(0)) + DescriptorWords(Opcode(m(0))) + Trailing(m) <= Count(m(0))
  }

  /** The chain length for which chained + 1 wraps to 0. */
  predicate ChainWraps(m: Memory) { Opcode(m(0)) == START_DPU && Chained(m, DescriptorAt(m)) + 1 == U32 }

  /**
   A start packet whose parts fit is header, masks, descriptor, trailing words and register map, one
   after the other over its count + 1 words, and is accepted exactly when the register map has the
   opcode's minimum size.  Without trailing words every accepted packet is of this form.
   */
  lemma AcceptedPacketIsPartitioned(m: Memory)
    requires IsMemory(m) && IsStart(Opcode(m(0)))
    ensures PartsFit(m) ==>
      && RegmapBegin(m) == DescriptorAt(m) + DescriptorWords(Opcode(m(0))) + Trailing(m)
      && PacketSizeBytes(m) == 4 * 1 + 4 * (1 + ExtraCuMasks(m(0))) + 4 * DescriptorWords(Opcode(m(0)))
                               + 4 * Trailing(m) + RegmapSizeBytes(m)
      && (ValidOpcode(m) <==> RegmapSizeBytes(m) >= 4 * MinRegmap(Opcode(m(0))))
    ensures Trailing(m) == 0 && ValidOpcode(m) ==> PartsFit(m)
  {
    hide Opcode, Count, ExtraCuMasks;
    CountBound(m);
    assert m(DescriptorAt(m) + 3) < U32;
  }

  lemma CountBound(m: Memory)
    ensures Count(m(0)) < 0x800 && ExtraCuMasks(m(0)) < 4
  {
  }

  /**
   With a chain or properties an accepted packet's register map starts inside it exactly when those
   fit too, or when the chain length wraps: then the register map lies over the descriptors.
   */
  lemma TrailingMustFit(m: Memory)
    requires IsMemory(m) && IsStart(Opcode(m(0))) && ValidOpcode(m)
    ensures RegmapBegin(m) <= RegmapEnd(m) <==> PartsFit(m) || ChainWraps(m)
    ensures ChainWraps(m) ==> RegmapBegin(m) == DescriptorAt(m) && !PartsFit(m)
  {
    hide Opcode, Count, ExtraCuMasks;
    CountBound(m);
    assert m(DescriptorAt(m) + 3) < U32;
  }

  /** The check alone does not promise it: an accepted packet whose register map starts past its end. */
  lemma AcceptedDespiteOverrun() returns (m: Memory)
    ensures IsMemory(m) && ValidOpcode(m) && Opcode(m(0)) == START_DPU
    ensures RegmapBegin(m) > RegmapEnd(m)
  {
    var h := START_DPU * 0x80_0000 + 5 * 0x1000;
    m := k => if k == 0 then h else 1;
    assert Opcode(h) == START_DPU && Count(h) == 5 && ExtraCuMasks(h) == 0;
    assert DescriptorAt(m) == 2 && Chained(m, 2) == 1;
  }

  // ----- Timestamps -----

  /** Two's complement negation of a 64-bit word. */
  function Neg(x: nat): (y: nat)
    requires x < U64
    ensures y < U64
  {
    if x == 0 then 0 else U64 - x
  }

  /** The P2ROUNDUP macro on 64-bit operands, for the alignment 2^k. */
  function P2Roundup(x: nat, k: nat): nat
    requires x < U64 && k < 64
  {
    SixtyFour();
    Pow2Monotone(k, 63);
    AndBound(Neg(x), Neg(Pow2(k)));
    Neg(And(Neg(x), Neg(Pow2(k))))
  }

  lemma SixtyFour()
    ensures Pow2(64) == U64 && Pow2(63) < U64
  {
    hide Pow2;
    Four();
    Pow2Add(4, 4);
    Pow2Add(8, 8);
    Pow2Add(16, 16);
    Pow2Add(32, 32);
    Pow2Add(1, 63);
  }

  lemma Four()
    ensures Pow2(4) == 16 && Pow2(1) == 2
  {
  }

  ghost predicate IsRoundUp(x: nat, k: nat, r: nat) {
    x <= r < x + Pow2(k) && exists q: nat :: r == q * Pow2(k)
  }

  /**
   The negate-and-mask macro rounds up: the result is the multiple of 2^k in [x, x + 2^k), except
   that where this multiple is 2^64 it wraps to 0.
   */
  lemma {:induction false} P2RoundupRoundsUp(x: nat, k: nat)
    requires x < U64 && k < 64
    ensures x + Pow2(k) <= U64 ==> IsRoundUp(x, k, P2Roundup(x, k))
    ensures x + Pow2(k) > U64 ==> P2Roundup(x, k) == 0 && IsRoundUp(x, k, U64)
  {
    hide Pow2, Floor, And;
    SixtyFour();
    Pow2Monotone(k, 63);
    var y, p := Neg(x), Pow2(k);
    AndHighMask(y, k, 64);
    assert Neg(p) == HighMask(k, 64);
    if x == 0 {
      FloorOfSmall(0, k);
      assert 0 == 0 * p;
    } else {
      FloorRoundsDown(y, k);
      var r: nat :| Floor(y, k) == r * p;
      Pow2Add(64 - k, k);
      Complement(x, p, Pow2(64 - k), r);
    }
  }

  /** Rounding 2^64 - x down leaves what rounding x up adds. */
  lemma Complement(x: nat, p: nat, n: nat, r: nat)
    requires 0 < x < U64 && p > 0 && n * p == U64
    requires r * p <= U64 - x < r * p + p
    ensures r * p > 0 <==> x + p <= U64
    ensures U64 - r * p < x + p && exists q: nat :: U64 - r * p == q * p
  {
    if r == 0 {
      assert r * p == 0;
    } else {
      assert r * p >= p;
    }
    MulLess(r, n, p);
    assert U64 - r * p == (n - r) * p;
  }

  const TIMESTAMP_BYTES := 8 * 12

  /** ert_start_kernel_timestamps: the byte offset of the timestamps from the packet. */
  function TimestampsAt(m: Memory): nat {
    assert Count(m(0)) * 4 + 4 < U64;
    P2Roundup(Count(m(0)) * 4 + 4, 3)
  }

  function SizeWithTimestampsOrZero(m: Memory): nat {
    if Opcode(m(0)) in {START_CU, EXEC_WRITE, START_FA, SK_START} && StatEnabled(m(0)) != 0
    then TimestampsAt(m) + TIMESTAMP_BYTES else 0
  }

  /** Timestamps start at the least 8-aligned offset past the packet. */
  lemma TimestampsFollowPacket(m: Memory)
    ensures TimestampsAt(m) % 8 == 0
    ensures PacketSizeBytes(m) <= TimestampsAt(m) < PacketSizeBytes(m) + 8
    ensures SizeWithTimestampsOrZero(m) != 0 <==> Opcode(m(0)) in {0, 5, 9, 12} && m(0) / 0x10 % 2 == 1
    ensures SizeWithTimestampsOrZero(m) != 0 ==>
      SizeWithTimestampsOrZero(m) == TimestampsAt(m) + 96 <= 4 * 0x800 + 96
  {
    hide P2Roundup, Opcode;
    CountBound(m);
    var x := Count(m(0)) * 4 + 4;
    P2RoundupRoundsUp(x, 3);
    assert Pow2(3) == 8;
    assert IsRoundUp(x, 3, TimestampsAt(m));
  }
}
