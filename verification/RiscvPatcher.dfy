// The eight-byte RISC-V patch of src/arch/riscv/patcher.rs, the relay of
// src/arch/riscv/meta.rs, and how far they reach.
module RiscvPatcher {
  import opened Machine
  import opened Prolog
  import opened Patching
  import opened RiscvTrampoline
  import opened RiscvLayout
  import I = RiscvIsa
  import T = RiscvThunk
  import Emitter

  const JUMP_SIZE := 8
  const DETOUR_RANGE := 0x7FFF_FFFF

  // The i32 operations of branch_bytes, wrapping as in a release build.
  function I32(x: int): int {
    AsI32(x % 0x1_0000_0000)
  }

  function Hi20(offset: int): (hi: int)
    ensures -0x8_0000 <= hi < 0x8_0000
  {
    I32(I32(offset) + 0x800) / 0x1000
  }

  function Lo12(offset: int): int {
    I32(I32(offset) - Hi20(offset) * 0x1000)
  }

  // The split reproduces the offset, or misses it by 2^32 when the rounding
  // carries out of the 32 bits; lo12 always fits.
  lemma SplitOffset(offset: int)
    ensures -0x800 <= Lo12(offset) < 0x800
    ensures Hi20(offset) * 0x1000 + Lo12(offset) ==
      if I32(offset) < 0x7FFF_F800 then I32(offset) else I32(offset) - 0x1_0000_0000
  {
    var o := I32(offset);
    assert -0x8000_0000 <= o < 0x8000_0000;
    if o < 0x7FFF_F800 {
      assert I32(o + 0x800) == o + 0x800;
      var hi := (o + 0x800) / 0x1000;
      assert I32(o - hi * 0x1000) == o - hi * 0x1000;
    } else {
      assert I32(o + 0x800) == o + 0x800 - 0x1_0000_0000;
      assert Hi20(offset) == -0x8_0000;
      assert I32(o + 0x8000_0000) == o - 0x8000_0000;
    }
  }

  function AuipcWord(offset: int): word {
    T.UWord(0x17, T.T1, Hi20(offset) % 0x10_0000)
  }

  function JalrWord(offset: int): word {
    var lo := Lo12(offset) % 0x1000;
    T.RWord(I.Fields(0x67, 0, 0, T.T1, lo % 0x20, lo / 0x20))
  }

  // AUIPC t1, hi20; JALR x0, lo12(t1)
  function PatchBytes(offset: int): (code: seq<byte>)
    ensures |code| == JUMP_SIZE
  {
    LE32(AuipcWord(offset)) + LE32(JalrWord(offset))
  }

  function BranchBytes(from: u64, to: u64): (code: seq<byte>)
    ensures |code| == JUMP_SIZE
  {
    PatchBytes(Displacement(from, to))
  }

  lemma PatchWords(offset: int)
    ensures I.Decode(AuipcWord(offset)) == I.Auipc(T.T1, Hi20(offset) * 0x1000)
    ensures I.Decode(JalrWord(offset)) == I.Jalr(0, T.T1, Lo12(offset))
  {
    SplitOffset(offset);
    AuipcDecodes(Hi20(offset));
    JalrDecodes(Lo12(offset));
  }

  lemma AuipcDecodes(hi: int)
    requires -0x8_0000 <= hi < 0x8_0000
    ensures I.Decode(T.UWord(0x17, T.T1, hi % 0x10_0000)) == I.Auipc(T.T1, hi * 0x1000)
  {
    T.Peel(0x17, T.T1, hi % 0x10_0000);
  }

  lemma JalrDecodes(lo: int)
    requires -0x800 <= lo < 0x800
    ensures
      var u := lo % 0x1000;
      I.Decode(T.RWord(I.Fields(0x67, 0, 0, T.T1, u % 0x20, u / 0x20))) == I.Jalr(0, T.T1, lo)
  {
    var u := lo % 0x1000;
    assert u == if lo < 0 then lo + 0x1000 else lo;
    T.SplitR(I.Fields(0x67, 0, 0, T.T1, u % 0x20, u / 0x20));
  }

  // What AUIPC leaves in t1, and where the JALR leads once the patch is in
  // place at `from`.
  function PatchT1(from: u64, offset: int): u64 {
    Wrap(from + Hi20(offset) * 0x1000)
  }

  function Landing(from: u64, offset: int): u64 {
    Wrap(PatchT1(from, offset) + Lo12(offset))
  }

  // The patch leads to its destination exactly within the reach of an
  // AUIPC/JALR pair, which is not symmetric.
  lemma LandingExact(from: u64, to: u64, d: int)
    requires d == Displacement(from, to)
    ensures Landing(from, d) == to <==> -0x8000_0000 - 0x800 <= d < 0x8000_0000 - 0x800
  {
    SplitOffset(d);
    WrapBack(from, to);
    I32Mod(d);
    LandsOn(from, to, d, Hi20(d) * 0x1000, Lo12(d), I32(d));
  }

  lemma LandsOn(from: u64, to: u64, d: int, hi: int, lo: int, low: int)
    requires Wrap(from + d) == to && -0x8000_0000_0000_0000 <= d < 0x8000_0000_0000_0000
    requires -0x8000_0000 <= low < 0x8000_0000 && (low - d) % 0x1_0000_0000 == 0
    requires (low - 0x1_0000_0000 - d) % 0x1_0000_0000 == 0
    requires hi + lo == if low < 0x7FFF_F800 then low else low - 0x1_0000_0000
    ensures Wrap(Wrap(from + hi) + lo) == to <==> -0x8000_0800 <= d < 0x7FFF_F800
  {
    PatchWraps(from, hi, lo);
    SameLanding(from, to, hi + lo, d, low);
  }

  // o is d modulo 2^32, brought into the reach of the instruction pair.
  lemma SameLanding(from: u64, to: u64, o: int, d: int, low: int)
    requires Wrap(from + d) == to && -0x8000_0000_0000_0000 <= d < 0x8000_0000_0000_0000
    requires -0x8000_0000 <= low < 0x8000_0000 && (low - d) % 0x1_0000_0000 == 0
    requires (low - 0x1_0000_0000 - d) % 0x1_0000_0000 == 0
    requires o == if low < 0x7FFF_F800 then low else low - 0x1_0000_0000
    ensures Wrap(from + o) == to <==> -0x8000_0800 <= d < 0x7FFF_F800
  {
    SameWrap(from, o, d);
    Congruent(o, d);
  }

  lemma Congruent(o: int, d: int)
    requires -0x8000_0800 <= o < 0x7FFF_F800 && (o - d) % 0x1_0000_0000 == 0
    ensures o == d <==> -0x8000_0800 <= d < 0x7FFF_F800
  {
    var q := (o - d) / 0x1_0000_0000;
    assert o - d == q * 0x1_0000_0000;
  }

  lemma WrapBack(from: u64, to: u64)
    ensures Wrap(from + Displacement(from, to)) == to
    ensures -0x8000_0000_0000_0000 <= Displacement(from, to) < 0x8000_0000_0000_0000
  {
  }

  lemma I32Mod(d: int)
    ensures (I32(d) - d) % 0x1_0000_0000 == 0
    ensures (I32(d) - 0x1_0000_0000 - d) % 0x1_0000_0000 == 0
  {
    var q := d / 0x1_0000_0000;
    var r := d % 0x1_0000_0000;
    assert d == q * 0x1_0000_0000 + r;
    assert I32(d) - d == (if r < 0x8000_0000 then -q else -q - 1) * 0x1_0000_0000;
    assert I32(d) - 0x1_0000_0000 - d == (if r < 0x8000_0000 then -q - 1 else -q - 2) * 0x1_0000_0000;
  }

  lemma SameWrap(from: u64, o: int, d: int)
    requires -0x8000_0000_0000_0000 <= d < 0x8000_0000_0000_0000
    requires -0x8000_0800 <= o < 0x7FFF_F800
    ensures Wrap(from + o) == Wrap(from + d) <==> o == d
  {
  }

  // Running the patch: always two steps, clobbering t1 only.
  lemma PatchRuns(cpu: I.Cpu, s: I.State, offset: int)
    requires I.Rv64(cpu) && s.pc + 8 <= TWO64 && Holds(s.mem, s.pc, PatchBytes(offset))
    ensures
      var landing := Landing(s.pc, offset);
      I.Steps(cpu, s, 2) ==
        I.Next(s.(pc := landing - landing % 2, regs := s.regs[T.T1 := PatchT1(s.pc, offset)]))
  {
    var w1, w2 := PatchFetches(cpu, s.mem, s.pc, offset);
    RunPatch(cpu, s, w1, w2, Hi20(offset) * 0x1000, Lo12(offset), PatchT1(s.pc, offset), Landing(s.pc, offset));
  }

  lemma PatchFetches(cpu: I.Cpu, m: Memory, a: int, offset: int) returns (w1: word, w2: word)
    requires I.Rv64(cpu) && Holds(m, a, PatchBytes(offset))
    ensures Read32(m, a) == Some(w1) && Read32(m, a + 4) == Some(w2)
    ensures cpu.decode(w1) == I.Auipc(T.T1, Hi20(offset) * 0x1000)
    ensures cpu.decode(w2) == I.Jalr(0, T.T1, Lo12(offset))
  {
    w1, w2 := AuipcWord(offset), JalrWord(offset);
    PatchReads(m, a, LE32(w1), LE32(w2), w1, w2);
    PatchWords(offset);
  }

  // The patch reaches an even destination exactly within that range.
  lemma PatchReachesIff(cpu: I.Cpu, s: I.State, to: u64)
    requires I.Rv64(cpu) && s.pc + 8 <= TWO64 && Holds(s.mem, s.pc, BranchBytes(s.pc, to))
    requires to % 2 == 0 && s.pc % 2 == 0
    ensures
      var d := Displacement(s.pc, to);
      && I.Steps(cpu, s, 2).Next?
      && I.Steps(cpu, s, 2).state == s.(pc := I.Steps(cpu, s, 2).state.pc, regs := s.regs[T.T1 := PatchT1(s.pc, d)])
      && (I.Steps(cpu, s, 2).state.pc == to <==> -0x8000_0000 - 0x800 <= d < 0x8000_0000 - 0x800)
  {
    var d := Displacement(s.pc, to);
    PatchRuns(cpu, s, d);
    LandingExact(s.pc, to, d);
    EvenDisplacement(s.pc, to, d);
    LandingEven(s.pc, d);
  }

  lemma LandingEven(from: u64, d: int)
    requires from % 2 == 0 && d % 2 == 0
    ensures Landing(from, d) % 2 == 0
  {
    EvenLow(d);
    EvenSum(from, Hi20(d), Lo12(d));
  }

  lemma EvenDisplacement(from: u64, to: u64, d: int)
    requires from % 2 == 0 && to % 2 == 0 && d == Displacement(from, to)
    ensures d % 2 == 0
  {
    EvenWrap(to - from);
  }

  lemma EvenSum(from: u64, hi: int, lo: int)
    requires from % 2 == 0 && lo % 2 == 0
    ensures Wrap(Wrap(from + hi * 0x1000) + lo) % 2 == 0
  {
    EvenPages(hi);
    EvenTwice(from, hi * 0x1000, lo);
  }

  lemma EvenPages(hi: int)
    ensures hi * 0x1000 % 2 == 0
  {
    var half := hi * 0x800;
    Quotient(half, 2);
    assert hi * 0x1000 == half * 2;
  }

  lemma EvenTwice(from: u64, a: int, lo: int)
    requires from % 2 == 0 && a % 2 == 0 && lo % 2 == 0
    ensures Wrap(Wrap(from + a) + lo) % 2 == 0
  {
    EvenAdd(from, a);
    EvenWrap(from + a);
    EvenAdd(Wrap(from + a), lo);
    EvenWrap(Wrap(from + a) + lo);
  }

  lemma EvenAdd(a: int, b: int)
    requires a % 2 == 0 && b % 2 == 0
    ensures (a + b) % 2 == 0
  {
  }

  lemma EvenLow(d: int)
    requires d % 2 == 0
    ensures Lo12(d) % 2 == 0
  {
    Even32(d);
    EvenPages(Hi20(d));
    EvenLess(I32(d), Hi20(d) * 0x1000);
    Even32(I32(d) - Hi20(d) * 0x1000);
  }

  lemma EvenLess(a: int, b: int)
    requires a % 2 == 0 && b % 2 == 0
    ensures (a - b) % 2 == 0
  {
  }

  lemma EvenWrap(x: int)
    requires x % 2 == 0
    ensures Wrap(x) % 2 == 0
  {
    var q := x / 0x1_0000_0000_0000_0000;
    assert Wrap(x) == x - q * 0x1_0000_0000_0000_0000;
  }

  lemma Even32(x: int)
    requires x % 2 == 0
    ensures I32(x) % 2 == 0
  {
    EvenRemainder(x, x % 0x1_0000_0000);
  }

  lemma EvenRemainder(x: int, r: int)
    requires x % 2 == 0 && r == x % 0x1_0000_0000
    ensures r % 2 == 0
  {
    var q := x / 0x1_0000_0000;
    assert r == x - q * 0x1_0000_0000;
  }

  lemma PatchWraps(a: int, b: int, c: int)
    ensures Wrap(Wrap(a + b) + c) == Wrap(a + b + c)
  {
  }

  lemma PatchReads(m: Memory, a: int, b1: seq<byte>, b2: seq<byte>, w1: word, w2: word)
    requires b1 == LE32(w1) && b2 == LE32(w2) && Holds(m, a, b1 + b2)
    ensures Read32(m, a) == Some(w1) && Read32(m, a + 4) == Some(w2)
  {
    HoldsPart(m, a, b1 + b2, 0, b1);
    HoldsPart(m, a, b1 + b2, 4, b2);
    ReadBack32(m, a, w1);
    ReadBack32(m, a + 4, w2);
  }

  lemma RunPatch(cpu: I.Cpu, s: I.State, w1: word, w2: word, hi: int, lo: int, t1: u64, dest: u64)
    requires s.pc + 8 <= TWO64 && t1 == Wrap(s.pc + hi) && dest == Wrap(t1 + lo)
    requires cpu.decode(w1) == I.Auipc(T.T1, hi) && cpu.decode(w2) == I.Jalr(0, T.T1, lo)
    requires Read32(s.mem, s.pc) == Some(w1) && Read32(s.mem, s.pc + 4) == Some(w2)
    ensures I.Steps(cpu, s, 2) == I.Next(s.(pc := dest - dest % 2, regs := s.regs[T.T1 := t1]))
  {
    I.StepAuipc(cpu, s, T.T1, hi);
    var s1 := I.State(s.pc + 4, s.regs[T.T1 := t1], s.mem);
    assert I.Step(cpu, s) == I.Next(s1);
    assert I.Fetch(cpu, s1) == Some(I.Jalr(0, T.T1, lo));
    assert I.Steps(cpu, s1, 1) == I.Step(cpu, s1);
  }

  predicate WithinRange(displacement: int) {
    -DETOUR_RANGE <= displacement < DETOUR_RANGE
  }

  // relay_builder: an absolute jump when the detour is out of range.
  function RelayBuilder(target: u64, detour: u64): Option<T.Block> {
    if !WithinRange(Displacement(target, detour)) then Some(T.Jump(0, detour)) else None
  }

  // There is no relay exactly when the detour is at most 2^31 - 1 bytes below the
  // target or less than that above it.
  lemma RelayIff(target: u64, detour: u64)
    ensures RelayBuilder(target, detour) ==
      if exists x :: -0x7FFF_FFFF <= x < 0x7FFF_FFFF && Away(target, detour, x) then None else Some(T.Jump(0, detour))
  {
    DisplacementIn(target, detour, -0x7FFF_FFFF, 0x7FFF_FFFF);
  }

  // A detour that needs no relay is reached by the patch, except in the last
  // 2 KiB of the range that is_within_range accepts.
  lemma NoRelayReaches(target: u64, detour: u64)
    requires RelayBuilder(target, detour).None?
    ensures
      var d := Displacement(target, detour);
      Landing(target, d) == detour <==> d < 0x8000_0000 - 0x800
  {
    LandingExact(target, detour, Displacement(target, detour));
  }

  // is_code_padding: whole words that are NOP or zero, left-over bytes zero.
  predicate IsCodePadding(buf: seq<byte>)
    decreases |buf|
  {
    if |buf| == 0 then true
    else if |buf| < 4 then forall b | b in buf :: b == 0
    else
      var w := Join32(buf[0], buf[1], buf[2], buf[3]);
      (w == 0x13 || w == 0) && IsCodePadding(buf[4..])
  }

  // patch_area: the eight bytes at the target, if the prolog or the padding
  // behind it covers them; None is NoPatchArea, or a read of unmapped memory.
  function PatchArea(m: Memory, target: u64, prologSize: nat): Option<nat> {
    if prologSize >= JUMP_SIZE then Some(JUMP_SIZE)
    else if HasPadding(m, target + prologSize, JUMP_SIZE - prologSize) then Some(JUMP_SIZE)
    else None
  }

  predicate HasPadding(m: Memory, a: int, n: nat) {
    Mapped(m, a, n) && IsCodePadding(ReadOut(m, a, n))
  }

  // A prolog of whole words is long enough, or is one word with one mapped word
  // of padding behind it.
  lemma AreaIsSpare(m: Memory, target: u64, n: nat)
    requires n > 0 && target + JUMP_SIZE <= TWO64
    ensures PatchArea(m, target, 4 * n) == Some(JUMP_SIZE) <==>
      n >= 2 || Read32(m, target + 4) == Some(0) || Read32(m, target + 4) == Some(0x13)
    ensures PatchArea(m, target, 4 * n).Some? ==> PatchArea(m, target, 4 * n) == Some(JUMP_SIZE)
  {
    if n == 1 {
      PaddingWord(m, target + 4);
    }
  }

  lemma PaddingWord(m: Memory, a: int)
    requires 0 <= a && a + 4 <= TWO64
    ensures HasPadding(m, a, 4) <==> Read32(m, a) == Some(0) || Read32(m, a) == Some(0x13)
  {
    WordMapped(m, a);
    if Mapped(m, a, 4) {
      var b := ReadOut(m, a, 4);
      OneWordPadding(b);
      assert Read32(m, a) == Some(Join32(b[0], b[1], b[2], b[3]));
    }
  }

  lemma WordMapped(m: Memory, a: int)
    requires 0 <= a && a + 4 <= TWO64
    ensures Mapped(m, a, 4) <==> Read32(m, a).Some?
    ensures Mapped(m, a, 4) ==>
      var b := ReadOut(m, a, 4);
      Read32(m, a) == Some(Join32(b[0], b[1], b[2], b[3]))
  {
    if Mapped(m, a, 4) {
      var x: u64, y: u64, z: u64, w: u64 := a, a + 1, a + 2, a + 3;
      assert x in m && y in m && z in m && w in m;
    }
  }

  lemma OneWordPadding(buf: seq<byte>)
    requires |buf| == 4
    ensures IsCodePadding(buf) <==> Join32(buf[0], buf[1], buf[2], buf[3]) in {0, 0x13}
  {
    assert IsCodePadding(buf[4..]);
  }

  // ---- exits avoid the patch ----------------------------------------------

  // Where a block leaves the trampoline for, when that is known statically.
  ghost predicate ExitsTo(block: T.Block, dest: u64) {
    (block.Jump? || block.Far?) && block.dest == dest
  }

  // With the margin that prolog_margin returns no static exit, nor the
  // continuation, leads into the bytes the patcher overwrites.
  lemma ExitsAvoidPatch(ws: seq<word>, target: u64, b: Built, k: nat, dest: u64)
    requires ReadableWords(ws, target, JUMP_SIZE) && Accepted(ws, target, JUMP_SIZE, b)
    requires k < |AllBlocks(b, target)| && ExitsTo(AllBlocks(b, target)[k], dest)
    ensures !(target <= dest < target + JUMP_SIZE)
  {
    if k < |b.blocks| {
      assert AcceptedAt(ws, target, JUMP_SIZE, b.blocks, k);
    } else {
      WrapSmall(target + 4 * |b.blocks|);
    }
  }

  // ---- chaining ------------------------------------------------------------

  // A trampoline built over a patched prolog loads t1 and keeps the JALR.
  lemma BuildOverPatch(target: u64, offset: int)
    requires target + 100 < TWO64
    ensures
      var ws := [AuipcWord(offset), JalrWord(offset)];
      && ReadableWords(ws, target, JUMP_SIZE)
      && BuildFrom(ws, target, JUMP_SIZE, None, []) ==
         Some(Built([T.LoadImm(T.T1, PatchT1(target, offset)), T.Copy(ws[1])], false))
  {
    var ws := [AuipcWord(offset), JalrWord(offset)];
    var blocks := [T.LoadImm(T.T1, PatchT1(target, offset)), T.Copy(ws[1])];
    ProcessPatch(ws[0], ws[1], target, offset);
    BuildTwo(ws, target, blocks[0], blocks[1]);
  }

  lemma BuildTwo(ws: seq<word>, target: u64, b0: T.Block, b1: T.Block)
    requires |ws| == 2 && ReadableWords(ws, target, JUMP_SIZE)
    requires Process(ws[0], target, target, JUMP_SIZE, None) == Some(Processed(b0, false, None))
    requires Process(ws[1], target + 4, target, JUMP_SIZE, None) == Some(Processed(b1, true, None))
    ensures BuildFrom(ws, target, JUMP_SIZE, None, []) == Some(Built([b0, b1], false))
  {
    assert [b0] + [b1] == [b0, b1];
    assert BuildFrom(ws, target, JUMP_SIZE, None, [b0]) == Some(Built([b0, b1], false));
    assert [] + [b0] == [b0];
  }

  lemma ProcessPatch(w1: word, w2: word, target: u64, offset: int)
    requires w1 == AuipcWord(offset) && w2 == JalrWord(offset) && target + 4 < TWO64
    ensures Process(w1, target, target, JUMP_SIZE, None) ==
      Some(Processed(T.LoadImm(T.T1, PatchT1(target, offset)), false, None))
    ensures Process(w2, target + 4, target, JUMP_SIZE, None) == Some(Processed(T.Copy(w2), true, None))
  {
    PatchWords(offset);
    DecodedIsProcessed(w1, target, target);
    DecodedIsProcessed(w2, target + 4, target);
  }

  lemma DecodedIsProcessed(w: word, pc: u64, target: u64)
    requires I.Decode(w).Auipc? || I.Decode(w).Jalr?
    ensures Process(w, pc, target, JUMP_SIZE, None).Some?
    ensures Meant(Process(w, pc, target, JUMP_SIZE, None).value, I.Decode(w), w, pc, target, JUMP_SIZE, None)
  {
    ProcessMeans(w, pc, target, JUMP_SIZE, None);
  }

  // And its code goes where the patch led, leaving t1 as the patch would.
  lemma ChainReaches(cpu: I.Cpu, target: u64, offset: int, blocks: seq<T.Block>, code: seq<byte>, t: I.State)
    requires I.Rv64(cpu)
    requires blocks == [T.LoadImm(T.T1, PatchT1(target, offset)), T.Copy(JalrWord(offset))]
    requires Emitter.Emission(Thunks(blocks), t.pc, 2) == Some(code) && Holds(t.mem, t.pc, code)
    ensures
      var landing := Landing(target, offset);
      I.Steps(cpu, t, 3) == I.Next(t.(pc := landing - landing % 2, regs := t.regs[T.T1 := PatchT1(target, offset)]))
  {
    ChainHeld(t.mem, t.pc, blocks, code);
    var w := JalrHeld(cpu, t.mem, t.pc + 16, offset);
    ChainRuns(cpu, PatchT1(target, offset), w, Lo12(offset), Landing(target, offset), t);
  }

  lemma ChainHeld(m: Memory, base: u64, blocks: seq<T.Block>, code: seq<byte>)
    requires |blocks| == 2 && blocks[0].LoadImm? && blocks[0].Valid() && blocks[1].Copy?
    requires Emitter.Emission(Thunks(blocks), base, 2) == Some(code) && Holds(m, base, code)
    ensures Holds(m, base, blocks[0].Encode()) && Holds(m, base + 16, blocks[1].Encode())
  {
    EmittedBlock(m, base, blocks, Thunks(blocks), code, 0);
    EmittedBlock(m, base, blocks, Thunks(blocks), code, 1);
    assert Off(blocks, 0) == 0;
    assert Off(blocks, 1) == 16;
  }

  lemma JalrHeld(cpu: I.Cpu, m: Memory, a: int, offset: int) returns (w: word)
    requires I.Rv64(cpu) && Holds(m, a, LE32(JalrWord(offset)))
    ensures Read32(m, a) == Some(w) && cpu.decode(w) == I.Jalr(0, T.T1, Lo12(offset))
  {
    w := JalrWord(offset);
    PatchWords(offset);
    ReadBack32(m, a, w);
  }

  lemma ChainRuns(cpu: I.Cpu, value: u64, w: word, lo: int, dest: u64, t: I.State)
    requires t.pc + 20 <= TWO64 && I.Rv64(cpu) && dest == Wrap(value + lo)
    requires Holds(t.mem, t.pc, T.LiAbs(T.T1, value))
    requires Read32(t.mem, t.pc + 16) == Some(w) && cpu.decode(w) == I.Jalr(0, T.T1, lo)
    ensures I.Steps(cpu, t, 3) == I.Next(t.(pc := dest - dest % 2, regs := t.regs[T.T1 := value]))
  {
    T.LiAbsRuns(cpu, t, T.T1, value);
    WrapSmall(t.pc + 16);
    var t1 := t.(pc := t.pc + 12, regs := t.regs[T.T1 := t.pc + 4]);
    var t2 := t.(pc := t.pc + 16, regs := t.regs[T.T1 := value]);
    RunJalr(cpu, t2, w, value, lo);
    assert I.Steps(cpu, t1, 2) == I.Steps(cpu, t2, 1);
  }

  lemma RunJalr(cpu: I.Cpu, t: I.State, w: word, value: u64, lo: int)
    requires cpu.decode(w) == I.Jalr(0, T.T1, lo) && Read32(t.mem, t.pc) == Some(w)
    requires I.Get(t.regs, T.T1) == value
    ensures
      var dest := Wrap(value + lo);
      I.Steps(cpu, t, 1) == I.Next(t.(pc := dest - dest % 2))
  {
    assert I.Steps(cpu, t, 1) == I.Step(cpu, t);
  }
}
