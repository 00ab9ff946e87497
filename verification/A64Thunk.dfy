// The relocation thunks of src/arch/aarch64/thunk/mod.rs and what each emitted
// byte block does when it runs.
module A64Thunk {
  import opened Machine
  import opened A64Isa

  const X16 := 16
  const X17 := 17

  // The source joins shifted fields with `|`; no two of them share a bit.
  function Word(hi: int, mid: int, rt: int): word
    requires 0 <= hi < 0x100 && 0 <= mid < 0x8_0000 && 0 <= rt < 0x20
  {
    rt + 0x20 * (mid + 0x8_0000 * hi)
  }

  lemma SplitWord(hi: int, mid: int, rt: int)
    requires 0 <= hi < 0x100 && 0 <= mid < 0x8_0000 && 0 <= rt < 0x20
    ensures Split(Word(hi, mid, rt)) == Fields(hi, mid, rt)
  {
    assert Word(hi, mid, rt) / 0x20 == mid + 0x8_0000 * hi;
  }

  // ---- words ----------------------------------------------------------------

  // MOVZ for halfword 0, MOVK for the others.
  function MovWord(reg: int, hw: int, imm: int): word
    requires 0 <= reg < 0x20 && 0 <= hw < 4 && 0 <= imm < 0x1_0000
  {
    Word(if hw == 0 then 0xD2 else 0xF2, 0x4_0000 + 0x1_0000 * hw + imm, reg)
  }

  lemma MovDecodes(reg: int, hw: int, imm: int)
    requires 0 <= reg < 0x20 && 0 <= hw < 4 && 0 <= imm < 0x1_0000
    ensures Decode(MovWord(reg, hw, imm)) == if hw == 0 then Movz(reg, hw, imm) else Movk(reg, hw, imm)
  {
    SplitWord(if hw == 0 then 0xD2 else 0xF2, 0x4_0000 + 0x1_0000 * hw + imm, reg);
  }

  // LDR Wt/Xt and LDRSW Xt, [Xn].
  function LdrWord(op: int, rt: int, rn: int): word
    requires 0 <= op < 3 && 0 <= rt < 0x20 && 0 <= rn < 31
  {
    Word(if op == 1 then 0xF9 else 0xB9, (if op == 2 then 0x4_0000 else 0x2_0000) + rn, rt)
  }

  lemma LdrDecodes(op: int, rt: int, rn: int)
    requires 0 <= op < 3 && 0 <= rt < 0x20 && 0 <= rn < 31
    ensures Decode(LdrWord(op, rt, rn)) == Ldr(op, rt, rn, 0)
  {
    SplitWord(if op == 1 then 0xF9 else 0xB9, (if op == 2 then 0x4_0000 else 0x2_0000) + rn, rt);
  }

  // The inverted branches over an absolute jump.
  function CbzSkip(reg: int, wide: bool, negate: bool): word
    requires 0 <= reg < 0x20
  {
    Word((if wide then 0x80 else 0) + (if negate then 0x34 else 0x35), 5, reg)
  }

  lemma CbzSkipDecodes(reg: int, wide: bool, negate: bool)
    requires 0 <= reg < 0x20
    ensures Decode(CbzSkip(reg, wide, negate)) == Cbz(wide, !negate, reg, 20)
  {
    SplitWord((if wide then 0x80 else 0) + (if negate then 0x34 else 0x35), 5, reg);
  }

  function TbzSkip(reg: int, bit: int, negate: bool): word
    requires 0 <= reg < 0x20 && 0 <= bit < 0x40
  {
    Word(bit / 0x20 * 0x80 + (if negate then 0x36 else 0x37), bit % 0x20 * 0x4000 + 5, reg)
  }

  lemma TbzSkipDecodes(reg: int, bit: int, negate: bool)
    requires 0 <= reg < 0x20 && 0 <= bit < 0x40
    ensures Decode(TbzSkip(reg, bit, negate)) == Tbz(bit, !negate, reg, 20)
  {
    var b5, b40 := bit / 0x20, bit % 0x20;
    var hi, mid := b5 * 0x80 + (if negate then 0x36 else 0x37), b40 * 0x4000 + 5;
    SplitWord(hi, mid, reg);
    TbzFields(b5, b40, negate);
    DecodeTbz(TbzSkip(reg, bit, negate), hi, mid, reg);
  }

  lemma DecodeTbz(w: word, hi: int, mid: int, rt: int)
    requires Split(w) == Fields(hi, mid, rt) && hi / 4 != 5 && hi % 0x80 / 2 == 0x1B
    ensures Decode(w) ==
      Tbz(hi / 0x80 * 0x20 + mid / 0x4000, hi % 2 == 1, rt, 4 * Signed(mid % 0x4000, 0x4000))
  {
  }

  lemma TbzFields(b5: int, b40: int, negate: bool)
    requires 0 <= b5 < 2 && 0 <= b40 < 0x20
    ensures
      var hi, mid := b5 * 0x80 + (if negate then 0x36 else 0x37), b40 * 0x4000 + 5;
      && hi / 4 != 5 && hi % 0x80 / 2 == 0x1B && hi / 0x80 == b5 && (hi % 2 == 1) == !negate
      && mid / 0x4000 == b40 && mid % 0x4000 == 5
  {
  }

  const LDR_X16_8: word := 0x5800_0050
  const BR_X16: word := 0xD61F_0200
  const BLR_X16: word := 0xD63F_0200
  const NOP: word := 0xD503_201F

  lemma ConstantsDecode()
    ensures Decode(LDR_X16_8) == Literal(1, X16, 8)
    ensures Decode(BR_X16) == Br(X16)
    ensures Decode(NOP) == Nop
  {
    assert LDR_X16_8 == Word(0x58, 2, 16);
    SplitWord(0x58, 2, 16);
    assert BR_X16 == Word(0xD6, 0xF810, 0);
    SplitWord(0xD6, 0xF810, 0);
    assert NOP == Word(0xD5, 0x1900, 0x1F);
    SplitWord(0xD5, 0x1900, 0x1F);
  }

  // ---- thunks ---------------------------------------------------------------

  lemma HalfRange(v: u64, k: nat)
    ensures 0 <= Half(v, k) < 0x1_0000
    decreases k
  {
    if k > 0 {
      HalfRange(v / 0x1_0000, k - 1);
    }
  }

  function MovPart(reg: int, v: u64, hw: nat): word
    requires 0 <= reg < 0x20 && hw < 4
  {
    HalfRange(v, hw);
    MovWord(reg, hw, Half(v, hw))
  }

  function MovImm64(reg: int, v: u64): (code: seq<byte>)
    requires 0 <= reg < 0x20
    ensures |code| == 16
  {
    LE32(MovPart(reg, v, 0)) + LE32(MovPart(reg, v, 1)) + LE32(MovPart(reg, v, 2)) + LE32(MovPart(reg, v, 3))
  }

  function JmpAbs(dest: u64): (code: seq<byte>)
    ensures |code| == 16
  {
    LE32(LDR_X16_8) + LE32(BR_X16) + LE64(dest)
  }

  function CallAbs(dest: u64): (code: seq<byte>)
    ensures |code| == 16
  {
    LE32(LDR_X16_8) + LE32(BLR_X16) + LE64(dest)
  }

  function CbzFar(reg: int, wide: bool, negate: bool, dest: u64): (code: seq<byte>)
    requires 0 <= reg < 0x20
    ensures |code| == 20
  {
    LE32(CbzSkip(reg, wide, negate)) + JmpAbs(dest)
  }

  function TbzFar(reg: int, bit: int, negate: bool, dest: u64): (code: seq<byte>)
    requires 0 <= reg < 0x20 && 0 <= bit < 0x40
    ensures |code| == 20
  {
    LE32(TbzSkip(reg, bit, negate)) + JmpAbs(dest)
  }

  // The register that holds the literal's address.
  function AddrReg(rt: int): (r: int)
    ensures r != rt && (r == X16 || r == X17)
  {
    if rt == X17 then X16 else X17
  }

  function LdrLiteral(op: int, rt: int, addr: u64): (code: seq<byte>)
    requires 0 <= op < 3 && 0 <= rt < 0x20
    ensures |code| == 20
  {
    MovImm64(AddrReg(rt), addr) + LE32(LdrWord(op, rt, AddrReg(rt)))
  }

  // ---- running them ---------------------------------------------------------

  lemma ReadWord(m: Memory, a: int, w: word, rest: seq<byte>)
    requires Holds(m, a, LE32(w) + rest)
    ensures Read32(m, a) == Some(w) && Holds(m, a + 4, rest)
  {
    Parts(m, a, LE32(w), rest);
    ReadBack32(m, a, w);
  }

  lemma JmpReads(m: Memory, a: int, dest: u64)
    requires Holds(m, a, JmpAbs(dest))
    ensures Read32(m, a) == Some(LDR_X16_8) && Read32(m, a + 4) == Some(BR_X16) && Read64(m, a + 8) == Some(dest)
  {
    assert JmpAbs(dest) == LE32(LDR_X16_8) + (LE32(BR_X16) + LE64(dest));
    ReadWord(m, a, LDR_X16_8, LE32(BR_X16) + LE64(dest));
    ReadWord(m, a + 4, BR_X16, LE64(dest));
    ReadBack64(m, a + 8, dest);
  }

  lemma StepLiteral(cpu: Cpu, t: State, op: int, rt: int, imm: int, a: u64, v: u64)
    requires Fetch(cpu, t) == Some(Literal(op, rt, imm)) && op != 3 && t.pc + 4 < TWO64
    requires a == Wrap(t.pc + imm) && Load(op, t.mem, a) == Some(v)
    ensures Step(cpu, t) == Next(t.(pc := t.pc + 4, regs := Set(t.regs, rt, v)))
  {
    WrapSmall(t.pc + 4);
    assert Step(cpu, t) == Loaded(op, rt, a, t);
  }

  lemma LdrBrRuns(cpu: Cpu, t: State, dest: u64)
    requires cpu.decode(LDR_X16_8) == Literal(1, X16, 8) && cpu.decode(BR_X16) == Br(X16)
    requires t.pc + 16 <= TWO64 && Holds(t.mem, t.pc, JmpAbs(dest))
    ensures Steps(cpu, t, 2) == Next(t.(pc := dest, regs := t.regs[X16 := dest]))
  {
    JmpReads(t.mem, t.pc, dest);
    WrapSmall(t.pc + 8);
    StepLiteral(cpu, t, 1, X16, 8, t.pc + 8, dest);
    var t1 := t.(pc := t.pc + 4, regs := t.regs[X16 := dest]);
    assert Step(cpu, t1) == Next(t1.(pc := dest));
    assert Steps(cpu, t1, 1) == Step(cpu, t1);
  }

  // Running jmp_abs leaves the destination in X16.
  lemma JmpAbsRuns(cpu: Cpu, t: State, dest: u64)
    requires IsA64(cpu.decode) && Holds(t.mem, t.pc, JmpAbs(dest)) && t.pc + 16 <= TWO64
    ensures Steps(cpu, t, 2) == Next(t.(pc := dest, regs := t.regs[X16 := dest]))
  {
    ConstantsDecode();
    LdrBrRuns(cpu, t, dest);
  }

  // The lowest n halfwords of v, zeros above.
  function Filled(v: int, n: nat): int
    requires v >= 0
    decreases n
  {
    if n == 0 then 0 else v % 0x1_0000 + 0x1_0000 * Filled(v / 0x1_0000, n - 1)
  }

  lemma {:induction false} FillNext(v: int, hw: nat)
    requires v >= 0
    ensures Insert(Filled(v, hw), hw, Half(v, hw)) == Filled(v, hw + 1)
    decreases hw
  {
    if hw > 0 {
      var rest := Filled(v / 0x1_0000, hw - 1);
      FillNext(v / 0x1_0000, hw - 1);
      PutLow(v % 0x1_0000, rest);
    }
  }

  lemma PutLow(low: int, rest: int)
    requires 0 <= low < 0x1_0000
    ensures (low + 0x1_0000 * rest) % 0x1_0000 == low && (low + 0x1_0000 * rest) / 0x1_0000 == rest
  {
  }

  lemma {:induction false} FillBelow(v: int, n: nat)
    requires v >= 0
    ensures 0 <= Filled(v, n) <= v
    decreases n
  {
    if n > 0 {
      FillBelow(v / 0x1_0000, n - 1);
    }
  }

  lemma FillAll(v: u64)
    ensures Filled(v, 4) == v
  {
    var v1 := v / 0x1_0000;
    var v2 := v1 / 0x1_0000;
    var v3 := v2 / 0x1_0000;
    assert v3 < 0x1_0000;
    assert Filled(v3 / 0x1_0000, 0) == 0;
    assert Filled(v3, 1) == v3;
    assert Filled(v2, 2) == v2;
    assert Filled(v1, 3) == v1;
  }

  // MOVZ or MOVK number hw of mov_imm64.
  lemma MovStep(cpu: Cpu, t: State, r: Regs, reg: int, v: u64, hw: nat, before: u64, after: u64)
    requires IsA64(cpu.decode) && 0 <= reg < 0x20 && hw < 4 && t.pc + 4 < TWO64
    requires Read32(t.mem, t.pc) == Some(MovPart(reg, v, hw))
    requires before == Filled(v, hw) && after == Filled(v, hw + 1)
    requires t.regs == if hw == 0 then r else Set(r, reg, before)
    ensures Step(cpu, t) == Next(t.(pc := t.pc + 4, regs := Set(r, reg, after)))
  {
    HalfRange(v, hw);
    MovDecodes(reg, hw, Half(v, hw));
    FillNext(v, hw);
    MovMeans(cpu, t, r, reg, hw, Half(v, hw), before, after);
  }

  lemma MovMeans(cpu: Cpu, t: State, r: Regs, reg: int, hw: int, imm: int, before: u64, after: u64)
    requires t.pc + 4 < TWO64 && Insert(before, hw, imm) == after
    requires Fetch(cpu, t) == Some(if hw == 0 then Movz(reg, hw, imm) else Movk(reg, hw, imm))
    requires hw == 0 ==> before == 0
    requires t.regs == if hw == 0 then r else Set(r, reg, before)
    ensures Step(cpu, t) == Next(t.(pc := t.pc + 4, regs := Set(r, reg, after)))
  {
    if reg != ZR {
      assert r[reg := before][reg := after] == r[reg := after];
      WrapSmall(after);
    }
  }

  lemma MovReads(m: Memory, a: int, reg: int, v: u64)
    requires 0 <= reg < 0x20 && Holds(m, a, MovImm64(reg, v))
    ensures Read32(m, a) == Some(MovPart(reg, v, 0)) && Read32(m, a + 4) == Some(MovPart(reg, v, 1))
    ensures Read32(m, a + 8) == Some(MovPart(reg, v, 2)) && Read32(m, a + 12) == Some(MovPart(reg, v, 3))
  {
    var p0, p1 := LE32(MovPart(reg, v, 0)), LE32(MovPart(reg, v, 1));
    var p2, p3 := LE32(MovPart(reg, v, 2)), LE32(MovPart(reg, v, 3));
    assert MovImm64(reg, v) == p0 + (p1 + (p2 + p3));
    ReadWord(m, a, MovPart(reg, v, 0), p1 + (p2 + p3));
    ReadWord(m, a + 4, MovPart(reg, v, 1), p2 + p3);
    ReadWord(m, a + 8, MovPart(reg, v, 2), p3);
    ReadBack32(m, a + 12, MovPart(reg, v, 3));
  }

  // Running mov_imm64: the register holds the value, nothing else changes.
  lemma MovImm64Runs(cpu: Cpu, t: State, reg: int, v: u64)
    requires IsA64(cpu.decode) && 0 <= reg < 0x20 && t.pc + 16 < TWO64 && Holds(t.mem, t.pc, MovImm64(reg, v))
    ensures Steps(cpu, t, 4) == Next(t.(pc := t.pc + 16, regs := Set(t.regs, reg, v)))
  {
    MovReads(t.mem, t.pc, reg, v);
    FillBelow(v, 1);
    FillBelow(v, 2);
    FillBelow(v, 3);
    FillAll(v);
    MovRun(cpu, t, reg, v, Filled(v, 1), Filled(v, 2), Filled(v, 3));
  }

  lemma MovRun(cpu: Cpu, t: State, reg: int, v: u64, f1: u64, f2: u64, f3: u64)
    requires IsA64(cpu.decode) && 0 <= reg < 0x20 && t.pc + 16 < TWO64
    requires f1 == Filled(v, 1) && f2 == Filled(v, 2) && f3 == Filled(v, 3) && v == Filled(v, 4)
    requires Read32(t.mem, t.pc) == Some(MovPart(reg, v, 0)) && Read32(t.mem, t.pc + 4) == Some(MovPart(reg, v, 1))
    requires Read32(t.mem, t.pc + 8) == Some(MovPart(reg, v, 2)) && Read32(t.mem, t.pc + 12) == Some(MovPart(reg, v, 3))
    ensures Steps(cpu, t, 4) == Next(t.(pc := t.pc + 16, regs := Set(t.regs, reg, v)))
  {
    MovStep(cpu, t, t.regs, reg, v, 0, 0, f1);
    var t1 := t.(pc := t.pc + 4, regs := Set(t.regs, reg, f1));
    MovStep(cpu, t1, t.regs, reg, v, 1, f1, f2);
    var t2 := t.(pc := t.pc + 8, regs := Set(t.regs, reg, f2));
    MovStep(cpu, t2, t.regs, reg, v, 2, f2, f3);
    var t3 := t.(pc := t.pc + 12, regs := Set(t.regs, reg, f3));
    MovStep(cpu, t3, t.regs, reg, v, 3, f3, v);
    var t4 := t.(pc := t.pc + 16, regs := Set(t.regs, reg, v));
    FourSteps(cpu, t, t1, t2, t3, t4);
  }

  lemma FourSteps(cpu: Cpu, t: State, t1: State, t2: State, t3: State, t4: State)
    requires Step(cpu, t) == Next(t1) && Step(cpu, t1) == Next(t2)
    requires Step(cpu, t2) == Next(t3) && Step(cpu, t3) == Next(t4)
    ensures Steps(cpu, t, 4) == Next(t4)
  {
    assert Steps(cpu, t3, 1) == Next(t4);
    assert Steps(cpu, t2, 2) == Next(t4);
    assert Steps(cpu, t1, 3) == Next(t4);
  }

  // Running a relocated literal load: the loaded value, and the literal's
  // address in the scratch register; a trap if the literal is unmapped.
  lemma LdrLiteralRuns(cpu: Cpu, t: State, op: int, rt: int, addr: u64)
    requires IsA64(cpu.decode) && 0 <= op < 3 && 0 <= rt < 0x20 && t.pc + 20 < TWO64
    requires Holds(t.mem, t.pc, LdrLiteral(op, rt, addr))
    ensures Steps(cpu, t, 5) ==
      match Load(op, t.mem, addr)
      case None => Trap
      case Some(v) => Next(t.(pc := t.pc + 20, regs := Set(t.regs[AddrReg(rt) := addr], rt, v)))
  {
    var r := AddrReg(rt);
    Parts(t.mem, t.pc, MovImm64(r, addr), LE32(LdrWord(op, rt, r)));
    MovImm64Runs(cpu, t, r, addr);
    ReadBack32(t.mem, t.pc + 16, LdrWord(op, rt, r));
    LdrDecodes(op, rt, r);
    StepsAdd(cpu, t, 4, 1);
    LdrRuns(cpu, t.(pc := t.pc + 16, regs := t.regs[r := addr]), op, rt, r, addr);
  }

  lemma LdrRuns(cpu: Cpu, t: State, op: int, rt: int, rn: int, addr: u64)
    requires Fetch(cpu, t) == Some(Ldr(op, rt, rn, 0)) && Get(t.regs, rn) == addr && t.pc + 4 < TWO64
    ensures Steps(cpu, t, 1) ==
      match Load(op, t.mem, addr)
      case None => Trap
      case Some(v) => Next(t.(pc := t.pc + 4, regs := Set(t.regs, rt, v)))
  {
    WrapSmall(addr);
    WrapSmall(t.pc + 4);
    assert Steps(cpu, t, 1) == Step(cpu, t);
  }

  // Running a far branch: out through the jump when the original branch is
  // taken, past the block otherwise.
  lemma FarRuns(cpu: Cpu, t: State, skip: word, dest: u64, taken: bool)
    requires IsA64(cpu.decode) && t.pc + 20 < TWO64 && Holds(t.mem, t.pc, LE32(skip) + JmpAbs(dest))
    requires
      match cpu.decode(skip)
      case Cbz(wide, negate, rt, imm) => imm == 20 && CbzTaken(wide, negate, Get(t.regs, rt)) != taken
      case Tbz(bit, negate, rt, imm) => imm == 20 && TbzTaken(bit, negate, Get(t.regs, rt)) != taken
      case _ => false
    ensures
      if taken then Steps(cpu, t, 3) == Next(t.(pc := dest, regs := t.regs[X16 := dest]))
      else Steps(cpu, t, 1) == Next(t.(pc := t.pc + 20))
  {
    ReadWord(t.mem, t.pc, skip, JmpAbs(dest));
    SkipRuns(cpu, t, taken);
    if taken {
      StepsAdd(cpu, t, 1, 2);
      JmpAbsRuns(cpu, t.(pc := t.pc + 4), dest);
    }
  }

  lemma SkipRuns(cpu: Cpu, t: State, taken: bool)
    requires t.pc + 20 < TWO64 && Fetch(cpu, t).Some?
    requires
      match Fetch(cpu, t).value
      case Cbz(wide, negate, rt, imm) => imm == 20 && CbzTaken(wide, negate, Get(t.regs, rt)) != taken
      case Tbz(bit, negate, rt, imm) => imm == 20 && TbzTaken(bit, negate, Get(t.regs, rt)) != taken
      case _ => false
    ensures Steps(cpu, t, 1) == Next(t.(pc := t.pc + if taken then 4 else 20))
  {
    WrapSmall(t.pc + 4);
    WrapSmall(t.pc + 20);
    assert Steps(cpu, t, 1) == Step(cpu, t);
  }

  lemma CbzFarRuns(cpu: Cpu, t: State, rt: int, wide: bool, negate: bool, dest: u64)
    requires IsA64(cpu.decode) && 0 <= rt < 0x20
    requires t.pc + 20 < TWO64 && Holds(t.mem, t.pc, CbzFar(rt, wide, negate, dest))
    ensures
      if CbzTaken(wide, negate, Get(t.regs, rt)) then
        Steps(cpu, t, 3) == Next(t.(pc := dest, regs := t.regs[X16 := dest]))
      else Steps(cpu, t, 1) == Next(t.(pc := t.pc + 20))
  {
    CbzSkipDecodes(rt, wide, negate);
    FarRuns(cpu, t, CbzSkip(rt, wide, negate), dest, CbzTaken(wide, negate, Get(t.regs, rt)));
  }

  lemma TbzFarRuns(cpu: Cpu, t: State, rt: int, bit: int, negate: bool, dest: u64)
    requires IsA64(cpu.decode) && 0 <= rt < 0x20 && 0 <= bit < 0x40
    requires t.pc + 20 < TWO64 && Holds(t.mem, t.pc, TbzFar(rt, bit, negate, dest))
    ensures
      if TbzTaken(bit, negate, Get(t.regs, rt)) then
        Steps(cpu, t, 3) == Next(t.(pc := dest, regs := t.regs[X16 := dest]))
      else Steps(cpu, t, 1) == Next(t.(pc := t.pc + 20))
  {
    TbzSkipDecodes(rt, bit, negate);
    FarRuns(cpu, t, TbzSkip(rt, bit, negate), dest, TbzTaken(bit, negate, Get(t.regs, rt)));
  }
}
