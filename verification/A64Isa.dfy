// The A64 instructions that relocation and patching are about, after section
// C6.2 of the Arm Architecture Reference Manual (DDI 0487).
module A64Isa {
  import opened Machine

  // X0 to X30.  The number 31 is the zero register in the instructions below;
  // the stack pointer and the flags are kept under higher numbers.
  type Regs = map<int, u64>

  const ZR := 31

  datatype State = State(pc: u64, regs: Regs, mem: Memory)

  datatype Outcome = Trap | Next(state: State)

  datatype Effect = Fault | Done(regs: Regs, mem: Memory)

  datatype Instr =
    | B(imm: int)
    | Cbz(wide: bool, negate: bool, rt: int, imm: int)
    | Tbz(bit: int, negate: bool, rt: int, imm: int)
    | Adr(rd: int, imm: int)
    | Adrp(rd: int, imm: int)
    | Literal(op: int, rt: int, imm: int)
    | Br(rn: int)
    | Ret(rn: int)
    | Movz(rd: int, hw: int, imm: int)
    | Movk(rd: int, hw: int, imm: int)
    | Ldr(op: int, rt: int, rn: int, imm: int)
    | Nop
    | Special(s: SpecialInstr)   // depends on the pc in a way that moving breaks
    | Other(w: word)     // does not depend on the pc

  datatype SpecialInstr =
    | Bl(imm: int)
    | Blr(rn: int)
    | BCond(cond: int, imm: int)
    | Unknown(w: word)   // SIMD literal loads, and branches with authentication

  const LR := 30

  function Get(r: Regs, n: int): u64 {
    if n == ZR || n !in r then 0 else r[n]
  }

  function Set(r: Regs, n: int, v: u64): Regs {
    if n == ZR then r else r[n := v]
  }

  // Bits 31:24, 23:5 and 4:0.
  datatype Fields = Fields(hi: int, mid: int, rt: int)

  function Split(w: word): (f: Fields)
    ensures 0 <= f.hi < 0x100 && 0 <= f.mid < 0x8_0000 && 0 <= f.rt < 0x20
  {
    var a := w / 0x20;
    Fields(a / 0x8_0000, a % 0x8_0000, w % 0x20)
  }

  function Decode(w: word): Instr {
    var f := Split(w);
    if f.hi / 4 == 5 then B(4 * Signed(f.hi % 4 * 0x100_0000 + f.mid * 0x20 + f.rt, 0x400_0000))
    else if f.hi % 0x80 / 2 == 0x1A then
      Cbz(f.hi / 0x80 == 1, f.hi % 2 == 1, f.rt, 4 * Signed(f.mid, 0x8_0000))
    else if f.hi % 0x80 / 2 == 0x1B then
      Tbz(f.hi / 0x80 * 0x20 + f.mid / 0x4000, f.hi % 2 == 1, f.rt, 4 * Signed(f.mid % 0x4000, 0x4000))
    else if f.hi % 0x20 == 0x10 then
      var imm := Signed(f.mid * 4 + f.hi / 0x20 % 4, 0x20_0000);
      if f.hi / 0x80 == 0 then Adr(f.rt, imm) else Adrp(f.rt, imm * 0x1000)
    else if f.hi % 0x40 == 0x18 then Literal(f.hi / 0x40, f.rt, 4 * Signed(f.mid, 0x8_0000))
    else if f.hi / 4 == 0x25 then
      Special(Bl(4 * Signed(f.hi % 4 * 0x100_0000 + f.mid * 0x20 + f.rt, 0x400_0000)))
    else if f.hi == 0x54 && f.rt < 0x10 then Special(BCond(f.rt, 4 * Signed(f.mid, 0x8_0000)))
    else if f.hi % 0x40 == 0x1C || f.hi == 0x54 then Special(Unknown(w))
    else if f.hi == 0xD6 || f.hi == 0xD7 then
      if f.hi == 0xD6 && f.rt == 0 && f.mid / 0x20 == 0x7C0 then Br(f.mid % 0x20)
      else if f.hi == 0xD6 && f.rt == 0 && f.mid / 0x20 == 0x17C0 then Ret(f.mid % 0x20)
      else if f.hi == 0xD6 && f.rt == 0 && f.mid / 0x20 == 0xFC0 then Special(Blr(f.mid % 0x20))
      else Special(Unknown(w))
    else if f.hi == 0xD2 && f.mid / 0x4_0000 == 1 then Movz(f.rt, f.mid / 0x1_0000 % 4, f.mid % 0x1_0000)
    else if f.hi == 0xF2 && f.mid / 0x4_0000 == 1 then Movk(f.rt, f.mid / 0x1_0000 % 4, f.mid % 0x1_0000)
    else if f.hi == 0xF9 && f.mid / 0x2_0000 == 1 && f.mid % 0x20 != 31 then
      Ldr(1, f.rt, f.mid % 0x20, 8 * (f.mid / 0x20 % 0x1000))
    else if f.hi == 0xB9 && f.mid / 0x2_0000 == 1 && f.mid % 0x20 != 31 then
      Ldr(0, f.rt, f.mid % 0x20, 4 * (f.mid / 0x20 % 0x1000))
    else if f.hi == 0xB9 && f.mid / 0x2_0000 == 2 && f.mid % 0x20 != 31 then
      Ldr(2, f.rt, f.mid % 0x20, 4 * (f.mid / 0x20 % 0x1000))
    else if f == Fields(0xD5, 0x1900, 0x1F) then Nop
    else Other(w)
  }

  type Decoder = word -> Instr

  // `dec` is the decoder above.  The trigger keeps its definition out of
  // proofs that do not mention it.
  ghost predicate IsA64(dec: Decoder) {
    forall w {:trigger Decode(w)} :: dec(w) == Decode(w)
  }

  // `holds` tells a condition from the flags.
  datatype Cpu = Cpu(decode: Decoder, other: (word, Regs, Memory) -> Effect, holds: (int, Regs) -> bool,
                     unknown: (word, State) -> Outcome)

  // Bit n of v.
  function Bit(v: int, n: nat): int
    requires v >= 0
    decreases n
  {
    if n == 0 then v % 2 else Bit(v / 2, n - 1)
  }

  // Halfwords of v, the least significant first.
  function Half(v: int, k: nat): int
    requires v >= 0
    decreases k
  {
    if k == 0 then v % 0x1_0000 else Half(v / 0x1_0000, k - 1)
  }

  // v with halfword hw replaced.
  function Insert(v: int, hw: int, imm: int): int
    decreases hw
  {
    if hw <= 0 then v - v % 0x1_0000 + imm
    else v % 0x1_0000 + 0x1_0000 * Insert(v / 0x1_0000, hw - 1, imm)
  }

  // 0: LDR Wt, 1: LDR Xt, 2: LDRSW Xt.
  function Load(op: int, m: Memory, a: u64): Option<u64> {
    if op == 1 then Read64(m, a)
    else
      match Read32(m, a)
      case None => None
      case Some(w) => Some(if op == 2 then Wrap(Signed(w, TWO32)) else w)
  }

  function Loaded(op: int, rt: int, a: u64, s: State): Outcome {
    match Load(op, s.mem, a)
    case None => Trap
    case Some(v) => Next(s.(pc := Wrap(s.pc + 4), regs := Set(s.regs, rt, v)))
  }

  predicate CbzTaken(wide: bool, negate: bool, v: u64) {
    ((if wide then v else v % 0x1_0000_0000) == 0) != negate
  }

  predicate TbzTaken(bit: int, negate: bool, v: u64) {
    bit >= 0 && (Bit(v, bit) == 0) != negate
  }

  function Exec(cpu: Cpu, i: Instr, s: State): Outcome {
    var next := Wrap(s.pc + 4);
    match i
    case B(imm) => Next(s.(pc := Wrap(s.pc + imm)))
    case Cbz(wide, negate, rt, imm) =>
      Next(s.(pc := if CbzTaken(wide, negate, Get(s.regs, rt)) then Wrap(s.pc + imm) else next))
    case Tbz(bit, negate, rt, imm) =>
      Next(s.(pc := if TbzTaken(bit, negate, Get(s.regs, rt)) then Wrap(s.pc + imm) else next))
    case Adr(rd, imm) => Next(s.(pc := next, regs := Set(s.regs, rd, Wrap(s.pc + imm))))
    case Adrp(rd, imm) => Next(s.(pc := next, regs := Set(s.regs, rd, Wrap(s.pc - s.pc % 0x1000 + imm))))
    case Literal(op, rt, imm) =>
      if op == 3 then Next(s.(pc := next)) else Loaded(op, rt, Wrap(s.pc + imm), s)
    case Br(rn) => Next(s.(pc := Get(s.regs, rn)))
    case Ret(rn) => Next(s.(pc := Get(s.regs, rn)))
    case Movz(rd, hw, imm) => Next(s.(pc := next, regs := Set(s.regs, rd, Wrap(Insert(0, hw, imm)))))
    case Movk(rd, hw, imm) =>
      Next(s.(pc := next, regs := Set(s.regs, rd, Wrap(Insert(Get(s.regs, rd), hw, imm)))))
    case Ldr(op, rt, rn, imm) => Loaded(op, rt, Wrap(Get(s.regs, rn) + imm), s)
    case Nop => Next(s.(pc := next))
    case Special(x) => ExecSpecial(cpu, x, s)
    case Other(w) =>
      match cpu.other(w, s.regs, s.mem)
      case Fault => Trap
      case Done(r, m) => Next(State(next, r, m))
  }

  function ExecSpecial(cpu: Cpu, x: SpecialInstr, s: State): Outcome {
    var next := Wrap(s.pc + 4);
    match x
    case Bl(imm) => Next(s.(pc := Wrap(s.pc + imm), regs := s.regs[LR := next]))
    case Blr(rn) => Next(s.(pc := Get(s.regs, rn), regs := s.regs[LR := next]))
    case BCond(cond, imm) => Next(s.(pc := if cpu.holds(cond, s.regs) then Wrap(s.pc + imm) else next))
    case Unknown(w) => cpu.unknown(w, s)
  }

  function Fetch(cpu: Cpu, s: State): Option<Instr> {
    match Read32(s.mem, s.pc)
    case None => None
    case Some(w) => Some(cpu.decode(w))
  }

  function Step(cpu: Cpu, s: State): Outcome {
    match Fetch(cpu, s)
    case None => Trap
    case Some(i) => Exec(cpu, i, s)
  }

  function Steps(cpu: Cpu, s: State, n: nat): Outcome
    decreases n
  {
    if n == 0 then Next(s)
    else
      match Step(cpu, s)
      case Trap => Trap
      case Next(s') => Steps(cpu, s', n - 1)
  }

  lemma {:induction false} StepsAdd(cpu: Cpu, s: State, a: nat, b: nat)
    ensures Steps(cpu, s, a + b) ==
            match Steps(cpu, s, a) case Trap => Trap case Next(t) => Steps(cpu, t, b)
    decreases a
  {
    if a > 0 {
      match Step(cpu, s)
      case Trap =>
      case Next(s') => StepsAdd(cpu, s', a - 1, b);
    }
  }
}
