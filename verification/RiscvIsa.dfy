// Small-step RV64I, after the RISC-V Instruction Set Manual Volume I: section
// 2.3 (immediate variants), 2.4 (AUIPC), 2.5 (control transfer), 2.6 (loads).
module RiscvIsa {
  import opened Machine

  type Regs = map<int, u64>

  // Every instruction the relocation does not look into is an unknown
  // function of the registers and memory; it either traps or falls through.
  datatype Effect = Fault | Done(regs: Regs, mem: Memory)
  type Extern = (word, Regs, Memory) -> Effect

  datatype State = State(pc: u64, regs: Regs, mem: Memory)
  datatype Outcome = Trap | Next(state: State)

  datatype Instr =
    | Jal(rd: int, imm: int)
    | Jalr(rd: int, rs1: int, imm: int)
    | Auipc(rd: int, disp: int)
    | Branch(funct3: int, rs1: int, rs2: int, imm: int)
    | Ld(rd: int, rs1: int, imm: int)
    | Illegal
    | Other(w: word)

  // x0 reads as zero and ignores writes.
  function Get(r: Regs, k: int): u64 {
    if k != 0 && k in r then r[k] else 0
  }

  function Set(r: Regs, k: int, v: u64): Regs {
    if k == 0 then r else r[k := v]
  }

  // Section 2.2: the fields of a word, peeled from the low end.
  datatype Fields = Fields(opcode: int, rd: int, funct3: int, rs1: int, rs2: int, funct7: int)

  function Split(w: word): (f: Fields)
    ensures 0 <= f.opcode < 0x80 && 0 <= f.rd < 0x20 && 0 <= f.funct3 < 8
    ensures 0 <= f.rs1 < 0x20 && 0 <= f.rs2 < 0x20 && 0 <= f.funct7 < 0x80
  {
    var a := w / 0x80;
    var b := a / 0x20;
    var c := b / 8;
    var d := c / 0x20;
    Fields(w % 0x80, a % 0x20, b % 8, c % 0x20, d % 0x20, d / 0x20)
  }

  // Section 2.3.  J: imm[20|10:1|11|19:12] in bits 31:12.
  function ImmJ(w: word): int {
    var b := w / 0x80 / 0x20;
    var c := b / 0x100;
    var d := c / 2;
    2 * (d % 0x400) + 0x800 * (c % 2) + 0x1000 * (b % 0x100) - 0x10_0000 * (d / 0x400)
  }

  // B: imm[12|10:5] in bits 31:25 and imm[4:1|11] in bits 11:7.
  function ImmB(f: Fields): int {
    2 * (f.rd / 2) + 0x20 * (f.funct7 % 0x40) + 0x800 * (f.rd % 2) - 0x1000 * (f.funct7 / 0x40)
  }

  // I: imm[11:0] in bits 31:20.
  function ImmI(f: Fields): int {
    f.rs2 + 0x20 * f.funct7 - (if f.funct7 >= 0x40 then 0x1000 else 0)
  }

  // U: imm[31:12] in bits 31:12.
  function ImmU(w: word): int {
    var hi := w / 0x80 / 0x20;
    0x1000 * (if hi >= 0x8_0000 then hi - 0x10_0000 else hi)
  }

  function Decode(w: word): Instr {
    var f := Split(w);
    if w % 4 != 3 then Illegal
    else if f.opcode == 0x6F then Jal(f.rd, ImmJ(w))
    else if f.opcode == 0x67 then if f.funct3 == 0 then Jalr(f.rd, f.rs1, ImmI(f)) else Illegal
    else if f.opcode == 0x17 then Auipc(f.rd, ImmU(w))
    else if f.opcode == 0x63 then
      if f.funct3 == 2 || f.funct3 == 3 then Illegal
      else Branch(f.funct3, f.rs1, f.rs2, ImmB(f))
    else if f.opcode == 0x03 && f.funct3 == 3 then Ld(f.rd, f.rs1, ImmI(f))
    else Other(w)
  }

  type Decoder = word -> Instr

  // `dec` is the decoder above.  The trigger keeps its definition out of
  // proofs that do not mention it.
  ghost predicate IsRv64(dec: Decoder) {
    forall w {:trigger Decode(w)} :: dec(w) == Decode(w)
  }

  // A processor: a decoder and the unknown instructions.
  datatype Cpu = Cpu(decode: Decoder, ext: Extern)

  ghost predicate Rv64(cpu: Cpu) {
    IsRv64(cpu.decode)
  }

  function AsSigned64(x: u64): int {
    Signed(x, 0x1_0000_0000_0000_0000)
  }

  // Section 2.5: BEQ, BNE, BLT, BGE, BLTU, BGEU; odd codes negate even ones.
  predicate Taken(funct3: int, a: u64, b: u64) {
    match funct3
    case 0 => a == b
    case 1 => a != b
    case 4 => AsSigned64(a) < AsSigned64(b)
    case 5 => AsSigned64(a) >= AsSigned64(b)
    case 6 => a < b
    case _ => a >= b
  }

  function Exec(cpu: Cpu, i: Instr, s: State): Outcome {
    match i
    case Jal(rd, imm) =>
      Next(s.(pc := Wrap(s.pc + imm), regs := Set(s.regs, rd, Wrap(s.pc + 4))))
    case Jalr(rd, rs1, imm) =>
      var dest := Wrap(Get(s.regs, rs1) + imm);
      Next(s.(pc := dest - dest % 2, regs := Set(s.regs, rd, Wrap(s.pc + 4))))
    case Auipc(rd, disp) =>
      Next(s.(pc := Wrap(s.pc + 4), regs := Set(s.regs, rd, Wrap(s.pc + disp))))
    case Branch(funct3, rs1, rs2, imm) =>
      var taken := Taken(funct3, Get(s.regs, rs1), Get(s.regs, rs2));
      Next(s.(pc := Wrap(s.pc + (if taken then imm else 4))))
    case Ld(rd, rs1, imm) =>
      var v := Read64(s.mem, Wrap(Get(s.regs, rs1) + imm));
      if v.None? then Trap
      else Next(s.(pc := Wrap(s.pc + 4), regs := Set(s.regs, rd, v.value)))
    case Illegal => Trap
    case Other(w) =>
      match cpu.ext(w, s.regs, s.mem)
      case Fault => Trap
      case Done(r, m) => Next(State(Wrap(s.pc + 4), r, m))
  }

  // The instruction at the program counter, if its bytes are mapped.
  function Fetch(cpu: Cpu, s: State): Option<Instr> {
    match Read32(s.mem, s.pc)
    case None => None
    case Some(w) => Some(cpu.decode(w))
  }

  function Step(cpu: Cpu, s: State): Outcome {
    match Fetch(cpu, s)
    case None => Trap
    case Some(i) => Exec(cpu, i, s)
  }

  function Steps(cpu: Cpu, s: State, n: nat): Outcome
    decreases n
  {
    if n == 0 then Next(s)
    else
      match Step(cpu, s)
      case Trap => Trap
      case Next(s') => Steps(cpu, s', n - 1)
  }

  lemma {:induction false} StepsAdd(cpu: Cpu, s: State, a: nat, b: nat)
    ensures Steps(cpu, s, a + b) ==
            match Steps(cpu, s, a) case Trap => Trap case Next(t) => Steps(cpu, t, b)
    decreases a
  {
    if a > 0 {
      match Step(cpu, s)
      case Trap =>
      case Next(s') => StepsAdd(cpu, s', a - 1, b);
    }
  }

  lemma StepAuipc(cpu: Cpu, s: State, rd: int, disp: int)
    requires s.pc + 4 < TWO64 && Fetch(cpu, s) == Some(Auipc(rd, disp))
    ensures Step(cpu, s) == Next(State(s.pc + 4, Set(s.regs, rd, Wrap(s.pc + disp)), s.mem))
  {
  }

  lemma StepLd(cpu: Cpu, s: State, rd: int, rs1: int, imm: int)
    requires Fetch(cpu, s) == Some(Ld(rd, rs1, imm))
    ensures Step(cpu, s) ==
      match Read64(s.mem, Wrap(Get(s.regs, rs1) + imm))
      case None => Trap
      case Some(v) => Next(State(Wrap(s.pc + 4), Set(s.regs, rd, v), s.mem))
  {
  }

  lemma StepJalr(cpu: Cpu, s: State, rd: int, rs1: int)
    requires s.pc + 4 < TWO64 && Fetch(cpu, s) == Some(Jalr(rd, rs1, 0))
    ensures
      var dest := Get(s.regs, rs1);
      Step(cpu, s) == Next(State(dest - dest % 2, Set(s.regs, rd, s.pc + 4), s.mem))
  {
    WrapSmall(Get(s.regs, rs1));
    WrapSmall(s.pc + 4);
  }

  lemma StepJal(cpu: Cpu, s: State, rd: int, imm: int)
    requires s.pc + 4 < TWO64 && Fetch(cpu, s) == Some(Jal(rd, imm))
    ensures Step(cpu, s) == Next(State(Wrap(s.pc + imm), Set(s.regs, rd, s.pc + 4), s.mem))
  {
  }

  lemma StepBranch(cpu: Cpu, s: State, funct3: int, rs1: int, rs2: int, imm: int)
    requires Fetch(cpu, s) == Some(Branch(funct3, rs1, rs2, imm))
    ensures
      var taken := Taken(funct3, Get(s.regs, rs1), Get(s.regs, rs2));
      Step(cpu, s) == Next(s.(pc := Wrap(s.pc + (if taken then imm else 4))))
  {
  }
}
