// The relocation thunks of src/arch/riscv/thunk/mod.rs (RV64) and what each
// emitted byte block does when it runs.
module RiscvThunk {
  import opened Machine
  import opened RiscvIsa

  // Words assembled field by field.  The source joins the shifted fields with
  // `|`; no two fields share a bit, so the joined value is their sum.
  function UWord(opcode: int, rd: int, hi20: int): (w: word)
    requires 0 <= opcode < 0x80 && 0 <= rd < 0x20 && 0 <= hi20 < 0x10_0000
  {
    opcode + 0x80 * (rd + 0x20 * hi20)
  }

  function RWord(f: Fields): (w: word)
    requires 0 <= f.opcode < 0x80 && 0 <= f.rd < 0x20 && 0 <= f.funct3 < 8
    requires 0 <= f.rs1 < 0x20 && 0 <= f.rs2 < 0x20 && 0 <= f.funct7 < 0x80
  {
    UWord(f.opcode, f.rd, f.funct3 + 8 * (f.rs1 + 0x20 * (f.rs2 + 0x20 * f.funct7)))
  }

  // The fields of J- and B-type immediates, in the order of their weight.
  datatype JImm = JImm(imm1: int, imm11: int, imm12: int, imm20: int)
  datatype BImm = BImm(imm1: int, imm5: int, imm11: int, imm12: int)

  // imm[20] to bit 31, imm[10:1] to 30:21, imm[11] to 20, imm[19:12] to 19:12.
  function CutJ(imm: int): (j: JImm)
    ensures 0 <= j.imm1 < 0x400 && 0 <= j.imm11 < 2 && 0 <= j.imm12 < 0x100 && 0 <= j.imm20 < 2
  {
    var u1 := imm % 0x1_0000_0000 / 2;
    var u11 := u1 / 0x400;
    var u12 := u11 / 2;
    JImm(u1 % 0x400, u11 % 2, u12 % 0x100, u12 / 0x100 % 2)
  }

  function JWord(rd: int, j: JImm): word
    requires 0 <= rd < 0x20
    requires 0 <= j.imm1 < 0x400 && 0 <= j.imm11 < 2 && 0 <= j.imm12 < 0x100 && 0 <= j.imm20 < 2
  {
    UWord(0x6F, rd, j.imm12 + 0x100 * (j.imm11 + 2 * (j.imm1 + 0x400 * j.imm20)))
  }

  function EncodeJType(rd: int, imm: int): word
    requires 0 <= rd < 0x20
  {
    JWord(rd, CutJ(imm))
  }

  // imm[12|10:5] to bits 31:25, imm[4:1|11] to bits 11:7.
  function CutB(imm: int): (b: BImm)
    ensures 0 <= b.imm1 < 0x10 && 0 <= b.imm5 < 0x40 && 0 <= b.imm11 < 2 && 0 <= b.imm12 < 2
  {
    var u1 := imm % 0x1_0000_0000 / 2;
    var u5 := u1 / 0x10;
    var u11 := u5 / 0x40;
    BImm(u1 % 0x10, u5 % 0x40, u11 % 2, u11 / 2 % 2)
  }

  function BWord(funct3: int, rs1: int, rs2: int, b: BImm): word
    requires 0 <= funct3 < 8 && 0 <= rs1 < 0x20 && 0 <= rs2 < 0x20
    requires 0 <= b.imm1 < 0x10 && 0 <= b.imm5 < 0x40 && 0 <= b.imm11 < 2 && 0 <= b.imm12 < 2
  {
    RWord(Fields(0x63, b.imm11 + 2 * b.imm1, funct3, rs1, rs2, b.imm5 + 0x40 * b.imm12))
  }

  function EncodeBType(funct3: int, rs1: int, rs2: int, imm: int): word
    requires 0 <= funct3 < 8 && 0 <= rs1 < 0x20 && 0 <= rs2 < 0x20
  {
    BWord(funct3, rs1, rs2, CutB(imm))
  }

  lemma Peel(opcode: int, rd: int, hi20: int)
    requires 0 <= opcode < 0x80 && 0 <= rd < 0x20 && 0 <= hi20 < 0x10_0000
    ensures var w := UWord(opcode, rd, hi20);
      w % 4 == opcode % 4 && w % 0x80 == opcode && w / 0x80 % 0x20 == rd && w / 0x80 / 0x20 == hi20
  {
    var w, a := UWord(opcode, rd, hi20), rd + 0x20 * hi20;
    assert w == 0x80 * a + opcode;
    assert w / 0x80 == a && w % 0x80 == opcode;
    var q, r := opcode / 4, opcode % 4;
    assert w == 4 * (0x20 * a + q) + r;
  }

  lemma SplitR(f: Fields)
    requires 0 <= f.opcode < 0x80 && 0 <= f.rd < 0x20 && 0 <= f.funct3 < 8
    requires 0 <= f.rs1 < 0x20 && 0 <= f.rs2 < 0x20 && 0 <= f.funct7 < 0x80
    ensures Split(RWord(f)) == f
  {
    var d := f.rs2 + 0x20 * f.funct7;
    var c := f.rs1 + 0x20 * d;
    var b := f.funct3 + 8 * c;
    Peel(f.opcode, f.rd, b);
    assert b % 8 == f.funct3 && b / 8 == c;
    assert c % 0x20 == f.rs1 && c / 0x20 == d;
    assert d % 0x20 == f.rs2 && d / 0x20 == f.funct7;
  }

  const T1 := 6
  const AUIPC_T1: word := UWord(0x17, T1, 0)
  const LD_T1_12: word := RWord(Fields(0x03, T1, 3, T1, 12, 0))

  function JalrT1(rd: int): word
    requires 0 <= rd < 0x20
  {
    RWord(Fields(0x67, rd, 0, T1, 0, 0))
  }

  function LdSelf(rd: int): word
    requires 0 <= rd < 0x20
  {
    RWord(Fields(0x03, rd, 3, rd, 0, 0))
  }

  function JmpAbs(rd: int, dest: u64): (code: seq<byte>)
    requires 0 <= rd < 0x20
    ensures |code| == 20
  {
    LE32(AUIPC_T1) + LE32(LD_T1_12) + LE32(JalrT1(rd)) + LE64(dest)
  }

  function LiAbs(rd: int, value: u64): (code: seq<byte>)
    requires 0 <= rd < 0x20
    ensures |code| == 16
  {
    LE32(EncodeJType(rd, 12)) + LE64(value) + LE32(LdSelf(rd))
  }

  // Toggling bit 0 of funct3 swaps EQ/NE, LT/GE and LTU/GEU.
  function Inverted(funct3: int): int {
    if funct3 % 2 == 0 then funct3 + 1 else funct3 - 1
  }

  // The inverted branch over an absolute jump.
  function SkipWord(funct3: int, rs1: int, rs2: int): word
    requires 0 <= funct3 < 8 && 0 <= rs1 < 0x20 && 0 <= rs2 < 0x20
  {
    EncodeBType(Inverted(funct3), rs1, rs2, 24)
  }

  function BranchFar(instr: word, dest: u64): (code: seq<byte>)
    ensures |code| == 24
  {
    var f := Split(instr);
    LE32(SkipWord(f.funct3, f.rs1, f.rs2)) + JmpAbs(0, dest)
  }

  // The blocks a trampoline is made of, before they are turned into bytes.
  datatype Block =
    | Copy(instr: word)
    | Jump(rd: int, dest: u64)
    | LoadImm(rd: int, value: u64)
    | Far(instr: word, dest: u64)
  {
    predicate Valid() {
      (Jump? || LoadImm?) ==> 0 <= rd < 0x20
    }

    function Size(): nat {
      match this
      case Copy(_) => 4
      case Jump(_, _) => 20
      case LoadImm(_, _) => 16
      case Far(_, _) => 24
    }

    function Encode(): (code: seq<byte>)
      requires Valid()
      ensures |code| == Size()
    {
      match this
      case Copy(instr) => LE32(instr)
      case Jump(rd, dest) => JmpAbs(rd, dest)
      case LoadImm(rd, value) => LiAbs(rd, value)
      case Far(instr, dest) => BranchFar(instr, dest)
    }
  }

  // What the thunks' words decode to.
  lemma JmpAbsWords(rd: int)
    requires 0 <= rd < 0x20
    ensures Decode(AUIPC_T1) == Auipc(T1, 0)
    ensures Decode(LD_T1_12) == Ld(T1, T1, 12)
    ensures Decode(JalrT1(rd)) == Jalr(rd, T1, 0)
  {
    Peel(0x17, T1, 0);
    SplitR(Fields(0x03, T1, 3, T1, 12, 0));
    SplitR(Fields(0x67, rd, 0, T1, 0, 0));
  }

  lemma LdSelfWord(rd: int)
    requires 0 <= rd < 0x20
    ensures Decode(LdSelf(rd)) == Ld(rd, rd, 0)
  {
    SplitR(Fields(0x03, rd, 3, rd, 0, 0));
  }

  lemma DecodeJ(rd: int, j: JImm)
    requires 0 <= rd < 0x20
    requires 0 <= j.imm1 < 0x400 && 0 <= j.imm11 < 2 && 0 <= j.imm12 < 0x100 && 0 <= j.imm20 < 2
    ensures Decode(JWord(rd, j)) ==
      Jal(rd, 2 * j.imm1 + 0x800 * j.imm11 + 0x1000 * j.imm12 - 0x10_0000 * j.imm20)
  {
    var d := j.imm1 + 0x400 * j.imm20;
    var c := j.imm11 + 2 * d;
    var b := j.imm12 + 0x100 * c;
    Peel(0x6F, rd, b);
    assert b % 0x100 == j.imm12 && b / 0x100 == c;
    assert c % 2 == j.imm11 && c / 2 == d;
    assert d % 0x400 == j.imm1 && d / 0x400 == j.imm20;
  }

  lemma DecodeB(funct3: int, rs1: int, rs2: int, b: BImm)
    requires 0 <= funct3 < 8 && 0 <= rs1 < 0x20 && 0 <= rs2 < 0x20
    requires 0 <= b.imm1 < 0x10 && 0 <= b.imm5 < 0x40 && 0 <= b.imm11 < 2 && 0 <= b.imm12 < 2
    ensures Decode(BWord(funct3, rs1, rs2, b)) ==
      if funct3 == 2 || funct3 == 3 then Illegal
      else Branch(funct3, rs1, rs2,
                  2 * b.imm1 + 0x20 * b.imm5 + 0x800 * b.imm11 - 0x1000 * b.imm12)
  {
    var f := Fields(0x63, b.imm11 + 2 * b.imm1, funct3, rs1, rs2, b.imm5 + 0x40 * b.imm12);
    SplitR(f);
    assert f.funct7 % 0x40 == b.imm5 && f.funct7 / 0x40 == b.imm12;
    assert f.rd % 2 == b.imm11 && f.rd / 2 == b.imm1;
  }

  // Every even immediate that fits its field survives encoding and decoding.
  lemma JoinJ(imm: int)
    requires imm % 2 == 0 && -0x10_0000 <= imm < 0x10_0000
    ensures var j := CutJ(imm);
      imm == 2 * j.imm1 + 0x800 * j.imm11 + 0x1000 * j.imm12 - 0x10_0000 * j.imm20
  {
    var u := if imm < 0 then imm + 0x1_0000_0000 else imm;
    assert imm % 0x1_0000_0000 == u;
    var u1 := u / 2;
    assert u == 2 * u1;
    var u20 := u1 / 0x400 / 2 / 0x100;
    assert u20 == if imm < 0 then 0xFFF else 0;
  }

  lemma JoinB(imm: int)
    requires imm % 2 == 0 && -0x1000 <= imm < 0x1000
    ensures var b := CutB(imm);
      imm == 2 * b.imm1 + 0x20 * b.imm5 + 0x800 * b.imm11 - 0x1000 * b.imm12
  {
    var u := if imm < 0 then imm + 0x1_0000_0000 else imm;
    assert imm % 0x1_0000_0000 == u;
    var u1 := u / 2;
    assert u == 2 * u1;
    var u12 := u1 / 0x10 / 0x40 / 2;
    assert u12 == if imm < 0 then 0xFFFFF else 0;
  }

  lemma JTypeRoundTrip(rd: int, imm: int)
    requires 0 <= rd < 0x20 && imm % 2 == 0 && -0x10_0000 <= imm < 0x10_0000
    ensures Decode(EncodeJType(rd, imm)) == Jal(rd, imm)
  {
    DecodeJ(rd, CutJ(imm));
    JoinJ(imm);
  }

  lemma BTypeRoundTrip(funct3: int, rs1: int, rs2: int, imm: int)
    requires 0 <= funct3 < 8 && 0 <= rs1 < 0x20 && 0 <= rs2 < 0x20
    requires imm % 2 == 0 && -0x1000 <= imm < 0x1000
    ensures Decode(EncodeBType(funct3, rs1, rs2, imm)) ==
      if funct3 == 2 || funct3 == 3 then Illegal else Branch(funct3, rs1, rs2, imm)
  {
    DecodeB(funct3, rs1, rs2, CutB(imm));
    JoinB(imm);
  }

  lemma SkipWordDecodes(funct3: int, rs1: int, rs2: int)
    requires 0 <= funct3 < 8 && 0 <= rs1 < 0x20 && 0 <= rs2 < 0x20
    ensures Decode(SkipWord(funct3, rs1, rs2)) ==
      if funct3 == 2 || funct3 == 3 then Illegal
      else Branch(Inverted(funct3), rs1, rs2, 24)
  {
    var inverted := Inverted(funct3);
    assert (inverted == 2 || inverted == 3) == (funct3 == 2 || funct3 == 3);
    BTypeRoundTrip(inverted, rs1, rs2, 24);
  }

  lemma InvertedNegates(funct3: int, a: u64, b: u64)
    requires funct3 in {0, 1, 4, 5, 6, 7}
    ensures Taken(Inverted(funct3), a, b) == !Taken(funct3, a, b)
  {
  }

  lemma JmpAbsReads(m: Memory, a: int, rd: int, dest: u64)
    requires 0 <= rd < 0x20 && Holds(m, a, JmpAbs(rd, dest))
    ensures Read32(m, a) == Some(AUIPC_T1) && Read32(m, a + 4) == Some(LD_T1_12)
    ensures Read32(m, a + 8) == Some(JalrT1(rd)) && Read64(m, a + 12) == Some(dest)
  {
    JmpAbsParts(m, a, LE32(AUIPC_T1), LE32(LD_T1_12), LE32(JalrT1(rd)), LE64(dest));
    ReadBack32(m, a, AUIPC_T1);
    ReadBack32(m, a + 4, LD_T1_12);
    ReadBack32(m, a + 8, JalrT1(rd));
    ReadBack64(m, a + 12, dest);
  }

  lemma JmpAbsParts(m: Memory, a: int, b1: seq<byte>, b2: seq<byte>, b3: seq<byte>, b4: seq<byte>)
    requires |b1| == |b2| == |b3| == 4 && |b4| == 8
    requires Holds(m, a, b1 + b2 + b3 + b4)
    ensures Holds(m, a, b1) && Holds(m, a + 4, b2) && Holds(m, a + 8, b3) && Holds(m, a + 12, b4)
  {
    var code := b1 + b2 + b3 + b4;
    HoldsPart(m, a, code, 0, b1);
    HoldsPart(m, a, code, 4, b2);
    HoldsPart(m, a, code, 8, b3);
    HoldsPart(m, a, code, 12, b4);
  }

  // Running jmp_abs: two steps inside the block, then the JALR leaves for
  // `dest`; t1 holds `dest` and rd the address of the inline literal.
  lemma JmpAbsRuns(cpu: Cpu, s: State, rd: int, dest: u64)
    requires Rv64(cpu) && 0 <= rd < 0x20
    requires Holds(s.mem, s.pc, JmpAbs(rd, dest)) && s.pc + 20 <= TWO64
    ensures
      var s1 := s.(pc := s.pc + 4, regs := s.regs[T1 := s.pc]);
      var s2 := s.(pc := s.pc + 8, regs := s.regs[T1 := dest]);
      && Fetch(cpu, s) == Some(Auipc(T1, 0)) && Step(cpu, s) == Next(s1)
      && Fetch(cpu, s1) == Some(Ld(T1, T1, 12)) && Step(cpu, s1) == Next(s2)
      && Fetch(cpu, s2) == Some(Jalr(rd, T1, 0))
      && Step(cpu, s2) == Next(s.(pc := dest - dest % 2, regs := Set(s2.regs, rd, s.pc + 12)))
  {
    JmpAbsWords(rd);
    RunJmpAbs(cpu, s, rd, dest);
  }

  lemma RunJmpAbs(cpu: Cpu, s: State, rd: int, dest: u64)
    requires 0 <= rd < 0x20 && s.pc + 20 <= TWO64 && Holds(s.mem, s.pc, JmpAbs(rd, dest))
    requires cpu.decode(AUIPC_T1) == Auipc(T1, 0) && cpu.decode(LD_T1_12) == Ld(T1, T1, 12)
    requires cpu.decode(JalrT1(rd)) == Jalr(rd, T1, 0)
    ensures
      var s1 := s.(pc := s.pc + 4, regs := s.regs[T1 := s.pc]);
      var s2 := s.(pc := s.pc + 8, regs := s.regs[T1 := dest]);
      && Fetch(cpu, s) == Some(Auipc(T1, 0)) && Step(cpu, s) == Next(s1)
      && Fetch(cpu, s1) == Some(Ld(T1, T1, 12)) && Step(cpu, s1) == Next(s2)
      && Fetch(cpu, s2) == Some(Jalr(rd, T1, 0))
      && Step(cpu, s2) == Next(s.(pc := dest - dest % 2, regs := Set(s2.regs, rd, s.pc + 12)))
  {
    JmpAbsReads(s.mem, s.pc, rd, dest);
    var s1 := State(s.pc + 4, s.regs[T1 := s.pc], s.mem);
    var s2 := State(s.pc + 8, s.regs[T1 := dest], s.mem);
    WrapSmall(s.pc);
    StepAuipc(cpu, s, T1, 0);
    WrapSmall(s.pc + 12);
    WrapSmall(s.pc + 8);
    StepLd(cpu, s1, T1, T1, 12);
    assert s1.regs[T1 := dest] == s2.regs;
    StepJalr(cpu, s2, rd, T1);
  }

  // Running li_abs with rd != 0: the JAL hops over the literal, the LD fetches
  // it.  With rd = x0 the LD reads address 0 instead.
  lemma LiAbsRuns(cpu: Cpu, s: State, rd: int, value: u64)
    requires Rv64(cpu) && 0 <= rd < 0x20
    requires Holds(s.mem, s.pc, LiAbs(rd, value)) && s.pc + 16 <= TWO64
    ensures
      var s1 := s.(pc := s.pc + 12, regs := Set(s.regs, rd, s.pc + 4));
      && Fetch(cpu, s) == Some(Jal(rd, 12)) && Step(cpu, s) == Next(s1)
      && Fetch(cpu, s1) == Some(Ld(rd, rd, 0))
      && Step(cpu, s1) ==
         if rd == 0 && Read64(s.mem, 0).None? then Trap
         else Next(s.(pc := Wrap(s.pc + 16), regs := Set(s.regs, rd, value)))
  {
    JTypeRoundTrip(rd, 12);
    LdSelfWord(rd);
    RunLiAbs(cpu, s, EncodeJType(rd, 12), LdSelf(rd), rd, value);
  }

  lemma LiAbsReads(m: Memory, a: int, b1: seq<byte>, b2: seq<byte>, b3: seq<byte>,
                   w1: word, value: u64, w2: word)
    requires b1 == LE32(w1) && b2 == LE64(value) && b3 == LE32(w2)
    requires Holds(m, a, b1 + b2 + b3)
    ensures Read32(m, a) == Some(w1) && Read64(m, a + 4) == Some(value)
    ensures Read32(m, a + 12) == Some(w2)
  {
    HoldsPart(m, a, b1 + b2 + b3, 0, b1);
    HoldsPart(m, a, b1 + b2 + b3, 4, b2);
    HoldsPart(m, a, b1 + b2 + b3, 12, b3);
    ReadBack32(m, a, w1);
    ReadBack64(m, a + 4, value);
    ReadBack32(m, a + 12, w2);
  }

  lemma RunLiAbs(cpu: Cpu, s: State, w1: word, w2: word, rd: int, value: u64)
    requires s.pc + 16 <= TWO64 && Holds(s.mem, s.pc, LE32(w1) + LE64(value) + LE32(w2))
    requires cpu.decode(w1) == Jal(rd, 12) && cpu.decode(w2) == Ld(rd, rd, 0)
    ensures
      var s1 := s.(pc := s.pc + 12, regs := Set(s.regs, rd, s.pc + 4));
      && Fetch(cpu, s) == Some(Jal(rd, 12)) && Step(cpu, s) == Next(s1)
      && Fetch(cpu, s1) == Some(Ld(rd, rd, 0))
      && Step(cpu, s1) ==
         if rd == 0 && Read64(s.mem, 0).None? then Trap
         else Next(s.(pc := Wrap(s.pc + 16), regs := Set(s.regs, rd, value)))
  {
    LiAbsReads(s.mem, s.pc, LE32(w1), LE64(value), LE32(w2), w1, value, w2);
    var s1 := State(s.pc + 12, Set(s.regs, rd, s.pc + 4), s.mem);
    WrapSmall(s.pc + 12);
    StepJal(cpu, s, rd, 12);
    assert Fetch(cpu, s1) == Some(Ld(rd, rd, 0));
    StepLd(cpu, s1, rd, rd, 0);
    assert s1.pc + 4 == s.pc + 16;
    if rd == 0 {
      WrapSmall(0);
      assert Get(s1.regs, 0) == 0;
    } else {
      WrapSmall(s.pc + 4);
      assert Get(s1.regs, rd) == s.pc + 4;
      assert s1.regs[rd := value] == s.regs[rd := value];
    }
  }
}
