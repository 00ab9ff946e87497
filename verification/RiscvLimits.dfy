// Where RISC-V relocation stops being faithful: for each thing SiteOk asks of
// a word, the exact condition under which the emitted code is right anyway,
// or a prolog for which it is wrong.
module RiscvLimits {
  import opened Machine
  import opened Prolog
  import opened RiscvTrampoline
  import opened RiscvLayout
  import opened RiscvSimulation
  import opened RiscvTheorem
  import I = RiscvIsa
  import T = RiscvThunk

  // A linking jump that was expanded reaches its destination, but the link
  // register is right exactly when the block happens to lie eight bytes
  // before the original.
  lemma FarLinkKeptIff(cpu: I.Cpu, s: I.State, t: I.State, rd: int, imm: int, dest: u64)
    requires I.Rv64(cpu) && 0 < rd < 0x20
    requires I.Fetch(cpu, s) == Some(I.Jal(rd, imm)) && dest == Wrap(s.pc + imm) && dest % 2 == 0
    requires Holds(t.mem, t.pc, T.JmpAbs(rd, dest)) && t.pc + 20 <= TWO64
    ensures
      var a, b := I.Step(cpu, s), I.Steps(cpu, t, 3);
      && a.Next? && b.Next? && b.state.pc == a.state.pc
      && (I.Get(b.state.regs, rd) == I.Get(a.state.regs, rd) <==> t.pc + 12 == Wrap(s.pc + 4))
  {
    FarLink(cpu, t, rd, dest);
    LinkOf(cpu, s, I.Jal(rd, imm));
    JalLeads(cpu, s, rd, imm);
  }

  lemma JalLeads(cpu: I.Cpu, s: I.State, rd: int, imm: int)
    requires I.Fetch(cpu, s) == Some(I.Jal(rd, imm))
    ensures I.Step(cpu, s).Next? && I.Step(cpu, s).state.pc == Wrap(s.pc + imm)
  {
  }

  lemma FarLink(cpu: I.Cpu, t: I.State, rd: int, dest: u64)
    requires I.Rv64(cpu) && 0 < rd < 0x20 && dest % 2 == 0
    requires Holds(t.mem, t.pc, T.JmpAbs(rd, dest)) && t.pc + 20 <= TWO64
    ensures
      var b := I.Steps(cpu, t, 3);
      b.Next? && b.state.pc == dest && I.Get(b.state.regs, rd) == t.pc + 12
  {
    T.JmpAbsRuns(cpu, t, rd, dest);
    var t1 := t.(pc := t.pc + 4, regs := t.regs[T.T1 := t.pc]);
    var t2 := t.(pc := t.pc + 8, regs := t.regs[T.T1 := dest]);
    assert I.Steps(cpu, t2, 1) == I.Step(cpu, t2);
    assert I.Steps(cpu, t1, 2) == I.Steps(cpu, t2, 1);
  }

  // A copied linking jump links to its own neighbour.
  lemma CopiedLinkKeptIff(cpu: I.Cpu, s: I.State, t: I.State, ins: I.Instr)
    requires (ins.Jal? || ins.Jalr?) && 0 < ins.rd < 0x20
    requires I.Fetch(cpu, s) == Some(ins) && I.Fetch(cpu, t) == Some(ins)
    ensures
      var a, b := I.Step(cpu, s), I.Step(cpu, t);
      && a.Next? && b.Next?
      && (I.Get(b.state.regs, ins.rd) == I.Get(a.state.regs, ins.rd) <==> t.pc == s.pc)
  {
    SameLink(s.pc, t.pc);
    LinkOf(cpu, s, ins);
    LinkOf(cpu, t, ins);
  }

  lemma SameLink(a: u64, b: u64)
    ensures Wrap(a + 4) == Wrap(b + 4) <==> a == b
  {
  }

  lemma LinkOf(cpu: I.Cpu, s: I.State, ins: I.Instr)
    requires (ins.Jal? || ins.Jalr?) && 0 < ins.rd < 0x20 && I.Fetch(cpu, s) == Some(ins)
    ensures I.Step(cpu, s).Next? && I.Get(I.Step(cpu, s).state.regs, ins.rd) == Wrap(s.pc + 4)
  {
  }

  // AUIPC x0 is a no-op; its expansion is one exactly when the eight bytes at
  // address 0 are mapped, and traps otherwise.
  lemma AuipcZeroKeptIff(cpu: I.Cpu, s: I.State, t: I.State, disp: int)
    requires I.Rv64(cpu) && I.Fetch(cpu, s) == Some(I.Auipc(0, disp))
    requires Holds(t.mem, t.pc, T.LiAbs(0, Wrap(s.pc + disp))) && t.pc + 16 <= TWO64
    ensures I.Step(cpu, s) == I.Next(s.(pc := Wrap(s.pc + 4)))
    ensures I.Steps(cpu, t, 2) ==
      if Read64(t.mem, 0).Some? then I.Next(t.(pc := Wrap(t.pc + 16))) else I.Trap
  {
    T.LiAbsRuns(cpu, t, 0, Wrap(s.pc + disp));
    var t1 := t.(pc := t.pc + 12);
    assert I.Steps(cpu, t1, 1) == I.Step(cpu, t1);
  }

  // A copied transfer from word i to word j lands on block j exactly when no
  // block between them grew.  The builder guards this for j > i only.
  lemma TransferLandsIff(p: Program, i: nat, j: nat, imm: int)
    requires p.Valid() && i < p.N() && j < p.N() && imm == 4 * j - 4 * i
    ensures
      var lo, hi := if i < j then i else j, if i < j then j else i;
      Wrap(p.At(i) + imm) == p.At(j) <==> forall k | lo <= k < hi :: p.built.blocks[k].Size() == 4
  {
    var lo, hi := if i < j then i else j, if i < j then j else i;
    OffPrefix(p, i);
    OffPrefix(p, j);
    BlockInside(p, i);
    BlockInside(p, j);
    DisplacementKept(p.built.blocks, lo, hi);
    OffMonotone(p.built.blocks, lo, hi);
    if j < i {
      WrapSmall(p.At(i) + imm);
    } else {
      WrapSmall(p.At(i) + imm);
    }
  }

  // A jump that stops short is the last thing in the trampoline and leads
  // behind its end.
  lemma StopsShortEscapes(dec: I.Decoder, p: Program, i: nat, dest: u64)
    requires I.IsRv64(dec) && p.Valid() && i < p.N() && Transfers(dec, p.ws[i], p.target + 4 * i, dest)
    requires InProlog(p.target, p.margin, dest) && p.target + 4 * (i + 1) <= dest
    requires StopsShort(dec, p.ws, p.target, p.margin, i, dest)
    ensures i == p.N() - 1 && |p.Blocks()| == p.N()
    ensures p.At(i) + (dest - (p.target + 4 * i)) >= p.Top()
  {
    InternalTarget(dec, p.ws, p.target, p.margin, p.built, i, dest);
    var pr := SiteMeans(dec, p.ws, p.target, p.margin, p.built, i);
    assert FinishedAt(p.ws, p.target, p.margin, i);
  }

  const AUIPC_T0: word := 0x0000_0297
  const BEQ_BACK_4: word := 0xFE00_0EE3
  const J_FORWARD_4: word := 0x0040_006F
  const NOP: word := 0x0000_0013

  // AUIPC t0, 0 and a branch back to it: accepted with the margin of 8 that
  // prolog_margin returns, but the branch lands in the middle of the block.
  lemma BackwardBranchBroken(target: u64)
    requires target + 100 < TWO64
    ensures
      var ws, blocks := [AUIPC_T0, BEQ_BACK_4], [T.LoadImm(5, target), T.Copy(BEQ_BACK_4)];
      && ReadableWords(ws, target, 8)
      && BuildFrom(ws, target, 8, None, []) == Some(Built(blocks, true))
      && Off(blocks, 1) - 4 == 12
  {
    var ws, blocks := [AUIPC_T0, BEQ_BACK_4], [T.LoadImm(5, target), T.Copy(BEQ_BACK_4)];
    WrapSmall(target);
    var p0 := Processed(T.LoadImm(5, target), false, None);
    var p1 := Processed(T.Copy(BEQ_BACK_4), false, Some(target));
    BackwardBranchMeans();
    assert Process(AUIPC_T0, target, target, 8, None) == Some(p0);
    assert Process(BEQ_BACK_4, target + 4, target, 8, None) == Some(p1);
    assert ws[0] == AUIPC_T0 && ws[1] == BEQ_BACK_4;
    assert BuildFrom(ws, target, 8, None, [blocks[0]]) == Some(Built([blocks[0]] + [blocks[1]], true));
    assert [] + [blocks[0]] == [blocks[0]];
    assert BuildFrom(ws, target, 8, None, []) == BuildFrom(ws, target, 8, None, [] + [blocks[0]]);
    assert [blocks[0]] + [blocks[1]] == blocks;
    assert Off(blocks, 0) == 0;
  }

  lemma BackwardBranchMeans()
    ensures PageDisp(AUIPC_T0) == 0 && DecodeBType(BEQ_BACK_4) == -4
  {
    assert AUIPC_T0 / 0x80 / 0x20 == 0;
    DecodeBMeaning(BEQ_BACK_4);
    BackwardBranchFields();
  }

  lemma BackwardBranchFields()
    ensures I.Split(BEQ_BACK_4) == I.Fields(0x63, 0x1D, 0, 0, 0, 0x7F)
  {
    var a := BEQ_BACK_4 / 0x80;
    assert a == 0x1FC_001D && a / 0x20 == 0xF_E000;
  }

  // A jump to the next word: the builder stops there, and the trampoline is a
  // jump to whatever follows it.
  lemma ForwardJumpBroken(target: u64)
    requires target + 100 < TWO64
    ensures
      var ws := [J_FORWARD_4, NOP];
      && ReadableWords(ws, target, 8)
      && BuildFrom(ws, target, 8, None, []) == Some(Built([T.Copy(J_FORWARD_4)], false))
      && I.Decode(J_FORWARD_4) == I.Jal(0, 4)
  {
    var ws := [J_FORWARD_4, NOP];
    ForwardJumpProcess(target);
    assert [] + [T.Copy(J_FORWARD_4)] == [T.Copy(J_FORWARD_4)];
  }

  lemma ForwardJumpProcess(target: u64)
    requires target + 100 < TWO64
    ensures I.Decode(J_FORWARD_4) == I.Jal(0, 4)
    ensures Process(J_FORWARD_4, target, target, 8, None) ==
      Some(Processed(T.Copy(J_FORWARD_4), true, Some(target + 4)))
  {
    ForwardJumpMeans();
    WrapSmall(target + 4);
  }

  lemma ForwardJumpMeans()
    ensures DecodeJType(J_FORWARD_4) == 4 && I.Decode(J_FORWARD_4) == I.Jal(0, 4)
  {
    assert J_FORWARD_4 / 0x80 / 0x20 == 0x400;
    DecodeJMeaning(J_FORWARD_4);
  }

  // The four bytes from the middle of a word on, and those from the middle of
  // its copy on, when the copy is followed by `next`.
  lemma Halves(m: Memory, x: int, t: Memory, y: int, w: word, next: seq<byte>)
    requires Holds(m, x, LE32(w)) && x + 4 in m && x + 5 in m
    requires Holds(t, y, LE32(w)) && Holds(t, y + 4, next) && |next| >= 2
    ensures Read32(m, x + 2).Some? && Read32(t, y + 2).Some?
    ensures Read32(m, x + 2) == Read32(t, y + 2) <==> m[x + 4] == next[0] && m[x + 5] == next[1]
  {
    var c := LE32(w);
    assert ByteIs(m, x + 2, c[2]) && ByteIs(m, x + 3, c[3]) && ByteIs(t, y + 2, c[2]) && ByteIs(t, y + 3, c[3]);
    assert ByteIs(t, y + 4 + 0, next[0]) && ByteIs(t, y + 4 + 1, next[1]);
    SameEnds(c[2], c[3], m[x + 4], m[x + 5], next[0], next[1]);
  }

  lemma SameEnds(b0: byte, b1: byte, p: byte, q: byte, r: byte, s: byte)
    ensures Join32(b0, b1, p, q) == Join32(b0, b1, r, s) <==> p == r && q == s
  {
  }

  // A block of four bytes is its word.
  lemma SmallIsCopy(dec: I.Decoder, p: Program, j: nat)
    requires I.IsRv64(dec) && p.Valid() && j < p.N() && p.built.blocks[j].Size() == 4
    ensures p.built.blocks[j] == T.Copy(p.ws[j])
  {
    var pr := SiteMeans(dec, p.ws, p.target, p.margin, p.built, j);
  }

  // Word i jumps forward into the middle of word j, and does not stop the builder
  // before that.
  ghost predicate Amid(dec: I.Decoder, p: Program, i: nat, j: nat)
    requires p.Valid() && i < p.N()
  {
    var dest := p.target + 4 * j + 2;
    && i <= j < p.N() && Transfers(dec, p.ws[i], p.target + 4 * i, dest) && InProlog(p.target, p.margin, dest)
    && !StopsShort(dec, p.ws, p.target, p.margin, i, dest)
  }

  lemma LandsAmid(dec: I.Decoder, p: Program, i: nat, j: nat)
    requires I.IsRv64(dec) && p.Valid() && i < p.N() && Amid(dec, p, i, j)
    ensures p.Blocks()[j] == T.Copy(p.ws[j])
    ensures Wrap(p.At(i) + (p.target + 4 * j + 2 - (p.target + 4 * i))) == p.At(j) + 2
  {
    forall k | i <= k <= j ensures p.built.blocks[k].Size() == 4 {
      ForwardSpan(dec, p.ws, p.target, p.margin, p.built, i, p.target + 4 * j + 2, k);
    }
    DisplacementKept(p.built.blocks, i, j);
    OffPrefix(p, i);
    OffPrefix(p, j);
    SmallIsCopy(dec, p, j);
    BlockInside(p, j);
    WrapSmall(p.At(j) + 2);
  }

  lemma GoesOn(dec: I.Decoder, p: Program, j: nat)
    requires I.IsRv64(dec) && p.Valid() && j < p.N()
    requires
      InBranch(BranchAt(p.ws, p.target, p.margin, j), p.target + 4 * j) ||
      (dec(p.ws[j]).Jal? && dec(p.ws[j]).rd != 0) || dec(p.ws[j]).Branch?
    ensures !FinishedAt(p.ws, p.target, p.margin, j)
  {
    var pr := SiteMeans(dec, p.ws, p.target, p.margin, p.built, j);
  }

  // The builder goes on behind word j.
  lemma NotTheLast(dec: I.Decoder, p: Program, i: nat, j: nat)
    requires I.IsRv64(dec) && p.Valid() && i < p.N() && Amid(dec, p, i, j)
    ensures j + 1 < |p.Blocks()|
  {
    if i < j {
      Tracked(dec, p, i, j);
      BranchMonotone(dec, p.ws, p.target, p.margin, p.built, i + 1, j);
    }
    GoesOn(dec, p, j);
  }

  lemma Tracked(dec: I.Decoder, p: Program, i: nat, j: nat)
    requires I.IsRv64(dec) && p.Valid() && i < p.N() && Amid(dec, p, i, j)
    ensures InBranch(BranchAt(p.ws, p.target, p.margin, i + 1), p.target + 4 * j)
  {
    var pr := SiteMeans(dec, p.ws, p.target, p.margin, p.built, i);
  }

  lemma CopyAndNext(p: Program, j: nat, t: Memory)
    requires p.Valid() && InTrampoline(p, t) && j + 1 < |p.Blocks()| && p.Blocks()[j] == T.Copy(p.ws[j])
    ensures Holds(t, p.At(j), LE32(p.ws[j])) && BlockAt(t, p.base, p.Blocks(), j + 1)
    ensures Holds(t, p.At(j) + 4, p.Blocks()[j + 1].Encode())
  {
    BlockInside(p, j);
    BlockHeld(p, t, j);
    BlockHeld(p, t, j + 1);
  }

  // Destinations that are no word.  A forward transfer into the middle of word j
  // is copied, and lands in the middle of its copy.  The prolog goes on there
  // with two bytes of what follows the word, the trampoline with two bytes of
  // the next block: the four bytes fetched are the same exactly when those are.
  lemma {:induction false} OffBoundaryIff(dec: I.Decoder, p: Program, i: nat, j: nat, m: Memory, t: Memory)
    requires I.IsRv64(dec) && p.Valid() && i < p.N() && Amid(dec, p, i, j)
    requires InTrampoline(p, t) && Holds(m, p.target + 4 * j, LE32(p.ws[j]))
    requires p.target + 4 * j + 4 in m && p.target + 4 * j + 5 in m
    ensures j + 1 < |p.Blocks()| && BlockAt(t, p.base, p.Blocks(), j + 1)
    ensures
      var source, dest := p.target + 4 * i, p.target + 4 * j + 2;
      var landing, next := Wrap(p.At(i) + (dest - source)), p.Blocks()[j + 1].Encode();
      && landing == p.At(j) + 2 && Read32(m, dest).Some? && Read32(t, landing).Some?
      && (Read32(m, dest) == Read32(t, landing) <==> m[dest + 2] == next[0] && m[dest + 3] == next[1])
  {
    LandsAmid(dec, p, i, j);
    NotTheLast(dec, p, i, j);
    CopyAndNext(p, j, t);
    Halves(m, p.target + 4 * j, t, p.At(j), p.ws[j], p.Blocks()[j + 1].Encode());
  }

  const BEQ_FORWARD_6: word := 0x0000_0363

  // A branch into the middle of the second word is accepted and copied.
  lemma OffBoundaryBuilds(target: u64)
    requires target + 100 < TWO64
    ensures
      var ws := [BEQ_FORWARD_6, NOP];
      && ReadableWords(ws, target, 8)
      && BuildFrom(ws, target, 8, None, []) == Some(Built([T.Copy(BEQ_FORWARD_6), T.Copy(NOP)], true))
      && I.Decode(BEQ_FORWARD_6) == I.Branch(0, 0, 0, 6)
  {
    var ws := [BEQ_FORWARD_6, NOP];
    var b0, b1 := T.Copy(BEQ_FORWARD_6), T.Copy(NOP);
    OffBoundaryProcess(target);
    assert [b0] + [b1] == [b0, b1];
    assert BuildFrom(ws, target, 8, Some(target + 6), [b0]) == Some(Built([b0, b1], true));
    assert [] + [b0] == [b0];
  }

  lemma OffBoundaryProcess(target: u64)
    requires target + 100 < TWO64
    ensures I.Decode(BEQ_FORWARD_6) == I.Branch(0, 0, 0, 6)
    ensures Process(BEQ_FORWARD_6, target, target, 8, None) ==
      Some(Processed(T.Copy(BEQ_FORWARD_6), false, Some(target + 6)))
    ensures Process(NOP, target + 4, target, 8, Some(target + 6)) ==
      Some(Processed(T.Copy(NOP), false, Some(target + 6)))
  {
    assert BEQ_FORWARD_6 / 0x80 == 6;
    assert I.Split(BEQ_FORWARD_6) == I.Fields(0x63, 6, 0, 0, 0, 0);
    DecodeBMeaning(BEQ_FORWARD_6);
    WrapSmall(target + 6);
  }

  const BEQ_FORWARD_4: word := 0x0000_0263
  const AUIPC_T0_NEXT: word := 0x0000_0297

  // The hypotheses are met by a prolog with an internal branch and an
  // instruction that grows.
  lemma RelocatableExample(dec: I.Decoder, target: u64, base: u64) returns (p: Program)
    requires I.IsRv64(dec) && target % 2 == 0 && target + 100 < TWO64 && base + 100 < TWO64
    ensures p == Program(target, 8, [BEQ_FORWARD_4, AUIPC_T0_NEXT],
                         Built([T.Copy(BEQ_FORWARD_4), T.LoadImm(5, target + 4)], true), base)
    ensures BuildFrom(p.ws, target, 8, None, []) == Some(p.built) && Relocatable(dec, p) && OnlyForward(dec, p)
  {
    var ws, blocks := [BEQ_FORWARD_4, AUIPC_T0_NEXT], [T.Copy(BEQ_FORWARD_4), T.LoadImm(5, target + 4)];
    p := Program(target, 8, ws, Built(blocks, true), base);
    ExampleMeans();
    WrapSmall(target + 4);
    ExampleBuilds(ws, blocks, target);
    BuildIsAccepted(ws, target, 8);
    assert Off(p.Blocks(), 0) == 0 && Off(p.Blocks(), 1) == 4 && Off(p.Blocks(), 2) == 20;
    assert Off(p.Blocks(), 3) == 40;
    assert p.Valid();
    ExampleSites(dec, p);
  }

  lemma ExampleMeans()
    ensures DecodeBType(BEQ_FORWARD_4) == 4 && PageDisp(AUIPC_T0_NEXT) == 0
    ensures I.Decode(BEQ_FORWARD_4) == I.Branch(0, 0, 0, 4) && I.Decode(AUIPC_T0_NEXT) == I.Auipc(5, 0)
  {
    var a := BEQ_FORWARD_4 / 0x80;
    assert a == 4 && a / 0x20 == 0;
    assert I.Split(BEQ_FORWARD_4) == I.Fields(0x63, 4, 0, 0, 0, 0);
    DecodeBMeaning(BEQ_FORWARD_4);
    assert AUIPC_T0_NEXT / 0x80 == 5;
  }

  lemma ExampleBuilds(ws: seq<word>, blocks: seq<T.Block>, target: u64)
    requires ws == [BEQ_FORWARD_4, AUIPC_T0_NEXT] && target + 100 < TWO64
    requires blocks == [T.Copy(BEQ_FORWARD_4), T.LoadImm(5, target + 4)]
    ensures ReadableWords(ws, target, 8) && BuildFrom(ws, target, 8, None, []) == Some(Built(blocks, true))
  {
    ExampleProcess(target);
    assert [blocks[0]] + [blocks[1]] == blocks;
    assert BuildFrom(ws, target, 8, Some(target + 4), [blocks[0]]) == Some(Built(blocks, true));
    assert [] + [blocks[0]] == [blocks[0]];
  }

  lemma ExampleProcess(target: u64)
    requires target + 100 < TWO64
    ensures Process(BEQ_FORWARD_4, target, target, 8, None) ==
      Some(Processed(T.Copy(BEQ_FORWARD_4), false, Some(target + 4)))
    ensures Process(AUIPC_T0_NEXT, target + 4, target, 8, Some(target + 4)) ==
      Some(Processed(T.LoadImm(5, target + 4), false, Some(target + 4)))
  {
    ExampleMeans();
    WrapSmall(target + 4);
  }

  lemma ExampleSites(dec: I.Decoder, p: Program)
    requires I.IsRv64(dec) && p.Valid() && p.margin == 8 && p.N() == 2 && p.target + 100 < TWO64
    requires p.ws == [BEQ_FORWARD_4, AUIPC_T0_NEXT]
    ensures Relocatable(dec, p) && OnlyForward(dec, p)
  {
    ExampleMeans();
    WrapSmall(p.target + 4);
    assert dec(p.ws[0]) == I.Decode(p.ws[0]) && dec(p.ws[1]) == I.Decode(p.ws[1]);
    assert SiteOk(dec, p, 0) && SiteOk(dec, p, 1);
  }
}
