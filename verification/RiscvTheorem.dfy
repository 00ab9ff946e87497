// Main results on RISC-V relocation: the trampoline of an accepted prolog does
// what the prolog does.
module RiscvTheorem {
  import opened Machine
  import opened Prolog
  import opened RiscvTrampoline
  import opened RiscvLayout
  import opened RiscvRun
  import opened RiscvSimulation
  import I = RiscvIsa
  import T = RiscvThunk

  // An internal transfer from word i to `dest` is on a word boundary, and if
  // it goes backward crosses only blocks that did not grow.
  ghost predicate TargetOk(p: Program, i: nat, dest: u64)
    requires p.Valid() && i < p.N()
  {
    p.target <= dest < p.End() ==>
      var j := (dest - p.target) / 4;
      dest == p.target + 4 * j && forall k | j <= k < i :: p.built.blocks[k].Size() == 4
  }

  // What the relocation asks of word i: no link register, no AUIPC into x0,
  // well-placed internal targets, and no jump that stops short of its target.
  ghost predicate SiteOk(dec: I.Decoder, p: Program, i: nat)
    requires p.Valid() && i < p.N()
  {
    var pc := p.target + 4 * i;
    match dec(p.ws[i])
    case Jal(rd, imm) =>
      var dest := Wrap(pc + imm);
      && rd == 0 && TargetOk(p, i, dest)
      && !(InProlog(p.target, p.margin, dest) && StopsShort(dec, p.ws, p.target, p.margin, i, dest))
    case Jalr(rd, _, _) => rd == 0
    case Auipc(rd, _) => rd != 0
    case Branch(_, _, _, imm) => TargetOk(p, i, Wrap(pc + imm))
    case _ => true
  }

  ghost predicate Relocatable(dec: I.Decoder, p: Program) {
    p.Valid() && p.margin > 0 && forall i {:trigger SiteOk(dec, p, i)} :: 0 <= i < p.N() ==> SiteOk(dec, p, i)
  }

  // Displacements are even, so destinations of an even program are.
  lemma EvenDest(pc: u64, imm: int)
    requires pc % 2 == 0 && imm % 2 == 0
    ensures Wrap(pc + imm) % 2 == 0
  {
    var q := (pc + imm) / 0x1_0000_0000_0000_0000;
    assert Wrap(pc + imm) == pc + imm - q * 0x1_0000_0000_0000_0000;
  }

  lemma EvenImm(dec: I.Decoder, w: word)
    requires I.IsRv64(dec)
    ensures match dec(w)
            case Jal(_, imm) => imm % 2 == 0
            case Branch(_, _, _, imm) => imm % 2 == 0
            case _ => true
  {
    EvenJ(w);
    EvenB(I.Split(w));
    var ins := I.Decode(w);
  }

  lemma EvenJ(w: word)
    ensures I.ImmJ(w) % 2 == 0
  {
    var b := w / 0x80 / 0x20;
    var d := b / 0x100 / 2;
    assert I.ImmJ(w) == 2 * (d % 0x400 + 0x400 * (b / 0x100 % 2) + 0x800 * (b % 0x100) - 0x8_0000 * (d / 0x400));
  }

  lemma EvenB(f: I.Fields)
    ensures I.ImmB(f) % 2 == 0
  {
    assert I.ImmB(f) ==
      2 * (f.rd / 2 + 0x10 * (f.funct7 % 0x40) + 0x400 * (f.rd % 2) - 0x800 * (f.funct7 / 0x40));
  }

  // The block an internal transfer leads to, and that it is as far away as
  // the word it leads to.
  lemma InternalTransfer(dec: I.Decoder, p: Program, i: nat, dest: u64) returns (j: nat)
    requires I.IsRv64(dec)
    requires p.Valid() && i < p.N() && Transfers(dec, p.ws[i], p.target + 4 * i, dest)
    requires InProlog(p.target, p.margin, dest) && TargetOk(p, i, dest)
    requires !StopsShort(dec, p.ws, p.target, p.margin, i, dest)
    ensures j < p.N() && dest == p.target + 4 * j && p.At(j) - p.At(i) == 4 * (j - i)
  {
    InternalTarget(dec, p.ws, p.target, p.margin, p.built, i, dest);
    j := (dest - p.target) / 4;
    OffPrefix(p, i);
    OffPrefix(p, j);
    if i < j {
      ForwardLayout(dec, p.ws, p.target, p.margin, p.built, i, j);
    } else {
      DisplacementKept(p.built.blocks, j, i);
    }
  }

  // A destination outside the margin is outside the disassembled bytes.
  lemma FarTarget(p: Program, i: nat, dest: u64)
    requires p.Valid() && p.margin > 0 && i < p.N() && TargetOk(p, i, dest)
    requires !InProlog(p.target, p.margin, dest)
    ensures !(p.target <= dest < p.End())
  {
  }

  // What a direct transfer became: a copy that leads to block j ...
  lemma NearPlan(dec: I.Decoder, p: Program, i: nat, dest: u64) returns (j: nat)
    requires I.IsRv64(dec)
    requires p.Valid() && i < p.N() && Transfers(dec, p.ws[i], p.target + 4 * i, dest)
    requires SiteOk(dec, p, i) && InProlog(p.target, p.margin, dest)
    ensures p.built.blocks[i] == T.Copy(p.ws[i])
    ensures j < p.N() && dest == p.target + 4 * j && p.At(j) - p.At(i) == 4 * (j - i)
  {
    NearBlock(dec, p, i, dest);
    j := InternalTransfer(dec, p, i, dest);
  }

  lemma NearBlock(dec: I.Decoder, p: Program, i: nat, dest: u64)
    requires I.IsRv64(dec)
    requires p.Valid() && i < p.N() && Transfers(dec, p.ws[i], p.target + 4 * i, dest)
    requires InProlog(p.target, p.margin, dest)
    ensures p.built.blocks[i] == T.Copy(p.ws[i])
  {
    var pr := SiteMeans(dec, p.ws, p.target, p.margin, p.built, i);
  }

  // ... or an expansion that leads out.
  lemma FarPlan(dec: I.Decoder, p: Program, i: nat, dest: u64)
    requires I.IsRv64(dec)
    requires p.Valid() && p.margin > 0 && i < p.N() && Transfers(dec, p.ws[i], p.target + 4 * i, dest)
    requires SiteOk(dec, p, i) && !InProlog(p.target, p.margin, dest)
    ensures dest % 2 == 0 && !(p.target <= dest < p.End())
    ensures dec(p.ws[i]).Jal? ==> p.built.blocks[i] == T.Jump(0, dest)
    ensures dec(p.ws[i]).Branch? ==> p.built.blocks[i] == T.Far(p.ws[i], dest)
  {
    var pr := SiteMeans(dec, p.ws, p.target, p.margin, p.built, i);
    FarTarget(p, i, dest);
    EvenImm(dec, p.ws[i]);
    EvenDest(p.target + 4 * i, dec(p.ws[i]).imm);
  }

  // The fields of a branch.
  lemma BranchPlan(dec: I.Decoder, p: Program, i: nat)
    requires I.IsRv64(dec) && p.Valid() && i < p.N() && dec(p.ws[i]).Branch?
    ensures
      var f, ins := I.Split(p.ws[i]), dec(p.ws[i]);
      && ins.funct3 in {0, 1, 4, 5, 6, 7}
      && f.funct3 == ins.funct3 && f.rs1 == ins.rs1 && f.rs2 == ins.rs2
  {
    var pr := SiteMeans(dec, p.ws, p.target, p.margin, p.built, i);
  }

  // ---- one step -------------------------------------------------------------

  // The bytes of the prolog word at s, if s is inside.
  ghost predicate WordHeld(p: Program, s: I.State) {
    Inside(p.target, p.End(), s) ==>
      var i := (s.pc - p.target) / 4;
      i < |p.ws| && Holds(s.mem, p.target + 4 * i, LE32(p.ws[i]))
  }

  // A word that lets control through to the next one is not the last, or is
  // followed by the continuation jump.
  lemma LastWord(dec: I.Decoder, p: Program, i: nat)
    requires I.IsRv64(dec)
    requires p.Valid() && i < p.N()
    requires var ins := dec(p.ws[i]); ins.Ld? || ins.Other? || ins.Auipc? || ins.Branch?
    ensures i + 1 == p.N() ==> p.built.jump
  {
    var pr := SiteMeans(dec, p.ws, p.target, p.margin, p.built, i);
  }

  lemma SimulateStep(cpu: I.Cpu, p: Program, d: set<int>, i: nat, s: I.State, t: I.State)
    returns (k: nat, u: I.State)
    requires I.Rv64(cpu) && Relocatable(cpu.decode, p) && Aligned(p, d, i, s, t)
    requires WordHeld(p, s) && InTrampoline(p, t.mem) && Untouched(cpu, p, d, s)
    ensures Matches(cpu, p, d, s, t, k, u)
  {
    var w, dec := p.ws[i], cpu.decode;
    var ins := dec(w);
    assert (s.pc - p.target) / 4 == i;
    FetchCopy(cpu, s, w);
    assert SiteOk(dec, p, i);
    var pr := SiteMeans(dec, p.ws, p.target, p.margin, p.built, i);
    match ins
    case Jalr(rd, rs1, imm) => k, u := CopyJalr(cpu, p, d, i, w, rs1, imm, s, t);
    case Jal(rd, imm) => k, u := SimulateTransfer(cpu, p, d, i, ins, s, t);
    case Branch(_, _, _, _) => k, u := SimulateTransfer(cpu, p, d, i, ins, s, t);
    case Auipc(rd, disp) =>
      LastWord(dec, p, i);
      k, u := LoadAuipc(cpu, p, d, i, rd, disp, s, t);
    case Illegal => k, u := SimulateIllegal(cpu, p, d, i, w, pr, s, t);
    case _ =>
      LastWord(dec, p, i);
      k, u := CopyPlain(cpu, p, d, i, w, ins, s, t);
  }

  lemma SimulateTransfer(cpu: I.Cpu, p: Program, d: set<int>, i: nat, ins: I.Instr, s: I.State, t: I.State)
    returns (k: nat, u: I.State)
    requires Stand(cpu, p, d, i, ins, s, t) && ins == cpu.decode(p.ws[i])
    requires ins.Branch? || (ins.Jal? && ins.rd == 0)
    requires p.margin > 0 && SiteOk(cpu.decode, p, i)
    ensures Matches(cpu, p, d, s, t, k, u)
  {
    var dest := Wrap(s.pc + ins.imm);
    if ins.Branch? {
      LastWord(cpu.decode, p, i);
      BranchPlan(cpu.decode, p, i);
    }
    if InProlog(p.target, p.margin, dest) {
      var j := NearPlan(cpu.decode, p, i, dest);
      if ins.Jal? {
        k, u := CopyJal(cpu, p, d, i, j, p.ws[i], ins.imm, s, t);
      } else {
        k, u := CopyBranch(cpu, p, d, i, j, p.ws[i], ins, s, t);
      }
    } else {
      FarPlan(cpu.decode, p, i, dest);
      if ins.Jal? {
        k, u := FarJal(cpu, p, d, i, dest, ins.imm, s, t);
      } else {
        FarHeld(p, t.mem, i, p.ws[i], dest, ins);
        k, u := FarBranch(cpu, p, d, i, dest, ins, s, t);
      }
    }
  }

  lemma SimulateIllegal(cpu: I.Cpu, p: Program, d: set<int>, i: nat, w: word, pr: Processed, s: I.State, t: I.State)
    returns (k: nat, u: I.State)
    requires Stand(cpu, p, d, i, I.Illegal, s, t)
    requires w == p.ws[i] && cpu.decode(w) == I.Illegal && pr.block == p.built.blocks[i]
    requires pr.block == T.Copy(w) ||
             (pr.block.Far? && pr.block.instr == w && I.Split(w).funct3 in {2, 3})
    ensures Matches(cpu, p, d, s, t, k, u)
  {
    BlockHeld(p, t.mem, i);
    if pr.block == T.Copy(w) {
      ReadBack32(t.mem, t.pc, w);
      k, u := IllegalTraps(cpu, p, d, i, w, s, t);
    } else {
      var f := I.Split(w);
      var skip := T.SkipWord(f.funct3, f.rs1, f.rs2);
      FarParts(t.mem, t.pc, LE32(skip), T.JmpAbs(0, pr.block.dest), skip);
      T.SkipWordDecodes(f.funct3, f.rs1, f.rs2);
      k, u := IllegalTraps(cpu, p, d, i, skip, s, t);
    }
  }

  // ---- whole runs -----------------------------------------------------------

  // Along `fuel` prolog steps from s the words of the prolog stay in place, no
  // step overwrites the trampoline and none depends on the addresses in d.
  ghost predicate Tame(cpu: I.Cpu, p: Program, d: set<int>, s: I.State, fuel: nat)
    requires p.Valid()
    decreases fuel
  {
    && WordHeld(p, s)
    && (fuel > 0 && Inside(p.target, p.End(), s) ==>
          && Untouched(cpu, p, d, s)
          && match I.Step(cpu, s)
             case Trap => true
             case Next(s') => AtJalr(cpu, s) || Tame(cpu, p, d, s', fuel - 1))
  }

  // A prolog run and what the trampoline makes of it: still running, the same
  // trap, or the same exit.
  ghost predicate Answers(cpu: I.Cpu, p: Program, d: set<int>, r: Result, t: I.State, fuel: nat, g: nat) {
    var q := Run(cpu, p.base, p.Top(), t, g);
    match r
    case Running => Run(cpu, p.base, p.Top(), t, fuel) == Running
    case Trapped => q == Trapped
    case Left(s') => q.Left? && Similar(s', q.state, d)
  }

  lemma {:induction false} SimulateRun(cpu: I.Cpu, p: Program, d: set<int>, i: nat, s: I.State, t: I.State, fuel: nat)
    returns (g: nat)
    requires I.Rv64(cpu) && Relocatable(cpu.decode, p) && Aligned(p, d, i, s, t)
    requires InTrampoline(p, t.mem) && Tame(cpu, p, d, s, fuel)
    ensures Answers(cpu, p, d, Run(cpu, p.target, p.End(), s, fuel), t, fuel, g)
    decreases fuel, 1
  {
    BlockInside(p, i);
    if fuel == 0 {
      return 0;
    }
    var k, u := SimulateStep(cpu, p, d, i, s, t);
    if I.Step(cpu, s).Trap? || AtJalr(cpu, s) || !Inside(p.target, p.End(), I.Step(cpu, s).state) {
      LastStep(cpu, p, d, s, t, k, u, fuel);
      g := k;
    } else {
      var s' := I.Step(cpu, s).state;
      var j: nat :| Aligned(p, d, j, s', u);
      TrampolineAgrees(p, s'.mem, u.mem, d);
      g := SimulateRest(cpu, p, d, j, s, s', t, k, u, fuel);
    }
  }

  lemma {:induction false} SimulateRest(cpu: I.Cpu, p: Program, d: set<int>, j: nat, s: I.State, s': I.State,
                                        t: I.State, k: nat, u: I.State, fuel: nat) returns (g: nat)
    requires I.Rv64(cpu) && Relocatable(cpu.decode, p) && Aligned(p, d, j, s', u)
    requires InTrampoline(p, u.mem) && fuel > 0 && Tame(cpu, p, d, s', fuel - 1)
    requires Run(cpu, p.target, p.End(), s, fuel) == Run(cpu, p.target, p.End(), s', fuel - 1)
    requires k > 0 && Glides(cpu, p.base, p.Top(), t, k, u)
    ensures Answers(cpu, p, d, Run(cpu, p.target, p.End(), s, fuel), t, fuel, g)
    decreases fuel, 0
  {
    var h := SimulateRun(cpu, p, d, j, s', u, fuel - 1);
    MoreSteps(cpu, p, d, Run(cpu, p.target, p.End(), s', fuel - 1), t, k, u, fuel, h);
    g := k + h;
  }

  lemma LastStep(cpu: I.Cpu, p: Program, d: set<int>, s: I.State, t: I.State, k: nat, u: I.State, fuel: nat)
    requires p.Valid() && fuel > 0 && Inside(p.target, p.End(), s) && Matches(cpu, p, d, s, t, k, u)
    requires I.Step(cpu, s).Trap? || AtJalr(cpu, s) || !Inside(p.target, p.End(), I.Step(cpu, s).state)
    ensures Answers(cpu, p, d, Run(cpu, p.target, p.End(), s, fuel), t, fuel, k)
  {
    GlideRun(cpu, p.base, p.Top(), t, k - 1, u, 1);
    var q := Run(cpu, p.base, p.Top(), u, 1);
    assert Run(cpu, p.base, p.Top(), t, k) == q;
    var r := Run(cpu, p.target, p.End(), s, fuel);
    if I.Step(cpu, s).Next? {
      var s' := I.Step(cpu, s).state;
      assert AtJalr(cpu, s) || Run(cpu, p.target, p.End(), s', fuel - 1) == Left(s');
      assert r == Left(s');
      assert q == Left(I.Step(cpu, u).state);
    }
  }

  // What the rest of a run comes to, after a glide of k steps.
  lemma MoreSteps(cpu: I.Cpu, p: Program, d: set<int>, r: Result, t: I.State, k: nat, u: I.State, fuel: nat, h: nat)
    requires fuel > 0 && k > 0 && Glides(cpu, p.base, p.Top(), t, k, u)
    requires Answers(cpu, p, d, r, u, fuel - 1, h)
    ensures Answers(cpu, p, d, r, t, fuel, k + h)
  {
    GlideRun(cpu, p.base, p.Top(), t, k, u, h);
    GlideRun(cpu, p.base, p.Top(), t, k, u, fuel - 1);
    RunFuel(cpu, p.base, p.Top(), t, fuel, k + (fuel - 1));
  }

  // RISC-V simulation.  The prolog runs from its start in memory s.mem, the
  // trampoline in a memory that may differ at the addresses in d.
  lemma TrampolineSimulates(cpu: I.Cpu, p: Program, d: set<int>, s: I.State, t: I.State, fuel: nat)
    requires I.Rv64(cpu) && Relocatable(cpu.decode, p)
    requires s.pc == p.target && t == I.State(p.base, s.regs, t.mem) && Agree(s.mem, t.mem, d)
    requires InTrampoline(p, t.mem) && Tame(cpu, p, d, s, fuel)
    ensures exists g: nat :: Answers(cpu, p, d, Run(cpu, p.target, p.End(), s, fuel), t, fuel, g)
  {
    assert Aligned(p, d, 0, s, t);
    var g := SimulateRun(cpu, p, d, 0, s, t, fuel);
  }

  // And nothing else: what the trampoline does within `fuel` steps, the prolog
  // does within as many.
  lemma TrampolineOnlySimulates(cpu: I.Cpu, p: Program, d: set<int>, s: I.State, t: I.State, fuel: nat)
    requires I.Rv64(cpu) && Relocatable(cpu.decode, p)
    requires s.pc == p.target && t == I.State(p.base, s.regs, t.mem) && Agree(s.mem, t.mem, d)
    requires InTrampoline(p, t.mem) && Tame(cpu, p, d, s, fuel)
    ensures
      var q, r := Run(cpu, p.base, p.Top(), t, fuel), Run(cpu, p.target, p.End(), s, fuel);
      match q
      case Running => true
      case Trapped => r == Trapped
      case Left(t') => r.Left? && Similar(r.state, t', d)
  {
    assert Aligned(p, d, 0, s, t);
    var g := SimulateRun(cpu, p, d, 0, s, t, fuel);
    OnlyAnswer(cpu, p, d, Run(cpu, p.target, p.End(), s, fuel), t, fuel, g);
  }

  lemma OnlyAnswer(cpu: I.Cpu, p: Program, d: set<int>, r: Result, t: I.State, fuel: nat, g: nat)
    requires Answers(cpu, p, d, r, t, fuel, g)
    ensures
      match Run(cpu, p.base, p.Top(), t, fuel)
      case Running => true
      case Trapped => r == Trapped
      case Left(t') => r.Left? && Similar(r.state, t', d)
  {
    RunFuel(cpu, p.base, p.Top(), t, fuel, g + fuel);
    RunFuel(cpu, p.base, p.Top(), t, g, g + fuel);
  }

  // In one memory nothing can differ: it is enough that code stays in place.
  ghost predicate CodeIntact(cpu: I.Cpu, p: Program, s: I.State, fuel: nat)
    requires p.Valid()
    decreases fuel
  {
    && WordHeld(p, s) && InTrampoline(p, s.mem)
    && (fuel > 0 && Inside(p.target, p.End(), s) ==>
          match I.Step(cpu, s)
          case Trap => true
          case Next(s') => CodeIntact(cpu, p, s', fuel - 1))
  }

  lemma {:induction false} IntactIsTame(cpu: I.Cpu, p: Program, s: I.State, fuel: nat)
    requires p.Valid() && CodeIntact(cpu, p, s, fuel)
    ensures Tame(cpu, p, {}, s, fuel)
    decreases fuel
  {
    AlwaysBlind(cpu, s);
    if fuel > 0 && Inside(p.target, p.End(), s) && I.Step(cpu, s).Next? {
      IntactIsTame(cpu, p, I.Step(cpu, s).state, fuel - 1);
    }
  }

  // The same memory, registers but t1, and program counter at every exit.
  lemma SameMemorySimulates(cpu: I.Cpu, p: Program, s: I.State, fuel: nat)
    requires I.Rv64(cpu) && Relocatable(cpu.decode, p)
    requires s.pc == p.target && CodeIntact(cpu, p, s, fuel)
    ensures
      var t, r := s.(pc := p.base), Run(cpu, p.target, p.End(), s, fuel);
      exists g: nat ::
        var q := Run(cpu, p.base, p.Top(), t, g);
        match r
        case Running => Run(cpu, p.base, p.Top(), t, fuel) == Running
        case Trapped => q == Trapped
        case Left(s') =>
          q.Left? && q.state.pc == s'.pc && SameButT1(s'.regs, q.state.regs) && q.state.mem == s'.mem
  {
    IntactIsTame(cpu, p, s, fuel);
    var t, r := s.(pc := p.base), Run(cpu, p.target, p.End(), s, fuel);
    assert Agree(s.mem, t.mem, {});
    TrampolineSimulates(cpu, p, {}, s, t, fuel);
    var g: nat :| Answers(cpu, p, {}, r, t, fuel, g);
    if r.Left? {
      AgreeEverywhere(r.state.mem, Run(cpu, p.base, p.Top(), t, g).state.mem);
    }
  }

  // ---- leaving --------------------------------------------------------------

  ghost predicate ForwardSite(dec: I.Decoder, w: word, target: u64, pc: u64) {
    forall dest: u64 | Transfers(dec, w, pc, dest) :: !(target <= dest <= pc)
  }

  ghost predicate OnlyForward(dec: I.Decoder, p: Program)
    requires p.Valid()
  {
    forall i {:trigger p.ws[i]} :: 0 <= i < p.N() ==> ForwardSite(dec, p.ws[i], p.target, p.target + 4 * i)
  }

  lemma StepForward(cpu: I.Cpu, p: Program, i: nat, s: I.State)
    requires p.Valid() && OnlyForward(cpu.decode, p) && i < p.N() && s.pc == p.target + 4 * i
    requires I.Fetch(cpu, s) == Some(cpu.decode(p.ws[i])) && I.Step(cpu, s).Next? && !AtJalr(cpu, s)
    requires Inside(p.target, p.End(), I.Step(cpu, s).state)
    ensures I.Step(cpu, s).state.pc > s.pc
  {
    var ins, s' := cpu.decode(p.ws[i]), I.Step(cpu, s).state;
    WrapSmall(s.pc + 4);
    NextPc(cpu, ins, s);
    assert ForwardSite(cpu.decode, p.ws[i], p.target, s.pc);
    if s'.pc != s.pc + 4 {
      assert Transfers(cpu.decode, p.ws[i], s.pc, s'.pc);
    }
  }

  // Other than computed jumps, only direct transfers do not fall through.
  lemma NextPc(cpu: I.Cpu, ins: I.Instr, s: I.State)
    requires I.Exec(cpu, ins, s).Next? && !ins.Jalr?
    ensures
      var pc := I.Exec(cpu, ins, s).state.pc;
      pc == Wrap(s.pc + 4) || ((ins.Jal? || ins.Branch?) && pc == Wrap(s.pc + ins.imm))
  {
  }

  lemma {:induction false} ForwardRun(cpu: I.Cpu, p: Program, d: set<int>, i: nat, s: I.State, t: I.State)
    requires I.Rv64(cpu) && Relocatable(cpu.decode, p) && OnlyForward(cpu.decode, p)
    requires Aligned(p, d, i, s, t) && InTrampoline(p, t.mem) && Tame(cpu, p, d, s, p.N() - i)
    ensures Run(cpu, p.target, p.End(), s, p.N() - i) != Running
    decreases p.N() - i, 1
  {
    var o := I.Step(cpu, s);
    if o.Next? && !AtJalr(cpu, s) && Inside(p.target, p.End(), o.state) {
      var j, u := StepInside(cpu, p, d, i, s, o.state, t);
      ForwardOrder(cpu, p, i, j, s, o.state);
      ForwardRest(cpu, p, d, i, j, s, o.state, u);
    }
  }

  lemma {:induction false} ForwardRest(cpu: I.Cpu, p: Program, d: set<int>, i: nat, j: nat,
                                       s: I.State, s': I.State, u: I.State)
    requires I.Rv64(cpu) && Relocatable(cpu.decode, p) && OnlyForward(cpu.decode, p) && i < j < p.N()
    requires I.Step(cpu, s) == I.Next(s') && !AtJalr(cpu, s)
    requires Aligned(p, d, j, s', u) && InTrampoline(p, u.mem) && Tame(cpu, p, d, s', p.N() - i - 1)
    ensures Run(cpu, p.target, p.End(), s, p.N() - i) != Running
    decreases p.N() - i, 0
  {
    TameLess(cpu, p, d, s', p.N() - i - 1, p.N() - j);
    ForwardRun(cpu, p, d, j, s', u);
    RunFuel(cpu, p.target, p.End(), s', p.N() - j, p.N() - i - 1);
  }

  // A step that stays inside leads to another word, and the trampoline to its
  // block.
  lemma StepInside(cpu: I.Cpu, p: Program, d: set<int>, i: nat, s: I.State, s': I.State, t: I.State)
    returns (j: nat, u: I.State)
    requires I.Rv64(cpu) && Relocatable(cpu.decode, p) && Aligned(p, d, i, s, t)
    requires InTrampoline(p, t.mem) && WordHeld(p, s) && Untouched(cpu, p, d, s)
    requires I.Step(cpu, s) == I.Next(s') && !AtJalr(cpu, s) && Inside(p.target, p.End(), s')
    ensures Aligned(p, d, j, s', u) && InTrampoline(p, u.mem)
  {
    var k, v := SimulateStep(cpu, p, d, i, s, t);
    u := v;
    j :| Aligned(p, d, j, s', u);
    TrampolineAgrees(p, s'.mem, u.mem, d);
  }

  // With only forward transfers it is a later one.
  lemma ForwardOrder(cpu: I.Cpu, p: Program, i: nat, j: nat, s: I.State, s': I.State)
    requires p.Valid() && OnlyForward(cpu.decode, p) && WordHeld(p, s)
    requires i < p.N() && s.pc == p.target + 4 * i && j < p.N() && s'.pc == p.target + 4 * j
    requires I.Step(cpu, s) == I.Next(s') && !AtJalr(cpu, s)
    ensures i < j
  {
    assert (s.pc - p.target) / 4 == i;
    FetchCopy(cpu, s, p.ws[i]);
    StepForward(cpu, p, i, s);
  }

  lemma {:induction false} TameLess(cpu: I.Cpu, p: Program, d: set<int>, s: I.State, f: nat, g: nat)
    requires p.Valid() && g <= f && Tame(cpu, p, d, s, f)
    ensures Tame(cpu, p, d, s, g)
    decreases f
  {
    if g > 0 && Inside(p.target, p.End(), s) && I.Step(cpu, s).Next? && !AtJalr(cpu, s) {
      TameLess(cpu, p, d, I.Step(cpu, s).state, f - 1, g - 1);
    }
  }

  // With only forward internal transfers both runs leave or trap: the prolog
  // after at most one step per word.
  lemma ForwardLeaves(cpu: I.Cpu, p: Program, d: set<int>, s: I.State, t: I.State)
    requires I.Rv64(cpu) && Relocatable(cpu.decode, p) && OnlyForward(cpu.decode, p)
    requires s.pc == p.target && t == I.State(p.base, s.regs, t.mem) && Agree(s.mem, t.mem, d)
    requires InTrampoline(p, t.mem) && Tame(cpu, p, d, s, p.N())
    ensures Run(cpu, p.target, p.End(), s, p.N()) != Running
    ensures exists g: nat :: Run(cpu, p.base, p.Top(), t, g) != Running
  {
    ForwardStops(cpu, p, d, s, t);
    TrampolineSimulates(cpu, p, d, s, t, p.N());
    var r := Run(cpu, p.target, p.End(), s, p.N());
    var g: nat :| Answers(cpu, p, d, r, t, p.N(), g);
    AnswerLeaves(cpu, p, d, r, t, p.N(), g);
  }

  lemma ForwardStops(cpu: I.Cpu, p: Program, d: set<int>, s: I.State, t: I.State)
    requires I.Rv64(cpu) && Relocatable(cpu.decode, p) && OnlyForward(cpu.decode, p)
    requires s.pc == p.target && t == I.State(p.base, s.regs, t.mem) && Agree(s.mem, t.mem, d)
    requires InTrampoline(p, t.mem) && Tame(cpu, p, d, s, p.N())
    ensures Run(cpu, p.target, p.End(), s, p.N()) != Running
  {
    assert Aligned(p, d, 0, s, t);
    ForwardRun(cpu, p, d, 0, s, t);
  }

  lemma AnswerLeaves(cpu: I.Cpu, p: Program, d: set<int>, r: Result, t: I.State, fuel: nat, g: nat)
    requires Answers(cpu, p, d, r, t, fuel, g) && r != Running
    ensures Run(cpu, p.base, p.Top(), t, g) != Running
  {
  }
}
