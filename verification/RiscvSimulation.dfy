// The relocated RISC-V prolog simulates the original one.
module RiscvSimulation {
  import opened Machine
  import opened Prolog
  import opened RiscvTrampoline
  import opened RiscvLayout
  import opened RiscvRun
  import I = RiscvIsa
  import T = RiscvThunk

  // A prolog, the blocks built from it and where the trampoline was placed.
  datatype Program = Program(target: u64, margin: nat, ws: seq<word>, built: Built, base: u64)
  {
    function N(): nat {
      |built.blocks|
    }

    function Blocks(): seq<T.Block> {
      AllBlocks(built, target)
    }

    function End(): int {
      target + 4 * N()
    }

    function At(k: nat): int
      requires k <= |Blocks()|
    {
      base + Off(Blocks(), k)
    }

    function Top(): int {
      At(|Blocks()|)
    }

    ghost predicate Valid() {
      && ReadableWords(ws, target, margin) && Accepted(ws, target, margin, built)
      && target % 2 == 0
      && Top() <= TWO64
    }
  }

  ghost predicate InTrampoline(p: Program, m: Memory) {
    forall k | 0 <= k < |p.Blocks()| :: BlockAt(m, p.base, p.Blocks(), k)
  }

  // The two machines stand at corresponding instructions.
  ghost predicate Aligned(p: Program, d: set<int>, i: nat, s: I.State, t: I.State) {
    && i < p.N() && s.pc == p.target + 4 * i && t.pc == p.At(i)
    && s.regs == t.regs && Agree(s.mem, t.mem, d)
  }

  // k trampoline steps from t do what one prolog step from s does: they reach
  // the corresponding instruction `u`, or the last of them, from `u`, leaves
  // or traps where the prolog does.
  ghost predicate Matches(cpu: I.Cpu, p: Program, d: set<int>, s: I.State, t: I.State, k: nat, u: I.State) {
    && k > 0
    && match I.Step(cpu, s)
       case Trap => Glides(cpu, p.base, p.Top(), t, k - 1, u) && Inside(p.base, p.Top(), u) && I.Step(cpu, u).Trap?
       case Next(s') =>
         if AtJalr(cpu, s) || !Inside(p.target, p.End(), s') then
           && Glides(cpu, p.base, p.Top(), t, k - 1, u) && Inside(p.base, p.Top(), u)
           && AtJalr(cpu, u) && I.Step(cpu, u).Next? && Similar(s', I.Step(cpu, u).state, d)
         else Glides(cpu, p.base, p.Top(), t, k, u) && exists j: nat :: Aligned(p, d, j, s', u)
  }

  lemma {:induction false} OffPrefix(p: Program, k: nat)
    requires k <= p.N()
    ensures Off(p.Blocks(), k) == Off(p.built.blocks, k)
  {
    if k > 0 {
      OffPrefix(p, k - 1);
    }
  }

  // Block k lies inside the trampoline.
  lemma BlockInside(p: Program, k: nat)
    requires p.Valid() && k < |p.Blocks()|
    ensures p.base <= p.At(k) && p.At(k + 1) == p.At(k) + p.Blocks()[k].Size() <= p.Top()
  {
    OffMonotone(p.Blocks(), k + 1, |p.Blocks()|);
  }

  lemma FetchCopy(cpu: I.Cpu, t: I.State, w: word)
    requires Holds(t.mem, t.pc, LE32(w))
    ensures I.Fetch(cpu, t) == Some(cpu.decode(w))
  {
    ReadBack32(t.mem, t.pc, w);
  }

  // ---- leaving through an absolute jump -----------------------------------

  // From the start of a jump block with an even destination, two steps inside
  // and a JALR that leaves for it.
  lemma JumpLeaves(cpu: I.Cpu, p: Program, d: set<int>, k: nat, dest: u64, s': I.State, t: I.State)
    returns (u: I.State)
    requires I.Rv64(cpu) && p.Valid() && t.pc + 20 <= p.Top() && p.base <= t.pc
    requires Holds(t.mem, t.pc, T.JmpAbs(0, dest)) && dest % 2 == 0
    requires s'.pc == dest && s'.regs == t.regs && Agree(s'.mem, t.mem, d)
    ensures Glides(cpu, p.base, p.Top(), t, 2, u) && Inside(p.base, p.Top(), u)
    ensures AtJalr(cpu, u) && I.Step(cpu, u).Next? && Similar(s', I.Step(cpu, u).state, d)
  {
    T.JmpAbsRuns(cpu, t, 0, dest);
    var t1 := t.(pc := t.pc + 4, regs := t.regs[T.T1 := t.pc]);
    u := t.(pc := t.pc + 8, regs := t.regs[T.T1 := dest]);
    assert Glides(cpu, p.base, p.Top(), t1, 1, u);
    assert t.regs[T.T1 := dest][T.T1 := 0] == t.regs[T.T1 := 0];
  }

  // ---- one prolog instruction ---------------------------------------------

  // Both machines are about to run word i, whose bytes and whose block are in
  // place; the step does not overwrite the trampoline.
  ghost predicate Stand(cpu: I.Cpu, p: Program, d: set<int>, i: nat, ins: I.Instr, s: I.State, t: I.State) {
    && I.Rv64(cpu) && p.Valid() && Aligned(p, d, i, s, t)
    && I.Fetch(cpu, s) == Some(ins)
    && InTrampoline(p, t.mem)
    && Untouched(cpu, p, d, s)
  }

  ghost predicate Apart(p: Program, d: set<int>) {
    forall z | p.base <= z < p.Top() :: z !in d
  }

  ghost predicate Untouched(cpu: I.Cpu, p: Program, d: set<int>, s: I.State) {
    && Apart(p, d) && Blind(cpu, s, d)
    && (I.Step(cpu, s).Next? ==> InTrampoline(p, I.Step(cpu, s).state.mem))
  }

  lemma BlockHeld(p: Program, m: Memory, k: nat)
    requires InTrampoline(p, m) && k < |p.Blocks()|
    ensures p.Blocks()[k].Valid() && Holds(m, p.At(k), p.Blocks()[k].Encode())
  {
    assert BlockAt(m, p.base, p.Blocks(), k);
  }

  lemma TrampolineAgrees(p: Program, a: Memory, b: Memory, d: set<int>)
    requires p.Valid() && InTrampoline(p, a) && Agree(a, b, d) && Apart(p, d)
    ensures InTrampoline(p, b)
  {
    forall k | 0 <= k < |p.Blocks()| ensures BlockAt(b, p.base, p.Blocks(), k) {
      BlockHeld(p, a, k);
      BlockInside(p, k);
      AgreeHolds(a, b, d, p.At(k), p.Blocks()[k].Encode());
    }
  }

  lemma MatchesOn(cpu: I.Cpu, p: Program, d: set<int>, j: nat, s: I.State, s': I.State, t: I.State, k: nat, u: I.State)
    requires k > 0 && I.Step(cpu, s) == I.Next(s') && !AtJalr(cpu, s)
    requires Aligned(p, d, j, s', u) && Glides(cpu, p.base, p.Top(), t, k, u)
    ensures Matches(cpu, p, d, s, t, k, u)
  {
  }

  lemma MatchesOut(cpu: I.Cpu, p: Program, d: set<int>, s: I.State, s': I.State, t: I.State, k: nat, u: I.State)
    requires I.Step(cpu, s) == I.Next(s') && (AtJalr(cpu, s) || !Inside(p.target, p.End(), s'))
    requires Glides(cpu, p.base, p.Top(), t, k, u) && Inside(p.base, p.Top(), u)
    requires AtJalr(cpu, u) && I.Step(cpu, u).Next? && Similar(s', I.Step(cpu, u).state, d)
    ensures Matches(cpu, p, d, s, t, k + 1, u)
  {
  }

  // After the block of word i, at the start of the next block: either the
  // next word, or the continuation jump behind the last one.
  lemma Continue(cpu: I.Cpu, p: Program, d: set<int>, i: nat, s: I.State, t: I.State,
                 j: nat, s': I.State, t': I.State)
    returns (k: nat, u: I.State)
    requires I.Rv64(cpu) && p.Valid() && i < p.N() && (i + 1 == p.N() ==> p.built.jump)
    requires !AtJalr(cpu, s) && I.Step(cpu, s) == I.Next(s') && s'.pc == p.target + 4 * (i + 1)
    requires j > 0 && Glides(cpu, p.base, p.Top(), t, j, t') && t'.pc == p.At(i + 1)
    requires s'.regs == t'.regs && Agree(s'.mem, t'.mem, d) && InTrampoline(p, t'.mem)
    ensures Matches(cpu, p, d, s, t, k, u)
  {
    if i + 1 < p.N() {
      MatchesOn(cpu, p, d, i + 1, s, s', t, j, t');
      k, u := j, t';
    } else {
      k, u := ContinueOut(cpu, p, d, s, t, j, s', t');
    }
  }

  lemma ContinueOut(cpu: I.Cpu, p: Program, d: set<int>, s: I.State, t: I.State, j: nat, s': I.State, t': I.State)
    returns (k: nat, u: I.State)
    requires I.Rv64(cpu) && p.Valid() && p.built.jump && I.Step(cpu, s) == I.Next(s') && s'.pc == p.End()
    requires Glides(cpu, p.base, p.Top(), t, j, t') && t'.pc == p.At(p.N())
    requires s'.regs == t'.regs && Agree(s'.mem, t'.mem, d) && InTrampoline(p, t'.mem)
    ensures Matches(cpu, p, d, s, t, k, u)
  {
    u := LeaveAtEnd(cpu, p, d, s', t');
    GlideOn(cpu, p.base, p.Top(), t, j, t', 2, u);
    MatchesOut(cpu, p, d, s, s', t, j + 2, u);
    k := j + 3;
  }

  // The continuation jump.
  lemma LeaveAtEnd(cpu: I.Cpu, p: Program, d: set<int>, s': I.State, t': I.State) returns (u: I.State)
    requires I.Rv64(cpu) && p.Valid() && p.built.jump
    requires s'.pc == p.End() && t'.pc == p.At(p.N())
    requires s'.regs == t'.regs && Agree(s'.mem, t'.mem, d) && InTrampoline(p, t'.mem)
    ensures Glides(cpu, p.base, p.Top(), t', 2, u) && Inside(p.base, p.Top(), u)
    ensures AtJalr(cpu, u) && I.Step(cpu, u).Next? && Similar(s', I.Step(cpu, u).state, d)
  {
    var n := p.N();
    EndHeld(p, t'.mem);
    BlockInside(p, n);
    u := JumpLeaves(cpu, p, d, n, p.End(), s', t');
  }

  lemma EndHeld(p: Program, m: Memory)
    requires p.Valid() && p.built.jump && InTrampoline(p, m)
    ensures p.End() < TWO64 && p.Blocks()[p.N()] == T.Jump(0, p.End())
    ensures Holds(m, p.At(p.N()), T.JmpAbs(0, p.End()))
  {
    BlockHeld(p, m, p.N());
    WrapSmall(p.End());
  }

  // The word after i starts where its block does, below 2^64.
  lemma NextBlock(p: Program, i: nat)
    requires p.Valid() && i < p.N() && (i + 1 == p.N() ==> p.built.jump)
    ensures i + 1 < |p.Blocks()| && p.At(i + 1) == p.At(i) + p.Blocks()[i].Size() < p.Top()
    ensures p.Top() <= TWO64 && p.Blocks()[i] == p.built.blocks[i]
  {
    BlockInside(p, i);
    BlockInside(p, i + 1);
  }

  // Loads and unknown instructions.
  lemma CopyPlain(cpu: I.Cpu, p: Program, d: set<int>, i: nat, w: word, ins: I.Instr, s: I.State, t: I.State)
    returns (k: nat, u: I.State)
    requires Stand(cpu, p, d, i, ins, s, t) && (ins.Ld? || ins.Other?)
    requires cpu.decode(w) == ins && p.built.blocks[i] == T.Copy(w)
    requires i + 1 == p.N() ==> p.built.jump
    ensures Matches(cpu, p, d, s, t, k, u)
  {
    NextBlock(p, i);
    PlainPair(cpu, p, d, i, w, ins, s, t);
    BlockInside(p, i);
    k, u := Side(cpu, p, d, i, s, t, I.Step(cpu, s), I.Step(cpu, t));
  }

  // One step on either side, by an instruction that is not a computed jump.
  lemma Side(cpu: I.Cpu, p: Program, d: set<int>, i: nat, s: I.State, t: I.State, o: I.Outcome, r: I.Outcome)
    returns (k: nat, u: I.State)
    requires I.Rv64(cpu) && p.Valid() && i < p.N() && (i + 1 == p.N() ==> p.built.jump)
    requires !AtJalr(cpu, s) && !AtJalr(cpu, t) && o == I.Step(cpu, s) && r == I.Step(cpu, t)
    requires Inside(p.base, p.Top(), t) && (o.Next? <==> r.Next?)
    requires o.Next? ==>
      && o.state.pc == p.target + 4 * (i + 1) && r.state.pc == p.At(i + 1)
      && o.state.regs == r.state.regs && Agree(o.state.mem, r.state.mem, d) && InTrampoline(p, r.state.mem)
    ensures Matches(cpu, p, d, s, t, k, u)
  {
    if o.Next? {
      assert Glides(cpu, p.base, p.Top(), r.state, 0, r.state);
      k, u := Continue(cpu, p, d, i, s, t, 1, o.state, r.state);
    } else {
      k, u := 1, t;
    }
  }

  // Both machines trap on it, or both go on to the next instruction.
  lemma PlainPair(cpu: I.Cpu, p: Program, d: set<int>, i: nat, w: word, ins: I.Instr, s: I.State, t: I.State)
    requires Stand(cpu, p, d, i, ins, s, t) && (ins.Ld? || ins.Other?)
    requires cpu.decode(w) == ins && p.built.blocks[i] == T.Copy(w)
    requires i + 1 == p.N() ==> p.built.jump
    ensures
      var o, r := I.Step(cpu, s), I.Step(cpu, t);
      && !AtJalr(cpu, s) && !AtJalr(cpu, t) && (o.Next? <==> r.Next?)
      && (o.Next? ==>
            && o.state.pc == p.target + 4 * (i + 1) && r.state.pc == p.At(i) + 4
            && o.state.regs == r.state.regs && Agree(o.state.mem, r.state.mem, d) && InTrampoline(p, r.state.mem))
  {
    NextBlock(p, i);
    BlockHeld(p, t.mem, i);
    FetchCopy(cpu, t, w);
    var o, o' := I.Exec(cpu, ins, s), I.Exec(cpu, ins, s.(mem := t.mem));
    assert Alike(o, o', d);
    PlainMoves(cpu, ins, s.(mem := t.mem), t);
    if o.Next? {
      TrampolineAgrees(p, o.state.mem, I.Step(cpu, t).state.mem, d);
      PlainFallsThrough(cpu, ins, s);
      PlainFallsThrough(cpu, ins, t);
      WrapSmall(s.pc + 4);
      WrapSmall(t.pc + 4);
    }
  }

  // A plain instruction does the same wherever it runs.
  lemma PlainMoves(cpu: I.Cpu, ins: I.Instr, s: I.State, t: I.State)
    requires (ins.Ld? || ins.Other?) && s.regs == t.regs && s.mem == t.mem
    ensures
      var o, o' := I.Exec(cpu, ins, s), I.Exec(cpu, ins, t);
      o.Next? == o'.Next? && (o.Next? ==> o.state.regs == o'.state.regs && o.state.mem == o'.state.mem)
  {
  }

  lemma PlainFallsThrough(cpu: I.Cpu, ins: I.Instr, s: I.State)
    requires ins.Ld? || ins.Other?
    ensures I.Exec(cpu, ins, s).Next? ==> I.Exec(cpu, ins, s).state.pc == Wrap(s.pc + 4)
  {
  }

  // Computed jumps without a link.
  lemma CopyJalr(cpu: I.Cpu, p: Program, d: set<int>, i: nat, w: word, rs1: int, imm: int, s: I.State, t: I.State)
    returns (k: nat, u: I.State)
    requires Stand(cpu, p, d, i, I.Jalr(0, rs1, imm), s, t)
    requires cpu.decode(w) == I.Jalr(0, rs1, imm) && p.built.blocks[i] == T.Copy(w)
    ensures Matches(cpu, p, d, s, t, k, u)
  {
    BlockHeld(p, t.mem, i);
    BlockInside(p, i);
    FetchCopy(cpu, t, w);
    k, u := 1, t;
  }

  // Instructions that trap, copied or as the first word of a far branch.
  lemma IllegalTraps(cpu: I.Cpu, p: Program, d: set<int>, i: nat, w: word, s: I.State, t: I.State)
    returns (k: nat, u: I.State)
    requires Stand(cpu, p, d, i, I.Illegal, s, t)
    requires cpu.decode(w) == I.Illegal
    requires Read32(t.mem, t.pc) == Some(w)
    ensures Matches(cpu, p, d, s, t, k, u)
  {
    BlockInside(p, i);
    k, u := 1, t;
  }

  // A displacement that leads from word i to word j of the prolog leads from
  // block i to block j of the trampoline when no block in between grew.
  lemma SameDisplacement(p: Program, i: nat, j: nat, imm: int)
    requires p.Valid() && i < p.N() && j < p.N()
    requires Wrap(p.target + 4 * i + imm) == p.target + 4 * j
    requires p.At(j) - p.At(i) == 4 * (j - i)
    ensures Wrap(p.At(i) + imm) == p.At(j)
  {
    BlockInside(p, j);
    var x := p.target + 4 * i + imm;
    var q := x / 0x1_0000_0000_0000_0000;
    assert x == q * 0x1_0000_0000_0000_0000 + Wrap(x);
    assert p.At(i) + imm == q * 0x1_0000_0000_0000_0000 + p.At(j);
  }

  lemma CopyJal(cpu: I.Cpu, p: Program, d: set<int>, i: nat, j: nat, w: word, imm: int, s: I.State, t: I.State)
    returns (k: nat, u: I.State)
    requires Stand(cpu, p, d, i, I.Jal(0, imm), s, t)
    requires cpu.decode(w) == I.Jal(0, imm) && p.built.blocks[i] == T.Copy(w)
    requires j < p.N() && Wrap(s.pc + imm) == p.target + 4 * j
    requires p.At(j) - p.At(i) == 4 * (j - i)
    ensures Matches(cpu, p, d, s, t, k, u)
  {
    BlockHeld(p, t.mem, i);
    BlockInside(p, i);
    FetchCopy(cpu, t, w);
    SameDisplacement(p, i, j, imm);
    var t' := I.Step(cpu, t).state;
    assert Glides(cpu, p.base, p.Top(), t', 0, t');
    MatchesOn(cpu, p, d, j, s, I.Step(cpu, s).state, t, 1, t');
    k, u := 1, t';
  }

  lemma FarJal(cpu: I.Cpu, p: Program, d: set<int>, i: nat, dest: u64, imm: int, s: I.State, t: I.State)
    returns (k: nat, u: I.State)
    requires Stand(cpu, p, d, i, I.Jal(0, imm), s, t)
    requires p.built.blocks[i] == T.Jump(0, dest) && dest == Wrap(s.pc + imm) && dest % 2 == 0
    requires !(p.target <= dest < p.End())
    ensures Matches(cpu, p, d, s, t, k, u)
  {
    BlockHeld(p, t.mem, i);
    BlockInside(p, i);
    u := JumpLeaves(cpu, p, d, i, dest, I.Step(cpu, s).state, t);
    MatchesOut(cpu, p, d, s, I.Step(cpu, s).state, t, 2, u);
    k := 3;
  }

  lemma LoadAuipc(cpu: I.Cpu, p: Program, d: set<int>, i: nat, rd: int, disp: int, s: I.State, t: I.State)
    returns (k: nat, u: I.State)
    requires Stand(cpu, p, d, i, I.Auipc(rd, disp), s, t) && rd != 0
    requires p.built.blocks[i] == T.LoadImm(rd, Wrap(s.pc + disp))
    requires i + 1 == p.N() ==> p.built.jump
    ensures Matches(cpu, p, d, s, t, k, u)
  {
    NextBlock(p, i);
    BlockHeld(p, t.mem, i);
    var value := Wrap(s.pc + disp);
    T.LiAbsRuns(cpu, t, rd, value);
    WrapSmall(t.pc + 16);
    WrapSmall(s.pc + 4);
    I.StepAuipc(cpu, s, rd, disp);
    var t1 := t.(pc := t.pc + 12, regs := I.Set(t.regs, rd, t.pc + 4));
    var t2 := t.(pc := t.pc + 16, regs := I.Set(t.regs, rd, value));
    assert Glides(cpu, p.base, p.Top(), t1, 1, t2);
    assert Glides(cpu, p.base, p.Top(), t, 2, t2);
    k, u := Continue(cpu, p, d, i, s, t, 2, I.Step(cpu, s).state, t2);
  }

  lemma CopiedFetch(cpu: I.Cpu, p: Program, i: nat, w: word, t: I.State)
    requires p.Valid() && i < p.N() && InTrampoline(p, t.mem) && t.pc == p.At(i) && p.built.blocks[i] == T.Copy(w)
    ensures I.Fetch(cpu, t) == Some(cpu.decode(w))
  {
    BlockHeld(p, t.mem, i);
    FetchCopy(cpu, t, w);
  }

  lemma CopyBranch(cpu: I.Cpu, p: Program, d: set<int>, i: nat, j: nat, w: word, ins: I.Instr, s: I.State, t: I.State)
    returns (k: nat, u: I.State)
    requires Stand(cpu, p, d, i, ins, s, t) && ins.Branch?
    requires cpu.decode(w) == ins && p.built.blocks[i] == T.Copy(w)
    requires j < p.N() && Wrap(s.pc + ins.imm) == p.target + 4 * j
    requires p.At(j) - p.At(i) == 4 * (j - i)
    requires i + 1 == p.N() ==> p.built.jump
    ensures Matches(cpu, p, d, s, t, k, u)
  {
    NextBlock(p, i);
    CopiedFetch(cpu, p, i, w, t);
    I.StepBranch(cpu, s, ins.funct3, ins.rs1, ins.rs2, ins.imm);
    I.StepBranch(cpu, t, ins.funct3, ins.rs1, ins.rs2, ins.imm);
    var s', t' := I.Step(cpu, s).state, I.Step(cpu, t).state;
    assert Glides(cpu, p.base, p.Top(), t', 0, t');
    if I.Taken(ins.funct3, I.Get(s.regs, ins.rs1), I.Get(s.regs, ins.rs2)) {
      SameDisplacement(p, i, j, ins.imm);
      MatchesOn(cpu, p, d, j, s, s', t, 1, t');
      k, u := 1, t';
    } else {
      WrapSmall(s.pc + 4);
      WrapSmall(t.pc + 4);
      k, u := Continue(cpu, p, d, i, s, t, 1, s', t');
    }
  }

  // The bytes of a far branch.
  lemma FarHeld(p: Program, m: Memory, i: nat, w: word, dest: u64, ins: I.Instr)
    requires p.Valid() && i < p.N() && InTrampoline(p, m) && p.built.blocks[i] == T.Far(w, dest)
    requires ins.Branch? && ins.funct3 in {0, 1, 4, 5, 6, 7} && 0 <= ins.rs1 < 0x20 && 0 <= ins.rs2 < 0x20
    requires var f := I.Split(w); f.funct3 == ins.funct3 && f.rs1 == ins.rs1 && f.rs2 == ins.rs2
    ensures Holds(m, p.At(i), LE32(T.SkipWord(ins.funct3, ins.rs1, ins.rs2)) + T.JmpAbs(0, dest))
  {
    BlockHeld(p, m, i);
    assert p.Blocks()[i] == T.Far(w, dest);
  }

  lemma FarBranch(cpu: I.Cpu, p: Program, d: set<int>, i: nat, dest: u64, ins: I.Instr, s: I.State, t: I.State)
    returns (k: nat, u: I.State)
    requires Stand(cpu, p, d, i, ins, s, t) && ins.Branch? && p.built.blocks[i].Size() == 24
    requires ins.funct3 in {0, 1, 4, 5, 6, 7} && 0 <= ins.rs1 < 0x20 && 0 <= ins.rs2 < 0x20
    requires Holds(t.mem, t.pc, LE32(T.SkipWord(ins.funct3, ins.rs1, ins.rs2)) + T.JmpAbs(0, dest))
    requires dest == Wrap(s.pc + ins.imm) && dest % 2 == 0 && !(p.target <= dest < p.End())
    requires i + 1 == p.N() ==> p.built.jump
    ensures Matches(cpu, p, d, s, t, k, u)
  {
    NextBlock(p, i);
    var taken := I.Taken(ins.funct3, I.Get(s.regs, ins.rs1), I.Get(s.regs, ins.rs2));
    var t' := FarFirst(cpu, p, dest, ins, taken, t);
    var s' := BranchStep(cpu, s, ins, taken, dest);
    if taken {
      k, u := FarTaken(cpu, p, d, i, dest, s, s', t, t');
    } else {
      k, u := Continue(cpu, p, d, i, s, t, 1, s', t');
    }
  }

  lemma BranchStep(cpu: I.Cpu, s: I.State, ins: I.Instr, taken: bool, dest: u64) returns (s': I.State)
    requires I.Fetch(cpu, s) == Some(ins) && ins.Branch? && ins.funct3 in {0, 1, 4, 5, 6, 7}
    requires taken == I.Taken(ins.funct3, I.Get(s.regs, ins.rs1), I.Get(s.regs, ins.rs2))
    requires dest == Wrap(s.pc + ins.imm) && s.pc + 4 < TWO64
    ensures I.Step(cpu, s) == I.Next(s') && !AtJalr(cpu, s) && s' == s.(pc := if taken then dest else s.pc + 4)
  {
    I.StepBranch(cpu, s, ins.funct3, ins.rs1, ins.rs2, ins.imm);
    s' := I.Step(cpu, s).state;
    WrapSmall(s.pc + 4);
  }

  // Out through the jump behind it.
  lemma FarTaken(cpu: I.Cpu, p: Program, d: set<int>, i: nat, dest: u64, s: I.State, s': I.State,
                 t: I.State, t': I.State)
    returns (k: nat, u: I.State)
    requires I.Rv64(cpu) && p.Valid() && I.Step(cpu, s) == I.Next(s') && s'.pc == dest && !(p.target <= dest < p.End())
    requires Glides(cpu, p.base, p.Top(), t, 1, t') && p.base <= t'.pc && t'.pc + 20 <= p.Top()
    requires Holds(t'.mem, t'.pc, T.JmpAbs(0, dest)) && dest % 2 == 0
    requires s'.regs == t'.regs && Agree(s'.mem, t'.mem, d)
    ensures Matches(cpu, p, d, s, t, k, u)
  {
    u := JumpLeaves(cpu, p, d, i, dest, s', t');
    GlideOn(cpu, p.base, p.Top(), t, 1, t', 2, u);
    MatchesOut(cpu, p, d, s, s', t, 3, u);
    k := 4;
  }

  // The first word of a far branch.
  lemma FarFirst(cpu: I.Cpu, p: Program, dest: u64, ins: I.Instr, taken: bool, t: I.State) returns (t': I.State)
    requires I.Rv64(cpu) && p.base <= t.pc && t.pc + 24 <= p.Top() && t.pc + 24 < TWO64
    requires ins.Branch? && ins.funct3 in {0, 1, 4, 5, 6, 7} && 0 <= ins.rs1 < 0x20 && 0 <= ins.rs2 < 0x20
    requires taken == I.Taken(ins.funct3, I.Get(t.regs, ins.rs1), I.Get(t.regs, ins.rs2))
    requires Holds(t.mem, t.pc, LE32(T.SkipWord(ins.funct3, ins.rs1, ins.rs2)) + T.JmpAbs(0, dest))
    ensures t' == t.(pc := t.pc + if taken then 4 else 24) && Glides(cpu, p.base, p.Top(), t, 1, t')
    ensures Holds(t.mem, t.pc + 4, T.JmpAbs(0, dest))
  {
    var skip := T.SkipWord(ins.funct3, ins.rs1, ins.rs2);
    FarParts(t.mem, t.pc, LE32(skip), T.JmpAbs(0, dest), skip);
    SkipDecodes(cpu, ins.funct3, ins.rs1, ins.rs2);
    SkipSteps(cpu, skip, ins.funct3, ins.rs1, ins.rs2, t);
    t' := t.(pc := t.pc + if taken then 4 else 24);
    assert Glides(cpu, p.base, p.Top(), t', 0, t');
  }

  // The inverted branch: on to the jump when the original is taken, over it
  // otherwise.
  lemma SkipSteps(cpu: I.Cpu, skip: word, funct3: int, rs1: int, rs2: int, t: I.State)
    requires funct3 in {0, 1, 4, 5, 6, 7} && t.pc + 24 < TWO64
    requires Read32(t.mem, t.pc) == Some(skip)
    requires cpu.decode(skip) == I.Branch(T.Inverted(funct3), rs1, rs2, 24)
    ensures !AtJalr(cpu, t)
    ensures I.Step(cpu, t) ==
      I.Next(t.(pc := t.pc + (if I.Taken(funct3, I.Get(t.regs, rs1), I.Get(t.regs, rs2)) then 4 else 24)))
  {
    T.InvertedNegates(funct3, I.Get(t.regs, rs1), I.Get(t.regs, rs2));
    I.StepBranch(cpu, t, T.Inverted(funct3), rs1, rs2, 24);
    WrapSmall(t.pc + 4);
    WrapSmall(t.pc + 24);
  }

  lemma SkipDecodes(cpu: I.Cpu, funct3: int, rs1: int, rs2: int)
    requires I.Rv64(cpu) && funct3 in {0, 1, 4, 5, 6, 7} && 0 <= rs1 < 0x20 && 0 <= rs2 < 0x20
    ensures cpu.decode(T.SkipWord(funct3, rs1, rs2)) == I.Branch(T.Inverted(funct3), rs1, rs2, 24)
  {
    T.SkipWordDecodes(funct3, rs1, rs2);
  }

  lemma FarParts(m: Memory, a: int, b1: seq<byte>, b2: seq<byte>, skip: word)
    requires b1 == LE32(skip) && Holds(m, a, b1 + b2)
    ensures Read32(m, a) == Some(skip) && Holds(m, a + 4, b2)
  {
    HoldsPart(m, a, b1 + b2, 0, b1);
    HoldsPart(m, a, b1 + b2, 4, b2);
    ReadBack32(m, a, skip);
  }
}
