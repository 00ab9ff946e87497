// Where AArch64 relocation stops being faithful: calls and conditional branches,
// which the theorems exclude, with the exact condition for each.
module A64Limits {
  import opened Machine
  import opened Prolog
  import opened A64Isa
  import opened A64Trampoline
  import opened A64Theorem
  import T = A64Thunk

  lemma CallDecodes()
    ensures Decode(T.LDR_X16_8) == Literal(1, T.X16, 8) && Decode(T.BLR_X16) == Special(Blr(T.X16))
  {
    T.ConstantsDecode();
    assert T.BLR_X16 == T.Word(0xD6, 0x1F810, 0);
    T.SplitWord(0xD6, 0x1F810, 0);
  }

  // The word w at the target is the instruction x, and what the builder made of
  // it is in memory at `base`; s is about to run the one, t the other.
  ghost predicate Stands(cpu: Cpu, w: word, x: SpecialInstr, target: u64, p: Processed, base: u64, s: State, t: State) {
    && IsA64(cpu.decode) && Decode(w) == Special(x) && target + 4 < TWO64 && base + 64 < TWO64
    && Process(w, target, target, PROLOG_MARGIN, None) == Some(p)
    && s.pc == target && Read32(s.mem, target) == Some(w) && t == s.(pc := base)
    && InTrampoline(t.mem, base, p.block, !p.finished, target + 4)
  }

  // What the builder makes of the three; it accepts them everywhere.
  lemma CallBlock(w: word, imm: int, target: u64)
    requires Decode(w) == Special(Bl(imm))
    ensures Process(w, target, target, PROLOG_MARGIN, None) ==
      Some(Processed(Calls(Wrap(target + imm)), 16, false, None))
  {
    MatchMeans(w);
    ProcessMeans(w, target, target, PROLOG_MARGIN, None);
  }

  lemma CopiedBlock(w: word, target: u64)
    requires Decode(w).Special? && (Decode(w).s.Blr? || Decode(w).s.BCond?)
    ensures Process(w, target, target, PROLOG_MARGIN, None) == Some(Processed(Copy(w), 4, false, None))
  {
    MatchMeans(w);
    ProcessMeans(w, target, target, PROLOG_MARGIN, None);
  }

  lemma SpecialBuilds(w: word, rest: seq<word>, target: u64)
    requires ReadableWords([w] + rest, target, PROLOG_MARGIN) && Decode(w).Special? && !Decode(w).s.Unknown?
    ensures BuildFrom([w] + rest, target, PROLOG_MARGIN, None, []) ==
      Some(Built([if Decode(w).s.Bl? then Calls(Wrap(target + Decode(w).s.imm)) else Copy(w)], true))
  {
    OneBlock(w, rest, target);
    if Decode(w).s.Bl? {
      CallBlock(w, Decode(w).s.imm, target);
    } else {
      CopiedBlock(w, target);
    }
  }

  // ---- BL -------------------------------------------------------------------

  // The parts of call_abs in memory.
  lemma CallHeld(m: Memory, a: int, dest: u64)
    requires Holds(m, a, T.CallAbs(dest))
    ensures Read32(m, a) == Some(T.LDR_X16_8) && Read32(m, a + 4) == Some(T.BLR_X16)
    ensures Holds(m, a + 8, LE64(dest)) && Read64(m, a + 8) == Some(dest)
  {
    Parts(m, a, LE32(T.LDR_X16_8) + LE32(T.BLR_X16), LE64(dest));
    Parts(m, a, LE32(T.LDR_X16_8), LE32(T.BLR_X16));
    ReadBack32(m, a, T.LDR_X16_8);
    ReadBack32(m, a + 4, T.BLR_X16);
    ReadBack64(m, a + 8, dest);
  }

  lemma LdrBlrRuns(cpu: Cpu, t: State, dest: u64)
    requires cpu.decode(T.LDR_X16_8) == Literal(1, T.X16, 8) && cpu.decode(T.BLR_X16) == Special(Blr(T.X16))
    requires t.pc + 16 <= TWO64 && Holds(t.mem, t.pc, T.CallAbs(dest))
    ensures Steps(cpu, t, 2) == Next(t.(pc := dest, regs := t.regs[T.X16 := dest][LR := t.pc + 8]))
  {
    CallHeld(t.mem, t.pc, dest);
    WrapSmall(t.pc + 8);
    T.StepLiteral(cpu, t, 1, T.X16, 8, t.pc + 8, dest);
    var t1 := t.(pc := t.pc + 4, regs := t.regs[T.X16 := dest]);
    assert Step(cpu, t1) == ExecSpecial(cpu, Blr(T.X16), t1);
    OneStep(cpu, t1);
  }

  // call_abs calls the destination with the destination in X16, and links to
  // its own literal.
  lemma CallAbsRuns(cpu: Cpu, t: State, dest: u64)
    requires IsA64(cpu.decode) && Holds(t.mem, t.pc, T.CallAbs(dest)) && t.pc + 16 <= TWO64
    ensures Steps(cpu, t, 2) == Next(t.(pc := dest, regs := t.regs[T.X16 := dest][LR := t.pc + 8]))
  {
    CallDecodes();
    LdrBlrRuns(cpu, t, dest);
  }

  // A relocated BL reaches the function with everything but X16 and the link as
  // the original has it; the link is right exactly when the block happens to lie
  // four bytes before the original.
  lemma CallLinkKeptIff(cpu: Cpu, w: word, imm: int, target: u64, p: Processed, base: u64, s: State, t: State)
    requires Stands(cpu, w, Bl(imm), target, p, base, s, t)
    ensures p.block == Calls(Wrap(target + imm)) && !p.finished
    ensures
      var a, b := Step(cpu, s), Steps(cpu, t, 2);
      && a.Next? && b.Next?
      && b.state == a.state.(regs := a.state.regs[T.X16 := Wrap(target + imm)][LR := base + 8])
      && (Get(b.state.regs, LR) == Get(a.state.regs, LR) <==> base + 4 == target)
  {
    CallBlock(w, imm, target);
    WrapSmall(target + 4);
    CallAbsRuns(cpu, t, Wrap(target + imm));
    var a, b := Step(cpu, s).state, Steps(cpu, t, 2).state;
    assert a == s.(pc := Wrap(target + imm), regs := s.regs[LR := target + 4]);
    assert b.regs == a.regs[T.X16 := Wrap(target + imm)][LR := base + 8];
  }

  // Words below 2^16 are permanently undefined.
  ghost predicate Undefined(cpu: Cpu) {
    forall w: word, r: Regs, m: Memory {:trigger cpu.other(w, r, m)} :: w < 0x1_0000 ==> cpu.other(w, r, m) == Fault
  }

  lemma UndefinedTraps(cpu: Cpu, s: State, w: word)
    requires IsA64(cpu.decode) && Undefined(cpu) && Read32(s.mem, s.pc) == Some(w) && w < 0x1_0000
    ensures Step(cpu, s) == Trap
  {
    assert Split(w).hi == 0 && Split(w).mid < 0x800;
    assert Decode(w) == Other(w);
    assert cpu.other(w, s.regs, s.mem) == Fault;
  }

  // When the function returns, the literal behind the call runs: the low half of
  // the function's address, and then, unless that is a branch, the high half,
  // which traps for every address below 2^48.
  lemma CallReturnsIntoLiteral(cpu: Cpu, r: State, base: u64, dest: u64)
    requires IsA64(cpu.decode) && Undefined(cpu) && dest < 0x1_0000_0000_0000
    requires r.pc == base + 8 && Holds(r.mem, base, T.CallAbs(dest))
    ensures Fetch(cpu, r) == Some(Decode(dest % TWO32))
    ensures
      var o := Step(cpu, r);
      o.Next? && o.state.pc == base + 12 && Holds(o.state.mem, base, T.CallAbs(dest)) ==> Steps(cpu, r, 2) == Trap
  {
    Halves(r.mem, base, dest);
    var o := Step(cpu, r);
    if o.Next? && o.state.pc == base + 12 && Holds(o.state.mem, base, T.CallAbs(dest)) {
      Halves(o.state.mem, base, dest);
      UndefinedTraps(cpu, o.state, dest / TWO32);
    }
  }

  lemma Halves(m: Memory, base: u64, dest: u64)
    requires Holds(m, base, T.CallAbs(dest)) && dest < 0x1_0000_0000_0000
    ensures Read32(m, base + 8) == Some(dest % TWO32) && Read32(m, base + 12) == Some(dest / TWO32)
    ensures dest / TWO32 < 0x1_0000
  {
    CallHeld(m, base, dest);
    Split64(Read32(m, base + 8).value, Read32(m, base + 12).value, dest);
  }

  lemma Split64(lo: word, hi: int, v: int)
    requires v == lo + TWO32 * hi && v < 0x1_0000_0000_0000
    ensures v % TWO32 == lo && v / TWO32 == hi < 0x1_0000
  {
    Quotient(hi, TWO32);
    assert (v - lo) == hi * TWO32;
  }

  // ---- BLR ------------------------------------------------------------------

  lemma BothSteps(cpu: Cpu, w: word, x: SpecialInstr, target: u64, p: Processed, base: u64, s: State, t: State)
    requires Stands(cpu, w, x, target, p, base, s, t) && (x.Blr? || x.BCond?)
    ensures Step(cpu, s) == ExecSpecial(cpu, x, s) && Step(cpu, t) == ExecSpecial(cpu, x, t)
    ensures Wrap(s.pc + 4) == target + 4 && Wrap(t.pc + 4) == base + 4
    ensures Holds(t.mem, base + 4, T.JmpAbs(target + 4))
  {
    CopiedBlock(w, target);
    WrapSmall(target + 4);
    WrapSmall(base + 4);
    ReadBack32(t.mem, base, w);
  }

  // A copied BLR calls the same function and links behind itself, to the
  // continuation jump: a function that returns there comes back to where the
  // original call returns.
  lemma CopiedCallResumes(cpu: Cpu, w: word, rn: int, target: u64, p: Processed, base: u64, s: State, t: State,
                          r: State)
    requires Stands(cpu, w, Blr(rn), target, p, base, s, t)
    requires r.pc == base + 4 && InTrampoline(r.mem, base, p.block, !p.finished, target + 4)
    ensures
      var a, b := Step(cpu, s), Step(cpu, t);
      && a.Next? && b == Next(a.state.(regs := a.state.regs[LR := base + 4]))
      && Get(a.state.regs, LR) == target + 4
    ensures Steps(cpu, r, 2) == Next(r.(pc := target + 4, regs := r.regs[T.X16 := target + 4]))
  {
    BothSteps(cpu, w, Blr(rn), target, p, base, s, t);
    CopiedBlock(w, target);
    assert s.regs[LR := target + 4][LR := base + 4] == s.regs[LR := base + 4];
    T.JmpAbsRuns(cpu, r, target + 4);
  }

  // ---- B.cond ---------------------------------------------------------------

  // A conditional branch is copied although its destination moves with it.  It
  // falls through rightly; taken, it leads where the original leads exactly
  // when it was not moved.
  lemma CopiedConditionKeptIff(cpu: Cpu, w: word, cond: int, imm: int, target: u64, p: Processed, base: u64,
                               s: State, t: State)
    requires Stands(cpu, w, BCond(cond, imm), target, p, base, s, t)
    ensures !cpu.holds(cond, s.regs) ==>
      && Step(cpu, s) == Next(s.(pc := target + 4))
      && Steps(cpu, t, 3) == Next(s.(pc := target + 4, regs := s.regs[T.X16 := target + 4]))
    ensures cpu.holds(cond, s.regs) ==>
      var a, b := Step(cpu, s), Step(cpu, t);
      && a.Next? && b.Next? && b.state == a.state.(pc := Wrap(base + imm))
      && (b.state.pc == a.state.pc <==> base == target)
  {
    BothSteps(cpu, w, BCond(cond, imm), target, p, base, s, t);
    if cpu.holds(cond, s.regs) {
      WrapInjective(base, target, imm);
    } else {
      OnThroughJump(cpu, t, t.(pc := base + 4), target + 4);
    }
  }

  // One step onto an absolute jump.
  lemma OnThroughJump(cpu: Cpu, t: State, u: State, dest: u64)
    requires IsA64(cpu.decode) && Step(cpu, t) == Next(u) && u.pc + 16 <= TWO64 && Holds(u.mem, u.pc, T.JmpAbs(dest))
    ensures Steps(cpu, t, 3) == Next(u.(pc := dest, regs := u.regs[T.X16 := dest]))
  {
    T.JmpAbsRuns(cpu, u, dest);
    assert Steps(cpu, t, 3) == Steps(cpu, u, 2);
  }
}
