// Main results on x86-64 relocation: a finished trampoline does what the
// prolog does.
module X86Theorem {
  import opened Machine
  import opened Prolog
  import opened X86Isa
  import opened X86Trampoline
  import opened X86Layout
  import opened X86Simulation
  import Emitter

  // `dest` is the start of instruction j, and if that lies before instruction
  // i, nothing in between changed size.
  ghost predicate Lands(p: Program, i: nat, j: nat, dest: u64)
    requires p.Valid() && i < p.N()
  {
    && j < p.N() && dest == p.Start(j)
    && forall k | j <= k < i :: SameSize(p.insns, p.built.blocks, k)
  }

  ghost predicate TargetOk(p: Program, i: nat, dest: u64)
    requires p.Valid() && i < p.N()
  {
    p.target <= dest < p.End() ==> exists j: nat :: Lands(p, i, j, dest)
  }

  // The one-byte and the two-byte form of a conditional jump without prefixes.
  predicate Unprefixed(bytes: seq<byte>, cc: int) {
    && 0 <= cc < 16
    && ((|bytes| > 0 && bytes[0] == 0x70 + cc) || (|bytes| > 1 && bytes[0] == 0x0F && bytes[1] == 0x80 + cc))
  }

  lemma ConditionOf(bytes: seq<byte>, cc: int)
    requires Unprefixed(bytes, cc)
    ensures Condition(bytes) == Some(cc)
  {
    if bytes[0] == 0x0F {
      assert bytes[1..][0] == 0x80 + cc;
    }
  }

  // What the relocation asks of instruction i.
  ghost predicate SiteOk(cpu: Cpu, p: Program, i: nat)
    requires p.Valid() && i < p.N()
  {
    var bytes, kind := p.insns[i].bytes, p.insns[i].kind;
    && cpu.valid(bytes) && kind == cpu.kind(bytes)
    && match kind
       case Jmp(disp) => TargetOk(p, i, Wrap(p.Start(i) + |bytes| + disp))
       case Loop(disp) => TargetOk(p, i, Wrap(p.Start(i) + |bytes| + disp))
       case Jcc(cc, disp) => Unprefixed(bytes, cc) && TargetOk(p, i, Wrap(p.Start(i) + |bytes| + disp))
       case Rip(disp, jump) => RipLast(cpu, bytes, disp, jump) && !OperandInProlog(disp, Len(p.insns, i + 1))
       case _ => true
  }

  ghost predicate Relocatable(cpu: Cpu, p: Program) {
    p.Valid() && forall i {:trigger SiteOk(cpu, p, i)} :: 0 <= i < p.N() ==> SiteOk(cpu, p, i)
  }

  // What Trampoline::new and the emission put into memory is a valid program.
  lemma Emitted(p: Program, m: Memory, code: seq<byte>)
    requires Readable(p.insns, p.target) && Sized(p.insns)
    requires BuildFrom(p.insns, p.target, PROLOG_MARGIN, None, []) == Some(p.built) && p.built.finished
    requires p.N() <= |p.insns|
    requires
      var blocks := AllBlocks(p.built, Ip(p.insns, p.target, p.N()));
      && Emitter.Emission(Thunks(blocks), p.base, |blocks|) == Some(code)
      && p.base + |code| < TWO64 && Holds(m, p.base, code)
    ensures p.Valid() && InTrampoline(p, m) && p.Top() == p.base + |code|
  {
    BuildIsAccepted(p.insns, p.target, PROLOG_MARGIN);
    var blocks := AllBlocks(p.built, Ip(p.insns, p.target, p.N()));
    Emitter.EmissionLength(Thunks(blocks), p.base, |blocks|);
    OffIsOffset(blocks, |blocks|);
    PrefixOff(p.built.blocks, blocks, p.N());
    forall k | 0 <= k < |blocks| ensures BlockAt(m, p.base, blocks, k) {
      EmittedBlock(m, p.base, blocks, Thunks(blocks), code, k);
    }
  }

  lemma {:induction false} PrefixOff(a: seq<Block>, b: seq<Block>, k: nat)
    requires k <= |a| <= |b| && b[..|a|] == a
    ensures Off(a, k) == Off(b, k)
  {
    if k > 0 {
      PrefixOff(a, b, k - 1);
      assert b[k - 1] == b[..|a|][k - 1];
    }
  }

  // ---- transfers ------------------------------------------------------------

  lemma NearTarget(p: Program, i: nat, dest: u64) returns (j: nat)
    requires p.Valid() && i < p.N() && Transfers(p.insns[i], Ip(p.insns, p.target, i), dest) && TargetOk(p, i, dest)
    requires InProlog(p.target, PROLOG_MARGIN, dest)
    ensures Near(p, i, j) && dest == p.Start(j)
  {
    InsnInside(p, i);
    assert Ip(p.insns, p.target, i) == p.Start(i);
    assert Internal(p.insns, p.target, PROLOG_MARGIN, i, dest);
    TargetNotCutOff(p.insns, p.target, PROLOG_MARGIN, p.built, i, dest);
    j :| Lands(p, i, j, dest);
    if i < j {
      ForwardLayout(p.insns, p.target, p.built, i, j);
    } else {
      DisplacementKept(p.insns, p.built.blocks, j, i);
    }
  }

  // Every instruction of the prolog starts within the margin, so a destination
  // beyond it is outside.
  lemma FarTarget(p: Program, i: nat, dest: u64)
    requires p.Valid() && i < p.N() && TargetOk(p, i, dest) && !InProlog(p.target, PROLOG_MARGIN, dest)
    ensures !(p.target <= dest < p.End())
  {
    if p.target <= dest < p.End() {
      var j: nat :| Lands(p, i, j, dest);
      LenMonotone(p.insns, j, p.N() - 1);
      assert false;
    }
  }

  lemma JoinedUnlessLast(p: Program, i: nat)
    requires p.Valid() && i < p.N()
    requires p.insns[i].kind.Plain? || p.insns[i].kind.Call? || p.insns[i].kind.Jcc? || p.insns[i].kind.Loop?
             || (p.insns[i].kind.Rip? && !p.insns[i].kind.jump)
    ensures Joined(p, i)
  {
    var pr := SiteMeans(p.insns, p.target, PROLOG_MARGIN, p.built, i);
  }

  // ---- one step -------------------------------------------------------------

  lemma SimulateTransfer(cpu: Cpu, p: Program, i: nat, dest: u64, s: State, t: State) returns (k: nat, u: State)
    requires Stand(cpu, p, i, s, t) && SiteOk(cpu, p, i) && Transfers(p.insns[i], s.pc, dest)
    ensures Follows(cpu, p, Exec(cpu, p.insns[i].bytes, s), t, k, u)
  {
    var pr := SiteMeans(p.insns, p.target, PROLOG_MARGIN, p.built, i);
    if !p.insns[i].kind.Jmp? {
      JoinedUnlessLast(p, i);
    }
    if InProlog(p.target, PROLOG_MARGIN, dest) {
      var j := NearTarget(p, i, dest);
      k, u := CopyTransfer(cpu, p, i, j, dest, s, t);
    } else {
      FarTarget(p, i, dest);
      if p.insns[i].kind.Jmp? {
        k, u := FarJmp(cpu, p, i, dest, s, t);
      } else {
        var cc := p.insns[i].kind.cc;
        ConditionOf(p.insns[i].bytes, cc);
        k, u := FarJcc(cpu, p, i, cc, dest, s, t);
      }
    }
  }

  lemma SimulateInsn(cpu: Cpu, p: Program, i: nat, s: State, t: State) returns (k: nat, u: State)
    requires Stand(cpu, p, i, s, t) && SiteOk(cpu, p, i)
    ensures Follows(cpu, p, Exec(cpu, p.insns[i].bytes, s), t, k, u)
  {
    var insn := p.insns[i];
    var pr := SiteMeans(p.insns, p.target, PROLOG_MARGIN, p.built, i);
    match insn.kind
    case Rip(disp, jump) =>
      if !jump {
        JoinedUnlessLast(p, i);
      }
      k, u := RelocateRip(cpu, p, i, disp, jump, s, t);
    case Call(disp) =>
      JoinedUnlessLast(p, i);
      k, u := RelocateCall(cpu, p, i, disp, s, t);
    case Ret => k, u := CopyPlain(cpu, p, i, s, t);
    case Plain =>
      JoinedUnlessLast(p, i);
      k, u := CopyPlain(cpu, p, i, s, t);
    case _ => k, u := SimulateTransfer(cpu, p, i, Wrap(s.pc + |insn.bytes| + insn.kind.disp), s, t);
  }

  // ---- the trampoline's memory may differ at the addresses in d -------------

  // What a caller can observe.
  ghost predicate Similar(s: State, t: State, d: set<int>) {
    s.pc == t.pc && s.regs == t.regs && s.flags == t.flags && Agree(s.mem, t.mem, d)
  }

  ghost predicate Alike(a: Outcome, b: Outcome, d: set<int>) {
    match (a, b)
    case (Trap, Trap) => true
    case (Next(s, c), Next(t, c')) => c == c' && Similar(s, t, d)
    case _ => false
  }

  // The step from s neither reads an address in d nor depends on one.
  ghost predicate Blind(cpu: Cpu, s: State, d: set<int>) {
    cpu.fetch(s.mem, s.pc).Some? ==>
      var bytes := cpu.fetch(s.mem, s.pc).value;
      forall m: Memory | Agree(s.mem, m, d) :: Alike(Exec(cpu, bytes, s), Exec(cpu, bytes, s.(mem := m)), d)
  }

  ghost predicate Apart(p: Program, d: set<int>)
    requires p.Valid()
  {
    forall z | p.base <= z < p.Top() :: z !in d
  }

  // The step from s keeps the trampoline and does not depend on d.
  ghost predicate Untouched(cpu: Cpu, p: Program, d: set<int>, s: State)
    requires p.Valid()
  {
    && Blind(cpu, s, d)
    && (Step(cpu, s).Next? ==> InTrampoline(p, Step(cpu, s).state.mem))
  }

  ghost predicate InProgram(p: Program, m: Memory)
    requires p.Valid()
  {
    forall i {:trigger p.insns[i]} :: 0 <= i < p.N() ==> Holds(m, p.Start(i), p.insns[i].bytes)
  }

  ghost predicate Facing(p: Program, d: set<int>, i: nat, s: State, t: State)
    requires p.Valid()
  {
    && i < p.N() && s.pc == p.Start(i) && t.pc == p.At(i)
    && s.regs == t.regs && s.flags == t.flags && Agree(s.mem, t.mem, d)
  }

  // As Follows, for the prolog step from s.
  ghost predicate Matches(cpu: Cpu, p: Program, d: set<int>, o: Outcome, t: State, k: nat, u: State)
    requires p.Valid()
  {
    && k > 0
    && match o
       case Trap => Glides(cpu, p.base, p.Top(), t, k - 1, u) && Inside(p.base, p.Top(), u) && Step(cpu, u).Trap?
       case Next(s', computed) =>
         if computed || !Inside(p.target, p.End(), s') then
           && Glides(cpu, p.base, p.Top(), t, k - 1, u) && Inside(p.base, p.Top(), u)
           && Step(cpu, u).Next? && Step(cpu, u).computed && Similar(s', Step(cpu, u).state, d)
         else Glides(cpu, p.base, p.Top(), t, k, u) && exists j: nat :: Facing(p, d, j, s', u)
  }

  lemma FollowsMatches(cpu: Cpu, p: Program, d: set<int>, o: Outcome, o': Outcome, t: State, k: nat, u: State)
    requires p.Valid() && Follows(cpu, p, o', t, k, u) && Alike(o, o', d)
    ensures Matches(cpu, p, d, o, t, k, u)
  {
    if o.Next? && !o.computed && Inside(p.target, p.End(), o.state) {
      var j: nat :| Aligned(p, j, o'.state, u);
      assert Facing(p, d, j, o.state, u);
    }
  }

  lemma BlockAgrees(p: Program, a: Memory, b: Memory, d: set<int>, k: nat)
    requires p.Valid() && InTrampoline(p, a) && Agree(a, b, d) && Apart(p, d) && k < |p.Blocks()|
    ensures BlockAt(b, p.base, p.Blocks(), k)
  {
    var ts := Thunks(p.Blocks());
    assert BlockAt(a, p.base, p.Blocks(), k);
    ThunkOf(p.Blocks(), p.base, k);
    PrefixOff(p.built.blocks, p.Blocks(), p.N());
    OffMonotone(p.Blocks(), 0, k);
    OffMonotone(p.Blocks(), k + 1, |p.Blocks()|);
    AgreeHolds(a, b, d, p.base + Off(p.Blocks(), k), Emitter.CodeAt(ts, p.base, k));
  }

  lemma TrampolineAgrees(p: Program, a: Memory, b: Memory, d: set<int>)
    requires p.Valid() && InTrampoline(p, a) && Agree(a, b, d) && Apart(p, d)
    ensures InTrampoline(p, b)
  {
    forall k | 0 <= k < |p.Blocks()| ensures BlockAt(b, p.base, p.Blocks(), k) {
      BlockAgrees(p, a, b, d, k);
    }
  }

  lemma SimulateStep(cpu: Cpu, p: Program, d: set<int>, i: nat, s: State, t: State) returns (k: nat, u: State)
    requires X64(cpu) && Relocatable(cpu, p) && Facing(p, d, i, s, t)
    requires InProgram(p, s.mem) && InTrampoline(p, t.mem) && Apart(p, d) && Untouched(cpu, p, d, s)
    ensures Matches(cpu, p, d, Step(cpu, s), t, k, u)
  {
    var bytes := p.insns[i].bytes;
    assert SiteOk(cpu, p, i);
    assert cpu.fetch(s.mem, s.pc) == Some(bytes);
    var s2 := s.(mem := t.mem);
    var o, o' := Exec(cpu, bytes, s), Exec(cpu, bytes, s2);
    assert Alike(o, o', d);
    if o.Next? {
      TrampolineAgrees(p, o.state.mem, o'.state.mem, d);
    }
    k, u := SimulateInsn(cpu, p, i, s2, t);
    FollowsMatches(cpu, p, d, o, o', t, k, u);
  }

  // ---- whole runs -----------------------------------------------------------

  // Along `fuel` prolog steps from s the prolog stays in place and no step
  // touches the trampoline or depends on d.
  ghost predicate Tame(cpu: Cpu, p: Program, d: set<int>, s: State, fuel: nat)
    requires p.Valid()
    decreases fuel
  {
    fuel > 0 && Inside(p.target, p.End(), s) ==>
      && InProgram(p, s.mem) && Untouched(cpu, p, d, s)
      && match Step(cpu, s)
         case Trap => true
         case Next(s', computed) => computed || Tame(cpu, p, d, s', fuel - 1)
  }

  // A prolog run and what the trampoline makes of it: still running, the same
  // trap, or the same exit.
  ghost predicate Answers(cpu: Cpu, p: Program, d: set<int>, r: Result, t: State, fuel: nat, g: nat)
    requires p.Valid()
  {
    var q := Run(cpu, p.base, p.Top(), t, g);
    match r
    case Running => Run(cpu, p.base, p.Top(), t, fuel) == Running
    case Trapped => q == Trapped
    case Left(s') => q.Left? && Similar(s', q.state, d)
  }

  lemma {:induction false} SimulateRun(cpu: Cpu, p: Program, d: set<int>, i: nat, s: State, t: State, fuel: nat)
    returns (g: nat)
    requires X64(cpu) && Relocatable(cpu, p) && Facing(p, d, i, s, t)
    requires InTrampoline(p, t.mem) && Apart(p, d) && Tame(cpu, p, d, s, fuel)
    ensures Answers(cpu, p, d, Run(cpu, p.target, p.End(), s, fuel), t, fuel, g)
    decreases fuel, 1
  {
    StandsInside(p, d, i, s, t);
    if fuel == 0 {
      return 0;
    }
    var k, u := SimulateStep(cpu, p, d, i, s, t);
    var o := Step(cpu, s);
    if o.Trap? || o.computed || !Inside(p.target, p.End(), o.state) {
      LastStep(cpu, p, d, s, t, k, u, fuel);
      g := k;
    } else {
      var j := NextFacing(cpu, p, d, o.state, t, k, u);
      g := SimulateRest(cpu, p, d, j, o.state, t, k, u, fuel);
    }
  }

  lemma {:induction false} SimulateRest(cpu: Cpu, p: Program, d: set<int>, j: nat, s': State, t: State,
                                        k: nat, u: State, fuel: nat) returns (g: nat)
    requires X64(cpu) && Relocatable(cpu, p) && Facing(p, d, j, s', u)
    requires InTrampoline(p, u.mem) && Apart(p, d) && fuel > 0 && Tame(cpu, p, d, s', fuel - 1)
    requires k > 0 && Glides(cpu, p.base, p.Top(), t, k, u)
    ensures Answers(cpu, p, d, Run(cpu, p.target, p.End(), s', fuel - 1), t, fuel, g)
    decreases fuel, 0
  {
    var h := SimulateRun(cpu, p, d, j, s', u, fuel - 1);
    MoreSteps(cpu, p, d, Run(cpu, p.target, p.End(), s', fuel - 1), t, k, u, fuel, h);
    g := k + h;
  }

  lemma NextFacing(cpu: Cpu, p: Program, d: set<int>, s': State, t: State, k: nat, u: State) returns (j: nat)
    requires p.Valid() && Apart(p, d) && InTrampoline(p, s'.mem)
    requires Matches(cpu, p, d, Next(s', false), t, k, u) && Inside(p.target, p.End(), s')
    ensures k > 0 && Facing(p, d, j, s', u) && InTrampoline(p, u.mem)
    ensures Glides(cpu, p.base, p.Top(), t, k, u)
  {
    j :| Facing(p, d, j, s', u);
    TrampolineAgrees(p, s'.mem, u.mem, d);
  }

  lemma StandsInside(p: Program, d: set<int>, i: nat, s: State, t: State)
    requires p.Valid() && Facing(p, d, i, s, t)
    ensures Inside(p.target, p.End(), s) && Inside(p.base, p.Top(), t)
  {
    InsnInside(p, i);
    BlockInside(p, i);
    var pr := SiteMeans(p.insns, p.target, PROLOG_MARGIN, p.built, i);
  }

  lemma LastStep(cpu: Cpu, p: Program, d: set<int>, s: State, t: State, k: nat, u: State, fuel: nat)
    requires p.Valid() && fuel > 0 && Inside(p.target, p.End(), s) && Matches(cpu, p, d, Step(cpu, s), t, k, u)
    requires var o := Step(cpu, s); o.Trap? || o.computed || !Inside(p.target, p.End(), o.state)
    ensures Answers(cpu, p, d, Run(cpu, p.target, p.End(), s, fuel), t, fuel, k)
  {
    GlideRun(cpu, p.base, p.Top(), t, k - 1, u, 1);
    var q := Run(cpu, p.base, p.Top(), u, 1);
    assert Run(cpu, p.base, p.Top(), t, k) == q;
    var r := Run(cpu, p.target, p.End(), s, fuel);
    if Step(cpu, s).Next? {
      var s' := Step(cpu, s).state;
      assert Step(cpu, s).computed || Run(cpu, p.target, p.End(), s', fuel - 1) == Left(s');
      assert r == Left(s');
      assert q == Left(Step(cpu, u).state);
    }
  }

  // What the rest of a run comes to, after a glide of k steps.
  lemma MoreSteps(cpu: Cpu, p: Program, d: set<int>, r: Result, t: State, k: nat, u: State, fuel: nat, h: nat)
    requires p.Valid() && fuel > 0 && k > 0 && Glides(cpu, p.base, p.Top(), t, k, u)
    requires Answers(cpu, p, d, r, u, fuel - 1, h)
    ensures Answers(cpu, p, d, r, t, fuel, k + h)
  {
    GlideRun(cpu, p.base, p.Top(), t, k, u, h);
    GlideRun(cpu, p.base, p.Top(), t, k, u, fuel - 1);
    RunFuel(cpu, p.base, p.Top(), t, fuel, k + (fuel - 1));
  }

  // x86-64 simulation: registers, flags, program counter and memory agree at
  // every exit, whatever internal jumps are taken.
  lemma TrampolineSimulates(cpu: Cpu, p: Program, d: set<int>, s: State, t: State, fuel: nat)
    requires X64(cpu) && Relocatable(cpu, p)
    requires s.pc == p.target && t == s.(pc := p.base, mem := t.mem) && Agree(s.mem, t.mem, d)
    requires InTrampoline(p, t.mem) && Apart(p, d) && Tame(cpu, p, d, s, fuel)
    ensures exists g: nat :: Answers(cpu, p, d, Run(cpu, p.target, p.End(), s, fuel), t, fuel, g)
  {
    assert Facing(p, d, 0, s, t);
    var g := SimulateRun(cpu, p, d, 0, s, t, fuel);
  }

  // And nothing else: what the trampoline does within `fuel` steps, the prolog
  // does within as many.
  lemma TrampolineOnlySimulates(cpu: Cpu, p: Program, d: set<int>, s: State, t: State, fuel: nat)
    requires X64(cpu) && Relocatable(cpu, p)
    requires s.pc == p.target && t == s.(pc := p.base, mem := t.mem) && Agree(s.mem, t.mem, d)
    requires InTrampoline(p, t.mem) && Apart(p, d) && Tame(cpu, p, d, s, fuel)
    ensures
      var q, r := Run(cpu, p.base, p.Top(), t, fuel), Run(cpu, p.target, p.End(), s, fuel);
      match q
      case Running => true
      case Trapped => r == Trapped
      case Left(t') => r.Left? && Similar(r.state, t', d)
  {
    assert Facing(p, d, 0, s, t);
    var g := SimulateRun(cpu, p, d, 0, s, t, fuel);
    OnlyAnswer(cpu, p, d, Run(cpu, p.target, p.End(), s, fuel), t, fuel, g);
  }

  lemma OnlyAnswer(cpu: Cpu, p: Program, d: set<int>, r: Result, t: State, fuel: nat, g: nat)
    requires p.Valid() && Answers(cpu, p, d, r, t, fuel, g)
    ensures
      match Run(cpu, p.base, p.Top(), t, fuel)
      case Running => true
      case Trapped => r == Trapped
      case Left(t') => r.Left? && Similar(r.state, t', d)
  {
    RunFuel(cpu, p.base, p.Top(), t, fuel, g + fuel);
    RunFuel(cpu, p.base, p.Top(), t, g, g + fuel);
  }

  // ---- one memory -----------------------------------------------------------

  lemma AlwaysBlind(cpu: Cpu, s: State)
    ensures Blind(cpu, s, {})
  {
    if cpu.fetch(s.mem, s.pc).Some? {
      var bytes := cpu.fetch(s.mem, s.pc).value;
      forall m: Memory | Agree(s.mem, m, {}) ensures Alike(Exec(cpu, bytes, s), Exec(cpu, bytes, s.(mem := m)), {}) {
        AgreeEverywhere(s.mem, m);
        assert s.(mem := m) == s;
        var o := Exec(cpu, bytes, s);
        assert o.Next? ==> Agree(o.state.mem, o.state.mem, {});
      }
    }
  }

  // In one memory nothing can differ: it is enough that code stays in place.
  ghost predicate CodeIntact(cpu: Cpu, p: Program, s: State, fuel: nat)
    requires p.Valid()
    decreases fuel
  {
    && InProgram(p, s.mem) && InTrampoline(p, s.mem)
    && (fuel > 0 && Inside(p.target, p.End(), s) ==>
          match Step(cpu, s)
          case Trap => true
          case Next(s', computed) =>
            if computed then InTrampoline(p, s'.mem) else CodeIntact(cpu, p, s', fuel - 1))
  }

  lemma {:induction false} IntactIsTame(cpu: Cpu, p: Program, s: State, fuel: nat)
    requires p.Valid() && CodeIntact(cpu, p, s, fuel)
    ensures Tame(cpu, p, {}, s, fuel)
    decreases fuel
  {
    AlwaysBlind(cpu, s);
    if fuel > 0 && Inside(p.target, p.End(), s) && Step(cpu, s).Next? && !Step(cpu, s).computed {
      IntactIsTame(cpu, p, Step(cpu, s).state, fuel - 1);
    }
  }

  // The same state at every exit, memory included.
  lemma SameMemorySimulates(cpu: Cpu, p: Program, s: State, fuel: nat)
    requires X64(cpu) && Relocatable(cpu, p) && s.pc == p.target && CodeIntact(cpu, p, s, fuel)
    ensures
      var t, r := s.(pc := p.base), Run(cpu, p.target, p.End(), s, fuel);
      exists g: nat ::
        var q := Run(cpu, p.base, p.Top(), t, g);
        match r
        case Running => Run(cpu, p.base, p.Top(), t, fuel) == Running
        case Trapped => q == Trapped
        case Left(s') => q == Left(s')
  {
    IntactIsTame(cpu, p, s, fuel);
    var t, r := s.(pc := p.base), Run(cpu, p.target, p.End(), s, fuel);
    assert Agree(s.mem, t.mem, {});
    TrampolineSimulates(cpu, p, {}, s, t, fuel);
    var g: nat :| Answers(cpu, p, {}, r, t, fuel, g);
    SameExit(cpu, p, r, t, fuel, g);
  }

  lemma SameExit(cpu: Cpu, p: Program, r: Result, t: State, fuel: nat, g: nat)
    requires p.Valid() && Answers(cpu, p, {}, r, t, fuel, g)
    ensures r.Left? ==> Run(cpu, p.base, p.Top(), t, g) == r
  {
    if r.Left? {
      AgreeEverywhere(r.state.mem, Run(cpu, p.base, p.Top(), t, g).state.mem);
    }
  }

  // ---- leaving --------------------------------------------------------------

  ghost predicate ForwardSite(insn: Insn, target: u64, ip: u64) {
    forall dest: u64 | Transfers(insn, ip, dest) :: !(target <= dest <= ip)
  }

  ghost predicate OnlyForward(p: Program)
    requires p.Valid()
  {
    forall i {:trigger p.insns[i]} :: 0 <= i < p.N() ==> ForwardSite(p.insns[i], p.target, Ip(p.insns, p.target, i))
  }

  // Other than computed jumps, only direct transfers do not fall through.
  lemma NextPc(cpu: Cpu, bytes: seq<byte>, s: State)
    requires Exec(cpu, bytes, s).Next? && !Exec(cpu, bytes, s).computed
    ensures
      var pc, kind := Exec(cpu, bytes, s).state.pc, cpu.kind(bytes);
      pc == Wrap(s.pc + |bytes|) ||
      ((kind.Jmp? || kind.Jcc? || kind.Loop?) && pc == Wrap(s.pc + |bytes| + kind.disp))
  {
  }

  // Where an instruction at ip can lead without a computed jump.
  predicate Leads(insn: Insn, ip: u64, pc: u64) {
    pc == Wrap(ip + |insn.bytes|) ||
    ((insn.kind.Jmp? || insn.kind.Jcc? || insn.kind.Loop?) && pc == Wrap(ip + |insn.bytes| + insn.kind.disp))
  }

  lemma StepLeads(cpu: Cpu, insn: Insn, s: State, s': State)
    requires Fetches(cpu) && cpu.valid(insn.bytes) && insn.kind == cpu.kind(insn.bytes)
    requires Holds(s.mem, s.pc, insn.bytes) && Step(cpu, s) == Next(s', false)
    ensures Leads(insn, s.pc, s'.pc)
  {
    assert cpu.fetch(s.mem, s.pc) == Some(insn.bytes);
    NextPc(cpu, insn.bytes, s);
  }

  lemma SiteLeads(cpu: Cpu, p: Program, i: nat, s: State, s': State)
    requires Fetches(cpu) && Relocatable(cpu, p) && i < p.N() && InProgram(p, s.mem) && s.pc == p.Start(i)
    requires Step(cpu, s) == Next(s', false)
    ensures Leads(p.insns[i], s.pc, s'.pc)
  {
    assert SiteOk(cpu, p, i);
    StepLeads(cpu, p.insns[i], s, s');
  }

  lemma InOrder(p: Program, i: nat, j: nat, ip: u64, pc: u64)
    requires p.Valid() && OnlyForward(p) && i < p.N() && j < p.N()
    requires ip == Ip(p.insns, p.target, i) && pc == p.Start(j) && Leads(p.insns[i], ip, pc)
    ensures i < j
  {
    InsnInside(p, i);
    assert p.target <= pc;
    LeadsForward(p.insns[i], p.target, ip, pc);
    LaterStart(p, i, j);
  }

  // An instruction that only goes forward leads to a later one in the prolog.
  lemma LeadsForward(insn: Insn, target: u64, ip: u64, pc: u64)
    requires ForwardSite(insn, target, ip) && Leads(insn, ip, pc)
    requires target <= pc && |insn.bytes| > 0 && ip + |insn.bytes| < TWO64
    ensures pc > ip
  {
    WrapSmall(ip + |insn.bytes|);
    if pc != ip + |insn.bytes| {
      assert Transfers(insn, ip, pc);
    }
  }

  lemma LaterStart(p: Program, i: nat, j: nat)
    requires p.Valid() && i < p.N() && j < p.N() && p.Start(j) > p.Start(i)
    ensures i < j
  {
    if j <= i {
      LenMonotone(p.insns, j, i);
    }
  }

  lemma {:induction false} ForwardRun(cpu: Cpu, p: Program, d: set<int>, i: nat, s: State, t: State)
    requires X64(cpu) && Relocatable(cpu, p) && OnlyForward(p) && Facing(p, d, i, s, t)
    requires InTrampoline(p, t.mem) && Apart(p, d) && Tame(cpu, p, d, s, p.N() - i)
    ensures Run(cpu, p.target, p.End(), s, p.N() - i) != Running
    decreases p.N() - i, 1
  {
    StandsInside(p, d, i, s, t);
    var o := Step(cpu, s);
    if o.Next? && !o.computed && Inside(p.target, p.End(), o.state) {
      var k, u := SimulateStep(cpu, p, d, i, s, t);
      var j := NextFacing(cpu, p, d, o.state, t, k, u);
      SiteLeads(cpu, p, i, s, o.state);
      InOrder(p, i, j, s.pc, o.state.pc);
      ForwardRest(cpu, p, d, i, j, o.state, u);
    }
  }

  lemma {:induction false} ForwardRest(cpu: Cpu, p: Program, d: set<int>, i: nat, j: nat, s': State, u: State)
    requires X64(cpu) && Relocatable(cpu, p) && OnlyForward(p) && i < j && Facing(p, d, j, s', u)
    requires InTrampoline(p, u.mem) && Apart(p, d) && Tame(cpu, p, d, s', p.N() - i - 1)
    ensures Run(cpu, p.target, p.End(), s', p.N() - i - 1) != Running
    decreases p.N() - i, 0
  {
    TameLess(cpu, p, d, s', p.N() - i - 1, p.N() - j);
    ForwardRun(cpu, p, d, j, s', u);
    RunFuel(cpu, p.target, p.End(), s', p.N() - j, p.N() - i - 1);
  }

  lemma {:induction false} TameLess(cpu: Cpu, p: Program, d: set<int>, s: State, f: nat, g: nat)
    requires p.Valid() && g <= f && Tame(cpu, p, d, s, f)
    ensures Tame(cpu, p, d, s, g)
    decreases f
  {
    if g > 0 && Inside(p.target, p.End(), s) && Step(cpu, s).Next? && !Step(cpu, s).computed {
      TameLess(cpu, p, d, Step(cpu, s).state, f - 1, g - 1);
    }
  }

  // With only forward internal jumps both runs leave or trap: the prolog after
  // at most one step per instruction.
  lemma ForwardLeaves(cpu: Cpu, p: Program, d: set<int>, s: State, t: State)
    requires X64(cpu) && Relocatable(cpu, p) && OnlyForward(p)
    requires s.pc == p.target && t == s.(pc := p.base, mem := t.mem) && Agree(s.mem, t.mem, d)
    requires InTrampoline(p, t.mem) && Apart(p, d) && Tame(cpu, p, d, s, p.N())
    ensures Run(cpu, p.target, p.End(), s, p.N()) != Running
    ensures exists g: nat :: Run(cpu, p.base, p.Top(), t, g) != Running
  {
    assert Facing(p, d, 0, s, t);
    ForwardRun(cpu, p, d, 0, s, t);
    var g := SimulateRun(cpu, p, d, 0, s, t, p.N());
    AnswerLeaves(cpu, p, d, Run(cpu, p.target, p.End(), s, p.N()), t, p.N(), g);
  }

  lemma AnswerLeaves(cpu: Cpu, p: Program, d: set<int>, r: Result, t: State, fuel: nat, g: nat)
    requires p.Valid() && Answers(cpu, p, d, r, t, fuel, g) && r != Running
    ensures Run(cpu, p.base, p.Top(), t, g) != Running
  {
  }
}
