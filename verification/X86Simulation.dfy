// The relocated x86-64 prolog simulates the original one, instruction by
// instruction, in one memory.
module X86Simulation {
  import opened Machine
  import opened X86Isa
  import opened X86Trampoline
  import opened X86Layout
  import T = X86Thunk

  // A prolog, the blocks built from it and where the trampoline was placed.
  datatype Program = Program(target: u64, insns: seq<Insn>, built: Built, base: u64)
  {
    function N(): nat {
      |built.blocks|
    }

    function At(k: nat): int
      requires k <= |built.blocks| + 1
    {
      if k <= N() then base + Off(built.blocks, k) else base + Off(built.blocks, N()) + 14
    }

    function Top(): int {
      At(if built.jump then N() + 1 else N())
    }

    ghost predicate Valid() {
      && Readable(insns, target) && Accepted(insns, target, PROLOG_MARGIN, built)
      && built.finished && Sized(insns) && Top() < TWO64
    }

    function Start(i: nat): int
      requires i <= |insns|
    {
      target + Len(insns, i)
    }

    function End(): int
      requires N() <= |insns|
    {
      Start(N())
    }

    ghost function Blocks(): seq<Block>
      requires Valid()
    {
      AllBlocks(built, Ip(insns, target, N()))
    }
  }

  ghost predicate InTrampoline(p: Program, m: Memory)
    requires p.Valid()
  {
    forall k | 0 <= k < |p.Blocks()| :: BlockAt(m, p.base, p.Blocks(), k)
  }

  // The bytes of block k at its place.
  lemma BlockHeld(p: Program, m: Memory, k: nat)
    requires p.Valid() && InTrampoline(p, m) && k < p.N()
    ensures 0 <= p.At(k) < TWO64
    ensures
      var code := p.built.blocks[k].Generate(p.At(k));
      code.Some? && |code.value| == p.built.blocks[k].Size() && Holds(m, p.At(k), code.value)
  {
    OffPrefix(p, k);
    BlockInside(p, k);
    WrapSmall(p.At(k));
    assert p.Blocks()[k] == p.built.blocks[k];
    assert BlockAt(m, p.base, p.Blocks(), k);
    ThunkOf(p.Blocks(), p.base, k);
  }

  lemma JumpHeld(p: Program, m: Memory)
    requires p.Valid() && InTrampoline(p, m) && p.built.jump
    ensures p.End() < TWO64 && Holds(m, p.At(p.N()), T.JmpAbs(p.End()))
  {
    var n := p.N();
    LenMonotone(p.insns, n, |p.insns|);
    OffPrefix(p, n);
    assert p.Blocks()[n] == Jump(p.End());
    assert BlockAt(m, p.base, p.Blocks(), n);
    ThunkOf(p.Blocks(), p.base, n);
  }

  lemma {:induction false} OffPrefix(p: Program, k: nat)
    requires p.Valid() && k <= p.N()
    ensures Off(p.Blocks(), k) == Off(p.built.blocks, k)
  {
    if k > 0 {
      OffPrefix(p, k - 1);
    }
  }

  lemma BlockInside(p: Program, k: nat)
    requires p.Valid() && k < p.N()
    ensures p.base <= p.At(k) && p.At(k + 1) == p.At(k) + p.built.blocks[k].Size() <= p.Top()
    ensures k + 1 == p.N() && p.built.jump ==> p.At(k + 1) + 14 == p.Top()
  {
    OffMonotone(p.built.blocks, 0, k);
    OffMonotone(p.built.blocks, k + 1, p.N());
  }

  // Instruction i lies in the prolog.
  lemma InsnInside(p: Program, i: nat)
    requires p.Valid() && i < p.N()
    ensures p.target <= p.Start(i) < p.Start(i + 1) == p.Start(i) + |p.insns[i].bytes| <= p.End() < TWO64
  {
    LenMonotone(p.insns, 0, i);
    LenMonotone(p.insns, i + 1, p.N());
    LenMonotone(p.insns, p.N(), |p.insns|);
  }

  ghost predicate Same(s: State, t: State) {
    s.regs == t.regs && s.flags == t.flags && s.mem == t.mem
  }

  ghost predicate Aligned(p: Program, i: nat, s: State, t: State)
    requires p.Valid()
  {
    i < p.N() && s.pc == p.Start(i) && t.pc == p.At(i) && Same(s, t)
  }

  // k trampoline steps from t do what the prolog step with outcome o does:
  // they reach the corresponding instruction `u`, or the last of them, from
  // `u`, leaves or traps where the prolog does.
  ghost predicate Follows(cpu: Cpu, p: Program, o: Outcome, t: State, k: nat, u: State)
    requires p.Valid()
  {
    && k > 0
    && match o
       case Trap => Glides(cpu, p.base, p.Top(), t, k - 1, u) && Inside(p.base, p.Top(), u) && Step(cpu, u).Trap?
       case Next(s', computed) =>
         if computed || !Inside(p.target, p.End(), s') then
           && Glides(cpu, p.base, p.Top(), t, k - 1, u) && Inside(p.base, p.Top(), u)
           && Step(cpu, u) == Next(s', true)
         else Glides(cpu, p.base, p.Top(), t, k, u) && exists j: nat :: Aligned(p, j, s', u)
  }

  lemma FollowsOn(cpu: Cpu, p: Program, j: nat, s': State, t: State, k: nat, u: State)
    requires p.Valid() && k > 0 && Aligned(p, j, s', u) && Glides(cpu, p.base, p.Top(), t, k, u)
    ensures Follows(cpu, p, Next(s', false), t, k, u)
  {
    InsnInside(p, j);
  }

  lemma FollowsOut(cpu: Cpu, p: Program, s': State, computed: bool, t: State, k: nat, u: State)
    requires p.Valid() && (computed || !Inside(p.target, p.End(), s'))
    requires Glides(cpu, p.base, p.Top(), t, k, u) && Inside(p.base, p.Top(), u) && Step(cpu, u) == Next(s', true)
    ensures Follows(cpu, p, Next(s', computed), t, k + 1, u)
  {
  }

  // Both machines are about to run instruction i; whatever it does leaves the
  // trampoline in place.
  ghost predicate Stand(cpu: Cpu, p: Program, i: nat, s: State, t: State) {
    && X64(cpu) && p.Valid() && Aligned(p, i, s, t)
    && p.insns[i].kind == cpu.kind(p.insns[i].bytes) && cpu.valid(p.insns[i].bytes)
    && InTrampoline(p, t.mem)
    && var o := Exec(cpu, p.insns[i].bytes, s); o.Next? ==> InTrampoline(p, o.state.mem)
  }

  // An instruction that may fall through is not the last, or the continuation
  // jump follows it.
  ghost predicate Joined(p: Program, i: nat) {
    i + 1 == p.N() ==> p.built.jump
  }

  // From the end of block i on: at the next instruction, or through the
  // continuation jump.
  lemma Continue(cpu: Cpu, p: Program, i: nat, s': State, t: State, j: nat, t': State) returns (k: nat, u: State)
    requires X64(cpu) && p.Valid() && i < p.N() && Joined(p, i)
    requires j > 0 && Glides(cpu, p.base, p.Top(), t, j, t')
    requires s'.pc == p.Start(i + 1) && t'.pc == p.At(i + 1) && Same(s', t') && InTrampoline(p, s'.mem)
    ensures Follows(cpu, p, Next(s', false), t, k, u)
  {
    BlockInside(p, i);
    if i + 1 < p.N() {
      FollowsOn(cpu, p, i + 1, s', t, j, t');
      k, u := j, t';
    } else {
      JumpHeld(p, t'.mem);
      T.JmpAbsRuns(cpu, t', p.End());
      FollowsOut(cpu, p, s', false, t, j, t');
      k, u := j + 1, t';
    }
  }

  // ---- instructions that are copied or whose operand is adjusted ------------

  // The same outcome from two places: both trap, both leave for the same
  // address, or both fall through.
  ghost predicate SameMove(o: Outcome, o': Outcome, next: int, next': int) {
    match (o, o')
    case (Trap, Trap) => true
    case (Next(s, c), Next(t, c')) =>
      Same(s, t) && c == c' && if c then s.pc == t.pc else s.pc == next && t.pc == next'
    case _ => false
  }

  lemma Moves(cpu: Cpu, p: Program, i: nat, o: Outcome, t: State) returns (k: nat, u: State)
    requires X64(cpu) && p.Valid() && i < p.N() && t.pc == p.At(i)
    requires p.built.blocks[i].Size() > 0 && InTrampoline(p, t.mem)
    requires SameMove(o, Step(cpu, t), p.Start(i + 1), p.At(i + 1))
    requires o.Next? ==> InTrampoline(p, o.state.mem) && (o.computed || Joined(p, i))
    ensures Follows(cpu, p, o, t, k, u)
  {
    BlockInside(p, i);
    if o.Trap? || o.computed {
      k, u := 1, t;
    } else {
      var t' := Step(cpu, t).state;
      OneGlide(cpu, p, t, t');
      k, u := Continue(cpu, p, i, o.state, t, 1, t');
    }
  }

  lemma FetchCopy(cpu: Cpu, p: Program, i: nat, t: State)
    requires X64(cpu) && p.Valid() && i < p.N() && t.pc == p.At(i) && InTrampoline(p, t.mem)
    requires p.built.blocks[i] == Copy(p.insns[i].bytes) && cpu.valid(p.insns[i].bytes)
    ensures Step(cpu, t) == Exec(cpu, p.insns[i].bytes, t)
  {
    BlockHeld(p, t.mem, i);
  }

  // The two next addresses.
  lemma NextAddresses(p: Program, i: nat, s: State, t: State)
    requires p.Valid() && Aligned(p, i, s, t)
    ensures Wrap(s.pc + |p.insns[i].bytes|) == p.Start(i + 1)
    ensures 0 <= p.At(i + 1) < TWO64
    ensures p.built.blocks[i].Size() == |p.insns[i].bytes| ==> Wrap(t.pc + |p.insns[i].bytes|) == p.At(i + 1)
  {
    InsnInside(p, i);
    BlockInside(p, i);
    WrapSmall(p.Start(i + 1));
    WrapSmall(p.At(i + 1));
  }

  lemma CopyPlain(cpu: Cpu, p: Program, i: nat, s: State, t: State) returns (k: nat, u: State)
    requires Stand(cpu, p, i, s, t) && p.built.blocks[i] == Copy(p.insns[i].bytes)
    requires p.insns[i].kind.Ret? || (p.insns[i].kind.Plain? && Joined(p, i))
    ensures Follows(cpu, p, Exec(cpu, p.insns[i].bytes, s), t, k, u)
  {
    FetchCopy(cpu, p, i, t);
    NextAddresses(p, i, s, t);
    InsnInside(p, i);
    k, u := Moves(cpu, p, i, Exec(cpu, p.insns[i].bytes, s), t);
  }

  // ---- RIP-relative operands ------------------------------------------------

  // The displacement is the instruction's last four bytes, and any other can
  // stand in its place.
  ghost predicate RipLast(cpu: Cpu, bytes: seq<byte>, disp: int, jump: bool) {
    && |bytes| >= 4 && InRange(disp)
    && forall d: int | InRange(d) ::
         cpu.valid(WithDisp(bytes, d)) && cpu.kind(WithDisp(bytes, d)) == Rip(d, jump)
  }

  // Wherever the instruction goes, the adjusted operand is the same address.
  lemma AdjustedOperand(ip: u64, at: u64, n: nat, disp: int)
    ensures Wrap(at + n + Adjusted(ip, at, disp)) == Wrap(ip + n + disp)
  {
    var x := ip - at + disp;
    var q := x / TWO64;
    assert x == q * TWO64 + Wrap(x);
    var a := Adjusted(ip, at, disp);
    var c := if a == Wrap(x) then q else q + 1;
    assert at + n + a == ip + n + disp - c * TWO64;
    Periodic(ip + n + disp, -c);
  }

  lemma RipMoves(cpu: Cpu, opcode: seq<byte>, ea: u64, jump: bool, n: u64, n': u64, s: State, t: State)
    requires Same(s, t)
    ensures
      var o := ExecRip(cpu, opcode, ea, jump, n, s);
      SameMove(o, ExecRip(cpu, opcode, ea, jump, n', t), n, n') && (jump && o.Next? ==> o.computed)
  {
  }

  lemma ExecOfRip(cpu: Cpu, bytes: seq<byte>, opcode: seq<byte>, disp: int, jump: bool, s: State)
    requires cpu.kind(bytes) == Rip(disp, jump) && |bytes| >= 4 && opcode == bytes[..|bytes| - 4]
    ensures Exec(cpu, bytes, s) ==
      ExecRip(cpu, opcode, Wrap(s.pc + |bytes| + disp), jump, Wrap(s.pc + |bytes|), s)
  {
  }

  lemma RelocateRip(cpu: Cpu, p: Program, i: nat, disp: int, jump: bool, s: State, t: State)
    returns (k: nat, u: State)
    requires Stand(cpu, p, i, s, t) && p.insns[i].kind == Rip(disp, jump)
    requires p.built.blocks[i] == Relocate(p.insns[i].bytes, s.pc, disp)
    requires RipLast(cpu, p.insns[i].bytes, disp, jump) && (jump || Joined(p, i))
    ensures Follows(cpu, p, Exec(cpu, p.insns[i].bytes, s), t, k, u)
  {
    var bytes := p.insns[i].bytes;
    var bytes' := WithDisp(bytes, Adjusted(s.pc, t.pc, disp));
    BlockHeld(p, t.mem, i);
    BlockInside(p, i);
    InsnInside(p, i);
    NextAddresses(p, i, s, t);
    MovedRip(cpu, bytes, bytes', disp, jump, s, t, p.Start(i + 1), p.At(i + 1));
    k, u := Moves(cpu, p, i, Exec(cpu, bytes, s), t);
  }

  lemma MovedRip(cpu: Cpu, bytes: seq<byte>, bytes': seq<byte>, disp: int, jump: bool, s: State, t: State,
                 n: u64, n': u64)
    requires cpu.kind(bytes) == Rip(disp, jump) && RipLast(cpu, bytes, disp, jump) && Same(s, t)
    requires InRange(Adjusted(s.pc, t.pc, disp)) && bytes' == WithDisp(bytes, Adjusted(s.pc, t.pc, disp))
    requires n == Wrap(s.pc + |bytes|) && n' == Wrap(t.pc + |bytes|)
    ensures
      var o := Exec(cpu, bytes, s);
      SameMove(o, Exec(cpu, bytes', t), n, n') && (jump && o.Next? ==> o.computed)
  {
    var adjusted := Adjusted(s.pc, t.pc, disp);
    var opcode, ea := bytes[..|bytes| - 4], Wrap(s.pc + |bytes| + disp);
    assert bytes'[..|bytes'| - 4] == opcode;
    AdjustedOperand(s.pc, t.pc, |bytes|, disp);
    ExecOfRip(cpu, bytes, opcode, disp, jump, s);
    ExecOfRip(cpu, bytes', opcode, adjusted, jump, t);
    RipMoves(cpu, opcode, ea, jump, n, n', s, t);
  }

  // ---- calls ----------------------------------------------------------------

  lemma RelocateCall(cpu: Cpu, p: Program, i: nat, disp: int, s: State, t: State) returns (k: nat, u: State)
    requires Stand(cpu, p, i, s, t) && p.insns[i].kind == Call(disp)
    requires p.built.blocks[i] == Calls(Wrap(s.pc + |p.insns[i].bytes| + disp))
    ensures Follows(cpu, p, Exec(cpu, p.insns[i].bytes, s), t, k, u)
  {
    var dest := Wrap(s.pc + |p.insns[i].bytes| + disp);
    var o := Exec(cpu, p.insns[i].bytes, s);
    BlockHeld(p, t.mem, i);
    BlockInside(p, i);
    NextAddresses(p, i, s, t);
    T.CallAbsRuns(cpu, t, dest);
    if o.Trap? {
      k, u := 1, t;
    } else {
      var t1 := Step(cpu, t).state;
      BlockHeld(p, t1.mem, i);
      T.CallAbsResumes(cpu, t1, t.pc, dest);
      var t2 := t1.(pc := t.pc + 16);
      assert Glides(cpu, p.base, p.Top(), t2, 0, t2);
      assert Glides(cpu, p.base, p.Top(), t1, 1, t2);
      assert Glides(cpu, p.base, p.Top(), t, 2, t2);
      k, u := Continue(cpu, p, i, o.state, t, 2, t2);
    }
  }

  // ---- direct transfers -----------------------------------------------------

  // A displacement that leads from instruction i to instruction j leads from
  // block i to block j when they are as far apart.
  lemma SameDisplacement(a: int, b: int, x: int, y: int, disp: int)
    requires Wrap(a + disp) == b && y - x == b - a && 0 <= y < TWO64
    ensures Wrap(x + disp) == y
  {
    var q := (a + disp) / TWO64;
    assert a + disp == q * TWO64 + b;
    Periodic(x + disp, -q);
    WrapSmall(y);
  }

  ghost predicate Near(p: Program, i: nat, j: nat)
    requires p.Valid() && i < p.N()
  {
    j < p.N() && p.At(j) - p.At(i) == p.Start(j) - p.Start(i)
  }

  lemma SameTarget(p: Program, i: nat, j: nat, a: u64, dest: u64, x: u64, disp: int)
    requires p.Valid() && i < p.N() && a == p.Start(i) && x == p.At(i)
    requires Near(p, i, j) && dest == p.Start(j) && dest == Wrap(a + disp)
    ensures 0 <= p.At(j) < TWO64 && Wrap(x + disp) == p.At(j)
  {
    BlockInside(p, j);
    SameDisplacement(a, dest, x, p.At(j), disp);
  }

  // The step of a copied transfer that was taken.
  lemma TakenNear(cpu: Cpu, p: Program, i: nat, j: nat, s': State, t: State) returns (k: nat, u: State)
    requires p.Valid() && i < p.N() && t.pc == p.At(i) && j < p.N() && p.built.blocks[i].Size() > 0
    requires 0 <= p.At(j) < TWO64
    requires s'.pc == p.Start(j) && Step(cpu, t) == Next(s'.(pc := p.At(j)), false)
    ensures Follows(cpu, p, Next(s', false), t, k, u)
  {
    BlockInside(p, i);
    var t' := s'.(pc := p.At(j));
    OneGlide(cpu, p, t, t');
    FollowsOn(cpu, p, j, s', t, 1, t');
    k, u := 1, t';
  }

  // Jmp, Jcc and the loop instructions: whether control transfers, and the
  // registers afterwards.
  function Decide(cpu: Cpu, bytes: seq<byte>, s: State): (bool, Regs) {
    match cpu.kind(bytes)
    case Jcc(cc, _) => (Cond(cc, s.flags), s.regs)
    case Loop(_) => cpu.loop(bytes, s.regs, s.flags)
    case _ => (true, s.regs)
  }

  lemma ExecTransfer(cpu: Cpu, bytes: seq<byte>, s: State, taken: bool, regs: Regs)
    requires cpu.kind(bytes).Jmp? || cpu.kind(bytes).Jcc? || cpu.kind(bytes).Loop?
    requires (taken, regs) == Decide(cpu, bytes, s)
    ensures Exec(cpu, bytes, s) ==
      Next(s.(pc := if taken then Wrap(s.pc + |bytes| + cpu.kind(bytes).disp) else Wrap(s.pc + |bytes|),
              regs := regs), false)
  {
  }

  lemma CopyTransfer(cpu: Cpu, p: Program, i: nat, j: nat, dest: u64, s: State, t: State) returns (k: nat, u: State)
    requires Stand(cpu, p, i, s, t) && p.built.blocks[i] == Copy(p.insns[i].bytes)
    requires Transfers(p.insns[i], s.pc, dest) && Near(p, i, j) && dest == p.Start(j)
    requires p.insns[i].kind.Jmp? || Joined(p, i)
    ensures Follows(cpu, p, Exec(cpu, p.insns[i].bytes, s), t, k, u)
  {
    var insn := p.insns[i];
    var taken, regs := CopySteps(cpu, p, i, s, t);
    InsnInside(p, i);
    if taken {
      SameTarget(p, i, j, s.pc, dest, t.pc, |insn.bytes| + insn.kind.disp);
      k, u := TakenNear(cpu, p, i, j, s.(pc := dest, regs := regs), t);
    } else {
      NextAddresses(p, i, s, t);
      k, u := NotTaken(cpu, p, i, s.(pc := p.Start(i + 1), regs := regs), t);
    }
  }

  // The same decision in both places.
  lemma CopySteps(cpu: Cpu, p: Program, i: nat, s: State, t: State) returns (taken: bool, regs: Regs)
    requires Stand(cpu, p, i, s, t) && p.built.blocks[i] == Copy(p.insns[i].bytes)
    requires p.insns[i].kind.Jmp? || p.insns[i].kind.Jcc? || p.insns[i].kind.Loop?
    ensures p.insns[i].kind.Jmp? ==> taken
    ensures
      var n, disp := |p.insns[i].bytes|, p.insns[i].kind.disp;
      && Exec(cpu, p.insns[i].bytes, s) ==
           Next(s.(pc := if taken then Wrap(s.pc + n + disp) else Wrap(s.pc + n), regs := regs), false)
      && Step(cpu, t) ==
           Next(t.(pc := if taken then Wrap(t.pc + n + disp) else Wrap(t.pc + n), regs := regs), false)
  {
    var bytes := p.insns[i].bytes;
    var (b, r) := Decide(cpu, bytes, s);
    taken, regs := b, r;
    ExecTransfer(cpu, bytes, s, taken, regs);
    FetchCopy(cpu, p, i, t);
    ExecTransfer(cpu, bytes, t, taken, regs);
  }

  lemma NotTaken(cpu: Cpu, p: Program, i: nat, s': State, t: State) returns (k: nat, u: State)
    requires X64(cpu) && p.Valid() && i < p.N() && Joined(p, i) && t.pc == p.At(i) && p.built.blocks[i].Size() > 0
    requires s'.pc == p.Start(i + 1) && 0 <= p.At(i + 1) < TWO64 && InTrampoline(p, s'.mem)
    requires Step(cpu, t) == Next(s'.(pc := p.At(i + 1)), false)
    ensures Follows(cpu, p, Next(s', false), t, k, u)
  {
    BlockInside(p, i);
    var t' := s'.(pc := p.At(i + 1));
    OneGlide(cpu, p, t, t');
    k, u := Continue(cpu, p, i, s', t, 1, t');
  }

  lemma FarJmp(cpu: Cpu, p: Program, i: nat, dest: u64, s: State, t: State) returns (k: nat, u: State)
    requires Stand(cpu, p, i, s, t) && p.insns[i].kind.Jmp? && p.built.blocks[i] == Jump(dest)
    requires Transfers(p.insns[i], s.pc, dest) && !(p.target <= dest < p.End())
    ensures Follows(cpu, p, Exec(cpu, p.insns[i].bytes, s), t, k, u)
  {
    BlockHeld(p, t.mem, i);
    BlockInside(p, i);
    T.JmpAbsRuns(cpu, t, dest);
    FollowsOut(cpu, p, s.(pc := dest), false, t, 0, t);
    k, u := 1, t;
  }

  lemma FarJcc(cpu: Cpu, p: Program, i: nat, cc: int, dest: u64, s: State, t: State) returns (k: nat, u: State)
    requires Stand(cpu, p, i, s, t) && p.insns[i].kind.Jcc? && p.insns[i].kind.cc == cc && 0 <= cc < 16
    requires p.built.blocks[i] == JumpIf(dest, cc) && Joined(p, i)
    requires Transfers(p.insns[i], s.pc, dest) && !(p.target <= dest < p.End())
    ensures Follows(cpu, p, Exec(cpu, p.insns[i].bytes, s), t, k, u)
  {
    BlockHeld(p, t.mem, i);
    BlockInside(p, i);
    T.JccAbsRuns(cpu, t, dest, cc);
    ExecTransfer(cpu, p.insns[i].bytes, s, Cond(cc, s.flags), s.regs);
    var t' := Step(cpu, t).state;
    OneGlide(cpu, p, t, t');
    if Cond(cc, s.flags) {
      T.JmpAbsRuns(cpu, t', dest);
      FollowsOut(cpu, p, s.(pc := dest), false, t, 1, t');
      k, u := 2, t';
    } else {
      NextAddresses(p, i, s, t);
      k, u := Continue(cpu, p, i, s.(pc := p.Start(i + 1)), t, 1, t');
    }
  }

  lemma OneGlide(cpu: Cpu, p: Program, t: State, t': State)
    requires p.Valid() && Inside(p.base, p.Top(), t) && Step(cpu, t) == Next(t', false)
    ensures Glides(cpu, p.base, p.Top(), t, 1, t')
  {
    assert Glides(cpu, p.base, p.Top(), t', 0, t');
  }
}
