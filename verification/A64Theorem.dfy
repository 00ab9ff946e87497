// Main results on AArch64 relocation: every block has the effect of the word
// it replaces, and so has the trampoline of the one-word prolog.
module A64Theorem {
  import opened Machine
  import opened Prolog
  import opened A64Isa
  import opened A64Trampoline
  import Emitter
  import T = A64Thunk

  // prolog_margin: one word.
  const PROLOG_MARGIN := 4

  // Whether the instruction lets control through to the next one.
  predicate FallsThrough(i: Instr, r: Regs) {
    match i
    case B(_) => false
    case Cbz(wide, negate, rt, _) => !CbzTaken(wide, negate, Get(r, rt))
    case Tbz(bit, negate, rt, _) => !TbzTaken(bit, negate, Get(r, rt))
    case Br(_) => false
    case Ret(_) => false
    case _ => true
  }

  predicate IsDirect(i: Instr) {
    i.B? || i.Cbz? || i.Tbz?
  }

  // The registers once a block is done: those of the original, but for one
  // scratch register.
  function Scratched(block: Block, falls: bool, r: Regs): Regs {
    match block
    case Jump(dest) => r[T.X16 := dest]
    case CbzFar(_, _, _, dest) => if falls then r else r[T.X16 := dest]
    case TbzFar(_, _, _, dest) => if falls then r else r[T.X16 := dest]
    case LdrLiteral(_, rt, addr) => r[T.AddrReg(rt) := addr]
    case _ => r
  }

  // Equal registers but for X16 and X17.
  ghost predicate SameBut(a: Regs, b: Regs) {
    a[T.X16 := 0][T.X17 := 0] == b[T.X16 := 0][T.X17 := 0]
  }

  // Where the block leaves for: past itself when the original falls through,
  // as far away as the original when it is a copied branch, and to the
  // original's destination otherwise.
  function Onward(i: Instr, block: Block, falls: bool, at: u64, length: nat, dest: u64): int {
    if falls then at + length
    else if IsDirect(i) && block.Copy? then Wrap(at + i.imm)
    else dest
  }

  // n steps from t do what one step from s does.
  ghost predicate SameEffect(cpu: Cpu, i: Instr, block: Block, length: nat, s: State, t: State, n: nat) {
    match Exec(cpu, i, s)
    case Trap => Steps(cpu, t, n) == Trap
    case Next(s') =>
      var falls := FallsThrough(i, s.regs);
      && (falls ==> s'.pc == Wrap(s.pc + 4))
      && var pc := Onward(i, block, falls, t.pc, length, s'.pc);
         0 <= pc < TWO64 && Steps(cpu, t, n) == Next(State(pc, Scratched(block, falls, s'.regs), s'.mem))
  }

  lemma OneStep(cpu: Cpu, t: State)
    ensures Steps(cpu, t, 1) == Step(cpu, t)
  {
    if Step(cpu, t).Next? {
      assert Steps(cpu, Step(cpu, t).state, 0) == Step(cpu, t);
    }
  }

  // The word stands at s and its block at t; everything else is the same.
  ghost predicate Stand(cpu: Cpu, w: word, block: Block, s: State, t: State) {
    && IsA64(cpu.decode) && s.regs == t.regs && s.mem == t.mem
    && block.Valid() && t.pc + 24 < TWO64 && Holds(t.mem, t.pc, block.Encode())
  }

  lemma CopySame(cpu: Cpu, w: word, s: State, t: State)
    requires Stand(cpu, w, Copy(w), s, t)
    requires match Decode(w)
             case Adr(_, _) => false
             case Adrp(_, _) => false
             case Literal(_, _, _) => false
             case Special(_) => false
             case _ => true
    ensures SameEffect(cpu, Decode(w), Copy(w), 4, s, t, 1)
  {
    ReadBack32(t.mem, t.pc, w);
    OneStep(cpu, t);
    WrapSmall(t.pc + 4);
    CopyExec(cpu, Decode(w), w, s, t);
  }

  lemma CopyExec(cpu: Cpu, i: Instr, w: word, s: State, t: State)
    requires s.regs == t.regs && s.mem == t.mem && Wrap(t.pc + 4) == t.pc + 4
    requires !(i.Adr? || i.Adrp? || i.Literal? || i.Special?)
    requires Exec(cpu, i, t) == Steps(cpu, t, 1)
    ensures SameEffect(cpu, i, Copy(w), 4, s, t, 1)
  {
  }

  lemma FarSame(cpu: Cpu, w: word, dest: u64, s: State, t: State) returns (n: nat)
    requires Stand(cpu, w, Jump(dest), s, t) && Decode(w).B? && dest == Wrap(s.pc + Decode(w).imm)
    ensures n <= 5 && SameEffect(cpu, Decode(w), Jump(dest), 16, s, t, n)
  {
    T.JmpAbsRuns(cpu, t, dest);
    n := 2;
  }

  lemma CbzSame(cpu: Cpu, i: Instr, block: Block, s: State, t: State) returns (n: nat)
    requires IsA64(cpu.decode) && s.regs == t.regs && s.mem == t.mem && i.Cbz? && 0 <= i.rt < 0x20
    requires block == CbzFar(i.rt, i.wide, i.negate, Wrap(s.pc + i.imm))
    requires t.pc + 24 < TWO64 && Holds(t.mem, t.pc, block.Encode())
    ensures n <= 5 && SameEffect(cpu, i, block, 20, s, t, n)
  {
    T.CbzFarRuns(cpu, t, i.rt, i.wide, i.negate, block.dest);
    n := if CbzTaken(i.wide, i.negate, Get(t.regs, i.rt)) then 3 else 1;
  }

  lemma TbzSame(cpu: Cpu, i: Instr, block: Block, s: State, t: State) returns (n: nat)
    requires IsA64(cpu.decode) && s.regs == t.regs && s.mem == t.mem && i.Tbz? && 0 <= i.rt < 0x20 && 0 <= i.bit < 0x40
    requires block == TbzFar(i.rt, i.bit, i.negate, Wrap(s.pc + i.imm))
    requires t.pc + 24 < TWO64 && Holds(t.mem, t.pc, block.Encode())
    ensures n <= 5 && SameEffect(cpu, i, block, 20, s, t, n)
  {
    T.TbzFarRuns(cpu, t, i.rt, i.bit, i.negate, block.dest);
    n := if TbzTaken(i.bit, i.negate, Get(t.regs, i.rt)) then 3 else 1;
  }

  lemma AdrSame(cpu: Cpu, i: Instr, value: u64, s: State, t: State) returns (n: nat)
    requires IsA64(cpu.decode) && s.regs == t.regs && s.mem == t.mem && (i.Adr? || i.Adrp?) && 0 <= i.rd < 0x20
    requires value == Wrap((if i.Adr? then s.pc else s.pc - s.pc % 0x1000) + i.imm)
    requires t.pc + 24 < TWO64 && Holds(t.mem, t.pc, T.MovImm64(i.rd, value))
    ensures n <= 5 && SameEffect(cpu, i, MovImm(i.rd, value), 16, s, t, n)
  {
    T.MovImm64Runs(cpu, t, i.rd, value);
    AdrExec(cpu, i, value, s);
    n := 4;
  }

  lemma AdrExec(cpu: Cpu, i: Instr, value: u64, s: State)
    requires (i.Adr? || i.Adrp?) && value == Wrap((if i.Adr? then s.pc else s.pc - s.pc % 0x1000) + i.imm)
    ensures Exec(cpu, i, s) == Next(s.(pc := Wrap(s.pc + 4), regs := Set(s.regs, i.rd, value)))
  {
  }

  lemma LiteralSame(cpu: Cpu, i: Instr, block: Block, s: State, t: State) returns (n: nat)
    requires IsA64(cpu.decode) && s.regs == t.regs && s.mem == t.mem && i.Literal? && 0 <= i.op < 3 && 0 <= i.rt < 0x20
    requires block == LdrLiteral(i.op, i.rt, Wrap(s.pc + i.imm))
    requires t.pc + 24 < TWO64 && Holds(t.mem, t.pc, block.Encode())
    ensures n <= 5 && SameEffect(cpu, i, block, 20, s, t, n)
  {
    T.LdrLiteralRuns(cpu, t, i.op, i.rt, block.addr);
    n := 5;
    var v := Load(i.op, s.mem, block.addr);
    if v.Some? {
      SetApart(t.regs, T.AddrReg(i.rt), block.addr, i.rt, v.value);
    }
  }

  lemma SetApart(r: Regs, a: int, x: u64, b: int, y: u64)
    requires a != b && a != ZR
    ensures Set(r[a := x], b, y) == Set(r, b, y)[a := x]
  {
  }

  lemma PrefetchSame(cpu: Cpu, i: Instr, s: State, t: State) returns (n: nat)
    requires IsA64(cpu.decode) && s.regs == t.regs && s.mem == t.mem && i.Literal? && i.op == 3
    requires t.pc + 24 < TWO64 && Holds(t.mem, t.pc, LE32(T.NOP))
    ensures n <= 5 && SameEffect(cpu, i, A64Trampoline.Block.Nop, 4, s, t, n)
  {
    ReadBack32(t.mem, t.pc, T.NOP);
    T.ConstantsDecode();
    OneStep(cpu, t);
    WrapSmall(t.pc + 4);
    n := 1;
  }

  // AArch64 relocation, word by word: for every word that is B, CBZ, CBNZ,
  // TBZ, TBNZ, ADR, ADRP, a literal load, RET or independent of the program
  // counter, at every address, the block has the word's effect on the program
  // counter, memory and all registers but the scratch one.
  lemma WordRelocates(cpu: Cpu, w: word, target: u64, margin: nat, branch: Option<u64>, p: Processed,
                      s: State, t: State)
    returns (n: nat)
    requires Process(w, s.pc, target, margin, branch) == Some(p) && !Decode(w).Special?
    requires Stand(cpu, w, p.block, s, t)
    ensures n <= 5 && SameEffect(cpu, Decode(w), p.block, p.size, s, t, n)
  {
    ProcessMeans(w, s.pc, target, margin, branch);
    if p.block.Copy? {
      CopySame(cpu, w, s, t);
      n := 1;
    } else if IsDirect(Decode(w)) {
      n := ExpandedBranch(cpu, w, target, margin, branch, p, s, t);
    } else {
      n := ExpandedData(cpu, w, Decode(w), target, margin, branch, p, s, t);
    }
  }

  lemma ExpandedBranch(cpu: Cpu, w: word, target: u64, margin: nat, branch: Option<u64>, p: Processed,
                       s: State, t: State) returns (n: nat)
    requires Meant(p, Decode(w), w, s.pc, target, margin, branch) && !p.block.Copy? && IsDirect(Decode(w))
    requires Stand(cpu, w, p.block, s, t)
    ensures n <= 5 && SameEffect(cpu, Decode(w), p.block, p.size, s, t, n)
  {
    match Decode(w)
    case B(_) => n := FarSame(cpu, w, p.block.dest, s, t);
    case Cbz(_, _, _, _) => n := CbzSame(cpu, Decode(w), p.block, s, t);
    case Tbz(_, _, _, _) => n := TbzSame(cpu, Decode(w), p.block, s, t);
  }

  lemma ExpandedData(cpu: Cpu, w: word, i: Instr, target: u64, margin: nat, branch: Option<u64>, p: Processed,
                     s: State, t: State) returns (n: nat)
    requires Meant(p, i, w, s.pc, target, margin, branch) && !p.block.Copy? && !IsDirect(i) && !i.Special?
    requires Stand(cpu, w, p.block, s, t)
    ensures n <= 5 && SameEffect(cpu, i, p.block, p.size, s, t, n)
  {
    match i
    case Adr(_, _) => n := AdrSame(cpu, i, p.block.value, s, t);
    case Adrp(_, _) => n := AdrSame(cpu, i, p.block.value, s, t);
    case Literal(op, _, _) =>
      if op == 3 {
        n := PrefetchSame(cpu, i, s, t);
      } else {
        n := LiteralSame(cpu, i, p.block, s, t);
      }
  }

  lemma ScratchOnly(block: Block, falls: bool, r: Regs)
    ensures SameBut(r, Scratched(block, falls, r))
  {
    var q := Scratched(block, falls, r);
    assert forall k :: k != T.X16 && k != T.X17 ==> (k in r <==> k in q);
    assert r[T.X16 := 0][T.X17 := 0] == q[T.X16 := 0][T.X17 := 0];
  }

  // ---- the whole trampoline -------------------------------------------------

  // With the one-word margin every build that is not refused is one block,
  // followed by the continuation jump unless the word never falls through.
  lemma OneBlock(w: word, rest: seq<word>, target: u64)
    requires ReadableWords([w] + rest, target, PROLOG_MARGIN)
    ensures
      var p := Process(w, target, target, PROLOG_MARGIN, None);
      BuildFrom([w] + rest, target, PROLOG_MARGIN, None, []) ==
        if p.None? then None else Some(Built([p.value.block], !p.value.finished))
    ensures
      var p := Process(w, target, target, PROLOG_MARGIN, None);
      p.Some? && !Decode(w).Special? ==> p.value.finished == (Decode(w).B? || Decode(w).Ret?)
  {
    var p := Process(w, target, target, PROLOG_MARGIN, None);
    if p.Some? {
      ProcessMeans(w, target, target, PROLOG_MARGIN, None);
      OnlySelf(Match(w), w, target);
      assert [] + [p.value.block] == [p.value.block];
    }
  }

  // Such a build fails exactly on the literal loads to SIMD registers.
  lemma BuildRefusedIff(w: word, rest: seq<word>, target: u64)
    requires ReadableWords([w] + rest, target, PROLOG_MARGIN)
    ensures BuildFrom([w] + rest, target, PROLOG_MARGIN, None, []).None? <==> IsSimdLiteral(w)
  {
    OneBlock(w, rest, target);
    ProcessMeans(w, target, target, PROLOG_MARGIN, None);
  }

  // The only internal destination of a one-word prolog is the word itself.
  lemma OnlySelf(m: Pattern, w: word, target: u64)
    requires m.Valid()
    ensures
      var p := Relocate(m, w, target, target, PROLOG_MARGIN, None);
      p.Some? ==> !InBranch(p.value.branch, target)
  {
    var p := Relocate(m, w, target, target, PROLOG_MARGIN, None);
    match m
    case PB(imm26) => SelfOnly(target, imm26, 26);
    case PCbz(_, _, _, imm19) => SelfOnly(target, imm19, 19);
    case PTbz(_, _, _, imm14) => SelfOnly(target, imm14, 14);
    case _ =>
  }

  lemma SelfOnly(target: u64, value: int, bits: int)
    requires bits in {14, 19, 21, 26}
    ensures InProlog(target, PROLOG_MARGIN, Dest(target, value, bits)) ==> Dest(target, value, bits) == target
  {
    SelfOrFar(target, SignExtend(value, bits));
  }

  lemma SelfOrFar(target: u64, x: int)
    ensures InProlog(target, PROLOG_MARGIN, Wrap(target + Wrap(4 * x))) ==> Wrap(target + Wrap(4 * x)) == target
  {
    var q := 4 * x / TWO64;
    var d := Wrap(4 * x);
    assert d == 4 * (x - q * 0x4000_0000_0000_0000);
  }

  lemma HeldBlocks(m: Memory, base: u64, blocks: seq<Block>, code: seq<byte>, k: nat)
    requires Emitter.Emission(Thunks(blocks), base, |blocks|) == Some(code) && Holds(m, base, code)
    requires k < |blocks| && blocks[k].Valid()
    ensures Holds(m, base + Emitter.Offset(Thunks(blocks), k), blocks[k].Encode())
  {
    Emitter.EmittedThunk(m, base, Thunks(blocks), code, k);
    assert Thunks(blocks)[k] == AsThunk(blocks[k]);
  }

  // Memory holds the trampoline: the block, and the jump behind it.
  ghost predicate InTrampoline(m: Memory, base: u64, block: Block, jump: bool, next: u64) {
    && block.Valid() && Holds(m, base, block.Encode())
    && (jump ==> Holds(m, base + |block.Encode()|, T.JmpAbs(next)))
  }

  lemma Emitted(m: Memory, base: u64, target: u64, block: Block, jump: bool, code: seq<byte>)
    requires block.Valid() && target + 4 < TWO64 && Holds(m, base, code)
    requires
      var blocks := AllBlocks(Built([block], jump), target);
      Emitter.Emission(Thunks(blocks), base, |blocks|) == Some(code)
    ensures InTrampoline(m, base, block, jump, target + 4)
  {
    var blocks := AllBlocks(Built([block], jump), target);
    HeldBlocks(m, base, blocks, code, 0);
    assert Emitter.Offset(Thunks(blocks), 0) == 0;
    if jump {
      WrapSmall(target + 4);
      HeldBlocks(m, base, blocks, code, 1);
      assert Thunks(blocks)[0] == AsThunk(block);
      assert Emitter.Offset(Thunks(blocks), 1) == |block.Encode()|;
    }
  }

  // The state in which the trampoline answers the original's s': at the same
  // place, or back at its own start when the original branched to itself.
  ghost predicate Answers(i: Instr, falls: bool, target: u64, base: u64, d: set<int>, s': State, t': State) {
    && SameBut(s'.regs, t'.regs) && Agree(s'.mem, t'.mem, d)
    && t'.pc == if IsDirect(i) && !falls && s'.pc == target then base else s'.pc
  }

  // What the block and the jump behind it make of the word's outcome o.
  ghost predicate Follows(cpu: Cpu, i: Instr, falls: bool, target: u64, base: u64, d: set<int>,
                          o: Outcome, r: Outcome)
  {
    match o
    case Trap => r == Trap
    case Next(s') => r.Next? && Answers(i, falls, target, base, d, s', r.state)
  }

  lemma TrampolineFollows(cpu: Cpu, w: word, target: u64, p: Processed, base: u64, s: State, t: State)
    returns (n: nat)
    requires IsA64(cpu.decode) && !Decode(w).Special? && target + 4 < TWO64 && base + 64 < TWO64
    requires Process(w, target, target, PROLOG_MARGIN, None) == Some(p)
    requires s.pc == target && t == s.(pc := base)
    requires InTrampoline(s.mem, base, p.block, !p.finished, target + 4)
    requires
      var o := Exec(cpu, Decode(w), s);
      o.Next? ==> InTrampoline(o.state.mem, base, p.block, !p.finished, target + 4)
    ensures n <= 7
    ensures Follows(cpu, Decode(w), FallsThrough(Decode(w), s.regs), target, base, {},
                    Exec(cpu, Decode(w), s), Steps(cpu, t, n))
  {
    var i := Decode(w);
    ProcessMeans(w, target, target, PROLOG_MARGIN, None);
    SizeIsLength(w, target, target, PROLOG_MARGIN, None);
    n := WordRelocates(cpu, w, target, PROLOG_MARGIN, None, p, s, t);
    Aligned(w);
    if Exec(cpu, i, s).Next? {
      n := Finish(cpu, w, i, target, p, base, s, Exec(cpu, i, s).state, t, n);
    }
  }

  ghost predicate Alike(a: Outcome, b: Outcome, d: set<int>) {
    match (a, b)
    case (Trap, Trap) => true
    case (Next(s), Next(t)) => s.pc == t.pc && s.regs == t.regs && Agree(s.mem, t.mem, d)
    case _ => false
  }

  // The instruction neither reads an address in d nor depends on one.
  ghost predicate Blind(cpu: Cpu, i: Instr, s: State, d: set<int>) {
    forall m: Memory | Agree(s.mem, m, d) :: Alike(Exec(cpu, i, s), Exec(cpu, i, s.(mem := m)), d)
  }

  // How long the trampoline is.
  function Length(block: Block, jump: bool): nat
    requires block.Valid()
  {
    |block.Encode()| + if jump then 16 else 0
  }

  ghost predicate Apart(base: int, block: Block, jump: bool, d: set<int>)
    requires block.Valid()
  {
    forall z | base <= z < base + Length(block, jump) :: z !in d
  }

  // The trampoline does not depend on what d holds.
  lemma TrampolineAgrees(a: Memory, b: Memory, d: set<int>, base: u64, block: Block, jump: bool, next: u64)
    requires InTrampoline(a, base, block, jump, next) && Agree(a, b, d) && Apart(base, block, jump, d)
    requires base + 64 < TWO64 && |block.Encode()| <= 20
    ensures InTrampoline(b, base, block, jump, next)
  {
    AgreeHolds(a, b, d, base, block.Encode());
    if jump {
      AgreeHolds(a, b, d, base + |block.Encode()|, T.JmpAbs(next));
    }
  }

  // The whole trampoline of a one-word prolog does what the word does: it
  // traps with it, loops with it, or leaves for where it leads, with the same
  // registers but X16 and X17, and the same memory but for the addresses in d
  // at which the trampoline's memory may differ.
  lemma TrampolineSimulates(cpu: Cpu, w: word, target: u64, p: Processed, base: u64, d: set<int>, s: State, t: State)
    returns (n: nat)
    requires IsA64(cpu.decode) && !Decode(w).Special? && target + 4 < TWO64 && base + 64 < TWO64
    requires Process(w, target, target, PROLOG_MARGIN, None) == Some(p)
    requires s.pc == target && Read32(s.mem, target) == Some(w)
    requires t == s.(pc := base, mem := t.mem) && Agree(s.mem, t.mem, d)
    requires InTrampoline(t.mem, base, p.block, !p.finished, target + 4)
    requires Apart(base, p.block, !p.finished, d) && Blind(cpu, Decode(w), s, d)
    requires Step(cpu, s).Next? ==> InTrampoline(Step(cpu, s).state.mem, base, p.block, !p.finished, target + 4)
    ensures n <= 7
    ensures Follows(cpu, Decode(w), FallsThrough(Decode(w), s.regs), target, base, d, Step(cpu, s), Steps(cpu, t, n))
  {
    var i := Decode(w);
    var s2 := s.(mem := t.mem);
    var o, o2 := Exec(cpu, i, s), Exec(cpu, i, s2);
    assert Alike(o, o2, d);
    SizeIsLength(w, target, target, PROLOG_MARGIN, None);
    SmallBlock(p.block);
    if o.Next? {
      TrampolineAgrees(o.state.mem, o2.state.mem, d, base, p.block, !p.finished, target + 4);
    }
    n := TrampolineFollows(cpu, w, target, p, base, s2, t);
    FollowsAlike(cpu, i, FallsThrough(i, s.regs), target, base, d, o, o2, Steps(cpu, t, n));
  }

  lemma SmallBlock(block: Block)
    requires block.Valid()
    ensures |block.Encode()| <= 20
  {
  }

  lemma FollowsAlike(cpu: Cpu, i: Instr, falls: bool, target: u64, base: u64, d: set<int>,
                     o: Outcome, o2: Outcome, r: Outcome)
    requires Alike(o, o2, d) && Follows(cpu, i, falls, target, base, {}, o2, r)
    ensures Follows(cpu, i, falls, target, base, d, o, r)
  {
    if o.Next? {
      AgreeEverywhere(o2.state.mem, r.state.mem);
    }
  }

  // From the end of the block on.
  lemma Finish(cpu: Cpu, w: word, i: Instr, target: u64, p: Processed, base: u64, s: State, s': State, t: State, k: nat)
    returns (n: nat)
    requires IsA64(cpu.decode) && target + 4 < TWO64 && base + 64 < TWO64 && k <= 5 && t.pc == base && s.pc == target
    requires !i.Special? && Meant(p, i, w, target, target, PROLOG_MARGIN, None) && (IsDirect(i) ==> i.imm % 4 == 0)
    requires Exec(cpu, i, s) == Next(s') && SameEffect(cpu, i, p.block, p.size, s, t, k)
    requires p.block.Valid() && p.size == |p.block.Encode()|
    requires InTrampoline(s'.mem, base, p.block, !p.finished, target + 4)
    ensures n <= 7 && Steps(cpu, t, n).Next?
    ensures Answers(i, FallsThrough(i, s.regs), target, base, {}, s', Steps(cpu, t, n).state)
  {
    var falls := FallsThrough(i, s.regs);
    var t' := Steps(cpu, t, k).state;
    n := k;
    if falls {
      ScratchOnly(p.block, falls, s'.regs);
      n := FinishFalling(cpu, i, target, p, base, s, s', t, t', k);
    } else {
      FinishLeaving(cpu, w, i, target, p, base, s, s', t');
    }
  }

  lemma FinishLeaving(cpu: Cpu, w: word, i: Instr, target: u64, p: Processed, base: u64, s: State, s': State,
                      t': State)
    requires Meant(p, i, w, target, target, PROLOG_MARGIN, None) && (IsDirect(i) ==> i.imm % 4 == 0)
    requires s.pc == target && Exec(cpu, i, s) == Next(s') && !FallsThrough(i, s.regs)
    requires t'.pc == Onward(i, p.block, false, base, p.size, s'.pc)
    requires t'.regs == Scratched(p.block, false, s'.regs) && t'.mem == s'.mem
    ensures Answers(i, false, target, base, {}, s', t')
  {
    ScratchOnly(p.block, false, s'.regs);
    if IsDirect(i) {
      BackToStart(i, w, target, base, p);
      TakenDest(cpu, i, s, s');
    }
  }

  lemma TakenDest(cpu: Cpu, i: Instr, s: State, s': State)
    requires IsDirect(i) && !FallsThrough(i, s.regs) && Exec(cpu, i, s) == Next(s')
    ensures s'.pc == Wrap(s.pc + i.imm)
  {
  }

  lemma FinishFalling(cpu: Cpu, i: Instr, target: u64, p: Processed, base: u64, s: State, s': State, t: State,
                      t': State, k: nat) returns (n: nat)
    requires IsA64(cpu.decode) && target + 4 < TWO64 && base + 64 < TWO64 && !p.finished
    requires FallsThrough(i, s.regs) && s'.pc == Wrap(target + 4) && Steps(cpu, t, k) == Next(t')
    requires SameBut(s'.regs, t'.regs) && t'.mem == s'.mem
    requires p.block.Valid() && |p.block.Encode()| <= 20 && t'.pc == base + |p.block.Encode()|
    requires InTrampoline(s'.mem, base, p.block, true, target + 4)
    ensures n == k + 2 && Steps(cpu, t, n).Next?
    ensures Answers(i, true, target, base, {}, s', Steps(cpu, t, n).state)
  {
    WrapSmall(target + 4);
    JumpOn(cpu, t, k, t', target + 4, s'.regs);
    n := k + 2;
  }

  // The continuation jump.
  lemma JumpOn(cpu: Cpu, t: State, n: nat, t': State, next: u64, r: Regs)
    requires IsA64(cpu.decode) && Steps(cpu, t, n) == Next(t') && t'.pc + 16 <= TWO64
    requires Holds(t'.mem, t'.pc, T.JmpAbs(next)) && SameBut(r, t'.regs)
    ensures
      var o := Steps(cpu, t, n + 2);
      o.Next? && o.state.pc == next && o.state.mem == t'.mem && SameBut(r, o.state.regs)
  {
    T.JmpAbsRuns(cpu, t', next);
    StepsAdd(cpu, t, n, 2);
    ForgetX16(r, t'.regs, next);
  }

  lemma ForgetX16(a: Regs, b: Regs, v: u64)
    requires SameBut(a, b)
    ensures SameBut(a, b[T.X16 := v])
  {
    assert b[T.X16 := v][T.X16 := 0] == b[T.X16 := 0];
  }

  lemma Aligned(w: word)
    ensures IsDirect(Decode(w)) ==> Decode(w).imm % 4 == 0
  {
  }

  // A copied branch leads to its own start, an expanded one elsewhere.
  lemma BackToStart(i: Instr, w: word, target: u64, base: u64, p: Processed)
    requires IsDirect(i) && i.imm % 4 == 0 && Meant(p, i, w, target, target, PROLOG_MARGIN, None)
    ensures
      var dest := Wrap(target + i.imm);
      if p.block.Copy? then dest == target && Wrap(base + i.imm) == base else dest != target
  {
    var k := i.imm / 4;
    assert i.imm == 4 * k;
    SelfIff(target, base, k);
  }

  lemma SelfIff(target: u64, base: u64, k: int)
    ensures
      var dest := Wrap(target + 4 * k);
      && (InProlog(target, PROLOG_MARGIN, dest) <==> dest == target)
      && (dest == target ==> Wrap(base + 4 * k) == base)
  {
    var q := (target + 4 * k) / TWO64;
    var dest := Wrap(target + 4 * k);
    assert dest - target == 4 * (k - q * 0x4000_0000_0000_0000);
    if dest == target {
      assert 4 * k == q * TWO64;
      assert Wrap(base + q * TWO64) == Wrap(base) by { Periodic(base, q); }
    }
  }
}
