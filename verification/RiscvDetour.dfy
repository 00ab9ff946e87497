// A whole RISC-V detour: what Detour::new puts into memory, and what calling
// the target and calling the trampoline then do.
module RiscvDetour {
  import opened Machine
  import opened Prolog
  import opened Patching
  import opened RiscvTrampoline
  import opened RiscvLayout
  import Emitter
  import C = Construction
  import P = Proximity
  import opened RiscvRun
  import opened RiscvSimulation
  import opened RiscvTheorem
  import opened RiscvPatcher
  import I = RiscvIsa
  import M = RiscvLimits
  import T = RiscvThunk

  // The prolog with its trampoline, the detour function, and where the relay
  // was allocated if there is one.
  datatype Installed = Installed(program: Program, detour: u64, relay: Option<u64>)
  {
    function Target(): u64 {
      program.target
    }

    // The patch leads to the relay, or else to the detour itself.
    function Entry(): u64 {
      match relay
      case Some(r) => r
      case None => detour
    }

    function Area(): set<int> {
      set x: int {:trigger Within(Target(), JUMP_SIZE, x)} |
        Target() <= x < Target() + JUMP_SIZE && Within(Target(), JUMP_SIZE, x)
    }
  }

  // Memory m is as Detour::new leaves it, the detour being disabled.
  ghost predicate Made(d: Installed, m: Memory) {
    var p := d.program;
    && p.Valid() && p.margin == JUMP_SIZE
    && (d.relay.Some? <==> RelayBuilder(p.target, d.detour).Some?)
    && (d.relay.Some? ==>
          && -DETOUR_RANGE <= d.relay.value - p.target < DETOUR_RANGE && d.relay.value % 2 == 0
          && d.relay.value + 20 <= TWO64 && Holds(m, d.relay.value, T.JmpAbs(0, d.detour)))
    && (d.relay.Some? ==> forall x | d.relay.value <= x < d.relay.value + 20 :: x !in d.Area())
    && InTrampoline(p, m) && Apart(p, d.Area())
    && p.target + JUMP_SIZE <= TWO64 && Mapped(m, p.target, JUMP_SIZE)
  }

  function RelayCode(target: u64, detour: u64): Option<seq<Emitter.Thunk>> {
    match RelayBuilder(target, detour)
    case None => None
    case Some(block) => Some(Thunks([block]))
  }

  // The builder accepts the words at the target, the patcher finds an area, and
  // the allocator works for the target.
  ghost predicate NewReady(d: Installed, s: C.Setup, m: Memory) {
    var p := d.program;
    && ReadableWords(p.ws, p.target, JUMP_SIZE) && p.margin == JUMP_SIZE && p.target % 2 == 0
    && BuildFrom(p.ws, p.target, JUMP_SIZE, None, []) == Some(p.built)
    && PatchArea(m, p.target, 4 * p.N()).Some? && Mapped(m, p.target, JUMP_SIZE)
    && s.Valid(p.target) && s.range == DETOUR_RANGE && s.unit == 4
    && P.Chunk(p.target, JUMP_SIZE) in s.world.others && p.target + JUMP_SIZE <= TWO64
  }

  // Detour::new: build over the words at the target, allocate and emit the
  // relay if there is to be one, find the patch area, then allocate and emit
  // the trampoline.  Whatever addresses the allocator gave, the detour is made
  // and the code at the target is untouched.
  lemma {:induction false} NewMakes(d: Installed, s: C.Setup, m: Memory)
    requires NewReady(d, s, m)
    requires
      var b := C.New(s, m, d.program.target, RelayCode(d.program.target, d.detour), Thunks(d.program.Blocks()));
      b.Some? && b.value.relay == d.relay && b.value.base == d.program.base
    ensures
      var p := d.program;
      var b := C.New(s, m, p.target, RelayCode(p.target, d.detour), Thunks(p.Blocks())).value;
      Made(d, b.mem) && C.SameIn(m, b.mem, P.Chunk(p.target, JUMP_SIZE)) && P.Inv(b.pools)
  {
    var p := d.program;
    var relay, code := RelayCode(p.target, d.detour), Thunks(p.Blocks());
    var b := C.New(s, m, p.target, relay, code).value;
    BuildIsAccepted(p.ws, p.target, JUMP_SIZE);
    BlocksValid(p.ws, p.target, p.built);
    WholeWords(p.Blocks());
    if relay.Some? {
      WholeWords([T.Jump(0, d.detour)]);
    }
    C.NewPlaces(s, m, p.target, relay, code, P.Chunk(p.target, JUMP_SIZE));
    StillMapped(m, b.mem, p.target);
    CodeMakes(d, s, b.mem);
    if d.relay.Some? {
      RelayMakes(d, s, b.mem);
    }
  }

  // Where the trampoline was put.
  lemma {:induction false} CodeMakes(d: Installed, s: C.Setup, m: Memory)
    requires
      var p := d.program;
      var chunk := P.Chunk(p.base, Emitter.Offset(Thunks(p.Blocks()), |p.Blocks()|));
      && ReadableWords(p.ws, p.target, p.margin) && Accepted(p.ws, p.target, p.margin, p.built) && p.target % 2 == 0
      && (forall k | 0 <= k < |p.Blocks()| :: p.Blocks()[k].Valid())
      && C.CodeIn(m, p.base, Thunks(p.Blocks())) && P.InUserSpace(chunk)
      && P.Apart(chunk, P.Chunk(p.target, JUMP_SIZE))
    ensures d.program.Valid() && InTrampoline(d.program, m) && Apart(d.program, d.Area())
  {
    OffIsOffset(d.program.Blocks(), |d.program.Blocks()|);
    CodeHeld(d.program, m);
  }

  // Where the relay was put.
  lemma {:induction false} RelayMakes(d: Installed, s: C.Setup, m: Memory)
    requires d.relay.Some? && s.range == DETOUR_RANGE && s.unit == 4
    requires
      var ts := Thunks([T.Jump(0, d.detour)]);
      var chunk := P.Chunk(d.relay.value, Emitter.Offset(ts, |ts|));
      && C.CodeIn(m, d.relay.value, ts) && C.Good(s, d.Target(), chunk)
      && P.Apart(chunk, P.Chunk(d.Target(), JUMP_SIZE))
    ensures
      var r := d.relay.value;
      && -DETOUR_RANGE <= r - d.Target() < DETOUR_RANGE && r % 2 == 0
      && r + 20 <= TWO64 && Holds(m, r, T.JmpAbs(0, d.detour))
      && forall x | r <= x < r + 20 :: x !in d.Area()
  {
    var blocks := [T.Jump(0, d.detour)];
    OffIsOffset(blocks, 1);
    assert Off(blocks, 0) == 0 && Off(blocks, 1) == 20;
    RelayHeld(m, d.relay.value, d.detour);
    EvenIfFour(d.relay.value);
  }

  lemma EvenIfFour(x: int)
    requires x % 4 == 0
    ensures x % 2 == 0
  {
    var half := x / 4 * 2;
    Quotient(half, 2);
    assert x == half * 2;
  }

  lemma StillMapped(a: Memory, b: Memory, target: u64)
    requires C.SameIn(a, b, P.Chunk(target, JUMP_SIZE)) && Mapped(a, target, JUMP_SIZE)
    ensures Mapped(b, target, JUMP_SIZE)
  {
    forall x: u64 | target <= x < target + JUMP_SIZE ensures x in b {
      assert Within(target, JUMP_SIZE, x);
      assert SameAt(a, b, x);
    }
  }

  lemma {:induction false} SizesAligned(blocks: seq<T.Block>, k: nat)
    requires k <= |blocks|
    ensures Off(blocks, k) % 4 == 0
  {
    if k > 0 {
      SizesAligned(blocks, k - 1);
    }
  }

  // Every block is a whole number of words.
  lemma WholeWords(blocks: seq<T.Block>)
    requires |blocks| > 0
    ensures var n := Emitter.Offset(Thunks(blocks), |blocks|); n > 0 && n % 4 == 0
  {
    OffIsOffset(blocks, |blocks|);
    OffMonotone(blocks, 0, |blocks|);
    SizesAligned(blocks, |blocks|);
  }

  lemma CodeHeld(p: Program, m: Memory)
    requires C.CodeIn(m, p.base, Thunks(p.Blocks()))
    requires forall k | 0 <= k < |p.Blocks()| :: p.Blocks()[k].Valid()
    ensures InTrampoline(p, m)
  {
    var ts := Thunks(p.Blocks());
    var code := Emitter.Emission(ts, p.base, |ts|).value;
    forall k | 0 <= k < |p.Blocks()| ensures BlockAt(m, p.base, p.Blocks(), k) {
      EmittedBlock(m, p.base, p.Blocks(), ts, code, k);
    }
  }

  lemma RelayHeld(m: Memory, a: u64, detour: u64)
    requires C.CodeIn(m, a, Thunks([T.Jump(0, detour)]))
    ensures Holds(m, a, T.JmpAbs(0, detour))
  {
    var blocks := [T.Jump(0, detour)];
    var code := Emitter.Emission(Thunks(blocks), a, 1).value;
    EmittedBlock(m, a, blocks, Thunks(blocks), code, 0);
    assert Off(blocks, 0) == 0;
  }

  lemma BlocksValid(ws: seq<word>, target: u64, b: Built)
    requires ReadableWords(ws, target, JUMP_SIZE) && Accepted(ws, target, JUMP_SIZE, b)
    ensures forall k | 0 <= k < |AllBlocks(b, target)| :: AllBlocks(b, target)[k].Valid()
  {
    forall k | 0 <= k < |b.blocks| ensures b.blocks[k].Valid() {
      assert AcceptedAt(ws, target, JUMP_SIZE, b.blocks, k);
    }
  }

  function DetourProlog(d: Installed): seq<byte> {
    BranchBytes(d.Target(), d.Entry())
  }

  // Memory with the detour on or off.
  function Shown(d: Installed, m: Memory, on: bool): Memory
    requires d.Target() + JUMP_SIZE <= TWO64
  {
    if on then Write(m, d.Target(), DetourProlog(d)) else m
  }

  lemma ShownAgrees(d: Installed, m: Memory, on: bool)
    requires d.Target() + JUMP_SIZE <= TWO64
    ensures Agree(m, Shown(d, m, on), d.Area())
  {
    forall x: u64 | x !in d.Area() ensures SameAt(m, Shown(d, m, on), x) {
    }
  }

  // However often the detour is toggled, memory is as `new` left it or shows
  // the patch, as the last toggle says.
  lemma TogglesEnd(d: Installed, m: Memory, ons: seq<bool>)
    requires Made(d, m)
    ensures
      var on := |ons| > 0 && ons[|ons| - 1];
      Toggled(m, d.Target(), ReadOut(m, d.Target(), JUMP_SIZE), DetourProlog(d), ons) == (Shown(d, m, on), on)
  {
    ReadOutHolds(m, d.Target(), JUMP_SIZE);
    Patching.TogglesEnd(m, d.Target(), ReadOut(m, d.Target(), JUMP_SIZE), DetourProlog(d), ons);
  }

  // ---- calling the target -------------------------------------------------

  lemma EntryOffset(d: Installed, m: Memory)
    requires Made(d, m)
    ensures
      var offset := Displacement(d.Target(), d.Entry());
      && -DETOUR_RANGE <= offset < DETOUR_RANGE && (d.relay.Some? ==> offset == d.Entry() - d.Target())
  {
    if d.relay.Some? {
      SmallDisplacement(d.Target(), d.Entry());
    }
  }

  // With the detour on, a call of the target arrives at the relay, or at the
  // detour if there is none, exactly when that is less than 2^31 - 2^11 ahead.
  // It then reaches the detour with every register but t1 and all of memory
  // unchanged.
  lemma CallReachesDetour(cpu: I.Cpu, d: Installed, m: Memory, s: I.State)
    requires I.Rv64(cpu) && Made(d, m) && s.pc == d.Target() && s.mem == Shown(d, m, true)
    requires d.detour % 2 == 0
    ensures I.Steps(cpu, s, 2).Next?
    ensures I.Steps(cpu, s, 2).state.pc == d.Entry() <==>
            Displacement(d.Target(), d.Entry()) < 0x8000_0000 - 0x800
    ensures Displacement(d.Target(), d.Entry()) < 0x8000_0000 - 0x800 ==>
      var r := I.Steps(cpu, s, if d.relay.Some? then 5 else 2);
      r.Next? && r.state.pc == d.detour && SameButT1(s.regs, r.state.regs) && r.state.mem == s.mem
  {
    EntryOffset(d, m);
    WriteHolds(m, d.Target(), DetourProlog(d));
    PatchReachesIff(cpu, s, d.Entry());
    if Displacement(d.Target(), d.Entry()) < 0x8000_0000 - 0x800 {
      var s2 := I.Steps(cpu, s, 2).state;
      ForgetT1(s.regs, PatchT1(s.pc, Displacement(s.pc, d.Entry())));
      if d.relay.Some? {
        ThroughRelay(cpu, d, m, s, s2);
      }
    }
  }

  lemma ThroughRelay(cpu: I.Cpu, d: Installed, m: Memory, s: I.State, s2: I.State)
    requires I.Rv64(cpu) && Made(d, m) && d.relay.Some? && d.detour % 2 == 0
    requires I.Steps(cpu, s, 2) == I.Next(s2) && s2.pc == d.relay.value && s2.mem == s.mem == Shown(d, m, true)
    requires SameButT1(s.regs, s2.regs)
    ensures
      var r := I.Steps(cpu, s, 5);
      r.Next? && r.state.pc == d.detour && SameButT1(s.regs, r.state.regs) && r.state.mem == s.mem
  {
    ShownAgrees(d, m, true);
    AgreeHolds(m, s.mem, d.Area(), d.relay.value, T.JmpAbs(0, d.detour));
    RelayRuns(cpu, s2, d.detour);
    I.StepsAdd(cpu, s, 2, 3);
    ForgetT1(s2.regs, d.detour);
  }

  lemma ForgetT1(r: I.Regs, v: u64)
    ensures SameButT1(r, r[T.T1 := v])
  {
    assert r[T.T1 := v][T.T1 := 0] == r[T.T1 := 0];
  }

  // The relay: an absolute jump anywhere.
  lemma RelayRuns(cpu: I.Cpu, s: I.State, dest: u64)
    requires I.Rv64(cpu) && s.pc + 20 <= TWO64 && dest % 2 == 0
    requires Holds(s.mem, s.pc, T.JmpAbs(0, dest))
    ensures I.Steps(cpu, s, 3) == I.Next(s.(pc := dest, regs := s.regs[T.T1 := dest]))
  {
    T.JmpAbsRuns(cpu, s, 0, dest);
    var s1 := s.(pc := s.pc + 4, regs := s.regs[T.T1 := s.pc]);
    var s2 := s.(pc := s.pc + 8, regs := s.regs[T.T1 := dest]);
    assert I.Steps(cpu, s2, 1) == I.Step(cpu, s2);
    assert I.Steps(cpu, s1, 2) == I.Steps(cpu, s2, 1);
  }

  // A branch to the next word and AUIPC t0, 0 behind it.
  function FarProgram(): Program {
    Program(0xF700, JUMP_SIZE, [M.BEQ_FORWARD_4, M.AUIPC_T0_NEXT],
            Built([T.Copy(M.BEQ_FORWARD_4), T.LoadImm(5, 0xF704)], true), 0x2_0000)
  }

  function FarDetour(): Installed {
    Installed(FarProgram(), 0x8_0000_0000, Some(0x8000_F000))
  }

  // One page is free for the relay, and another for the trampoline.
  function FarSetup(): C.Setup {
    C.TwoPages(0x8000_F000, 0x2_0000, {P.Chunk(0xF700, JUMP_SIZE)}, DETOUR_RANGE, 4)
  }

  // Detours whose relay the patch misses are made: the allocator's range is that
  // of is_within_range, not that of the patch.
  lemma {:induction false} RelayBeyondReach(cpu: I.Cpu, m: Memory, regs: I.Regs)
    requires I.Rv64(cpu) && Holds(m, 0xF700, LE32(M.BEQ_FORWARD_4) + LE32(M.AUIPC_T0_NEXT))
    ensures
      var s, d := FarSetup(), FarDetour();
      var b := C.New(s, m, d.Target(), RelayCode(d.Target(), d.detour), Thunks(d.program.Blocks()));
      && s.Valid(d.Target()) && b.Some? && b.value.relay == d.relay && b.value.base == d.program.base
      && Made(d, b.value.mem)
      && var r := I.Steps(cpu, I.State(d.Target(), regs, Shown(d, b.value.mem, true)), 2);
         r.Next? && r.state.pc != d.Entry()
  {
    FarValid();
    FarServed(m);
    FarBuilds(m);
    Misses(cpu, FarSetup(), FarDetour(), m, regs);
  }

  // Any construction that succeeds with the entry too far ahead.
  lemma {:induction false} Misses(cpu: I.Cpu, s: C.Setup, d: Installed, m: Memory, regs: I.Regs)
    requires I.Rv64(cpu) && NewReady(d, s, m) && d.detour % 2 == 0
    requires Displacement(d.Target(), d.Entry()) >= 0x8000_0000 - 0x800
    requires
      var b := C.New(s, m, d.Target(), RelayCode(d.Target(), d.detour), Thunks(d.program.Blocks()));
      b.Some? && b.value.relay == d.relay && b.value.base == d.program.base
    ensures
      var b := C.New(s, m, d.Target(), RelayCode(d.Target(), d.detour), Thunks(d.program.Blocks())).value;
      && Made(d, b.mem)
      && var r := I.Steps(cpu, I.State(d.Target(), regs, Shown(d, b.mem, true)), 2);
         r.Next? && r.state.pc != d.Entry()
  {
    NewMakes(d, s, m);
    var b := C.New(s, m, d.Target(), RelayCode(d.Target(), d.detour), Thunks(d.program.Blocks())).value;
    CallReachesDetour(cpu, d, b.mem, I.State(d.Target(), regs, Shown(d, b.mem, true)));
  }

  lemma FarBuilds(m: Memory)
    requires Holds(m, 0xF700, LE32(M.BEQ_FORWARD_4) + LE32(M.AUIPC_T0_NEXT))
    ensures NewReady(FarDetour(), FarSetup(), m)
    ensures Displacement(0xF700, FarDetour().Entry()) >= 0x8000_0000 - 0x800
  {
    FarValid();
    FarCode();
    FarAway(FarDetour());
    HeldMapped(m, 0xF700, LE32(M.BEQ_FORWARD_4) + LE32(M.AUIPC_T0_NEXT));
  }

  lemma HeldMapped(m: Memory, a: int, bs: seq<byte>)
    requires Holds(m, a, bs)
    ensures Mapped(m, a, |bs|)
  {
    forall x: u64 | a <= x < a + |bs| ensures x in m {
      assert ByteIs(m, a + (x - a), bs[x - a]);
    }
  }

  lemma FarValid()
    ensures FarSetup().Valid(0xF700)
  {
    C.TwoPagesValid(0x8000_F000, 0x2_0000, {P.Chunk(0xF700, JUMP_SIZE)}, 0xF700, DETOUR_RANGE, 4);
  }

  lemma {:induction false} FarServed(m: Memory)
    ensures
      var d := FarDetour();
      var b := C.New(FarSetup(), m, d.Target(), RelayCode(d.Target(), d.detour), Thunks(d.program.Blocks()));
      b.Some? && b.value.relay == d.relay && b.value.base == d.program.base
  {
    var d := FarDetour();
    FarAway(d);
    FarCode();
    C.TwoPagesServe(0x8000_F000, 0x2_0000, {P.Chunk(0xF700, JUMP_SIZE)}, DETOUR_RANGE, 4, m, 0xF700,
                    Thunks([T.Jump(0, d.detour)]), Thunks(d.program.Blocks()));
  }

  lemma FarAway(d: Installed)
    requires d == FarDetour()
    ensures RelayBuilder(d.Target(), d.detour) == Some(T.Jump(0, d.detour))
    ensures Displacement(d.Target(), d.Entry()) == 0x7FFF_F900
  {
    SmallDisplacement(d.Target(), d.detour);
    SmallDisplacement(d.Target(), 0x8000_F000);
  }

  // What is emitted for the program and the relay.
  lemma FarCode()
    ensures
      var p := FarProgram();
      && ReadableWords(p.ws, p.target, JUMP_SIZE)
      && BuildFrom(p.ws, p.target, JUMP_SIZE, None, []) == Some(p.built)
      && var code := Thunks(p.Blocks());
         Emitter.Offset(code, |code|) == 40 && Emitter.Emission(code, p.base, |code|).Some?
    ensures
      var relay := Thunks([T.Jump(0, 0x8_0000_0000)]);
      Emitter.Offset(relay, |relay|) == 20 && Emitter.Emission(relay, 0x8000_F000, |relay|).Some?
  {
    var p := FarProgram();
    M.ExampleBuilds(p.ws, p.built.blocks, p.target);
    WrapSmall(0xF708);
    var blocks, jump := p.Blocks(), [T.Jump(0, 0x8_0000_0000)];
    assert blocks == [T.Copy(M.BEQ_FORWARD_4), T.LoadImm(5, 0xF704), T.Jump(0, 0xF708)];
    EmissionOfBlocks(p.base, blocks);
    EmissionOfBlocks(0x8000_F000, jump);
    OffIsOffset(blocks, 3);
    OffIsOffset(jump, 1);
    assert Off(blocks, 0) == 0 && Off(blocks, 1) == 4 && Off(blocks, 2) == 20 && Off(blocks, 3) == 40;
    assert Off(jump, 0) == 0 && Off(jump, 1) == 20;
  }

  // ---- calling the trampoline ---------------------------------------------

  // The trampoline does what the unpatched function would do, whether the
  // detour is on or off, as long as the function does not read the eight
  // bytes the patch covers.
  lemma TrampolineEitherWay(cpu: I.Cpu, d: Installed, m: Memory, regs: I.Regs, on: bool, fuel: nat)
    requires I.Rv64(cpu) && Made(d, m) && Relocatable(cpu.decode, d.program)
    requires Tame(cpu, d.program, d.Area(), I.State(d.Target(), regs, m), fuel)
    ensures
      var p := d.program;
      var r := Run(cpu, p.target, p.End(), I.State(p.target, regs, m), fuel);
      exists g: nat :: Answers(cpu, p, d.Area(), r, I.State(p.base, regs, Shown(d, m, on)), fuel, g)
  {
    var p := d.program;
    ShownAgrees(d, m, on);
    TrampolineAgrees(p, m, Shown(d, m, on), d.Area());
    TrampolineSimulates(cpu, p, d.Area(), I.State(p.target, regs, m),
                        I.State(p.base, regs, Shown(d, m, on)), fuel);
  }

  // And the exits do not lead back into the patch.
  lemma ExitsStayOut(d: Installed, m: Memory, k: nat, dest: u64)
    requires Made(d, m)
    requires k < |d.program.Blocks()| && ExitsTo(d.program.Blocks()[k], dest)
    ensures dest !in d.Area()
  {
    var p := d.program;
    ExitsAvoidPatch(p.ws, p.target, p.built, k, dest);
  }
}
