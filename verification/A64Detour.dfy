// A whole AArch64 detour: calling the target, and calling the trampoline, with
// the patch in place or not.
module A64Detour {
  import opened Machine
  import opened Patching
  import opened Prolog
  import opened A64Isa
  import opened A64Trampoline
  import opened A64Theorem
  import opened A64Patcher
  import Emitter
  import C = Construction
  import P = Proximity
  import T = A64Thunk

  // The target with its first word, what the builder made of it, where the
  // trampoline is, and the detour with its relay if there is one.
  datatype Installed = Installed(target: u64, w: word, built: Processed, base: u64, detour: u64, relay: Option<u64>)
  {
    function Entry(): u64 {
      match relay
      case Some(r) => r
      case None => detour
    }

    function Area(): set<int> {
      set x: int {:trigger Within(target, JUMP_SIZE, x)} |
        target <= x < target + JUMP_SIZE && Within(target, JUMP_SIZE, x)
    }
  }

  // Memory m is as Detour::new leaves it, the detour being disabled.
  ghost predicate Made(d: Installed, m: Memory) {
    && d.target + 4 < TWO64 && d.base + 64 < TWO64 && d.target % 4 == 0
    && Process(d.w, d.target, d.target, PROLOG_MARGIN, None) == Some(d.built)
    && Read32(m, d.target) == Some(d.w)
    && InTrampoline(m, d.base, d.built.block, !d.built.finished, d.target + 4)
    && Apart(d.base, d.built.block, !d.built.finished, d.Area())
    && (d.relay.Some? <==> RelayBuilder(d.target, d.detour).Some?)
    && (d.relay.Some? ==>
          && -DETOUR_RANGE <= d.relay.value - d.target < DETOUR_RANGE && d.relay.value % 4 == 0
          && d.relay.value + 16 <= TWO64 && Holds(m, d.relay.value, T.JmpAbs(d.detour))
          && forall x | d.relay.value <= x < d.relay.value + 16 :: x !in d.Area())
  }

  function RelayCode(target: u64, detour: u64): Option<seq<Emitter.Thunk>> {
    match RelayBuilder(target, detour)
    case None => None
    case Some(block) => Some(Thunks([block]))
  }

  // The blocks of the trampoline.
  function Blocks(d: Installed): seq<Block> {
    AllBlocks(Built([d.built.block], !d.built.finished), d.target)
  }

  // Detour::new: build over the words at the target, allocate and emit the
  // relay if there is to be one, then the trampoline.  Whatever addresses the
  // allocator gave, the detour is made and the code at the target is untouched.
  lemma {:induction false} NewMakes(d: Installed, rest: seq<word>, s: C.Setup, m: Memory)
    requires d.target % 4 == 0 && d.target + 4 < TWO64 && Read32(m, d.target) == Some(d.w)
    requires ReadableWords([d.w] + rest, d.target, PROLOG_MARGIN)
    requires Process(d.w, d.target, d.target, PROLOG_MARGIN, None) == Some(d.built)
    requires s.Valid(d.target) && s.range == DETOUR_RANGE && s.unit == 4
    requires P.Chunk(d.target, JUMP_SIZE) in s.world.others
    requires
      var b := C.New(s, m, d.target, RelayCode(d.target, d.detour), Thunks(Blocks(d)));
      b.Some? && b.value.relay == d.relay && b.value.base == d.base
    ensures BuildFrom([d.w] + rest, d.target, PROLOG_MARGIN, None, []) ==
            Some(Built([d.built.block], !d.built.finished))
    ensures
      var b := C.New(s, m, d.target, RelayCode(d.target, d.detour), Thunks(Blocks(d))).value;
      Made(d, b.mem) && C.SameIn(m, b.mem, P.Chunk(d.target, JUMP_SIZE)) && P.Inv(b.pools)
  {
    var relay, code := RelayCode(d.target, d.detour), Thunks(Blocks(d));
    var b := C.New(s, m, d.target, relay, code).value;
    OneBlock(d.w, rest, d.target);
    CodeSize(d.built.block, !d.built.finished, d.target);
    if relay.Some? {
      CodeSize(Jump(d.detour), false, d.target);
    }
    C.NewPlaces(s, m, d.target, relay, code, P.Chunk(d.target, JUMP_SIZE));
    SameWord(m, b.mem, d.target);
    CodeMakes(d, b.mem);
    if d.relay.Some? {
      RelayMakes(d, s, b.mem);
    }
  }

  lemma SameWord(a: Memory, b: Memory, x: u64)
    requires C.SameIn(a, b, P.Chunk(x, JUMP_SIZE)) && x + JUMP_SIZE <= TWO64
    ensures Read32(b, x) == Read32(a, x)
  {
    assert Within(x, JUMP_SIZE, x) && Within(x, JUMP_SIZE, x + 1);
    assert Within(x, JUMP_SIZE, x + 2) && Within(x, JUMP_SIZE, x + 3);
    assert SameAt(a, b, x) && SameAt(a, b, x + 1) && SameAt(a, b, x + 2) && SameAt(a, b, x + 3);
  }

  lemma CodeLengths(block: Block)
    requires block.Valid()
    ensures 0 < |block.Encode()| <= 20 && |block.Encode()| % 4 == 0
  {
  }

  // A trampoline, or a relay, is a whole number of words.
  lemma CodeSize(block: Block, jump: bool, target: u64)
    requires block.Valid() && target + 4 < TWO64
    ensures
      var ts := Thunks(AllBlocks(Built([block], jump), target));
      var n := Emitter.Offset(ts, |ts|);
      n == Length(block, jump) && n > 0 && n % 4 == 0
    ensures !jump ==> AllBlocks(Built([block], jump), target) == [block]
  {
    var blocks := AllBlocks(Built([block], jump), target);
    var ts := Thunks(blocks);
    CodeLengths(block);
    assert ts[0] == AsThunk(block);
    assert Emitter.Offset(ts, 0) == 0 && Emitter.Offset(ts, 1) == |block.Encode()|;
    if jump {
      assert ts[1] == AsThunk(blocks[1]);
      assert Emitter.Offset(ts, 2) == |block.Encode()| + 16;
    }
  }

  // Where the trampoline was put.
  lemma CodeMakes(d: Installed, m: Memory)
    requires d.target + 4 < TWO64 && d.built.block.Valid()
    requires
      var ts := Thunks(Blocks(d));
      var chunk := P.Chunk(d.base, Emitter.Offset(ts, |ts|));
      && C.CodeIn(m, d.base, ts) && P.InUserSpace(chunk) && P.Apart(chunk, P.Chunk(d.target, JUMP_SIZE))
    ensures d.base + 64 < TWO64
    ensures InTrampoline(m, d.base, d.built.block, !d.built.finished, d.target + 4)
    ensures Apart(d.base, d.built.block, !d.built.finished, d.Area())
  {
    var ts := Thunks(Blocks(d));
    CodeSize(d.built.block, !d.built.finished, d.target);
    Emitted(m, d.base, d.target, d.built.block, !d.built.finished, Emitter.Emission(ts, d.base, |ts|).value);
  }

  // Where the relay was put.
  lemma {:induction false} RelayMakes(d: Installed, s: C.Setup, m: Memory)
    requires d.relay.Some? && s.range == DETOUR_RANGE && s.unit == 4 && d.target + 4 < TWO64
    requires
      var ts := Thunks([Jump(d.detour)]);
      var chunk := P.Chunk(d.relay.value, Emitter.Offset(ts, |ts|));
      && C.CodeIn(m, d.relay.value, ts) && C.Good(s, d.target, chunk)
      && P.Apart(chunk, P.Chunk(d.target, JUMP_SIZE))
    ensures
      var r := d.relay.value;
      && -DETOUR_RANGE <= r - d.target < DETOUR_RANGE && r % 4 == 0
      && r + 16 <= TWO64 && Holds(m, r, T.JmpAbs(d.detour))
      && forall x | r <= x < r + 16 :: x !in d.Area()
  {
    var blocks := [Jump(d.detour)];
    CodeSize(Jump(d.detour), false, d.target);
    var ts := Thunks(blocks);
    HeldBlocks(m, d.relay.value, blocks, Emitter.Emission(ts, d.relay.value, |ts|).value, 0);
    assert Emitter.Offset(ts, 0) == 0;
  }

  // Memory with the detour on or off.
  function Shown(d: Installed, m: Memory, on: bool): Memory
    requires d.target + JUMP_SIZE <= TWO64
  {
    if on then Write(m, d.target, BranchBytes(d.target, d.Entry())) else m
  }

  lemma ShownAgrees(d: Installed, m: Memory, on: bool)
    requires d.target + JUMP_SIZE <= TWO64
    ensures Agree(m, Shown(d, m, on), d.Area())
  {
    forall x: u64 | x !in d.Area() ensures SameAt(m, Shown(d, m, on), x) {
      assert x in d.Area() <==> Within(d.target, JUMP_SIZE, x);
    }
  }

  // However often the detour is toggled, memory is as `new` left it or shows
  // the patch, as the last toggle says.
  lemma TogglesEnd(d: Installed, m: Memory, ons: seq<bool>)
    requires Made(d, m)
    ensures
      var on := |ons| > 0 && ons[|ons| - 1];
      Toggled(m, d.target, LE32(d.w), BranchBytes(d.target, d.Entry()), ons) == (Shown(d, m, on), on)
  {
    ReadIsHeld(m, d.target, d.w);
    Patching.TogglesEnd(m, d.target, LE32(d.w), BranchBytes(d.target, d.Entry()), ons);
  }

  // The way to the relay is always one the patch can encode.
  lemma RelayInReach(d: Installed, m: Memory)
    requires Made(d, m) && d.relay.Some?
    ensures
      var offset := Displacement(d.target, d.relay.value);
      -DETOUR_RANGE <= offset < DETOUR_RANGE && offset % 4 == 0
  {
    SmallDisplacement(d.target, d.relay.value);
    FourApart(d.relay.value, d.target);
  }

  lemma FourApart(a: int, b: int)
    requires a % 4 == 0 && b % 4 == 0
    ensures (a - b) % 4 == 0
  {
    var q := a / 4 - b / 4;
    Quotient(q, 4);
    assert a - b == q * 4;
  }

  // With the detour on, a call of the target arrives at the detour with memory
  // and every register but X16 unchanged: through the relay, wherever that was
  // allocated, or directly exactly when the detour is aligned.
  lemma CallReachesDetour(cpu: Cpu, d: Installed, m: Memory, s: State)
    requires IsA64(cpu.decode) && Made(d, m) && s.pc == d.target && s.mem == Shown(d, m, true)
    ensures d.relay.Some? ==> Steps(cpu, s, 3) == Next(s.(pc := d.detour, regs := s.regs[T.X16 := d.detour]))
    ensures d.relay.None? ==>
      (Steps(cpu, s, 1) == Next(s.(pc := d.detour)) <==> Displacement(d.target, d.detour) % 4 == 0)
  {
    WriteHolds(m, d.target, BranchBytes(d.target, d.Entry()));
    PatchReachesIff(cpu, s, d.Entry());
    OneStep(cpu, s);
    if d.relay.Some? {
      RelayInReach(d, m);
      ShownAgrees(d, m, true);
      AgreeHolds(m, s.mem, d.Area(), d.relay.value, T.JmpAbs(d.detour));
      T.JmpAbsRuns(cpu, s.(pc := d.Entry()), d.detour);
      StepsAdd(cpu, s, 1, 2);
    }
  }

  // The trampoline does what the unpatched function's first word would do,
  // whether the detour is on or off.
  lemma TrampolineEitherWay(cpu: Cpu, d: Installed, m: Memory, s: State, on: bool) returns (n: nat)
    requires IsA64(cpu.decode) && Made(d, m) && !Decode(d.w).Special?
    requires s.pc == d.target && s.mem == m && Blind(cpu, Decode(d.w), s, d.Area())
    requires
      Step(cpu, s).Next? ==>
        InTrampoline(Step(cpu, s).state.mem, d.base, d.built.block, !d.built.finished, d.target + 4)
    ensures n <= 7
    ensures
      var t := s.(pc := d.base, mem := Shown(d, m, on));
      Follows(cpu, Decode(d.w), FallsThrough(Decode(d.w), s.regs), d.target, d.base, d.Area(),
              Step(cpu, s), Steps(cpu, t, n))
  {
    var t := s.(pc := d.base, mem := Shown(d, m, on));
    ShownAgrees(d, m, on);
    SmallBlock(d.built.block);
    TrampolineAgrees(m, t.mem, d.Area(), d.base, d.built.block, !d.built.finished, d.target + 4);
    n := TrampolineSimulates(cpu, d.w, d.target, d.built, d.base, d.Area(), s, t);
  }
}
