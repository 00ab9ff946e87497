// The x86-64 patch of src/arch/x86/patcher.rs: a rel32 jump over the prolog,
// or a short jump back to one in the padding above it.
module X86Patcher {
  import opened Machine
  import opened Emitter
  import opened X86Isa
  import X = X86Trampoline
  import L = X86Layout
  import T = X86Thunk

  const REL8_SIZE := 2
  const REL32_SIZE := 5
  const DETOUR_RANGE := 0x8000_0000

  // calculate_displacement
  function JumpDisplacement(source: u64, dest: u64, size: nat): int {
    Signed(Wrap(dest - source - size), TWO64)
  }

  // jmp_rel32; None is the failed range assertion.
  function RelJump(source: u64, dest: u64): Option<seq<byte>> {
    var d := JumpDisplacement(source, dest, REL32_SIZE);
    if X.InRange(d) then Some(JmpNear(d % 0x1_0000_0000)) else None
  }

  function JmpRel32(dest: u64): Thunk {
    Thunk(source => RelJump(source, dest), REL32_SIZE)
  }

  // jmp_rel8: the displacement counts from the start of the jump.
  function JmpRel8(displacement: int): Thunk {
    Thunk(_ => Some(JmpShort((displacement - REL8_SIZE) % 0x100)), REL8_SIZE)
  }

  function Nop(): Thunk {
    Thunk(_ => Some([0x90]), 1)
  }

  function JumpThunks(detour: u64, hot: bool): seq<Thunk> {
    if hot then [JmpRel32(detour), JmpRel8(-REL32_SIZE)] else [JmpRel32(detour)]
  }

  function Nops(n: nat): seq<Thunk> {
    if n == 0 then [] else Nops(n - 1) + [Nop()]
  }

  lemma {:induction false} NopsLength(ts: seq<Thunk>, n: nat)
    ensures Offset(ts + Nops(n), |ts| + |Nops(n)|) == Offset(ts, |ts|) + n && |Nops(n)| == n
  {
    if n == 0 {
      assert ts + Nops(0) == ts;
    } else {
      NopsLength(ts, n - 1);
      var all, init := ts + Nops(n), ts + Nops(n - 1);
      assert all == init + [Nop()];
      OffsetPrefix(init, Nop(), |init|);
    }
  }

  lemma {:induction false} OffsetPrefix(ts: seq<Thunk>, t: Thunk, k: nat)
    requires k <= |ts|
    ensures Offset(ts + [t], k) == Offset(ts, k)
  {
    if k > 0 {
      OffsetPrefix(ts, t, k - 1);
    }
  }

  // The template for an area of `size` bytes is as long as the area, unless
  // the jumps alone are longer.
  method HookTemplate(detour: u64, size: nat) returns (emitter: CodeEmitter)
    ensures fresh(emitter)
    ensures
      var jumps := JumpThunks(detour, size > REL32_SIZE);
      var used := if size > REL32_SIZE then REL32_SIZE + REL8_SIZE else REL32_SIZE;
      && emitter.thunks == jumps + Nops(if size > used then size - used else 0)
      && Offset(emitter.thunks, |emitter.thunks|) == if size > used then size else used
  {
    emitter := new CodeEmitter();
    emitter.AddThunk(JmpRel32(detour));
    if size > REL32_SIZE {
      emitter.AddThunk(JmpRel8(-REL32_SIZE));
    }
    ghost var jumps := JumpThunks(detour, size > REL32_SIZE);
    ghost var k := 0;
    assert emitter.thunks == jumps + Nops(0);
    NopsLength(jumps, 0);
    JumpsLength(detour, size > REL32_SIZE);
    var len := emitter.Len();
    while len < size
      invariant emitter.thunks == jumps + Nops(k) && len == Offset(jumps, |jumps|) + k
      invariant fresh(emitter) && (k > 0 ==> len <= size)
      decreases size - len
    {
      emitter.AddThunk(Nop());
      assert jumps + Nops(k) + [Nop()] == jumps + Nops(k + 1);
      k := k + 1;
      NopsLength(jumps, k);
      len := emitter.Len();
    }
    NopsLength(jumps, k);
  }

  lemma JumpsLength(detour: u64, hot: bool)
    ensures
      var ts := JumpThunks(detour, hot);
      Offset(ts, |ts|) == if hot then REL32_SIZE + REL8_SIZE else REL32_SIZE
  {
    var ts := JumpThunks(detour, hot);
    assert Offset(ts, 0) == 0;
    assert Offset(ts, 1) == REL32_SIZE;
    if hot {
      assert Offset(ts, 2) == REL32_SIZE + REL8_SIZE;
    }
  }

  // ---- where to patch -------------------------------------------------------

  predicate IsPadding(b: byte) {
    b in {0x00, 0x90, 0xCC}
  }

  predicate IsCodePadding(m: Memory, a: int, n: nat) {
    forall x: u64 | a <= x < a + n :: x in m && IsPadding(m[x])
  }

  predicate IsPatchable(m: Memory, target: u64, prologSize: nat, patchSize: nat) {
    prologSize >= patchSize || IsCodePadding(m, target + prologSize, patchSize - prologSize)
  }

  datatype Area = Area(start: int, size: nat) | NoPatchArea | RegionFailure

  // `executable` is what the operating system says of the page above the
  // function; None is a failed query.
  function PatchArea(m: Memory, target: u64, prologSize: nat, executable: Option<bool>): Area
    requires target >= REL32_SIZE
  {
    if IsPatchable(m, target, prologSize, REL32_SIZE) then Area(target, REL32_SIZE)
    else if IsPatchable(m, target, prologSize, REL8_SIZE) then
      if !IsCodePadding(m, target - REL32_SIZE, REL32_SIZE) then NoPatchArea
      else
        match executable
        case None => RegionFailure
        case Some(yes) => if yes then Area(target - REL32_SIZE, REL32_SIZE + REL8_SIZE) else NoPatchArea
    else NoPatchArea
  }

  // The patch overwrites nothing but disassembled prolog and the padding bytes
  // 00, 90 and CC, and an area is refused only when none would do: the inline one
  // goes first, and the operating system is asked only about the other.
  lemma AreaIsSpare(m: Memory, target: u64, prologSize: nat, executable: Option<bool>)
    requires target >= REL32_SIZE && target + 5 <= TWO64
    ensures
      var a := PatchArea(m, target, prologSize, executable);
      var inline := forall x: u64 | target + prologSize <= x < target + REL32_SIZE ::
                      x in m && m[x] in {0x00, 0x90, 0xCC};
      var hot := forall x: u64 |
                   target - REL32_SIZE <= x < target + REL8_SIZE && !(target <= x < target + prologSize) ::
                   x in m && m[x] in {0x00, 0x90, 0xCC};
      a == if inline then Area(target, REL32_SIZE)
           else if hot && executable == Some(true) then Area(target - REL32_SIZE, REL32_SIZE + REL8_SIZE)
           else if hot && executable == None then RegionFailure
           else NoPatchArea
    ensures
      var a := PatchArea(m, target, prologSize, executable);
      a.Area? ==> forall x: u64 | a.start <= x < a.start + a.size ::
        target <= x < target + prologSize || (x in m && m[x] in {0x00, 0x90, 0xCC})
  {
    assert forall x: u64 | x in m :: IsPadding(m[x]) <==> m[x] in {0x00, 0x90, 0xCC};
    var hot := forall x: u64 |
                 target - REL32_SIZE <= x < target + REL8_SIZE && !(target <= x < target + prologSize) ::
                 x in m && m[x] in {0x00, 0x90, 0xCC};
    assert hot <==> IsCodePadding(m, target - REL32_SIZE, REL32_SIZE) && IsPatchable(m, target, prologSize, REL8_SIZE);
  }

  // ---- the patch reaches the detour -----------------------------------------

  lemma SignedRange(x: int)
    requires -0x8000_0000_0000_0000 <= x < 0x8000_0000_0000_0000
    ensures Signed(Wrap(x), TWO64) == x
  {
  }

  lemma S32Back(d: int)
    requires X.InRange(d)
    ensures S32(d % 0x1_0000_0000) == d
  {
  }

  lemma Onward(source: u64, dest: u64, size: nat)
    ensures Wrap(source + size + JumpDisplacement(source, dest, size)) == dest
  {
    var x := dest - source - size;
    var q := x / TWO64;
    assert x == q * TWO64 + Wrap(x);
    var d := JumpDisplacement(source, dest, size);
    var c := if d == Wrap(x) then q else q + 1;
    assert source + size + d == dest - c * TWO64;
    Periodic(dest, -c);
    WrapSmall(dest);
  }

  lemma RelJumpRuns(cpu: Cpu, s: State, dest: u64)
    requires X64(cpu) && RelJump(s.pc, dest).Some? && Holds(s.mem, s.pc, RelJump(s.pc, dest).value)
    ensures Step(cpu, s) == Next(s.(pc := dest), false)
  {
    var d := JumpDisplacement(s.pc, dest, REL32_SIZE);
    S32Back(d);
    Onward(s.pc, dest, REL32_SIZE);
    var w: word := d % 0x1_0000_0000;
    assert cpu.valid(JmpNear(w));
  }

  lemma BackJumpRuns(cpu: Cpu, s: State)
    requires X64(cpu) && s.pc >= REL32_SIZE && Holds(s.mem, s.pc, JmpShort(0xF9))
    ensures Step(cpu, s) == Next(s.(pc := s.pc - REL32_SIZE), false)
  {
    T.FetchShort(cpu, s.mem, s.pc, 0xF9);
    WrapSmall(s.pc - REL32_SIZE);
  }

  // What the patcher emits for an area, and that it is as long as the area.
  lemma TemplateEmits(detour: u64, start: u64, hot: bool)
    ensures
      var ts := JumpThunks(detour, hot);
      Emission(ts, start, |ts|) ==
        if RelJump(start, detour).None? then None
        else if hot then Some(RelJump(start, detour).value + JmpShort(0xF9))
        else RelJump(start, detour)
  {
    var ts := JumpThunks(detour, hot);
    assert Emission(ts, start, 0) == Some([]);
    assert Offset(ts, 0) == 0;
    WrapSmall(start);
    assert ts[0].generate(start) == RelJump(start, detour);
    assert Sound(ts, start, 0) <==> RelJump(start, detour).Some?;
    if RelJump(start, detour).Some? {
      var code := RelJump(start, detour).value;
      assert [] + code == code;
      assert Emission(ts, start, 1) == Some(code);
      if hot {
        SecondEmits(ts, start, code);
      }
    } else {
      EmissionStuck(ts, start, 1, |ts|);
    }
  }

  lemma SecondEmits(ts: seq<Thunk>, start: u64, code: seq<byte>)
    requires |ts| == 2 && ts[1] == JmpRel8(-REL32_SIZE) && Emission(ts, start, 1) == Some(code)
    ensures Emission(ts, start, 2) == Some(code + JmpShort(0xF9))
  {
    var at := Wrap(start + Offset(ts, 1));
    assert ts[1].generate(at) == Some(JmpShort(0xF9));
    assert Sound(ts, start, 1);
  }

  // Whichever area is chosen, running from the target reaches the entry of the
  // detour in at most two jumps that change nothing else.
  lemma PatchReaches(cpu: Cpu, s: State, area: Area, entry: u64)
    requires X64(cpu) && s.pc >= REL32_SIZE
    requires area == Area(s.pc, REL32_SIZE) || area == Area(s.pc - REL32_SIZE, REL32_SIZE + REL8_SIZE)
    requires
      var ts := JumpThunks(entry, area.size > REL32_SIZE);
      var code := Emission(ts, area.start, |ts|);
      code.Some? && |code.value| == area.size && Holds(s.mem, area.start, code.value)
    ensures
      var there := s.(pc := entry);
      if area.start == s.pc then Step(cpu, s) == Next(there, false)
      else
        var hop := s.(pc := s.pc - REL32_SIZE);
        Step(cpu, s) == Next(hop, false) && Step(cpu, hop) == Next(there, false)
  {
    var hot := area.size > REL32_SIZE;
    TemplateEmits(entry, area.start, hot);
    if hot {
      Parts(s.mem, area.start, RelJump(area.start, entry).value, JmpShort(0xF9));
      BackJumpRuns(cpu, s);
      RelJumpRuns(cpu, s.(pc := s.pc - REL32_SIZE), entry);
    } else {
      RelJumpRuns(cpu, s, entry);
    }
  }

  // ---- relays ---------------------------------------------------------------

  // relay_builder measures from the detour to the target.
  predicate NeedsRelay(target: u64, detour: u64) {
    !X.InRange(Displacement(detour, target))
  }

  // There is one exactly when the target is not within two gigabytes of the
  // detour.
  lemma RelayIff(target: u64, detour: u64)
    ensures NeedsRelay(target, detour) <==>
            !exists x :: -0x8000_0000 <= x < 0x8000_0000 && Away(detour, target, x)
  {
    DisplacementIn(detour, target, -0x8000_0000, 0x8000_0000);
  }

  // Without a relay the patch is emitted except at the far ends of the range:
  // the jump starts from the end of the patch, the relay test does not.
  lemma NoRelayReachesIff(target: u64, detour: u64, start: u64)
    requires !NeedsRelay(target, detour) && (start == target || start == target - REL32_SIZE)
    ensures
      var back := Displacement(detour, target);
      RelJump(start, detour).Some? <==>
        if start == target then back <= 0x8000_0000 - REL32_SIZE else back > -0x8000_0000
  {
    Negate(target - detour, start - target + REL32_SIZE);
  }

  lemma Negate(x: int, k: int)
    requires X.InRange(Signed(Wrap(x), TWO64)) && 0 <= k <= 5
    ensures Signed(Wrap(-x - k), TWO64) == -Signed(Wrap(x), TWO64) - k
  {
    var b := Signed(Wrap(x), TWO64);
    var q := (x - b) / TWO64;
    assert x == q * TWO64 + b;
    Periodic(-b - k, -q);
    SignedRange(-b - k);
  }

  // ---- exits avoid the patch ------------------------------------------------

  ghost predicate ExitsTo(block: X.Block, dest: u64) {
    (block.Jump? || block.JumpIf?) && block.dest == dest
  }

  // No static exit of a trampoline, nor its continuation, leads into the bytes
  // an inline patch overwrites.
  lemma ExitsAvoidPatch(insns: seq<X.Insn>, target: u64, b: X.Built, k: nat, dest: u64)
    requires X.Readable(insns, target) && L.Accepted(insns, target, L.PROLOG_MARGIN, b)
    requires
      var blocks := X.AllBlocks(b, X.Ip(insns, target, |b.blocks|));
      k < |blocks| && ExitsTo(blocks[k], dest)
    ensures !(target <= dest < target + REL32_SIZE)
  {
    if k < |b.blocks| {
      var p := L.SiteMeans(insns, target, L.PROLOG_MARGIN, b, k);
    }
  }
}
