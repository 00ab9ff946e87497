// A whole x86-64 detour: calling the target, and calling the trampoline, with
// the patch in place or not.
module X86Detour {
  import opened Machine
  import opened Patching
  import opened Emitter
  import opened X86Isa
  import opened X86Simulation
  import opened X86Theorem
  import opened X86Patcher
  import opened Prolog
  import X = X86Trampoline
  import L = X86Layout
  import C = Construction
  import P = Proximity
  import T = X86Thunk

  datatype Installed = Installed(program: Program, detour: u64, relay: Option<u64>, area: Area)
  {
    function Entry(): u64 {
      match relay
      case Some(r) => r
      case None => detour
    }

    // The detour_prolog; None when its range assertion fails.
    ghost function Patch(): (code: Option<seq<byte>>)
      requires area.Area? && 0 <= area.start < TWO64
      ensures code.Some? ==>
        |code.value| == if area.size > REL32_SIZE then REL32_SIZE + REL8_SIZE else REL32_SIZE
    {
      TemplateEmits(Entry(), area.start, area.size > REL32_SIZE);
      var ts := JumpThunks(Entry(), area.size > REL32_SIZE);
      Emission(ts, area.start, |ts|)
    }

    function Covered(): set<int>
      requires area.Area?
    {
      set x: int {:trigger Within(area.start, area.size, x)} |
        area.start <= x < area.start + area.size && Within(area.start, area.size, x)
    }
  }

  // Memory m is as Detour::new leaves it, the detour being disabled: the code the
  // patch will cover is mapped, and the relay is in its place.
  ghost predicate Placed(d: Installed, m: Memory) {
    var target := d.program.target;
    && (d.relay.Some? <==> NeedsRelay(target, d.detour))
    && AreaFits(d) && d.Patch().Some? && Mapped(m, d.area.start, d.area.size)
    && (d.relay.Some? ==>
          && -DETOUR_RANGE <= d.relay.value - target < DETOUR_RANGE
          && d.relay.value + 14 <= TWO64 && Holds(m, d.relay.value, T.JmpAbs(d.detour))
          && forall x | d.relay.value <= x < d.relay.value + 14 :: x !in d.Covered())
  }

  // And its trampoline is the code of a prolog that the builder finished.
  ghost predicate Made(d: Installed, m: Memory) {
    var p := d.program;
    Placed(d, m) && p.Valid() && InTrampoline(p, m) && Apart(p, d.Covered())
  }

  predicate AreaFits(d: Installed) {
    && REL32_SIZE <= d.program.target && d.program.target + REL32_SIZE <= TWO64
    && (d.area == Area(d.program.target, REL32_SIZE)
        || d.area == Area(d.program.target - REL32_SIZE, REL32_SIZE + REL8_SIZE))
  }

  function RelayCode(target: u64, detour: u64): Option<seq<Thunk>> {
    if NeedsRelay(target, detour) then Some(X.Thunks([X.Jump(detour)])) else None
  }

  ghost function Code(p: Program): seq<Thunk>
    requires X.Readable(p.insns, p.target) && p.N() <= |p.insns|
  {
    X.Thunks(X.AllBlocks(p.built, X.Ip(p.insns, p.target, p.N())))
  }

  // Detour::new: build over the instructions at the target, allocate and emit
  // the relay if there is to be one, find the patch area and emit the patch,
  // then allocate and emit the trampoline.  Whatever addresses the allocator
  // gave, relay and trampoline are in place and the code around the target is
  // untouched; with a builder that finished the detour is made.
  lemma {:induction false} NewMakes(d: Installed, s: C.Setup, m: Memory, executable: Option<bool>)
    requires
      var p := d.program;
      && X.Readable(p.insns, p.target) && L.Sized(p.insns) && p.N() <= |p.insns|
      && X.BuildFrom(p.insns, p.target, L.PROLOG_MARGIN, None, []) == Some(p.built) && |p.insns| > 0
      && AreaFits(d) && d.area == PatchArea(m, p.target, X.Len(p.insns, p.N()), executable) && d.Patch().Some?
      && Mapped(m, d.area.start, d.area.size)
    requires s.Valid(d.program.target) && s.range == DETOUR_RANGE && s.unit == 1
    requires Around(d.program.target) in s.world.others
    requires
      var b := C.New(s, m, d.program.target, RelayCode(d.program.target, d.detour), Code(d.program));
      b.Some? && b.value.relay == d.relay && b.value.base == d.program.base
    ensures
      var p := d.program;
      var b := C.New(s, m, p.target, RelayCode(p.target, d.detour), Code(p)).value;
      && Placed(d, b.mem) && C.CodeIn(b.mem, p.base, Code(p)) && (p.built.finished ==> Made(d, b.mem))
      && P.Apart(P.Chunk(p.base, Offset(Code(p), |Code(p)|)), Around(p.target))
      && C.SameIn(m, b.mem, Around(p.target)) && P.Inv(b.pools)
      && d.area == PatchArea(b.mem, p.target, X.Len(p.insns, p.N()), executable)
  {
    var p := d.program;
    var relay, code := RelayCode(p.target, d.detour), Code(p);
    var b := C.New(s, m, p.target, relay, code).value;
    L.BuildIsAccepted(p.insns, p.target, L.PROLOG_MARGIN);
    CodeLength(p);
    if relay.Some? {
      RelayLength(d.detour);
    }
    C.NewPlaces(s, m, p.target, relay, code, Around(p.target));
    if p.built.finished {
      CodeMakes(d, b.mem);
    }
    if d.relay.Some? {
      RelayMakes(d, s, b.mem);
    }
    AreaStays(d, m, b.mem, executable);
  }

  // The code the patch may cover.
  function Around(target: u64): P.Chunk {
    P.Chunk(target - REL32_SIZE, 2 * REL32_SIZE)
  }

  lemma CodeLength(p: Program)
    requires X.Readable(p.insns, p.target) && L.Accepted(p.insns, p.target, L.PROLOG_MARGIN, p.built)
    requires |p.insns| > 0
    ensures Offset(Code(p), |Code(p)|) > 0
  {
    var blocks := X.AllBlocks(p.built, X.Ip(p.insns, p.target, p.N()));
    var pr := L.SiteMeans(p.insns, p.target, L.PROLOG_MARGIN, p.built, 0);
    L.OffIsOffset(blocks, |blocks|);
    L.OffMonotone(blocks, 1, |blocks|);
    assert L.Off(blocks, 0) == 0;
    assert L.Off(blocks, 1) == blocks[0].Size();
  }

  lemma RelayLength(detour: u64)
    ensures var ts := X.Thunks([X.Jump(detour)]); |ts| == 1 && Offset(ts, 1) == 14
  {
    var blocks := [X.Jump(detour)];
    L.OffIsOffset(blocks, 1);
    assert L.Off(blocks, 0) == 0;
    assert L.Off(blocks, 1) == 14;
  }

  // Where the trampoline was put.
  lemma CodeMakes(d: Installed, m: Memory)
    requires
      var p := d.program;
      && X.Readable(p.insns, p.target) && L.Sized(p.insns) && p.N() <= |p.insns|
      && X.BuildFrom(p.insns, p.target, L.PROLOG_MARGIN, None, []) == Some(p.built) && p.built.finished
      && AreaFits(d) && C.CodeIn(m, p.base, Code(p))
      && var chunk := P.Chunk(p.base, Offset(Code(p), |Code(p)|));
         P.InUserSpace(chunk) && P.Apart(chunk, Around(p.target))
    ensures d.program.Valid() && InTrampoline(d.program, m) && Apart(d.program, d.Covered())
  {
    var p := d.program;
    Emitted(p, m, Emission(Code(p), p.base, |Code(p)|).value);
  }

  lemma JumpCodeHeld(m: Memory, a: u64, dest: u64)
    requires C.CodeIn(m, a, X.Thunks([X.Jump(dest)]))
    ensures Holds(m, a, T.JmpAbs(dest))
  {
    var blocks := [X.Jump(dest)];
    var ts := X.Thunks(blocks);
    L.EmittedBlock(m, a, blocks, ts, Emission(ts, a, 1).value, 0);
    L.ThunkOf(blocks, a, 0);
    assert L.Off(blocks, 0) == 0;
  }

  // Where the relay was put.
  lemma {:induction false} RelayMakes(d: Installed, s: C.Setup, m: Memory)
    requires d.relay.Some? && s.range == DETOUR_RANGE && AreaFits(d)
    requires
      var ts := X.Thunks([X.Jump(d.detour)]);
      var chunk := P.Chunk(d.relay.value, Offset(ts, |ts|));
      && C.CodeIn(m, d.relay.value, ts) && C.Good(s, d.program.target, chunk)
      && P.Apart(chunk, Around(d.program.target))
    ensures
      var r := d.relay.value;
      && -DETOUR_RANGE <= r - d.program.target < DETOUR_RANGE
      && r + 14 <= TWO64 && Holds(m, r, T.JmpAbs(d.detour))
      && forall x | r <= x < r + 14 :: x !in d.Covered()
  {
    RelayLength(d.detour);
    JumpCodeHeld(m, d.relay.value, d.detour);
  }

  // The patch area is found in the same place before and after.
  lemma AreaStays(d: Installed, a: Memory, b: Memory, executable: Option<bool>)
    requires AreaFits(d) && C.SameIn(a, b, Around(d.program.target))
    requires Mapped(a, d.area.start, d.area.size)
    ensures Mapped(b, d.area.start, d.area.size)
    ensures forall n: nat ::
              PatchArea(a, d.program.target, n, executable) == PatchArea(b, d.program.target, n, executable)
  {
    var t := d.program.target;
    forall x: u64 | d.area.start <= x < d.area.start + d.area.size ensures x in b {
      assert Within(t - REL32_SIZE, 2 * REL32_SIZE, x);
      assert SameAt(a, b, x);
    }
    forall n: nat ensures PatchArea(a, t, n, executable) == PatchArea(b, t, n, executable) {
      SamePatchable(a, b, t, n);
      SamePadding(a, b, t, t - REL32_SIZE, REL32_SIZE);
    }
  }

  lemma SamePatchable(a: Memory, b: Memory, target: u64, n: nat)
    requires REL32_SIZE <= target && C.SameIn(a, b, Around(target))
    ensures IsPatchable(a, target, n, REL32_SIZE) == IsPatchable(b, target, n, REL32_SIZE)
    ensures IsPatchable(a, target, n, REL8_SIZE) == IsPatchable(b, target, n, REL8_SIZE)
  {
    SameFor(a, b, target, n, REL32_SIZE);
    SameFor(a, b, target, n, REL8_SIZE);
  }

  lemma SameFor(a: Memory, b: Memory, target: u64, n: nat, size: nat)
    requires REL32_SIZE <= target && C.SameIn(a, b, Around(target)) && size <= REL32_SIZE
    ensures IsPatchable(a, target, n, size) == IsPatchable(b, target, n, size)
  {
    if n < size {
      SamePadding(a, b, target, target + n, size - n);
      assert IsPatchable(a, target, n, size) == IsCodePadding(a, target + n, size - n);
      assert IsPatchable(b, target, n, size) == IsCodePadding(b, target + n, size - n);
    }
  }

  lemma SamePadding(a: Memory, b: Memory, target: u64, x: int, n: nat)
    requires C.SameIn(a, b, Around(target)) && target - REL32_SIZE <= x && x + n <= target + REL32_SIZE
    ensures IsCodePadding(a, x, n) == IsCodePadding(b, x, n)
  {
    forall z: u64 | x <= z < x + n
      ensures z in a && IsPadding(a[z]) <==> z in b && IsPadding(b[z])
    {
      assert Within(target - REL32_SIZE, 2 * REL32_SIZE, z);
      assert SameAt(a, b, z);
    }
  }

  // Memory with the detour on or off.
  ghost function Shown(d: Installed, m: Memory, on: bool): Memory
    requires AreaFits(d) && d.Patch().Some?
  {
    if on then Write(m, d.area.start, d.Patch().value) else m
  }

  lemma ShownAgrees(d: Installed, m: Memory, on: bool)
    requires AreaFits(d) && d.Patch().Some?
    ensures Agree(m, Shown(d, m, on), d.Covered())
  {
    forall x: u64 | x !in d.Covered() ensures SameAt(m, Shown(d, m, on), x) {
      assert x in d.Covered() <==> Within(d.area.start, d.area.size, x);
    }
  }

  // However often the detour is toggled, memory is as `new` left it or shows
  // the patch, as the last toggle says.
  lemma TogglesEnd(d: Installed, m: Memory, ons: seq<bool>)
    requires Placed(d, m)
    ensures
      var on := |ons| > 0 && ons[|ons| - 1];
      Toggled(m, d.area.start, ReadOut(m, d.area.start, d.area.size), d.Patch().value, ons) == (Shown(d, m, on), on)
  {
    ReadOutHolds(m, d.area.start, d.area.size);
    Patching.TogglesEnd(m, d.area.start, ReadOut(m, d.area.start, d.area.size), d.Patch().value, ons);
  }

  // ---- how far the patch reaches --------------------------------------------

  // What `new` asks of the way to the relay, or to the detour without one: an
  // inline patch reaches all but the first five bytes of the range, a hot patch
  // all but its very end, where no relay ever is.  Elsewhere it panics.
  lemma PatchExactly(d: Installed)
    requires AreaFits(d) && (d.relay.Some? <==> NeedsRelay(d.program.target, d.detour))
    requires d.relay.Some? ==> -DETOUR_RANGE <= d.relay.value - d.program.target < DETOUR_RANGE
    ensures
      var offset := Displacement(d.program.target, d.Entry());
      d.Patch().Some? <==>
        if d.area.start == d.program.target then offset >= -DETOUR_RANGE + REL32_SIZE else offset < DETOUR_RANGE
  {
    TemplateEmits(d.Entry(), d.area.start, d.area.size > REL32_SIZE);
    match d.relay
    case Some(r) =>
      SmallDisplacement(d.program.target, r);
      SignedRange(r - d.area.start - REL32_SIZE);
    case None =>
      NoRelayReachesIff(d.program.target, d.detour, d.area.start);
      Negated(d.program.target, d.detour);
  }

  lemma Negated(target: u64, detour: u64)
    requires X.InRange(Displacement(detour, target))
    ensures Displacement(target, detour) == -Displacement(detour, target)
  {
    Negate(target - detour, 0);
  }

  // With a hot patch every relay the allocator gives is reached.
  lemma HotPatchReachesRelay(d: Installed)
    requires AreaFits(d) && d.area.start != d.program.target && d.relay.Some?
    requires NeedsRelay(d.program.target, d.detour)
    requires -DETOUR_RANGE <= d.relay.value - d.program.target < DETOUR_RANGE
    ensures d.Patch().Some?
  {
    PatchExactly(d);
    SmallDisplacement(d.program.target, d.relay.value);
  }

  // With an inline patch the allocator can return one that is not: exactly 2^31
  // below the target.
  lemma {:induction false} RelayBeyondReach() returns (s: C.Setup, target: u64, detour: u64)
    ensures s.Valid(target) && s.range == DETOUR_RANGE && s.unit == 1
    ensures Around(target) in s.world.others && NeedsRelay(target, detour)
    ensures
      var lo, hi := P.Lowest(target, s.range), P.Highest(target, s.range);
      var relay := P.Allocated(s.world, s.pools, lo, hi, s.relayItems, 14).1;
      && relay == P.Ok(P.Chunk(0x8000_0000, 14))
      && RelJump(target, 0x8000_0000).None? && RelJump(target - REL32_SIZE, 0x8000_0000).Some?
  {
    target, detour := 0x1_0000_0000, 0x8_0000_0000;
    var others := {Around(target)};
    s := C.TwoPages(0x8000_0000, 0x9000_0000, others, DETOUR_RANGE, 1);
    C.TwoPagesValid(0x8000_0000, 0x9000_0000, others, target, DETOUR_RANGE, 1);
    var lo, hi := P.Lowest(target, s.range), P.Highest(target, s.range);
    C.PageServes({0x8000_0000, 0x9000_0000}, others, [], lo, hi, 0x8000_0000, 14);
    FarAway(target, detour);
  }

  lemma FarAway(target: u64, detour: u64)
    requires target == 0x1_0000_0000 && detour == 0x8_0000_0000
    ensures NeedsRelay(target, detour)
    ensures RelJump(target, 0x8000_0000).None? && RelJump(target - REL32_SIZE, 0x8000_0000).Some?
  {
    SmallDisplacement(detour, target);
    SignedRange(-0x8000_0005);
    SignedRange(-0x8000_0000);
  }

  // ---- calling the target -------------------------------------------------

  // At most n instructions lead from s to t.
  ghost predicate Reaches(cpu: Cpu, s: State, n: nat, t: State)
    decreases n
  {
    s == t || (n > 0 && Step(cpu, s).Next? && Reaches(cpu, Step(cpu, s).state, n - 1, t))
  }

  // With the detour on, a call of the target arrives at the detour with every
  // register, flag and byte of memory unchanged.
  lemma CallReachesDetour(cpu: Cpu, d: Installed, m: Memory, s: State)
    requires X64(cpu) && Placed(d, m) && s.pc == d.program.target && s.mem == Shown(d, m, true)
    ensures Reaches(cpu, s, 3, s.(pc := d.detour))
  {
    var entry := s.(pc := d.Entry());
    WriteHolds(m, d.area.start, d.Patch().value);
    PatchReaches(cpu, s, d.area, d.Entry());
    RelayLeads(cpu, d, m, entry);
    if d.area.start != s.pc {
      assert Reaches(cpu, s.(pc := s.pc - REL32_SIZE), 2, s.(pc := d.detour));
    }
  }

  lemma RelayLeads(cpu: Cpu, d: Installed, m: Memory, s: State)
    requires X64(cpu) && Placed(d, m) && s.pc == d.Entry() && s.mem == Shown(d, m, true)
    ensures Reaches(cpu, s, 1, s.(pc := d.detour))
  {
    if d.relay.Some? {
      ShownAgrees(d, m, true);
      AgreeHolds(m, s.mem, d.Covered(), d.relay.value, T.JmpAbs(d.detour));
      T.JmpAbsRuns(cpu, s, d.detour);
      assert Reaches(cpu, s.(pc := d.detour), 0, s.(pc := d.detour));
    }
  }

  // The trampoline does what the unpatched function would do, whether the
  // detour is on or off.
  lemma TrampolineEitherWay(cpu: Cpu, d: Installed, m: Memory, s: State, on: bool, fuel: nat)
    requires X64(cpu) && Made(d, m) && Relocatable(cpu, d.program)
    requires s.pc == d.program.target && s.mem == m && Tame(cpu, d.program, d.Covered(), s, fuel)
    ensures
      var p := d.program;
      exists g: nat ::
        Answers(cpu, p, d.Covered(), Run(cpu, p.target, p.End(), s, fuel),
                s.(pc := p.base, mem := Shown(d, m, on)), fuel, g)
  {
    ShownAgrees(d, m, on);
    TrampolineAgrees(d.program, m, Shown(d, m, on), d.Covered());
    TrampolineSimulates(cpu, d.program, d.Covered(), s, s.(pc := d.program.base, mem := Shown(d, m, on)), fuel);
  }

  // ---- chaining ------------------------------------------------------------

  // A trampoline built where a patch starts with a jump to `dest` is one
  // absolute jump there.
  lemma BuildOverPatch(insn: X.Insn, rest: seq<X.Insn>, target: u64, dest: u64)
    requires X.Readable([insn] + rest, target)
    requires insn.kind.Jmp? && L.Transfers(insn, target, dest) && !InProlog(target, L.PROLOG_MARGIN, dest)
    ensures X.BuildFrom([insn] + rest, target, L.PROLOG_MARGIN, None, []) == Some(X.Built([X.Jump(dest)], false, true))
  {
    assert [] + [X.Jump(dest)] == [X.Jump(dest)];
  }

  // What the decoder finds at a patched target: the long jump, or the short
  // one to the long jump above.
  lemma PatchDecodes(cpu: Cpu, m: Memory, target: u64, area: Area, entry: u64) returns (insn: X.Insn)
    requires X64(cpu) && Patched(m, target, area, entry)
    ensures cpu.fetch(m, target) == Some(insn.bytes) && cpu.kind(insn.bytes) == insn.kind && insn.kind.Jmp?
    ensures L.Transfers(insn, target, FirstHop(target, area, entry))
  {
    TemplateEmits(entry, area.start, area.size > REL32_SIZE);
    if area.start == target {
      var d := JumpDisplacement(target, entry, REL32_SIZE);
      var w: word := d % 0x1_0000_0000;
      S32Back(d);
      Onward(target, entry, REL32_SIZE);
      assert cpu.valid(JmpNear(w));
      insn := X.Insn(JmpNear(w), Jmp(d));
    } else {
      Parts(m, area.start, RelJump(area.start, entry).value, JmpShort(0xF9));
      T.FetchShort(cpu, m, target, 0xF9);
      WrapSmall(target - REL32_SIZE);
      insn := X.Insn(JmpShort(0xF9), Jmp(-7));
    }
  }

  // The detour_prolog for `entry` lies over the area.
  ghost predicate Patched(m: Memory, target: u64, area: Area, entry: u64) {
    && REL32_SIZE <= target
    && (area == Area(target, REL32_SIZE) || area == Area(target - REL32_SIZE, REL32_SIZE + REL8_SIZE))
    && var ts := JumpThunks(entry, area.size > REL32_SIZE);
       var code := Emission(ts, area.start, |ts|);
       code.Some? && |code.value| == area.size && Holds(m, area.start, code.value)
  }

  function FirstHop(target: u64, area: Area, entry: u64): u64
    requires area.Area? && REL32_SIZE <= target
  {
    if area.start == target then entry else target - REL32_SIZE
  }

  // And the code of that trampoline leads to where the patch leads.
  lemma ChainReaches(cpu: Cpu, insn: X.Insn, rest: seq<X.Insn>, target: u64, area: Area, entry: u64, b: X.Built,
                     code: seq<byte>, t: State)
    requires X64(cpu) && Patched(t.mem, target, area, entry) && t.pc + 14 <= TWO64
    requires cpu.fetch(t.mem, target) == Some(insn.bytes) && insn.kind == cpu.kind(insn.bytes)
    requires X.Readable([insn] + rest, target) && !InProlog(target, L.PROLOG_MARGIN, FirstHop(target, area, entry))
    requires X.BuildFrom([insn] + rest, target, L.PROLOG_MARGIN, None, []) == Some(b)
    requires
      var ts := X.Thunks(b.blocks);
      Emission(ts, t.pc, |ts|) == Some(code) && Holds(t.mem, t.pc, code)
    ensures !b.jump && Reaches(cpu, t, 2, t.(pc := entry))
  {
    var found := PatchDecodes(cpu, t.mem, target, area, entry);
    assert found == insn;
    BuildOverPatch(insn, rest, target, FirstHop(target, area, entry));
    RelayLength(FirstHop(target, area, entry));
    EmissionLength(X.Thunks(b.blocks), t.pc, 1);
    JumpCodeHeld(t.mem, t.pc, FirstHop(target, area, entry));
    ChainRuns(cpu, target, area, entry, t);
  }

  lemma ChainRuns(cpu: Cpu, target: u64, area: Area, entry: u64, t: State)
    requires X64(cpu) && Patched(t.mem, target, area, entry) && t.pc + 14 <= TWO64
    requires Holds(t.mem, t.pc, T.JmpAbs(FirstHop(target, area, entry)))
    ensures Reaches(cpu, t, 2, t.(pc := entry))
  {
    var hop := t.(pc := FirstHop(target, area, entry));
    T.JmpAbsRuns(cpu, t, hop.pc);
    if area.start != target {
      PatchReaches(cpu, t.(pc := target), area, entry);
      assert Reaches(cpu, t.(pc := entry), 0, t.(pc := entry));
    }
    assert Reaches(cpu, hop, 1, t.(pc := entry));
  }
}
