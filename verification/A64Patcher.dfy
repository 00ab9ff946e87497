// The four-byte AArch64 patch of src/arch/aarch64/patcher.rs, the relay of
// src/arch/aarch64/meta.rs, and how far they reach.
module A64Patcher {
  import opened Machine
  import opened Prolog
  import opened A64Isa
  import opened A64Trampoline
  import Emitter
  import T = A64Thunk
  import H = A64Theorem

  const JUMP_SIZE := 4
  const DETOUR_RANGE := 0x800_0000

  // B imm26, the displacement shifted and cut to 26 bits.
  function BranchWord(d: int): word {
    0x1400_0000 + d / 4 % 0x400_0000
  }

  function BranchBytes(from: u64, to: u64): (code: seq<byte>)
    ensures |code| == JUMP_SIZE
  {
    LE32(BranchWord(Displacement(from, to)))
  }

  // The displacement the processor sees.
  function Seen(d: int): int {
    4 * Signed(d / 4 % 0x400_0000, 0x400_0000)
  }

  lemma BranchDecodes(d: int)
    ensures Decode(BranchWord(d)) == B(Seen(d))
  {
    var imm26 := d / 4 % 0x400_0000;
    var top, low := imm26 / 0x100_0000, imm26 % 0x100_0000;
    var mid, rt := low / 0x20, low % 0x20;
    assert BranchWord(d) == T.Word(0x14 + top, mid, rt);
    T.SplitWord(0x14 + top, mid, rt);
    assert (0x14 + top) / 4 == 5 && (0x14 + top) % 4 == top;
  }

  // It is the one meant exactly for aligned displacements in reach.
  lemma SeenExact(d: int)
    ensures Seen(d) == d <==> d % 4 == 0 && -DETOUR_RANGE <= d < DETOUR_RANGE
    ensures (Seen(d) - (d - d % 4)) % 0x1000_0000 == 0 && -DETOUR_RANGE <= Seen(d) < DETOUR_RANGE
  {
    var k := d / 4;
    var q, r := k / 0x400_0000, k % 0x400_0000;
    assert d == 4 * k + d % 4 && k == q * 0x400_0000 + r;
    var c := if 2 * r < 0x400_0000 then q else q + 1;
    assert Seen(d) == 4 * k - c * 0x1000_0000;
    assert Seen(d) - (d - d % 4) == -c * 0x1000_0000;
    Multiple(Seen(d) - (d - d % 4), -c);
  }

  lemma Multiple(x: int, c: int)
    requires x == c * 0x1000_0000
    ensures x % 0x1000_0000 == 0
  {
  }

  lemma Lands(from: u64, to: u64)
    ensures
      var d := Displacement(from, to);
      Wrap(from + Seen(d)) == to <==> d % 4 == 0 && -DETOUR_RANGE <= d < DETOUR_RANGE
  {
    var d := Displacement(from, to);
    SeenExact(d);
    var q := (to - from) / TWO64;
    assert to - from == q * TWO64 + Wrap(to - from);
    var c := if d == Wrap(to - from) then q else q + 1;
    assert from + d == to - c * TWO64;
    SameOnlyIf(from, to, d, Seen(d), c);
  }

  lemma SameOnlyIf(from: u64, to: u64, d: int, x: int, c: int)
    requires from + d == to - c * TWO64 && -0x8000_0000_0000_0000 <= d < 0x8000_0000_0000_0000
    requires -DETOUR_RANGE <= x < DETOUR_RANGE
    ensures Wrap(from + x) == to <==> x == d
  {
    var q := (from + x) / TWO64;
    if Wrap(from + x) == to {
      assert from + x == q * TWO64 + to;
      assert x - d == (q + c) * TWO64;
    }
    if x == d {
      Periodic(to, -c);
    }
  }

  // The patch reaches its destination exactly when the destination is aligned
  // and in reach; nothing but the program counter changes.
  lemma PatchReachesIff(cpu: Cpu, s: State, to: u64)
    requires IsA64(cpu.decode) && Holds(s.mem, s.pc, BranchBytes(s.pc, to))
    ensures
      var d := Displacement(s.pc, to);
      && Step(cpu, s).Next? && Step(cpu, s).state == s.(pc := Step(cpu, s).state.pc)
      && (Step(cpu, s).state.pc == to <==> d % 4 == 0 && -DETOUR_RANGE <= d < DETOUR_RANGE)
  {
    var d := Displacement(s.pc, to);
    ReadBack32(s.mem, s.pc, BranchWord(d));
    BranchDecodes(d);
    Lands(s.pc, to);
  }

  // relay_builder: an absolute jump when the detour is out of range.
  function RelayBuilder(target: u64, detour: u64): Option<Block> {
    var d := Displacement(target, detour);
    if !(-DETOUR_RANGE <= d < DETOUR_RANGE) then Some(Jump(detour)) else None
  }

  // There is no relay exactly when the detour is at most 2^27 bytes below the
  // target or less than that above it.
  lemma RelayIff(target: u64, detour: u64)
    ensures RelayBuilder(target, detour) ==
      if exists x :: -0x800_0000 <= x < 0x800_0000 && Away(target, detour, x) then None else Some(Jump(detour))
  {
    DisplacementIn(target, detour, -0x800_0000, 0x800_0000);
  }

  // ---- exits avoid the patch ----------------------------------------------

  ghost predicate ExitsTo(block: Block, dest: u64) {
    (block.Jump? || block.CbzFar? || block.TbzFar?) && block.dest == dest
  }

  // No static exit leads into the bytes the patch overwrites.
  lemma ExitsAvoidPatch(w: word, rest: seq<word>, target: u64, b: Built, k: nat, dest: u64)
    requires ReadableWords([w] + rest, target, JUMP_SIZE)
    requires BuildFrom([w] + rest, target, JUMP_SIZE, None, []) == Some(b)
    requires k < |AllBlocks(b, target)| && ExitsTo(AllBlocks(b, target)[k], dest)
    ensures !(target <= dest < target + JUMP_SIZE)
  {
    H.OneBlock(w, rest, target);
    ProcessMeans(w, target, target, JUMP_SIZE, None);
    WrapSmall(target + 4);
  }

  // ---- chaining ------------------------------------------------------------

  // A trampoline built over a patched prolog is one jump to where the patch
  // leads.
  lemma BuildOverPatch(target: u64, first: u64, rest: seq<word>)
    requires
      var d := Displacement(target, first);
      first != target && d % 4 == 0 && -DETOUR_RANGE <= d < DETOUR_RANGE
    requires ReadableWords([BranchWord(Displacement(target, first))] + rest, target, JUMP_SIZE)
    ensures
      BuildFrom([BranchWord(Displacement(target, first))] + rest, target, JUMP_SIZE, None, []) ==
        Some(Built([Jump(first)], false))
  {
    var d := Displacement(target, first);
    var w := BranchWord(d);
    BranchDecodes(d);
    SeenExact(d);
    Lands(target, first);
    H.OneBlock(w, rest, target);
    SomeBranch(w);
    ProcessMeans(w, target, target, JUMP_SIZE, None);
    H.SelfIff(target, target, d / 4);
    assert 4 * (d / 4) == d;
  }

  lemma SomeBranch(w: word)
    requires Decode(w).B?
    ensures Match(w).PB?
  {
    MatchMeans(w);
  }

  // And its code leads there: to the first detour or its relay.
  lemma ChainReaches(cpu: Cpu, target: u64, first: u64, rest: seq<word>, t: State, b: Built, code: seq<byte>)
    requires IsA64(cpu.decode) && t.pc + 16 <= TWO64
    requires
      var d := Displacement(target, first);
      first != target && d % 4 == 0 && -DETOUR_RANGE <= d < DETOUR_RANGE
    requires ReadableWords([BranchWord(Displacement(target, first))] + rest, target, JUMP_SIZE)
    requires
      BuildFrom([BranchWord(Displacement(target, first))] + rest, target, JUMP_SIZE, None, []) == Some(b)
    requires
      var blocks := AllBlocks(b, target);
      Emitter.Emission(Thunks(blocks), t.pc, |blocks|) == Some(code) && Holds(t.mem, t.pc, code)
    ensures Steps(cpu, t, 2) == Next(t.(pc := first, regs := t.regs[T.X16 := first]))
  {
    BuildOverPatch(target, first, rest);
    H.Emitted(t.mem, t.pc, target, Jump(first), false, code);
    T.JmpAbsRuns(cpu, t, first);
  }
}
