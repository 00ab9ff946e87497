// What a finished x86-64 build guarantees about the layout of its blocks.  The
// builder remembers only the last internal jump's destination; with the
// five-byte margin that is enough.
module X86Layout {
  import opened Machine
  import opened Prolog
  import opened X86Isa
  import opened X86Trampoline
  import Emitter

  // prolog_margin: the size of a rel32 jump.
  const PROLOG_MARGIN := 5

  // `branch_address` just before instruction i is processed.
  ghost function BranchAt(insns: seq<Insn>, target: u64, margin: nat, i: nat): Option<u64>
    requires Readable(insns, target) && i <= |insns|
  {
    if i == 0 then None
    else
      match ProcessAt(insns, target, margin, i - 1, BranchAt(insns, target, margin, i - 1))
      case None => None
      case Some(p) => p.branch
  }

  ghost function ProcessAt(insns: seq<Insn>, target: u64, margin: nat, i: nat, branch: Option<u64>)
    : Option<Processed>
    requires Readable(insns, target) && i < |insns|
  {
    Process(insns[i], Ip(insns, target, i), target, margin, Len(insns, i + 1), branch)
  }

  // The builder accepted instruction i and went on, or stopped there.
  ghost predicate AcceptedAt(insns: seq<Insn>, target: u64, margin: nat, blocks: seq<Block>, i: nat)
    requires Readable(insns, target) && i < |blocks| <= |insns|
  {
    var p := ProcessAt(insns, target, margin, i, BranchAt(insns, target, margin, i));
    && p.Some? && p.value.block == blocks[i]
    && (InBranch(p.value.branch, Ip(insns, target, i)) ==> blocks[i].Size() == |insns[i].bytes|)
  }

  ghost predicate FinishedAt(insns: seq<Insn>, target: u64, margin: nat, i: nat)
    requires Readable(insns, target) && i < |insns|
  {
    var p := ProcessAt(insns, target, margin, i, BranchAt(insns, target, margin, i));
    p.Some? && p.value.finished
  }

  ghost predicate Accepted(insns: seq<Insn>, target: u64, margin: nat, b: Built)
    requires Readable(insns, target)
  {
    var n := |b.blocks|;
    && n <= |insns|
    && (forall i {:trigger AcceptedAt(insns, target, margin, b.blocks, i)} ::
          0 <= i < n ==> AcceptedAt(insns, target, margin, b.blocks, i))
    && (forall i {:trigger FinishedAt(insns, target, margin, i)} ::
          0 <= i < n - 1 ==> !FinishedAt(insns, target, margin, i))
    && (n > 1 ==> Len(insns, n - 1) < margin)
    && (if b.finished then
          && n > 0 && (b.jump <==> !FinishedAt(insns, target, margin, n - 1))
          && (b.jump ==> Len(insns, n) >= margin)
        else n == |insns| && !b.jump)
  }

  lemma {:induction false} BuildAccepted(insns: seq<Insn>, target: u64, margin: nat, done: seq<Block>)
    requires Readable(insns, target) && |done| <= |insns|
    requires BuildFrom(insns, target, margin, BranchAt(insns, target, margin, |done|), done).Some?
    requires forall i {:trigger AcceptedAt(insns, target, margin, done, i)} ::
               0 <= i < |done| ==> AcceptedAt(insns, target, margin, done, i)
    requires forall i {:trigger FinishedAt(insns, target, margin, i)} ::
               0 <= i < |done| ==> !FinishedAt(insns, target, margin, i)
    requires |done| > 0 ==> Len(insns, |done|) < margin
    ensures Accepted(insns, target, margin,
                     BuildFrom(insns, target, margin, BranchAt(insns, target, margin, |done|), done).value)
    decreases |insns| - |done|
  {
    var i := |done|;
    if i == |insns| {
      if i > 1 {
        LenMonotone(insns, i - 1, i);
      }
      return;
    }
    var p := ProcessAt(insns, target, margin, i, BranchAt(insns, target, margin, i)).value;
    var next := done + [p.block];
    forall k | 0 <= k <= i ensures AcceptedAt(insns, target, margin, next, k) {
      if k < i {
        assert AcceptedAt(insns, target, margin, done, k);
      }
    }
    if !p.finished && Len(insns, i + 1) < margin {
      assert BranchAt(insns, target, margin, i + 1) == p.branch;
      BuildAccepted(insns, target, margin, next);
    }
  }

  lemma BuildIsAccepted(insns: seq<Insn>, target: u64, margin: nat)
    requires Readable(insns, target)
    requires BuildFrom(insns, target, margin, None, []).Some?
    ensures Accepted(insns, target, margin, BuildFrom(insns, target, margin, None, []).value)
  {
    BuildAccepted(insns, target, margin, []);
  }

  // The record `process_instruction` made of instruction i.
  lemma SiteMeans(insns: seq<Insn>, target: u64, margin: nat, b: Built, i: nat) returns (p: Processed)
    requires Readable(insns, target) && Accepted(insns, target, margin, b) && i < |b.blocks|
    ensures Some(p) == Process(insns[i], Ip(insns, target, i), target, margin, Len(insns, i + 1),
                               BranchAt(insns, target, margin, i))
    ensures p.block == b.blocks[i] && p.branch == BranchAt(insns, target, margin, i + 1)
    ensures p.finished == FinishedAt(insns, target, margin, i)
    ensures InBranch(p.branch, Ip(insns, target, i)) ==> p.block.Size() == |insns[i].bytes|
  {
    assert AcceptedAt(insns, target, margin, b.blocks, i);
    p := ProcessAt(insns, target, margin, i, BranchAt(insns, target, margin, i)).value;
  }

  // ---- the branch guard -----------------------------------------------------

  // Instruction i transfers control to `dest` when its condition, if any, holds.
  ghost predicate Transfers(insn: Insn, ip: u64, dest: u64) {
    (insn.kind.Jmp? || insn.kind.Jcc? || insn.kind.Loop?) && dest == Wrap(ip + |insn.bytes| + insn.kind.disp)
  }

  // Instruction i is a jump to `dest`, which is in the prolog.
  ghost predicate Internal(insns: seq<Insn>, target: u64, margin: nat, i: nat, dest: u64)
    requires Readable(insns, target) && i < |insns|
  {
    Transfers(insns[i], Ip(insns, target, i), dest) && InProlog(target, margin, dest)
  }

  // Lower bounds on the length of the encodings in 64-bit mode.
  predicate WellSized(insn: Insn) {
    match insn.kind
    case Jmp(_) => |insn.bytes| >= 2
    case Jcc(_, _) => |insn.bytes| >= 2
    case Loop(_) => |insn.bytes| >= 2
    case Call(_) => |insn.bytes| >= 5
    case Rip(_, _) => |insn.bytes| >= 6
    case _ => |insn.bytes| >= 1
  }

  ghost predicate Sized(insns: seq<Insn>) {
    forall i | 0 <= i < |insns| :: WellSized(insns[i])
  }

  // Two internal jumps take four bytes, so in the first four behind one of them
  // its destination is still the one the builder remembers.
  lemma {:induction false} BranchKept(insns: seq<Insn>, target: u64, margin: nat, b: Built, i: nat, dest: u64, k: nat)
    requires Readable(insns, target) && Accepted(insns, target, margin, b) && Sized(insns)
    requires i < k < |b.blocks| && Internal(insns, target, margin, i, dest)
    requires Ip(insns, target, k) < dest && Ip(insns, target, k) < Ip(insns, target, i) + 4
    ensures BranchAt(insns, target, margin, k) == Some(dest)
    decreases k - i
  {
    var p := SiteMeans(insns, target, margin, b, k - 1);
    if i < k - 1 {
      BranchKept(insns, target, margin, b, i, dest, k - 1);
      LenMonotone(insns, i + 1, k - 1);
      assert WellSized(insns[i]) && WellSized(insns[k - 1]);
    }
  }

  // Although every internal jump overwrites the destination of the one before,
  // no instruction inside any earlier forward span changes size.
  lemma GuardSuffices(insns: seq<Insn>, target: u64, margin: nat, b: Built, i: nat, dest: u64, k: nat)
    requires Readable(insns, target) && Accepted(insns, target, margin, b) && Sized(insns)
    requires margin <= PROLOG_MARGIN && i < |b.blocks| && Internal(insns, target, margin, i, dest)
    requires i <= k < |b.blocks| && (i < k ==> Ip(insns, target, k) < dest)
    ensures b.blocks[k].Size() == |insns[k].bytes|
  {
    var p := SiteMeans(insns, target, margin, b, k);
    if i < k {
      BranchKept(insns, target, margin, b, i, dest, k);
    }
  }

  // When destinations are instruction boundaries a margin of six would do for
  // that as well: what could grow inside the span takes two bytes or more.
  lemma BoundaryGuardSuffices(insns: seq<Insn>, target: u64, margin: nat, b: Built, i: nat, j: nat, k: nat)
    requires Readable(insns, target) && Accepted(insns, target, margin, b) && Sized(insns)
    requires margin <= PROLOG_MARGIN + 1 && i <= k < |b.blocks| && k < j <= |insns|
    requires Internal(insns, target, margin, i, Ip(insns, target, j))
    ensures b.blocks[k].Size() == |insns[k].bytes|
  {
    var p := SiteMeans(insns, target, margin, b, k);
    LenMonotone(insns, k + 1, j);
    assert WellSized(insns[k]);
    if i < k && |insns[k].bytes| >= 2 {
      BranchKept(insns, target, margin, b, i, Ip(insns, target, j), k);
    }
  }

  // And no early finish cuts an earlier destination off: it is among the
  // disassembled bytes.
  lemma TargetNotCutOff(insns: seq<Insn>, target: u64, margin: nat, b: Built, i: nat, dest: u64)
    requires Readable(insns, target) && Accepted(insns, target, margin, b) && Sized(insns)
    requires margin <= PROLOG_MARGIN && i < |b.blocks| && Internal(insns, target, margin, i, dest)
    requires b.finished
    ensures dest < Ip(insns, target, |b.blocks|)
  {
    var n := |b.blocks|;
    var p := SiteMeans(insns, target, margin, b, n - 1);
    if !b.jump && dest > Ip(insns, target, n - 1) {
      assert WellSized(insns[n - 1]);
      if i < n - 1 {
        BranchKept(insns, target, margin, b, i, dest, n - 1);
      }
    }
  }

  // jz +4; jz +0; jz -128; ret
  function Crossing(): seq<Insn> {
    [Insn([0x74, 4], Jcc(4, 4)), Insn([0x74, 0], Jcc(4, 0)), Insn([0x74, 0x80], Jcc(4, -0x80)), Insn([0xC3], Ret)]
  }

  // With any margin above six a second internal jump makes the builder forget
  // the first, and a jump that the first one crosses, on its way to the
  // instruction behind, grows from two bytes to sixteen.
  lemma GuardFailsBeyond(target: u64, margin: nat)
    requires margin > PROLOG_MARGIN + 1 && target + margin + 0x100 < TWO64
    ensures
      var insns := Crossing();
      && Readable(insns, target) && Sized(insns) && Len(insns, 2) == 4 && Len(insns, 3) == 6
      && Internal(insns, target, margin, 0, Ip(insns, target, 3))
      && exists b: Built ::
           && BuildFrom(insns, target, margin, None, []) == Some(b) && b.finished && |b.blocks| == 4
           && b.blocks[2].Size() != |insns[2].bytes|
  {
    var insns := Crossing();
    Lengths(insns, [2, 4, 6, 7], target);
    WrapSmall(target + 6);
    CrossingBuilds(target, margin);
  }

  lemma CrossingBuilds(target: u64, margin: nat)
    requires margin > PROLOG_MARGIN + 1 && target + margin + 0x100 < TWO64 && Readable(Crossing(), target)
    ensures BuildFrom(Crossing(), target, margin, None, []) ==
      Some(Built([Copy([0x74, 4]), Copy([0x74, 0]), JumpIf(Wrap(target + 6 - 0x80), 4), Copy([0xC3])], false, true))
  {
    var insns := Crossing();
    Lengths(insns, [2, 4, 6, 7], target);
    CrossingProcess(target, margin);
    var b0, b1, b2, b3 := Copy([0x74, 4]), Copy([0x74, 0]), JumpIf(Wrap(target + 6 - 0x80), 4), Copy([0xC3]);
    assert [] + [b0] == [b0] && [b0] + [b1] == [b0, b1] && [b0, b1] + [b2] == [b0, b1, b2];
    assert [b0, b1, b2] + [b3] == [b0, b1, b2, b3];
    GoesOn(insns, target, margin, None, [], Processed(b0, false, Some(target + 6)));
    GoesOn(insns, target, margin, Some(target + 6), [b0], Processed(b1, false, Some(target + 4)));
    GoesOn(insns, target, margin, Some(target + 4), [b0, b1], Processed(b2, false, Some(target + 4)));
  }

  // An instruction after which the builder goes on.
  lemma GoesOn(insns: seq<Insn>, target: u64, margin: nat, branch: Option<u64>, done: seq<Block>, p: Processed)
    requires Readable(insns, target) && |done| < |insns|
    requires
      var i := |done|;
      && Process(insns[i], Ip(insns, target, i), target, margin, Len(insns, i + 1), branch) == Some(p)
      && (InBranch(p.branch, Ip(insns, target, i)) ==> p.block.Size() == |insns[i].bytes|)
      && !p.finished && Len(insns, i + 1) < margin
    ensures BuildFrom(insns, target, margin, branch, done) ==
            BuildFrom(insns, target, margin, p.branch, done + [p.block])
  {
  }

  lemma CrossingProcess(target: u64, margin: nat)
    requires margin > PROLOG_MARGIN + 1 && target + margin + 0x100 < TWO64
    ensures
      var insns, far := Crossing(), Wrap(target + 6 - 0x80);
      && Process(insns[0], target, target, margin, 2, None) ==
         Some(Processed(Copy([0x74, 4]), false, Some(target + 6)))
      && Process(insns[1], target + 2, target, margin, 4, Some(target + 6)) ==
         Some(Processed(Copy([0x74, 0]), false, Some(target + 4)))
      && Process(insns[2], target + 4, target, margin, 6, Some(target + 4)) ==
         Some(Processed(JumpIf(far, 4), false, Some(target + 4)))
  {
    WrapSmall(target + 6);
    WrapSmall(target + 4);
    assert !InProlog(target, margin, Wrap(target + 6 - 0x80));
  }

  // jz +3; jz +0; ret; nop
  function CuttingOff(): seq<Insn> {
    [Insn([0x74, 3], Jcc(4, 3)), Insn([0x74, 0], Jcc(4, 0)), Insn([0xC3], Ret), Insn([0x90], Plain)]
  }

  // With any margin above five a return that the first jump crosses finishes
  // the prolog, and the jump's destination is not disassembled.
  lemma CutOffBeyond(target: u64, margin: nat)
    requires margin > PROLOG_MARGIN && target + margin + 0x100 < TWO64
    ensures
      var insns := CuttingOff();
      && Readable(insns, target) && Sized(insns) && Len(insns, 3) == 5
      && Internal(insns, target, margin, 0, Ip(insns, target, 3))
      && exists b: Built ::
           BuildFrom(insns, target, margin, None, []) == Some(b) && b.finished && |b.blocks| == 3
  {
    var insns := CuttingOff();
    Lengths(insns, [2, 4, 5, 6], target);
    CuttingProcess(target, margin);
    var b0, b1, b2 := Copy([0x74, 3]), Copy([0x74, 0]), Copy([0xC3]);
    var b := Built([b0, b1, b2], false, true);
    assert [] + [b0] == [b0] && [b0] + [b1] == [b0, b1] && [b0, b1] + [b2] == b.blocks;
    assert BuildFrom(insns, target, margin, Some(target + 4), [b0, b1]) == Some(b);
    GoesOn(insns, target, margin, None, [], Processed(b0, false, Some(target + 5)));
    GoesOn(insns, target, margin, Some(target + 5), [b0], Processed(b1, false, Some(target + 4)));
  }

  lemma CuttingProcess(target: u64, margin: nat)
    requires margin > PROLOG_MARGIN && target + margin + 0x100 < TWO64
    ensures
      var insns := CuttingOff();
      && Process(insns[0], target, target, margin, 2, None) ==
         Some(Processed(Copy([0x74, 3]), false, Some(target + 5)))
      && Process(insns[1], target + 2, target, margin, 4, Some(target + 5)) ==
         Some(Processed(Copy([0x74, 0]), false, Some(target + 4)))
  {
    WrapSmall(target + 5);
    WrapSmall(target + 4);
  }

  // Where four instructions end.
  lemma Lengths(insns: seq<Insn>, ends: seq<nat>, target: u64)
    requires |insns| == |ends| == 4 && ends[0] == |insns[0].bytes| > 0
    requires forall k | 0 < k < 4 :: ends[k] == ends[k - 1] + |insns[k].bytes| > ends[k - 1]
    requires target + ends[3] < TWO64
    ensures Len(insns, 1) == ends[0] && Len(insns, 2) == ends[1] && Len(insns, 3) == ends[2] && Len(insns, 4) == ends[3]
    ensures Readable(insns, target)
  {
    assert Len(insns, 0) == 0;
    assert Len(insns, 1) == ends[0];
    assert Len(insns, 2) == ends[1];
    assert Len(insns, 3) == ends[2];
    assert Len(insns, 4) == ends[3];
    forall k | 0 <= k < 4 ensures |insns[k].bytes| > 0 {
      if k > 0 {
        assert ends[k] == ends[k - 1] + |insns[k].bytes| > ends[k - 1];
      }
    }
  }

  // ---- offsets --------------------------------------------------------------

  function Off(blocks: seq<Block>, k: nat): nat
    requires k <= |blocks|
  {
    if k == 0 then 0 else Off(blocks, k - 1) + blocks[k - 1].Size()
  }

  lemma {:induction false} OffMonotone(blocks: seq<Block>, i: nat, j: nat)
    requires i <= j <= |blocks|
    ensures Off(blocks, i) <= Off(blocks, j)
    decreases j - i
  {
    if i < j {
      OffMonotone(blocks, i, j - 1);
    }
  }

  ghost predicate SameSize(insns: seq<Insn>, blocks: seq<Block>, k: nat)
    requires k < |blocks| <= |insns|
  {
    blocks[k].Size() == |insns[k].bytes|
  }

  lemma {:induction false} DisplacementKept(insns: seq<Insn>, blocks: seq<Block>, i: nat, j: nat)
    requires i <= j <= |blocks| <= |insns|
    requires forall k | i <= k < j :: SameSize(insns, blocks, k)
    ensures Off(blocks, j) - Off(blocks, i) == Len(insns, j) - Len(insns, i)
    decreases j - i
  {
    if i < j {
      DisplacementKept(insns, blocks, i, j - 1);
      assert SameSize(insns, blocks, j - 1);
    }
  }

  // A forward internal jump's destination lies as many bytes behind it in the
  // trampoline as in the prolog.
  lemma ForwardLayout(insns: seq<Insn>, target: u64, b: Built, i: nat, j: nat)
    requires Readable(insns, target) && Accepted(insns, target, PROLOG_MARGIN, b) && Sized(insns)
    requires i < j <= |b.blocks| && Internal(insns, target, PROLOG_MARGIN, i, Ip(insns, target, j))
    ensures Off(b.blocks, j) - Off(b.blocks, i) == Len(insns, j) - Len(insns, i)
  {
    forall k | i <= k < j ensures SameSize(insns, b.blocks, k) {
      LenMonotone(insns, k + 1, j);
      GuardSuffices(insns, target, PROLOG_MARGIN, b, i, Ip(insns, target, j), k);
    }
    DisplacementKept(insns, b.blocks, i, j);
  }

  // ---- from the emitter to memory ------------------------------------------

  lemma {:induction false} OffIsOffset(blocks: seq<Block>, k: nat)
    requires k <= |blocks|
    ensures Emitter.Offset(Thunks(blocks), k) == Off(blocks, k)
  {
    if k > 0 {
      OffIsOffset(blocks, k - 1);
    }
  }

  ghost predicate BlockAt(m: Memory, base: u64, blocks: seq<Block>, k: nat)
    requires k < |blocks|
  {
    var ts := Thunks(blocks);
    Emitter.Sound(ts, base, k) && Holds(m, base + Off(blocks, k), Emitter.CodeAt(ts, base, k))
  }

  lemma ThunkOf(blocks: seq<Block>, base: u64, k: nat)
    requires k < |blocks|
    ensures
      var ts, code := Thunks(blocks), blocks[k].Generate(Wrap(base + Off(blocks, k)));
      && Emitter.Offset(ts, k) == Off(blocks, k) && Emitter.Offset(ts, k + 1) == Off(blocks, k + 1)
      && (Emitter.Sound(ts, base, k) <==> code.Some? && |code.value| == blocks[k].Size())
      && (code.Some? ==> Emitter.CodeAt(ts, base, k) == code.value)
  {
    OffIsOffset(blocks, k);
    OffIsOffset(blocks, k + 1);
    assert Thunks(blocks)[k] == AsThunk(blocks[k]);
  }

  lemma AtThunk(m: Memory, base: u64, blocks: seq<Block>, k: nat, ts: seq<Emitter.Thunk>)
    requires k < |blocks| && ts == Thunks(blocks) && Emitter.Offset(ts, k) == Off(blocks, k)
    requires Emitter.Sound(ts, base, k) && Holds(m, base + Emitter.Offset(ts, k), Emitter.CodeAt(ts, base, k))
    ensures BlockAt(m, base, blocks, k)
  {
  }

  // Memory that holds a successful emission holds every block at its offset.
  lemma EmittedBlock(m: Memory, base: u64, blocks: seq<Block>, ts: seq<Emitter.Thunk>, code: seq<byte>, k: nat)
    requires ts == Thunks(blocks) && Emitter.Emission(ts, base, |blocks|) == Some(code)
    requires Holds(m, base, code) && k < |blocks|
    ensures BlockAt(m, base, blocks, k)
  {
    Emitter.EmittedThunk(m, base, ts, code, k);
    OffIsOffset(blocks, k);
    AtThunk(m, base, blocks, k, ts);
  }

  lemma GenerateExactly(block: Block, at: u64)
    requires block.Relocate? ==> |block.bytes| >= 4
    ensures
      var code := block.Generate(at);
      code.Some? && |code.value| == block.Size() <==>
      (block.Relocate? ==> InRange(Adjusted(block.ip, at, block.disp)))
  {
  }

  lemma SoundExactly(base: u64, blocks: seq<Block>, k: nat)
    requires k < |blocks| && (blocks[k].Relocate? ==> |blocks[k].bytes| >= 4)
    ensures Emitter.Sound(Thunks(blocks), base, k) <==> InReach(blocks, base, k)
  {
    var at := Wrap(base + Off(blocks, k));
    ThunkOf(blocks, base, k);
    GenerateExactly(blocks[k], at);
    if blocks[k].Relocate? {
      AdjustedIs(blocks[k].ip, at, blocks[k].disp);
      DisplacementIn(at, Wrap(blocks[k].ip + blocks[k].disp), -0x8000_0000, 0x8000_0000);
    }
  }

  // Emission succeeds exactly when every relocated operand is within two
  // gigabytes of its new place.
  lemma EmissionExactly(base: u64, blocks: seq<Block>)
    requires forall k | 0 <= k < |blocks| :: blocks[k].Relocate? ==> |blocks[k].bytes| >= 4
    ensures Emitter.Emission(Thunks(blocks), base, |blocks|).Some? <==>
      forall k | 0 <= k < |blocks| :: InReach(blocks, base, k)
  {
    Emitter.EmissionSucceeds(Thunks(blocks), base, |blocks|);
    forall k | 0 <= k < |blocks| ensures Emitter.Sound(Thunks(blocks), base, k) <==> InReach(blocks, base, k) {
      SoundExactly(base, blocks, k);
    }
  }

  ghost predicate InReach(blocks: seq<Block>, base: u64, k: nat)
    requires k < |blocks|
  {
    blocks[k].Relocate? ==>
      IsNear(Wrap(base + Off(blocks, k)), Wrap(blocks[k].ip + blocks[k].disp))
  }

  ghost predicate IsNear(from: u64, to: u64) {
    exists x :: -0x8000_0000 <= x < 0x8000_0000 && Away(from, to, x)
  }

  // The adjusted displacement is the way from the new place to the operand, both
  // measured from the start of the instruction.
  lemma AdjustedIs(ip: u64, at: u64, disp: int)
    ensures Adjusted(ip, at, disp) == Displacement(at, Wrap(ip + disp))
  {
    var a: int := at;
    Emitter.WrapAdd(ip + disp, -a);
  }
}
