// What a finished RISC-V build guarantees about the layout of its blocks.
module RiscvLayout {
  import opened Machine
  import opened Prolog
  import opened RiscvTrampoline
  import I = RiscvIsa
  import T = RiscvThunk
  import Emitter

  // `branch_address` just before word i is processed.
  ghost function BranchAt(ws: seq<word>, target: u64, margin: nat, i: nat): Option<u64>
    requires ReadableWords(ws, target, margin) && i <= |ws|
  {
    if i == 0 then None
    else
      match ProcessAt(ws, target, margin, i - 1, BranchAt(ws, target, margin, i - 1))
      case None => None
      case Some(p) => p.branch
  }

  ghost function ProcessAt(ws: seq<word>, target: u64, margin: nat, i: nat, branch: Option<u64>)
    : Option<Processed>
    requires ReadableWords(ws, target, margin) && i < |ws|
  {
    Process(ws[i], target + 4 * i, target, margin, branch)
  }

  // The builder accepted word i and went on, or stopped there.
  ghost predicate AcceptedAt(ws: seq<word>, target: u64, margin: nat, blocks: seq<T.Block>, i: nat)
    requires ReadableWords(ws, target, margin) && i < |blocks| <= |ws|
  {
    var p := ProcessAt(ws, target, margin, i, BranchAt(ws, target, margin, i));
    && p.Some? && p.value.block == blocks[i]
    && (InBranch(p.value.branch, target + 4 * i) ==> blocks[i].Size() == 4)
  }

  ghost predicate FinishedAt(ws: seq<word>, target: u64, margin: nat, i: nat)
    requires ReadableWords(ws, target, margin) && i < |ws|
  {
    var p := ProcessAt(ws, target, margin, i, BranchAt(ws, target, margin, i));
    p.Some? && p.value.finished
  }

  ghost predicate Accepted(ws: seq<word>, target: u64, margin: nat, b: Built)
    requires ReadableWords(ws, target, margin)
  {
    var n := |b.blocks|;
    && 0 < n <= |ws|
    && (forall i {:trigger AcceptedAt(ws, target, margin, b.blocks, i)} ::
          0 <= i < n ==> AcceptedAt(ws, target, margin, b.blocks, i))
    && (forall i {:trigger FinishedAt(ws, target, margin, i)} ::
          0 <= i < n - 1 ==> !FinishedAt(ws, target, margin, i))
    && (n > 1 ==> 4 * (n - 1) < margin)
    && (b.jump <==> !FinishedAt(ws, target, margin, n - 1))
    && (b.jump ==> 4 * n >= margin)
  }

  lemma {:induction false} BuildAccepted(ws: seq<word>, target: u64, margin: nat, done: seq<T.Block>)
    requires ReadableWords(ws, target, margin) && |done| < |ws|
    requires BuildFrom(ws, target, margin, BranchAt(ws, target, margin, |done|), done).Some?
    requires forall i {:trigger AcceptedAt(ws, target, margin, done, i)} ::
               0 <= i < |done| ==> AcceptedAt(ws, target, margin, done, i)
    requires forall i {:trigger FinishedAt(ws, target, margin, i)} ::
               0 <= i < |done| ==> !FinishedAt(ws, target, margin, i)
    requires |done| > 0 ==> 4 * |done| < margin
    ensures Accepted(ws, target, margin,
                     BuildFrom(ws, target, margin, BranchAt(ws, target, margin, |done|), done).value)
    decreases |ws| - |done|
  {
    var i := |done|;
    var p := ProcessAt(ws, target, margin, i, BranchAt(ws, target, margin, i)).value;
    var next := done + [p.block];
    OneMoreAccepted(ws, target, margin, done, p.block);
    if p.finished || 4 * (i + 1) >= margin {
      LastAccepted(ws, target, margin, Built(next, !p.finished));
    } else {
      assert BranchAt(ws, target, margin, i + 1) == p.branch;
      BuildAccepted(ws, target, margin, next);
    }
  }

  lemma LastAccepted(ws: seq<word>, target: u64, margin: nat, b: Built)
    requires ReadableWords(ws, target, margin) && 0 < |b.blocks| <= |ws|
    requires forall i {:trigger AcceptedAt(ws, target, margin, b.blocks, i)} ::
               0 <= i < |b.blocks| ==> AcceptedAt(ws, target, margin, b.blocks, i)
    requires forall i {:trigger FinishedAt(ws, target, margin, i)} ::
               0 <= i < |b.blocks| - 1 ==> !FinishedAt(ws, target, margin, i)
    requires |b.blocks| > 1 ==> 4 * (|b.blocks| - 1) < margin
    requires b.jump <==> !FinishedAt(ws, target, margin, |b.blocks| - 1)
    requires FinishedAt(ws, target, margin, |b.blocks| - 1) || 4 * |b.blocks| >= margin
    ensures Accepted(ws, target, margin, b)
  {
  }

  lemma OneMoreAccepted(ws: seq<word>, target: u64, margin: nat, done: seq<T.Block>, block: T.Block)
    requires ReadableWords(ws, target, margin) && |done| < |ws|
    requires forall i {:trigger AcceptedAt(ws, target, margin, done, i)} ::
               0 <= i < |done| ==> AcceptedAt(ws, target, margin, done, i)
    requires AcceptedAt(ws, target, margin, done + [block], |done|)
    ensures forall i {:trigger AcceptedAt(ws, target, margin, done + [block], i)} ::
              0 <= i <= |done| ==> AcceptedAt(ws, target, margin, done + [block], i)
  {
    forall k | 0 <= k < |done| ensures AcceptedAt(ws, target, margin, done + [block], k) {
      assert AcceptedAt(ws, target, margin, done, k);
    }
  }

  lemma BuildIsAccepted(ws: seq<word>, target: u64, margin: nat)
    requires ReadableWords(ws, target, margin)
    requires BuildFrom(ws, target, margin, None, []).Some?
    ensures Accepted(ws, target, margin, BuildFrom(ws, target, margin, None, []).value)
  {
    BuildAccepted(ws, target, margin, []);
  }

  // The record `process` made of word i, in terms of the decoded instruction.
  lemma SiteMeans(dec: I.Decoder, ws: seq<word>, target: u64, margin: nat, b: Built, i: nat) returns (p: Processed)
    requires I.IsRv64(dec)
    requires ReadableWords(ws, target, margin) && Accepted(ws, target, margin, b) && i < |b.blocks|
    ensures p.block == b.blocks[i] && p.branch == BranchAt(ws, target, margin, i + 1)
    ensures p.finished == FinishedAt(ws, target, margin, i)
    ensures p.block.Valid()
    ensures InBranch(p.branch, target + 4 * i) ==> p.block.Size() == 4
    ensures Meant(p, dec(ws[i]), ws[i], target + 4 * i, target, margin,
                  BranchAt(ws, target, margin, i))
  {
    var branch := BranchAt(ws, target, margin, i);
    assert AcceptedAt(ws, target, margin, b.blocks, i);
    p := ProcessAt(ws, target, margin, i, branch).value;
    ProcessMeans(ws[i], target + 4 * i, target, margin, branch);
  }

  // ---- the branch guard -----------------------------------------------------

  lemma BranchGrows(dec: I.Decoder, ws: seq<word>, target: u64, margin: nat, b: Built, i: nat)
    requires I.IsRv64(dec)
    requires ReadableWords(ws, target, margin) && Accepted(ws, target, margin, b) && i < |b.blocks|
    ensures
      var e, e' := BranchAt(ws, target, margin, i), BranchAt(ws, target, margin, i + 1);
      e.Some? ==> e'.Some? && e'.value >= e.value
  {
    var p := SiteMeans(dec, ws, target, margin, b, i);
  }

  lemma {:induction false} BranchMonotone(dec: I.Decoder, ws: seq<word>, target: u64, margin: nat, b: Built,
                                          i: nat, k: nat)
    requires I.IsRv64(dec)
    requires ReadableWords(ws, target, margin) && Accepted(ws, target, margin, b)
    requires i <= k <= |b.blocks|
    ensures
      var e, e' := BranchAt(ws, target, margin, i), BranchAt(ws, target, margin, k);
      e.Some? ==> e'.Some? && e'.value >= e.value
    decreases k - i
  {
    if i < k {
      BranchMonotone(dec, ws, target, margin, b, i, k - 1);
      BranchGrows(dec, ws, target, margin, b, k - 1);
    }
  }

  // Word i transfers control to `dest` when its condition, if any, holds.
  ghost predicate Transfers(dec: I.Decoder, w: word, pc: u64, dest: u64) {
    match dec(w)
    case Jal(_, imm) => dest == Wrap(pc + imm)
    case Branch(_, _, _, imm) => dest == Wrap(pc + imm)
    case _ => false
  }

  // An unconditional forward jump inside the prolog that no earlier branch
  // jumps over: the builder stops right behind it.
  ghost predicate StopsShort(dec: I.Decoder, ws: seq<word>, target: u64, margin: nat, i: nat, dest: u64)
    requires ReadableWords(ws, target, margin) && i < |ws|
  {
    && dec(ws[i]).Jal? && dec(ws[i]).rd == 0
    && target + 4 * i < dest
    && !InBranch(BranchAt(ws, target, margin, i), target + 4 * i)
  }

  // No block between an internal forward transfer and its destination grew.
  lemma ForwardSpan(dec: I.Decoder, ws: seq<word>, target: u64, margin: nat, b: Built, i: nat, dest: u64, k: nat)
    requires I.IsRv64(dec)
    requires ReadableWords(ws, target, margin) && Accepted(ws, target, margin, b)
    requires i < |b.blocks| && Transfers(dec, ws[i], target + 4 * i, dest)
    requires InProlog(target, margin, dest)
    requires i <= k < |b.blocks| && (i < k ==> target + 4 * k < dest)
    ensures b.blocks[k].Size() == 4
  {
    var p := SiteMeans(dec, ws, target, margin, b, i);
    if i < k {
      BranchMonotone(dec, ws, target, margin, b, i + 1, k + 1);
      var q := SiteMeans(dec, ws, target, margin, b, k);
    }
  }

  // An internal transfer's destination is among the disassembled bytes exactly
  // when it does not stop short of it.
  lemma InternalTarget(dec: I.Decoder, ws: seq<word>, target: u64, margin: nat, b: Built, i: nat, dest: u64)
    requires I.IsRv64(dec)
    requires ReadableWords(ws, target, margin) && Accepted(ws, target, margin, b)
    requires i < |b.blocks| && Transfers(dec, ws[i], target + 4 * i, dest)
    requires InProlog(target, margin, dest)
    ensures dest < target + 4 * |b.blocks| <==>
            !(StopsShort(dec, ws, target, margin, i, dest) && target + 4 * (i + 1) <= dest)
  {
    var n := |b.blocks|;
    FinishesIf(dec, ws, target, margin, b, i, dest);
    if !FinishedAt(ws, target, margin, i) && !b.jump && i < n - 1 {
      LastReaches(dec, ws, target, margin, b, i, dest);
    }
  }

  // A transfer that finishes the prolog stops short, or leads back.
  lemma FinishesIf(dec: I.Decoder, ws: seq<word>, target: u64, margin: nat, b: Built, i: nat, dest: u64)
    requires I.IsRv64(dec)
    requires ReadableWords(ws, target, margin) && Accepted(ws, target, margin, b)
    requires i < |b.blocks| && Transfers(dec, ws[i], target + 4 * i, dest) && InProlog(target, margin, dest)
    ensures StopsShort(dec, ws, target, margin, i, dest) <==>
            FinishedAt(ws, target, margin, i) && target + 4 * i < dest
  {
    var p := SiteMeans(dec, ws, target, margin, b, i);
  }

  // A later word that finishes the prolog is not before the destination.
  lemma LastReaches(dec: I.Decoder, ws: seq<word>, target: u64, margin: nat, b: Built, i: nat, dest: u64)
    requires I.IsRv64(dec)
    requires ReadableWords(ws, target, margin) && Accepted(ws, target, margin, b)
    requires i < |b.blocks| - 1 && !b.jump && Transfers(dec, ws[i], target + 4 * i, dest)
    requires InProlog(target, margin, dest)
    ensures dest <= target + 4 * (|b.blocks| - 1)
  {
    var n := |b.blocks|;
    var p := SiteMeans(dec, ws, target, margin, b, i);
    BranchMonotone(dec, ws, target, margin, b, i + 1, n - 1);
    var q := SiteMeans(dec, ws, target, margin, b, n - 1);
  }

  // ---- offsets --------------------------------------------------------------

  function Off(blocks: seq<T.Block>, k: nat): nat
    requires k <= |blocks|
  {
    if k == 0 then 0 else Off(blocks, k - 1) + blocks[k - 1].Size()
  }

  lemma {:induction false} OffMonotone(blocks: seq<T.Block>, i: nat, j: nat)
    requires i <= j <= |blocks|
    ensures Off(blocks, i) + 4 * (j - i) <= Off(blocks, j)
    decreases j - i
  {
    if i < j {
      OffMonotone(blocks, i, j - 1);
    }
  }

  // The displacement between two blocks is that of the original words exactly
  // when none of the blocks crossed grew.
  lemma {:induction false} DisplacementKept(blocks: seq<T.Block>, i: nat, j: nat)
    requires i <= j <= |blocks|
    ensures Off(blocks, j) - Off(blocks, i) == 4 * (j - i) <==>
            forall k | i <= k < j :: blocks[k].Size() == 4
    decreases j - i
  {
    if i < j {
      DisplacementKept(blocks, i, j - 1);
      OffMonotone(blocks, i, j - 1);
      if forall k | i <= k < j :: blocks[k].Size() == 4 {
        assert blocks[j - 1].Size() == 4;
      }
    }
  }

  // Internal-branch layout: a forward transfer's destination block lies as
  // many bytes behind it in the trampoline as in the prolog.
  lemma ForwardLayout(dec: I.Decoder, ws: seq<word>, target: u64, margin: nat, b: Built, i: nat, j: nat)
    requires I.IsRv64(dec)
    requires ReadableWords(ws, target, margin) && Accepted(ws, target, margin, b)
    requires i < j <= |b.blocks| && Transfers(dec, ws[i], target + 4 * i, target + 4 * j)
    requires 4 * j < margin
    ensures Off(b.blocks, j) - Off(b.blocks, i) == 4 * (j - i)
  {
    forall k | i <= k < j ensures b.blocks[k].Size() == 4 {
      ForwardSpan(dec, ws, target, margin, b, i, target + 4 * j, k);
    }
    DisplacementKept(b.blocks, i, j);
  }

  // ---- from the emitter to memory ------------------------------------------

  lemma {:induction false} OffIsOffset(blocks: seq<T.Block>, k: nat)
    requires k <= |blocks|
    ensures Emitter.Offset(Thunks(blocks), k) == Off(blocks, k)
  {
    if k > 0 {
      OffIsOffset(blocks, k - 1);
    }
  }

  ghost predicate BlockAt(m: Memory, base: int, blocks: seq<T.Block>, k: nat)
    requires k < |blocks|
  {
    blocks[k].Valid() && Holds(m, base + Off(blocks, k), blocks[k].Encode())
  }

  lemma CodeOfBlock(blocks: seq<T.Block>, base: u64, k: nat)
    requires k < |blocks| && blocks[k].Valid()
    ensures Emitter.CodeAt(Thunks(blocks), base, k) == blocks[k].Encode()
  {
    assert Thunks(blocks)[k] == AsThunk(blocks[k]);
  }

  lemma AtThunk(m: Memory, base: u64, blocks: seq<T.Block>, k: nat, ts: seq<Emitter.Thunk>)
    requires k < |blocks| && ts == Thunks(blocks) && blocks[k].Valid() && Emitter.Offset(ts, k) == Off(blocks, k)
    requires Holds(m, base + Emitter.Offset(ts, k), Emitter.CodeAt(ts, base, k))
    ensures BlockAt(m, base, blocks, k)
  {
    CodeOfBlock(blocks, base, k);
  }

  // The emission of valid blocks succeeds at every base; memory that holds it
  // holds every block at its offset.
  lemma EmittedBlock(m: Memory, base: u64, blocks: seq<T.Block>, ts: seq<Emitter.Thunk>, code: seq<byte>, k: nat)
    requires ts == Thunks(blocks) && Emitter.Emission(ts, base, |blocks|) == Some(code)
    requires Holds(m, base, code) && k < |blocks| && blocks[k].Valid()
    ensures BlockAt(m, base, blocks, k)
  {
    Emitter.EmittedThunk(m, base, ts, code, k);
    OffIsOffset(blocks, k);
    AtThunk(m, base, blocks, k, ts);
  }

  lemma EmissionOfBlocks(base: u64, blocks: seq<T.Block>)
    requires forall k | 0 <= k < |blocks| :: blocks[k].Valid()
    ensures Emitter.Emission(Thunks(blocks), base, |blocks|).Some?
    ensures |Emitter.Emission(Thunks(blocks), base, |blocks|).value| == Off(blocks, |blocks|)
  {
    forall k | 0 <= k < |blocks| ensures Emitter.Sound(Thunks(blocks), base, k) {
      assert blocks[k].Valid();
    }
    Emitter.EmissionSucceeds(Thunks(blocks), base, |blocks|);
    Emitter.EmissionLength(Thunks(blocks), base, |blocks|);
    OffIsOffset(blocks, |blocks|);
  }
}
