// What the RISC-V builder accepts and where it stops, told by the words alone.
module RiscvBuild {
  import opened Machine
  import opened Prolog
  import opened RiscvTrampoline
  import opened RiscvLayout
  import I = RiscvIsa
  import T = RiscvThunk

  const JAL := 0x6F
  const JALR := 0x67
  const AUIPC := 0x17
  const BRANCH := 0x63

  // Where a JAL or a branch at pc leads.
  function Leads(w: word, pc: u64): Option<u64> {
    var f := I.Split(w);
    if f.opcode == JAL then Some(Wrap(pc + I.ImmJ(w)))
    else if f.opcode == BRANCH then Some(Wrap(pc + I.ImmB(f)))
    else None
  }

  predicate StaysIn(w: word, pc: u64, target: u64, margin: nat) {
    Leads(w, pc).Some? && target <= Leads(w, pc).value < target + margin
  }

  // The word becomes a block of more than four bytes.
  predicate Grows(w: word, pc: u64, target: u64, margin: nat) {
    I.Split(w).opcode == AUIPC || (Leads(w, pc).Some? && !StaysIn(w, pc, target, margin))
  }

  // Nothing behind the word is reached through it: a jump without a link.
  predicate Leaves(w: word) {
    (I.Split(w).opcode == JAL || I.Split(w).opcode == JALR) && I.Split(w).rd == 0
  }

  function Pc(target: u64, i: nat): int {
    target + 4 * i
  }

  // Word k leads over address x, to a place in the prolog.
  ghost predicate Over(ws: seq<word>, target: u64, margin: nat, k: nat, x: int)
    requires ReadableWords(ws, target, margin) && k < |ws|
  {
    StaysIn(ws[k], Pc(target, k), target, margin) && x < Leads(ws[k], Pc(target, k)).value
  }

  // A word before word i leads over its start: the farthest remembered
  // destination is behind it.
  ghost predicate Spanned(ws: seq<word>, target: u64, margin: nat, i: nat)
    requires ReadableWords(ws, target, margin) && i < |ws|
  {
    exists k :: 0 <= k < i && Over(ws, target, margin, k, Pc(target, i))
  }

  // The builder is done with word i.
  ghost predicate Stops(ws: seq<word>, target: u64, margin: nat, i: nat)
    requires ReadableWords(ws, target, margin) && i < |ws|
  {
    Leaves(ws[i]) && !Spanned(ws, target, margin, i)
  }

  // It gives up at word i: a compressed instruction, or one that grows below a
  // remembered destination.
  ghost predicate Refused(ws: seq<word>, target: u64, margin: nat, i: nat)
    requires ReadableWords(ws, target, margin) && i < |ws|
  {
    ws[i] % 4 != 3 || (Grows(ws[i], Pc(target, i), target, margin) && Spanned(ws, target, margin, i))
  }

  // Nothing before word n stops the builder or covers the margin.
  ghost predicate Comes(ws: seq<word>, target: u64, margin: nat, n: nat)
    requires ReadableWords(ws, target, margin)
  {
    && n < |ws| && (n > 0 ==> 4 * n < margin)
    && forall k | 0 <= k < n :: !Stops(ws, target, margin, k)
  }

  ghost predicate Known(ws: seq<word>, i: nat)
    requires i < |ws|
  {
    ws[i] % 4 == 3
  }

  ghost predicate AllKnown(ws: seq<word>, n: nat)
    requires n <= |ws|
  {
    forall k | 0 <= k < n :: Known(ws, k)
  }

  // ---- the remembered destination -------------------------------------------

  // One word: what Process says, told without it.
  lemma WordIs(w: word, pc: u64, target: u64, margin: nat, branch: Option<u64>)
    ensures
      match Process(w, pc, target, margin, branch)
      case None => w % 4 != 3
      case Some(p) =>
        && w % 4 == 3
        && p.branch == (if StaysIn(w, pc, target, margin) then Track(branch, Leads(w, pc).value) else branch)
        && (p.finished <==> Leaves(w) && !InBranch(branch, pc))
        && (p.block.Size() != 4 <==> Grows(w, pc, target, margin))
  {
    if I.Split(w).opcode == JAL {
      DecodeJMeaning(w);
    } else if I.Split(w).opcode == BRANCH {
      DecodeBMeaning(w);
    }
  }

  // What the loop asks of it.
  lemma SiteIs(ws: seq<word>, target: u64, margin: nat, i: nat) returns (p: Option<Processed>)
    requires ReadableWords(ws, target, margin) && i < |ws| && AllKnown(ws, i)
    ensures p == ProcessAt(ws, target, margin, i, BranchAt(ws, target, margin, i))
    ensures
      match p
      case None => Refused(ws, target, margin, i)
      case Some(p) =>
        && AllKnown(ws, i + 1) && p.branch == BranchAt(ws, target, margin, i + 1)
        && (p.finished <==> Stops(ws, target, margin, i))
        && (InBranch(p.branch, Pc(target, i)) && p.block.Size() != 4 <==> Refused(ws, target, margin, i))
  {
    var branch := BranchAt(ws, target, margin, i);
    p := ProcessAt(ws, target, margin, i, branch);
    BranchIs(ws, target, margin, i, Pc(target, i));
    WordIs(ws[i], Pc(target, i), target, margin, branch);
  }

  lemma BranchNext(ws: seq<word>, target: u64, margin: nat, i: nat, x: int)
    requires ReadableWords(ws, target, margin) && i < |ws| && Known(ws, i)
    ensures InBranch(BranchAt(ws, target, margin, i + 1), x) <==>
            InBranch(BranchAt(ws, target, margin, i), x) || Over(ws, target, margin, i, x)
  {
    WordIs(ws[i], Pc(target, i), target, margin, BranchAt(ws, target, margin, i));
  }

  lemma {:induction false} BranchIs(ws: seq<word>, target: u64, margin: nat, i: nat, x: int)
    requires ReadableWords(ws, target, margin) && i <= |ws| && AllKnown(ws, i)
    ensures InBranch(BranchAt(ws, target, margin, i), x) <==>
            exists k :: 0 <= k < i && Over(ws, target, margin, k, x)
  {
    if i > 0 {
      BranchIs(ws, target, margin, i - 1, x);
      BranchNext(ws, target, margin, i - 1, x);
    }
  }

  // ---- the build ------------------------------------------------------------

  // One pass of the loop, for a word that is refused, or stops it, or neither.
  lemma Pass(ws: seq<word>, target: u64, margin: nat, branch: Option<u64>, done: seq<T.Block>, p: Option<Processed>,
             refused: bool, stops: bool)
    requires ReadableWords(ws, target, margin) && |done| < |ws|
    requires p == ProcessAt(ws, target, margin, |done|, branch)
    requires
      match p
      case None => refused
      case Some(p) =>
        (p.finished <==> stops) && (InBranch(p.branch, Pc(target, |done|)) && p.block.Size() != 4 <==> refused)
    ensures !refused ==> p.Some?
    ensures BuildFrom(ws, target, margin, branch, done) ==
      if refused then None
      else if stops then Some(Built(done + [p.value.block], false))
      else if 4 * (|done| + 1) >= margin then Some(Built(done + [p.value.block], true))
      else BuildFrom(ws, target, margin, p.value.branch, done + [p.value.block])
  {
  }

  lemma BuildNext(ws: seq<word>, target: u64, margin: nat, done: seq<T.Block>) returns (block: T.Block)
    requires ReadableWords(ws, target, margin) && |done| < |ws| && AllKnown(ws, |done|)
    ensures
      var n := |done|;
      var r := BuildFrom(ws, target, margin, BranchAt(ws, target, margin, n), done);
      if Refused(ws, target, margin, n) then r == None
      else
        && AllKnown(ws, n + 1)
        && if Stops(ws, target, margin, n) then r == Some(Built(done + [block], false))
           else if 4 * (n + 1) >= margin then r == Some(Built(done + [block], true))
           else
             n + 1 < |ws| &&
             r == BuildFrom(ws, target, margin, BranchAt(ws, target, margin, n + 1), done + [block])
  {
    var n := |done|;
    var p := SiteIs(ws, target, margin, n);
    Pass(ws, target, margin, BranchAt(ws, target, margin, n), done, p, Refused(ws, target, margin, n),
         Stops(ws, target, margin, n));
    block := if p.Some? then p.value.block else T.Copy(0);
  }

  // A build that came to word n has this outcome.
  ghost predicate Ends(ws: seq<word>, target: u64, margin: nat, n: nat, r: Option<Built>)
    requires ReadableWords(ws, target, margin)
  {
    match r
    case None => exists m :: n <= m && Comes(ws, target, margin, m) && Refused(ws, target, margin, m)
    case Some(b) =>
      var size := |b.blocks|;
      && n < size && (forall k | n <= k < size && k < |ws| :: !Refused(ws, target, margin, k))
      && Comes(ws, target, margin, size - 1)
      && (b.jump <==> !Stops(ws, target, margin, size - 1)) && (b.jump ==> 4 * size >= margin)
  }

  lemma EndsRefused(ws: seq<word>, target: u64, margin: nat, n: nat)
    requires ReadableWords(ws, target, margin) && Comes(ws, target, margin, n) && Refused(ws, target, margin, n)
    ensures Ends(ws, target, margin, n, None)
  {
  }

  lemma EndsHere(ws: seq<word>, target: u64, margin: nat, b: Built)
    requires ReadableWords(ws, target, margin) && 0 < |b.blocks| <= |ws|
    requires
      var n := |b.blocks| - 1;
      && Comes(ws, target, margin, n) && !Refused(ws, target, margin, n)
      && (b.jump <==> !Stops(ws, target, margin, n)) && (b.jump ==> 4 * (n + 1) >= margin)
    ensures Ends(ws, target, margin, |b.blocks| - 1, Some(b))
  {
  }

  lemma EndsLater(ws: seq<word>, target: u64, margin: nat, n: nat, r: Option<Built>)
    requires ReadableWords(ws, target, margin) && n < |ws| && !Refused(ws, target, margin, n)
    requires Ends(ws, target, margin, n + 1, r)
    ensures Ends(ws, target, margin, n, r)
  {
  }

  lemma {:induction false} BuildEnds(ws: seq<word>, target: u64, margin: nat, done: seq<T.Block>)
    requires ReadableWords(ws, target, margin) && |done| < |ws| && AllKnown(ws, |done|)
    requires |done| > 0 ==> 4 * |done| < margin
    requires forall k | 0 <= k < |done| :: !Stops(ws, target, margin, k)
    ensures Ends(ws, target, margin, |done|,
                 BuildFrom(ws, target, margin, BranchAt(ws, target, margin, |done|), done))
    decreases |ws| - |done|
  {
    var n := |done|;
    var block := BuildNext(ws, target, margin, done);
    if Refused(ws, target, margin, n) {
      EndsRefused(ws, target, margin, n);
    } else {
      var next, stops := done + [block], Stops(ws, target, margin, n);
      if stops || 4 * (n + 1) >= margin {
        EndsHere(ws, target, margin, Built(next, !stops));
      } else {
        BuildEnds(ws, target, margin, next);
        EndsLater(ws, target, margin, n, BuildFrom(ws, target, margin, BranchAt(ws, target, margin, n + 1), next));
      }
    }
  }

  // The builder gives up exactly when it comes to a word that is refused: a
  // compressed instruction, or one that grows below a remembered destination.
  lemma BuildRefusedIff(ws: seq<word>, target: u64, margin: nat)
    requires ReadableWords(ws, target, margin)
    ensures BuildFrom(ws, target, margin, None, []).None? <==>
            exists n :: 0 <= n && Comes(ws, target, margin, n) && Refused(ws, target, margin, n)
  {
    BuildEnds(ws, target, margin, []);
    var r := BuildFrom(ws, target, margin, None, []);
    if r.Some? {
      forall n: nat | Comes(ws, target, margin, n) ensures !Refused(ws, target, margin, n) {
        ComesInside(ws, target, margin, r.value, n);
      }
    }
  }

  // An accepted build has disassembled every word that comes.
  lemma ComesInside(ws: seq<word>, target: u64, margin: nat, b: Built, n: nat)
    requires ReadableWords(ws, target, margin) && Ends(ws, target, margin, 0, Some(b)) && Comes(ws, target, margin, n)
    ensures n < |b.blocks|
  {
  }

  // An accepted build disassembles exactly the words that come; the last of them
  // stops it or covers the margin, and the jump goes on behind one that does not
  // stop it.
  lemma BuildStopsWhere(ws: seq<word>, target: u64, margin: nat, b: Built)
    requires ReadableWords(ws, target, margin) && BuildFrom(ws, target, margin, None, []) == Some(b)
    ensures 0 < |b.blocks| <= |ws|
    ensures forall n: nat :: n < |b.blocks| <==> Comes(ws, target, margin, n)
    ensures b.jump <==> !Stops(ws, target, margin, |b.blocks| - 1)
    ensures b.jump ==> 4 * |b.blocks| >= margin
  {
    BuildEnds(ws, target, margin, []);
    forall n: nat ensures n < |b.blocks| <==> Comes(ws, target, margin, n) {
      if Comes(ws, target, margin, n) {
        ComesInside(ws, target, margin, b, n);
      }
    }
  }

  // Nothing behind a jump without a link that no earlier transfer leads over is
  // disassembled.
  lemma NothingBehind(ws: seq<word>, target: u64, margin: nat, b: Built, k: nat)
    requires ReadableWords(ws, target, margin) && BuildFrom(ws, target, margin, None, []) == Some(b)
    requires k < |ws| && Leaves(ws[k]) && !Spanned(ws, target, margin, k)
    ensures |b.blocks| <= k + 1 && (|b.blocks| == k + 1 ==> !b.jump)
  {
    BuildStopsWhere(ws, target, margin, b);
    assert Stops(ws, target, margin, k) && !Comes(ws, target, margin, k + 1);
  }
}
