// What the AArch64 builder accepts and where it stops, with any margin, told by
// the words alone.
module A64Build {
  import opened Machine
  import opened Prolog
  import opened A64Trampoline
  import I = A64Isa

  // `branch_address` just before word i is processed.
  ghost function BranchAt(ws: seq<word>, target: u64, margin: nat, i: nat): Option<u64>
    requires ReadableWords(ws, target, margin) && i <= |ws|
  {
    if i == 0 then None
    else
      match ProcessAt(ws, target, margin, i - 1, BranchAt(ws, target, margin, i - 1))
      case None => None
      case Some(p) => p.branch
  }

  ghost function ProcessAt(ws: seq<word>, target: u64, margin: nat, i: nat, branch: Option<u64>)
    : Option<Processed>
    requires ReadableWords(ws, target, margin) && i < |ws|
  {
    Process(ws[i], target + 4 * i, target, margin, branch)
  }

  // Where a direct branch at pc leads.
  function Leads(dec: I.Decoder, w: word, pc: u64): Option<u64> {
    match dec(w)
    case B(imm) => Some(Wrap(pc + imm))
    case Cbz(_, _, _, imm) => Some(Wrap(pc + imm))
    case Tbz(_, _, _, imm) => Some(Wrap(pc + imm))
    case _ => None
  }

  predicate StaysIn(dec: I.Decoder, w: word, pc: u64, target: u64, margin: nat) {
    Leads(dec, w, pc).Some? && target <= Leads(dec, w, pc).value < target + margin
  }

  // The word becomes a block of more than four bytes.
  predicate Grows(dec: I.Decoder, w: word, pc: u64, target: u64, margin: nat) {
    match dec(w)
    case Adr(_, _) => true
    case Adrp(_, _) => true
    case Literal(op, _, _) => op != 3
    case Special(Bl(_)) => true
    case _ => Leads(dec, w, pc).Some? && !StaysIn(dec, w, pc, target, margin)
  }

  // Nothing behind the word is reached through it.
  predicate Leaves(dec: I.Decoder, w: word) {
    dec(w).B? || dec(w).Ret?
  }

  function Pc(target: u64, i: nat): int {
    target + 4 * i
  }

  // Word k leads over address x, to a place in the prolog.
  ghost predicate Over(dec: I.Decoder, ws: seq<word>, target: u64, margin: nat, k: nat, x: int)
    requires ReadableWords(ws, target, margin) && k < |ws|
  {
    StaysIn(dec, ws[k], Pc(target, k), target, margin) && x < Leads(dec, ws[k], Pc(target, k)).value
  }

  // A word before word i leads over its start: the farthest remembered
  // destination is behind it.
  ghost predicate Spanned(dec: I.Decoder, ws: seq<word>, target: u64, margin: nat, i: nat)
    requires ReadableWords(ws, target, margin) && i < |ws|
  {
    Covered(dec, ws, target, margin, i, Pc(target, i))
  }

  ghost predicate Covered(dec: I.Decoder, ws: seq<word>, target: u64, margin: nat, i: nat, x: int)
    requires ReadableWords(ws, target, margin) && i <= |ws|
  {
    exists k :: 0 <= k < i && Over(dec, ws, target, margin, k, x)
  }

  // The builder is done with word i.
  ghost predicate Stops(dec: I.Decoder, ws: seq<word>, target: u64, margin: nat, i: nat)
    requires ReadableWords(ws, target, margin) && i < |ws|
  {
    Leaves(dec, ws[i]) && !Spanned(dec, ws, target, margin, i)
  }

  // It gives up at word i: a literal load to a SIMD register, or one that grows
  // below a remembered destination.
  ghost predicate Refused(dec: I.Decoder, ws: seq<word>, target: u64, margin: nat, i: nat)
    requires ReadableWords(ws, target, margin) && i < |ws|
  {
    IsSimdLiteral(ws[i]) || (Grows(dec, ws[i], Pc(target, i), target, margin) && Spanned(dec, ws, target, margin, i))
  }

  // Nothing before word n stops the builder or covers the margin.
  ghost predicate Comes(dec: I.Decoder, ws: seq<word>, target: u64, margin: nat, n: nat)
    requires ReadableWords(ws, target, margin)
  {
    && n < |ws| && (n > 0 ==> 4 * n < margin)
    && forall k | 0 <= k < n :: !Stops(dec, ws, target, margin, k)
  }

  ghost predicate Known(ws: seq<word>, i: nat)
    requires i < |ws|
  {
    !IsSimdLiteral(ws[i])
  }

  ghost predicate AllKnown(ws: seq<word>, n: nat)
    requires n <= |ws|
  {
    forall k | 0 <= k < n :: Known(ws, k)
  }

  // ---- the remembered destination -------------------------------------------

  // One word: what Process says, told without it.
  lemma WordIs(dec: I.Decoder, w: word, pc: u64, target: u64, margin: nat, branch: Option<u64>)
    requires I.IsA64(dec)
    ensures
      match Process(w, pc, target, margin, branch)
      case None => IsSimdLiteral(w)
      case Some(p) =>
        && !IsSimdLiteral(w)
        && p.branch == (if StaysIn(dec, w, pc, target, margin) then Track(branch, Leads(dec, w, pc).value) else branch)
        && (p.finished <==> Leaves(dec, w) && !InBranch(branch, pc))
        && (p.size != 4 <==> Grows(dec, w, pc, target, margin))
  {
    ProcessMeans(w, pc, target, margin, branch);
    if Process(w, pc, target, margin, branch).Some? {
      MeantIs(dec, Process(w, pc, target, margin, branch).value, dec(w), w, pc, target, margin, branch);
    }
  }

  lemma MeantIs(dec: I.Decoder, p: Processed, i: I.Instr, w: word, pc: u64, target: u64, margin: nat,
                branch: Option<u64>)
    requires I.IsA64(dec)
    requires i == dec(w) && Meant(p, i, w, pc, target, margin, branch)
    ensures p.branch == if StaysIn(dec, w, pc, target, margin) then Track(branch, Leads(dec, w, pc).value) else branch
    ensures p.finished <==> Leaves(dec, w) && !InBranch(branch, pc)
    ensures p.size != 4 <==> Grows(dec, w, pc, target, margin)
  {
  }

  // What the loop asks of it.
  lemma SiteIs(dec: I.Decoder, ws: seq<word>, target: u64, margin: nat, i: nat) returns (p: Option<Processed>)
    requires I.IsA64(dec)
    requires ReadableWords(ws, target, margin) && i < |ws| && AllKnown(ws, i)
    ensures p == ProcessAt(ws, target, margin, i, BranchAt(ws, target, margin, i))
    ensures
      match p
      case None => Refused(dec, ws, target, margin, i)
      case Some(p) =>
        && AllKnown(ws, i + 1) && p.branch == BranchAt(ws, target, margin, i + 1)
        && (p.finished <==> Stops(dec, ws, target, margin, i))
        && (InBranch(p.branch, Pc(target, i)) && p.size != 4 <==> Refused(dec, ws, target, margin, i))
  {
    var branch := BranchAt(ws, target, margin, i);
    p := ProcessAt(ws, target, margin, i, branch);
    BranchIs(dec, ws, target, margin, i, Pc(target, i));
    WordIs(dec, ws[i], Pc(target, i), target, margin, branch);
  }

  lemma BranchNext(dec: I.Decoder, ws: seq<word>, target: u64, margin: nat, i: nat, x: int)
    requires I.IsA64(dec)
    requires ReadableWords(ws, target, margin) && i < |ws| && Known(ws, i)
    ensures InBranch(BranchAt(ws, target, margin, i + 1), x) <==>
            InBranch(BranchAt(ws, target, margin, i), x) || Over(dec, ws, target, margin, i, x)
  {
    WordIs(dec, ws[i], Pc(target, i), target, margin, BranchAt(ws, target, margin, i));
  }

  lemma {:induction false} BranchIs(dec: I.Decoder, ws: seq<word>, target: u64, margin: nat, i: nat, x: int)
    requires I.IsA64(dec)
    requires ReadableWords(ws, target, margin) && i <= |ws| && AllKnown(ws, i)
    ensures InBranch(BranchAt(ws, target, margin, i), x) <==> Covered(dec, ws, target, margin, i, x)
  {
    if i > 0 {
      BranchIs(dec, ws, target, margin, i - 1, x);
      BranchNext(dec, ws, target, margin, i - 1, x);
      CoveredNext(dec, ws, target, margin, i - 1, x);
    }
  }

  lemma CoveredNext(dec: I.Decoder, ws: seq<word>, target: u64, margin: nat, i: nat, x: int)
    requires ReadableWords(ws, target, margin) && i < |ws|
    ensures Covered(dec, ws, target, margin, i + 1, x) <==>
            Covered(dec, ws, target, margin, i, x) || Over(dec, ws, target, margin, i, x)
  {
  }

  // ---- the build ------------------------------------------------------------

  // One pass of the loop, for a word that is refused, or stops it, or neither.
  lemma Pass(ws: seq<word>, target: u64, margin: nat, branch: Option<u64>, done: seq<Block>, p: Option<Processed>,
             refused: bool, stops: bool)
    requires ReadableWords(ws, target, margin) && |done| < |ws|
    requires p == ProcessAt(ws, target, margin, |done|, branch)
    requires
      match p
      case None => refused
      case Some(p) =>
        (p.finished <==> stops) && (InBranch(p.branch, Pc(target, |done|)) && p.size != 4 <==> refused)
    ensures !refused ==> p.Some?
    ensures BuildFrom(ws, target, margin, branch, done) ==
      if refused then None
      else if stops then Some(Built(done + [p.value.block], false))
      else if 4 * (|done| + 1) >= margin then Some(Built(done + [p.value.block], true))
      else BuildFrom(ws, target, margin, p.value.branch, done + [p.value.block])
  {
  }

  lemma BuildNext(dec: I.Decoder, ws: seq<word>, target: u64, margin: nat, done: seq<Block>) returns (block: Block)
    requires I.IsA64(dec)
    requires ReadableWords(ws, target, margin) && |done| < |ws| && AllKnown(ws, |done|)
    ensures
      var n := |done|;
      var r := BuildFrom(ws, target, margin, BranchAt(ws, target, margin, n), done);
      if Refused(dec, ws, target, margin, n) then r == None
      else
        && AllKnown(ws, n + 1)
        && if Stops(dec, ws, target, margin, n) then r == Some(Built(done + [block], false))
           else if 4 * (n + 1) >= margin then r == Some(Built(done + [block], true))
           else
             n + 1 < |ws| &&
             r == BuildFrom(ws, target, margin, BranchAt(ws, target, margin, n + 1), done + [block])
  {
    var n := |done|;
    var p := SiteIs(dec, ws, target, margin, n);
    Pass(ws, target, margin, BranchAt(ws, target, margin, n), done, p, Refused(dec, ws, target, margin, n),
         Stops(dec, ws, target, margin, n));
    block := if p.Some? then p.value.block else Nop;
  }

  // A build that came to word n has this outcome.
  ghost predicate Ends(dec: I.Decoder, ws: seq<word>, target: u64, margin: nat, n: nat, r: Option<Built>)
    requires ReadableWords(ws, target, margin)
  {
    match r
    case None => exists m :: n <= m && Comes(dec, ws, target, margin, m) && Refused(dec, ws, target, margin, m)
    case Some(b) =>
      var size := |b.blocks|;
      && n < size && (forall k | n <= k < size && k < |ws| :: !Refused(dec, ws, target, margin, k))
      && Comes(dec, ws, target, margin, size - 1)
      && (b.jump <==> !Stops(dec, ws, target, margin, size - 1)) && (b.jump ==> 4 * size >= margin)
  }

  lemma EndsRefused(dec: I.Decoder, ws: seq<word>, target: u64, margin: nat, n: nat)
    requires ReadableWords(ws, target, margin)
    requires Comes(dec, ws, target, margin, n) && Refused(dec, ws, target, margin, n)
    ensures Ends(dec, ws, target, margin, n, None)
  {
  }

  lemma EndsHere(dec: I.Decoder, ws: seq<word>, target: u64, margin: nat, b: Built)
    requires ReadableWords(ws, target, margin) && 0 < |b.blocks| <= |ws|
    requires
      var n := |b.blocks| - 1;
      && Comes(dec, ws, target, margin, n) && !Refused(dec, ws, target, margin, n)
      && (b.jump <==> !Stops(dec, ws, target, margin, n)) && (b.jump ==> 4 * (n + 1) >= margin)
    ensures Ends(dec, ws, target, margin, |b.blocks| - 1, Some(b))
  {
  }

  lemma EndsLater(dec: I.Decoder, ws: seq<word>, target: u64, margin: nat, n: nat, r: Option<Built>)
    requires ReadableWords(ws, target, margin) && n < |ws| && !Refused(dec, ws, target, margin, n)
    requires Ends(dec, ws, target, margin, n + 1, r)
    ensures Ends(dec, ws, target, margin, n, r)
  {
  }

  lemma {:induction false} BuildEnds(dec: I.Decoder, ws: seq<word>, target: u64, margin: nat, done: seq<Block>)
    requires I.IsA64(dec)
    requires ReadableWords(ws, target, margin) && |done| < |ws| && AllKnown(ws, |done|)
    requires |done| > 0 ==> 4 * |done| < margin
    requires forall k | 0 <= k < |done| :: !Stops(dec, ws, target, margin, k)
    ensures Ends(dec, ws, target, margin, |done|,
                 BuildFrom(ws, target, margin, BranchAt(ws, target, margin, |done|), done))
    decreases |ws| - |done|
  {
    var n := |done|;
    var block := BuildNext(dec, ws, target, margin, done);
    if Refused(dec, ws, target, margin, n) {
      EndsRefused(dec, ws, target, margin, n);
    } else {
      var next, stops := done + [block], Stops(dec, ws, target, margin, n);
      if stops || 4 * (n + 1) >= margin {
        EndsHere(dec, ws, target, margin, Built(next, !stops));
      } else {
        BuildEnds(dec, ws, target, margin, next);
        EndsLater(dec, ws, target, margin, n, BuildFrom(ws, target, margin, BranchAt(ws, target, margin, n + 1), next));
      }
    }
  }

  // The builder gives up exactly when it comes to a word that is refused.
  lemma BuildRefusedIff(dec: I.Decoder, ws: seq<word>, target: u64, margin: nat)
    requires I.IsA64(dec)
    requires ReadableWords(ws, target, margin)
    ensures BuildFrom(ws, target, margin, None, []).None? <==>
            exists n :: 0 <= n && Comes(dec, ws, target, margin, n) && Refused(dec, ws, target, margin, n)
  {
    BuildEnds(dec, ws, target, margin, []);
    var r := BuildFrom(ws, target, margin, None, []);
    if r.Some? {
      forall n: nat | Comes(dec, ws, target, margin, n) ensures !Refused(dec, ws, target, margin, n) {
        ComesInside(dec, ws, target, margin, r.value, n);
      }
    }
  }

  // An accepted build has disassembled every word that comes.
  lemma ComesInside(dec: I.Decoder, ws: seq<word>, target: u64, margin: nat, b: Built, n: nat)
    requires ReadableWords(ws, target, margin)
    requires Ends(dec, ws, target, margin, 0, Some(b)) && Comes(dec, ws, target, margin, n)
    ensures n < |b.blocks|
  {
  }

  // An accepted build disassembles exactly the words that come; the last of them
  // stops it or covers the margin, and the jump goes on behind one that does not
  // stop it.
  lemma BuildStopsWhere(dec: I.Decoder, ws: seq<word>, target: u64, margin: nat, b: Built)
    requires I.IsA64(dec)
    requires ReadableWords(ws, target, margin) && BuildFrom(ws, target, margin, None, []) == Some(b)
    ensures 0 < |b.blocks| <= |ws|
    ensures forall n: nat :: n < |b.blocks| <==> Comes(dec, ws, target, margin, n)
    ensures b.jump <==> !Stops(dec, ws, target, margin, |b.blocks| - 1)
    ensures b.jump ==> 4 * |b.blocks| >= margin
  {
    BuildEnds(dec, ws, target, margin, []);
    forall n: nat ensures n < |b.blocks| <==> Comes(dec, ws, target, margin, n) {
      if Comes(dec, ws, target, margin, n) {
        ComesInside(dec, ws, target, margin, b, n);
      }
    }
  }

  // Nothing behind a B or RET that no earlier branch leads over is disassembled.
  lemma NothingBehind(dec: I.Decoder, ws: seq<word>, target: u64, margin: nat, b: Built, k: nat)
    requires I.IsA64(dec)
    requires ReadableWords(ws, target, margin) && BuildFrom(ws, target, margin, None, []) == Some(b)
    requires k < |ws| && Leaves(dec, ws[k]) && !Spanned(dec, ws, target, margin, k)
    ensures |b.blocks| <= k + 1 && (|b.blocks| == k + 1 ==> !b.jump)
  {
    BuildStopsWhere(dec, ws, target, margin, b);
    assert Stops(dec, ws, target, margin, k) && !Comes(dec, ws, target, margin, k + 1);
  }
}
