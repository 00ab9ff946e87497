// What the x86-64 builder accepts and where it stops, told by the instructions
// alone.
module X86Build {
  import opened Machine
  import opened Prolog
  import opened X86Trampoline
  import opened X86Layout

  // Instruction k is a jump that stays in the prolog.
  ghost predicate Stays(insns: seq<Insn>, target: u64, margin: nat, k: nat)
    requires Readable(insns, target) && k < |insns|
  {
    StaysIn(insns[k], Ip(insns, target, k), target, margin)
  }

  // It is the last such jump before instruction i.
  ghost predicate Latest(insns: seq<Insn>, target: u64, margin: nat, k: nat, i: nat)
    requires Readable(insns, target) && i <= |insns|
  {
    k < i && Stays(insns, target, margin, k) && forall j | k < j < i :: !Stays(insns, target, margin, j)
  }

  // The destination remembered before instruction i, that of the last jump that
  // stays in the prolog, lies behind the start of i.
  ghost predicate Ahead(insns: seq<Insn>, target: u64, margin: nat, i: nat)
    requires Readable(insns, target) && i < |insns|
  {
    exists k :: 0 <= k < i && Latest(insns, target, margin, k, i)
      && Ip(insns, target, i) < DestOf(insns[k], Ip(insns, target, k))
  }

  // The builder is done with instruction i.
  ghost predicate Stops(insns: seq<Insn>, target: u64, margin: nat, i: nat)
    requires Readable(insns, target) && i < |insns|
  {
    || (insns[i].kind.Rip? && insns[i].kind.jump)
    || (Leaves(insns[i], Ip(insns, target, i), target, margin) && !Ahead(insns, target, margin, i))
  }

  // It gives up at instruction i: unsupported, or resized below a remembered
  // destination.
  ghost predicate Refused(insns: seq<Insn>, target: u64, margin: nat, i: nat)
    requires Readable(insns, target) && i < |insns|
  {
    var ip := Ip(insns, target, i);
    || Unsupported(insns[i], ip, target, margin)
    || (NewSize(insns[i], ip, target, margin) != |insns[i].bytes| && Ahead(insns, target, margin, i))
  }

  // Nothing before instruction n stops the builder or covers the margin.
  ghost predicate Comes(insns: seq<Insn>, target: u64, margin: nat, n: nat)
    requires Readable(insns, target)
  {
    && n < |insns| && (n > 0 ==> Len(insns, n) < margin)
    && forall k | 0 <= k < n :: !Stops(insns, target, margin, k)
  }

  ghost predicate Supported(insns: seq<Insn>, target: u64, margin: nat, n: nat)
    requires Readable(insns, target) && n <= |insns|
  {
    forall k | 0 <= k < n :: Known(insns, target, margin, k)
  }

  ghost predicate Known(insns: seq<Insn>, target: u64, margin: nat, k: nat)
    requires Readable(insns, target) && k < |insns|
  {
    !Unsupported(insns[k], Ip(insns, target, k), target, margin)
  }

  // ---- the remembered destination -------------------------------------------

  // b is the destination of the last jump before instruction i that stays in the
  // prolog.
  ghost predicate Remembered(insns: seq<Insn>, target: u64, margin: nat, i: nat, b: Option<u64>)
    requires Readable(insns, target) && i <= |insns|
  {
    match b
    case None => forall k | 0 <= k < i :: !Stays(insns, target, margin, k)
    case Some(d) =>
      exists k :: 0 <= k < i && Latest(insns, target, margin, k, i) && d == DestOf(insns[k], Ip(insns, target, k))
  }

  ghost function LastDest(insns: seq<Insn>, target: u64, margin: nat, i: nat): Option<u64>
    requires Readable(insns, target) && i <= |insns|
  {
    if i == 0 then None
    else if Stays(insns, target, margin, i - 1) then Some(DestOf(insns[i - 1], Ip(insns, target, i - 1)))
    else LastDest(insns, target, margin, i - 1)
  }

  lemma LastNext(insns: seq<Insn>, target: u64, margin: nat, i: nat)
    requires Readable(insns, target) && i < |insns|
    requires Remembered(insns, target, margin, i, LastDest(insns, target, margin, i))
    ensures Remembered(insns, target, margin, i + 1, LastDest(insns, target, margin, i + 1))
  {
    var b := LastDest(insns, target, margin, i);
    if Stays(insns, target, margin, i) {
      assert Latest(insns, target, margin, i, i + 1);
    } else if b.Some? {
      var k :| 0 <= k < i && Latest(insns, target, margin, k, i)
        && b.value == DestOf(insns[k], Ip(insns, target, k));
      LatestStill(insns, target, margin, k, i);
    }
  }

  lemma {:induction false} LastIs(insns: seq<Insn>, target: u64, margin: nat, i: nat)
    requires Readable(insns, target) && i <= |insns|
    ensures Remembered(insns, target, margin, i, LastDest(insns, target, margin, i))
  {
    if i > 0 {
      LastIs(insns, target, margin, i - 1);
      LastNext(insns, target, margin, i - 1);
    }
  }

  lemma {:induction false} BranchIs(insns: seq<Insn>, target: u64, margin: nat, i: nat)
    requires Readable(insns, target) && i <= |insns| && Supported(insns, target, margin, i)
    ensures BranchAt(insns, target, margin, i) == LastDest(insns, target, margin, i)
  {
    if i > 0 {
      BranchIs(insns, target, margin, i - 1);
      BranchNext(insns, target, margin, i - 1);
    }
  }

  lemma BranchNext(insns: seq<Insn>, target: u64, margin: nat, i: nat)
    requires Readable(insns, target) && i < |insns| && Known(insns, target, margin, i)
    ensures BranchAt(insns, target, margin, i + 1) ==
      if Stays(insns, target, margin, i) then Some(DestOf(insns[i], Ip(insns, target, i)))
      else BranchAt(insns, target, margin, i)
  {
    ProcessMeans(insns[i], Ip(insns, target, i), target, margin, Len(insns, i + 1), BranchAt(insns, target, margin, i));
  }

  lemma LatestStill(insns: seq<Insn>, target: u64, margin: nat, k: nat, i: nat)
    requires Readable(insns, target) && i < |insns|
    requires Latest(insns, target, margin, k, i) && !Stays(insns, target, margin, i)
    ensures Latest(insns, target, margin, k, i + 1)
  {
  }

  lemma AheadIs(insns: seq<Insn>, target: u64, margin: nat, i: nat)
    requires Readable(insns, target) && i < |insns| && Supported(insns, target, margin, i)
    ensures InBranch(BranchAt(insns, target, margin, i), Ip(insns, target, i)) <==> Ahead(insns, target, margin, i)
  {
    BranchIs(insns, target, margin, i);
    LastIs(insns, target, margin, i);
    if Ahead(insns, target, margin, i) && BranchAt(insns, target, margin, i).Some? {
      var d := BranchAt(insns, target, margin, i).value;
      var k :| 0 <= k < i && Latest(insns, target, margin, k, i)
        && Ip(insns, target, i) < DestOf(insns[k], Ip(insns, target, k));
      var n :| 0 <= n < i && Latest(insns, target, margin, n, i) && d == DestOf(insns[n], Ip(insns, target, n));
      assert k == n;
    }
  }

  // One instruction: what Process says, told without it.
  lemma SiteIs(insns: seq<Insn>, target: u64, margin: nat, i: nat)
    requires Readable(insns, target) && i < |insns| && Supported(insns, target, margin, i)
    ensures
      match ProcessAt(insns, target, margin, i, BranchAt(insns, target, margin, i))
      case None => Unsupported(insns[i], Ip(insns, target, i), target, margin)
      case Some(p) =>
        && Supported(insns, target, margin, i + 1)
        && (p.finished <==> Stops(insns, target, margin, i))
        && (InBranch(p.branch, Ip(insns, target, i)) && p.block.Size() != |insns[i].bytes| <==>
              Refused(insns, target, margin, i))
  {
    AheadIs(insns, target, margin, i);
    ProcessMeans(insns[i], Ip(insns, target, i), target, margin, Len(insns, i + 1), BranchAt(insns, target, margin, i));
  }

  // ---- the build ------------------------------------------------------------

  // Instruction n is the last, and the continuation jump follows it if `jump`.
  ghost predicate Finishes(insns: seq<Insn>, target: u64, margin: nat, n: nat, jump: bool)
    requires Readable(insns, target)
  {
    && Comes(insns, target, margin, n) && (jump <==> !Stops(insns, target, margin, n))
    && (jump ==> Len(insns, n + 1) >= margin)
  }

  // A build that came to instruction n has this outcome.
  ghost predicate Ends(insns: seq<Insn>, target: u64, margin: nat, n: nat, r: Option<Built>)
    requires Readable(insns, target)
  {
    match r
    case None => exists m :: n <= m && Comes(insns, target, margin, m) && Refused(insns, target, margin, m)
    case Some(b) =>
      var size := |b.blocks|;
      && n <= size <= |insns| && (forall k | n <= k < size :: !Refused(insns, target, margin, k))
      && if b.finished then size > n && Finishes(insns, target, margin, size - 1, b.jump)
         else
           && size == |insns| && !b.jump && (size > 0 ==> Len(insns, size) < margin)
           && forall k | 0 <= k < size :: !Stops(insns, target, margin, k)
  }

  // One pass of the loop.
  lemma BuildNext(insns: seq<Insn>, target: u64, margin: nat, done: seq<Block>)
    requires Readable(insns, target) && |done| < |insns| && Supported(insns, target, margin, |done|)
    ensures
      var n := |done|;
      var r := BuildFrom(insns, target, margin, BranchAt(insns, target, margin, n), done);
      var p := ProcessAt(insns, target, margin, n, BranchAt(insns, target, margin, n));
      if Refused(insns, target, margin, n) then r == None
      else
        && p.Some? && Supported(insns, target, margin, n + 1)
        && r == if Stops(insns, target, margin, n) then Some(Built(done + [p.value.block], false, true))
                else if Len(insns, n + 1) >= margin then Some(Built(done + [p.value.block], true, true))
                else BuildFrom(insns, target, margin, BranchAt(insns, target, margin, n + 1), done + [p.value.block])
  {
    SiteIs(insns, target, margin, |done|);
  }

  lemma {:induction false} BuildEnds(insns: seq<Insn>, target: u64, margin: nat, done: seq<Block>)
    requires Readable(insns, target) && |done| <= |insns| && Supported(insns, target, margin, |done|)
    requires |done| > 0 ==> Len(insns, |done|) < margin
    requires forall k | 0 <= k < |done| :: !Stops(insns, target, margin, k)
    ensures Ends(insns, target, margin, |done|,
                 BuildFrom(insns, target, margin, BranchAt(insns, target, margin, |done|), done))
    decreases |insns| - |done|
  {
    var n := |done|;
    if n < |insns| {
      BuildNext(insns, target, margin, done);
      assert Comes(insns, target, margin, n);
      if !Refused(insns, target, margin, n) {
        var p := ProcessAt(insns, target, margin, n, BranchAt(insns, target, margin, n)).value;
        var next := done + [p.block];
        if Stops(insns, target, margin, n) || Len(insns, n + 1) >= margin {
          EndsHere(insns, target, margin, Built(next, !Stops(insns, target, margin, n), true));
        } else {
          BuildEnds(insns, target, margin, next);
          EndsLater(insns, target, margin, n,
                    BuildFrom(insns, target, margin, BranchAt(insns, target, margin, n + 1), next));
        }
      }
    }
  }

  lemma EndsHere(insns: seq<Insn>, target: u64, margin: nat, b: Built)
    requires Readable(insns, target) && 0 < |b.blocks| <= |insns| && b.finished
    requires
      var n := |b.blocks| - 1;
      !Refused(insns, target, margin, n) && Finishes(insns, target, margin, n, b.jump)
    ensures Ends(insns, target, margin, |b.blocks| - 1, Some(b))
  {
    var n := |b.blocks| - 1;
    forall k | n <= k < n + 1 ensures !Refused(insns, target, margin, k) {
      assert k == n;
    }
  }

  lemma EndsLater(insns: seq<Insn>, target: u64, margin: nat, n: nat, r: Option<Built>)
    requires Readable(insns, target) && n < |insns| && !Refused(insns, target, margin, n)
    requires Ends(insns, target, margin, n + 1, r)
    ensures Ends(insns, target, margin, n, r)
  {
  }

  // The builder gives up exactly when it comes to an instruction that is refused:
  // a loop out of the prolog, a conditional jump out of it without an opcode, or
  // one that is resized before a remembered destination.
  lemma BuildRefusedIff(insns: seq<Insn>, target: u64, margin: nat)
    requires Readable(insns, target)
    ensures BuildFrom(insns, target, margin, None, []).None? <==>
            exists n :: 0 <= n && Comes(insns, target, margin, n) && Refused(insns, target, margin, n)
  {
    BuildEnds(insns, target, margin, []);
    var r := BuildFrom(insns, target, margin, None, []);
    if r.Some? && exists n :: 0 <= n && Comes(insns, target, margin, n) && Refused(insns, target, margin, n) {
      var n :| 0 <= n && Comes(insns, target, margin, n) && Refused(insns, target, margin, n);
      ComesInside(insns, target, margin, r.value, n);
    }
  }

  // An accepted build has disassembled every instruction that comes.
  lemma ComesInside(insns: seq<Insn>, target: u64, margin: nat, b: Built, n: nat)
    requires Readable(insns, target) && Ends(insns, target, margin, 0, Some(b)) && Comes(insns, target, margin, n)
    ensures n < |b.blocks|
  {
    if b.finished && |b.blocks| <= n {
      LenMonotone(insns, |b.blocks|, n);
    }
  }

  // An accepted build disassembles exactly the instructions that come, each of
  // the length its block announces, and is finished exactly when one of them stops
  // it or covers the margin; the jump goes on behind an instruction that did not
  // stop it.
  lemma BuildStopsWhere(insns: seq<Insn>, target: u64, margin: nat, b: Built)
    requires Readable(insns, target) && BuildFrom(insns, target, margin, None, []) == Some(b)
    ensures |b.blocks| <= |insns|
    ensures forall n: nat :: n < |b.blocks| <==> Comes(insns, target, margin, n)
    ensures b.finished <==>
            exists n :: 0 <= n && Comes(insns, target, margin, n)
              && (Stops(insns, target, margin, n) || Len(insns, n + 1) >= margin)
    ensures b.jump <==> b.finished && !Stops(insns, target, margin, |b.blocks| - 1)
  {
    BuildEnds(insns, target, margin, []);
    var size := |b.blocks|;
    forall n: nat ensures n < size <==> Comes(insns, target, margin, n) {
      if Comes(insns, target, margin, n) {
        ComesInside(insns, target, margin, b, n);
      } else if n < size {
        LenMonotone(insns, n, if b.finished then size - 1 else size);
      }
    }
    if b.finished {
      assert Comes(insns, target, margin, size - 1);
    } else {
      forall n: nat | Comes(insns, target, margin, n)
        ensures !Stops(insns, target, margin, n) && Len(insns, n + 1) < margin
      {
        LenMonotone(insns, n + 1, size);
      }
    }
  }

  // Nothing behind a return, or a jump out of the prolog, with no remembered
  // destination ahead is disassembled.
  lemma NothingBehind(insns: seq<Insn>, target: u64, margin: nat, b: Built, k: nat)
    requires Readable(insns, target) && BuildFrom(insns, target, margin, None, []) == Some(b)
    requires k < |insns| && Leaves(insns[k], Ip(insns, target, k), target, margin) && !Ahead(insns, target, margin, k)
    ensures |b.blocks| <= k + 1 && Len(insns, |b.blocks|) <= Len(insns, k + 1)
    ensures |b.blocks| == k + 1 ==> b.finished && !b.jump
  {
    assert Stops(insns, target, margin, k);
    StopsThere(insns, target, margin, b, k);
  }

  lemma StopsThere(insns: seq<Insn>, target: u64, margin: nat, b: Built, k: nat)
    requires Readable(insns, target) && BuildFrom(insns, target, margin, None, []) == Some(b)
    requires k < |insns| && Stops(insns, target, margin, k)
    ensures |b.blocks| <= k + 1 && Len(insns, |b.blocks|) <= Len(insns, k + 1)
    ensures |b.blocks| == k + 1 ==> b.finished && !b.jump
  {
    BuildStopsWhere(insns, target, margin, b);
    assert !Comes(insns, target, margin, k + 1);
    assert |b.blocks| == k + 1 ==> Comes(insns, target, margin, k);
    LenMonotone(insns, |b.blocks|, k + 1);
  }
}
