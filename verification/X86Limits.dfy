// Where x86-64 relocation stops being faithful, with the exact condition.
module X86Limits {
  import opened Machine
  import opened X86Isa
  import opened X86Trampoline
  import opened X86Layout
  import opened X86Simulation
  import Emitter
  import T = X86Thunk

  // An instruction whose operand lies in the bytes disassembled so far is
  // copied as it is; its operand is the original one exactly when the copy
  // stands where the original stood.
  lemma CopiedOperandKeptIff(insns: seq<Insn>, target: u64, margin: nat, b: Built, i: nat, at: u64)
    requires Readable(insns, target) && Accepted(insns, target, margin, b) && i < |b.blocks|
    requires insns[i].kind.Rip? && OperandInProlog(insns[i].kind.disp, Len(insns, i + 1))
    ensures b.blocks[i] == Copy(insns[i].bytes)
    ensures
      var n, disp := |insns[i].bytes|, insns[i].kind.disp;
      Wrap(at + n + disp) == Wrap(Ip(insns, target, i) + n + disp) <==> at == Ip(insns, target, i)
  {
    var p := SiteMeans(insns, target, margin, b, i);
    WrapInjective(at, Ip(insns, target, i), |insns[i].bytes| + insns[i].kind.disp);
  }

  // The displacement is taken to be the last four bytes of the instruction.  When
  // an immediate of up to four bytes follows it, the relocated bytes are the
  // right ones exactly when the displacement keeps its low bytes, repeats with
  // the immediate's length and ends with the immediate.
  lemma TrailingImmediateKeptIff(pre: seq<byte>, imm: seq<byte>, disp: int, ip: u64, at: u64)
    requires 0 < |imm| <= 4 && InRange(Adjusted(ip, at, disp))
    ensures
      var was, now := LE32(disp % 0x1_0000_0000), LE32(Adjusted(ip, at, disp) % 0x1_0000_0000);
      Relocate(pre + was + imm, ip, disp).Generate(at) == Some(pre + now + imm) <==>
        && (forall j | 0 <= j < |imm| :: now[j] == was[j])
        && (forall j | |imm| <= j < 4 :: now[j] == now[j - |imm|])
        && (forall j | 0 <= j < |imm| :: imm[j] == now[4 - |imm| + j])
  {
    var adjusted := Adjusted(ip, at, disp);
    var was, now := LE32(disp % 0x1_0000_0000), LE32(adjusted % 0x1_0000_0000);
    var bytes := pre + was + imm;
    assert bytes[..|bytes| - 4] == pre + (was + imm)[..|imm|];
    assert WithDisp(bytes, adjusted) == pre + ((was + imm)[..|imm|] + now);
    assert pre + now + imm == pre + (now + imm);
    SameTail(pre, (was + imm)[..|imm|] + now, now + imm);
    Shifted(was, now, imm);
  }

  // cmp byte [rip], 1 moved up by sixteen bytes becomes a comparison of another
  // byte with 0xFF.
  lemma TrailingImmediateBroken(ip: u64)
    requires ip + 0x10 < TWO64
    ensures Relocate([0x80, 0x3D, 0, 0, 0, 0, 1], ip, 0).Generate(ip + 0x10) ==
      Some([0x80, 0x3D, 0, 0xF0, 0xFF, 0xFF, 0xFF])
  {
    var bytes: seq<byte> := [0x80, 0x3D, 0, 0, 0, 0, 1];
    assert Wrap(-0x10) == TWO64 - 0x10;
    assert Adjusted(ip, ip + 0x10, 0) == -0x10;
    assert -0x10 % 0x1_0000_0000 == 0xFFFF_FFF0;
    MinusSixteen();
    assert bytes[..3] == [0x80, 0x3D, 0];
    assert WithDisp(bytes, -0x10) == [0x80, 0x3D, 0] + LE32(0xFFFF_FFF0);
    assert InRange(-0x10) && Relocate(bytes, ip, 0).Generate(ip + 0x10) == Some(WithDisp(bytes, -0x10));
    var moved: seq<byte> := [0x80, 0x3D, 0, 0xF0, 0xFF, 0xFF, 0xFF];
    assert WithDisp(bytes, -0x10) == moved;
  }

  lemma MinusSixteen()
    ensures LE32(0xFFFF_FFF0) == [0xF0, 0xFF, 0xFF, 0xFF]
  {
    var c := LE32(0xFFFF_FFF0);
    assert c[0] == ByteOf(0xFFFF_FFF0, 0) == 0xF0;
    assert ByteOf(0xFFFF_FFF0, 1) == ByteOf(0xFF_FFFF, 0);
    assert ByteOf(0xFFFF_FFF0, 2) == ByteOf(0xFF_FFFF, 1) == ByteOf(0xFFFF, 0);
    assert ByteOf(0xFFFF_FFF0, 3) == ByteOf(0xFF_FFFF, 2) == ByteOf(0xFFFF, 1) == ByteOf(0xFF, 0);
    assert c[1] == 0xFF && c[2] == 0xFF && c[3] == 0xFF;
  }

  lemma SameTail(pre: seq<byte>, a: seq<byte>, b: seq<byte>)
    ensures pre + a == pre + b <==> a == b
  {
    if pre + a == pre + b {
      assert a == (pre + a)[|pre|..] && b == (pre + b)[|pre|..];
    }
  }

  // Byte k with the displacement shifted up by the immediate's length, and
  // without.
  function Moved(was: seq<byte>, now: seq<byte>, n: nat, k: nat): byte
    requires |was| == |now| == 4 && n <= 4 && k < 4 + n
  {
    if k < n then was[k] else now[k - n]
  }

  function Kept(now: seq<byte>, imm: seq<byte>, k: nat): byte
    requires |now| == 4 && k < 4 + |imm|
  {
    if k < 4 then now[k] else imm[k - 4]
  }

  ghost predicate SameAtByte(was: seq<byte>, now: seq<byte>, imm: seq<byte>, k: nat)
    requires |was| == |now| == 4 && |imm| <= 4 && k < 4 + |imm|
  {
    Moved(was, now, |imm|, k) == Kept(now, imm, k)
  }

  lemma Shifted(was: seq<byte>, now: seq<byte>, imm: seq<byte>)
    requires |was| == |now| == 4 && 0 < |imm| <= 4
    ensures (was + imm)[..|imm|] + now == now + imm <==>
      && (forall j | 0 <= j < |imm| :: now[j] == was[j])
      && (forall j | |imm| <= j < 4 :: now[j] == now[j - |imm|])
      && (forall j | 0 <= j < |imm| :: imm[j] == now[4 - |imm| + j])
  {
    ByBytes(was, now, imm);
    var n := |imm|;
    if forall k | 0 <= k < 4 + n :: SameAtByte(was, now, imm, k) {
      forall j | 0 <= j < n ensures now[j] == was[j] {
        assert SameAtByte(was, now, imm, j);
      }
      forall j | n <= j < 4 ensures now[j] == now[j - n] {
        assert SameAtByte(was, now, imm, j);
      }
      forall j | 0 <= j < n ensures imm[j] == now[4 - n + j] {
        assert SameAtByte(was, now, imm, 4 + j);
      }
    } else {
      var k :| 0 <= k < 4 + n && !SameAtByte(was, now, imm, k);
      if k >= 4 {
        assert imm[k - 4] != now[4 - n + (k - 4)];
      }
    }
  }

  lemma ByBytes(was: seq<byte>, now: seq<byte>, imm: seq<byte>)
    requires |was| == |now| == 4 && 0 < |imm| <= 4
    ensures (was + imm)[..|imm|] + now == now + imm <==> forall k | 0 <= k < 4 + |imm| :: SameAtByte(was, now, imm, k)
  {
    var a, b := (was + imm)[..|imm|] + now, now + imm;
    assert forall k | 0 <= k < 4 + |imm| :: a[k] == Moved(was, now, |imm|, k) && b[k] == Kept(now, imm, k);
    if a == b {
      forall k | 0 <= k < 4 + |imm| ensures SameAtByte(was, now, imm, k) {
        assert a[k] == b[k];
      }
    }
    if forall k | 0 <= k < 4 + |imm| :: SameAtByte(was, now, imm, k) {
      forall k | 0 <= k < 4 + |imm| ensures a[k] == b[k] {
        assert SameAtByte(was, now, imm, k);
      }
      assert |a| == |b|;
    }
  }

  // The builder takes the condition from the first byte other than 0F.  Behind
  // a prefix that is the prefix: the jump keeps its meaning in every state
  // exactly when the low half of the prefix happens to be the condition.
  lemma PrefixedConditionKeptIff(prefix: byte, rest: seq<byte>, cc: int)
    requires prefix != 0x0F && 0 <= cc < 16
    ensures Condition([prefix] + rest) == Some(prefix % 0x10)
    ensures (forall f: Flags :: Cond(prefix % 0x10, f) == Cond(cc, f)) <==> prefix % 0x10 == cc
  {
    if prefix % 0x10 != cc {
      Distinct(prefix % 0x10, cc);
    }
  }

  // Any two condition codes differ in some state.
  lemma Distinct(a: int, b: int)
    requires 0 <= a < 16 && 0 <= b < 16 && a != b
    ensures exists f: Flags :: Cond(a, f) != Cond(b, f)
  {
    // In the state without flags the even codes below 16 fail and the odd hold.
    var none := Flags(false, false, false, false, false);
    if a % 2 != b % 2 {
      assert Cond(a, none) != Cond(b, none);
    } else {
      assert Tell(a - a % 2, 0) != Tell(b - b % 2, 0) || Tell(a - a % 2, 1) != Tell(b - b % 2, 1)
        || Tell(a - a % 2, 2) != Tell(b - b % 2, 2) || Tell(a - a % 2, 3) != Tell(b - b % 2, 3)
        || Tell(a - a % 2, 4) != Tell(b - b % 2, 4);
      Telling(a, b, 0);
      Telling(a, b, 1);
      Telling(a, b, 2);
      Telling(a, b, 3);
      Telling(a, b, 4);
    }
  }

  // The state with one flag set.
  function Single(k: int): Flags {
    Flags(k == 0, k == 1, k == 2, k == 3, k == 4)
  }

  predicate Tell(cc: int, k: int) {
    Cond(cc, Single(k))
  }

  lemma Telling(a: int, b: int, k: int)
    requires 0 <= a < 16 && 0 <= b < 16 && a % 2 == b % 2
    ensures Tell(a - a % 2, k) != Tell(b - b % 2, k) ==> Cond(a, Single(k)) != Cond(b, Single(k))
  {
    Paired(a, Single(k));
    Paired(b, Single(k));
  }

  lemma Paired(cc: int, f: Flags)
    requires 0 <= cc < 16
    ensures Cond(cc, f) == (Cond(cc - cc % 2, f) != (cc % 2 == 1))
  {
    if cc % 2 == 1 {
      T.InvertedCond(cc - 1, f);
    }
  }

  // ---- internal jumps -------------------------------------------------------

  // A copied transfer from instruction i to instruction j, in either direction,
  // lands on block j exactly when the two are as far apart as before; if none of
  // the blocks it crosses shrank, exactly when none of them changed size.  The
  // builder guards this for j > i only.
  lemma TransferLandsIff(p: Program, i: nat, j: nat)
    requires p.Valid() && i < p.N() && j < p.N() && p.Top() - p.base < 0x4000_0000_0000_0000
    ensures Wrap(p.At(i) + (p.Start(j) - p.Start(i))) == p.At(j) <==> Near(p, i, j)
    ensures
      var lo, hi := if i < j then i else j, if i < j then j else i;
      (forall k | lo <= k < hi :: p.built.blocks[k].Size() >= |p.insns[k].bytes|) ==>
        (Near(p, i, j) <==> forall k | lo <= k < hi :: SameSize(p.insns, p.built.blocks, k))
  {
    var lo, hi := if i < j then i else j, if i < j then j else i;
    BlockInside(p, i);
    BlockInside(p, j);
    StartsEarly(p, i);
    StartsEarly(p, j);
    LandsIff(p.At(i), p.At(j), p.Start(j) - p.Start(i));
    if forall k | lo <= k < hi :: p.built.blocks[k].Size() >= |p.insns[k].bytes| {
      GrownIff(p.insns, p.built.blocks, lo, hi);
    }
  }

  // Every instruction of the prolog starts within the margin.
  lemma StartsEarly(p: Program, i: nat)
    requires p.Valid() && i < p.N()
    ensures 0 <= p.Start(i) - p.target < PROLOG_MARGIN
  {
    LenMonotone(p.insns, i, p.N() - 1);
  }

  lemma LandsIff(x: u64, y: u64, d: int)
    requires -0x1_0000_0000_0000_0000 < d < 0x1_0000_0000_0000_0000
    requires -0x8000_0000_0000_0000 < d - (y - x) < 0x8000_0000_0000_0000 || d == y - x
    ensures Wrap(x + d) == y <==> d == y - x
  {
    var q := (x + d) / TWO64;
    assert x + d == q * TWO64 + Wrap(x + d);
  }

  // Blocks that did not shrink are as far apart as their instructions exactly
  // when none grew.
  lemma {:induction false} GrownIff(insns: seq<Insn>, blocks: seq<Block>, lo: nat, hi: nat)
    requires lo <= hi <= |blocks| <= |insns|
    requires forall k | lo <= k < hi :: blocks[k].Size() >= |insns[k].bytes|
    ensures Off(blocks, hi) - Off(blocks, lo) >= Len(insns, hi) - Len(insns, lo)
    ensures Off(blocks, hi) - Off(blocks, lo) == Len(insns, hi) - Len(insns, lo) <==>
            forall k | lo <= k < hi :: SameSize(insns, blocks, k)
    decreases hi - lo
  {
    if lo < hi {
      GrownIff(insns, blocks, lo, hi - 1);
      if forall k | lo <= k < hi :: SameSize(insns, blocks, k) {
        assert SameSize(insns, blocks, hi - 1);
      }
    }
  }

  // jz +64; jmp -4; nop
  function Backward(): seq<Insn> {
    [Insn([0x74, 0x40], Jcc(4, 0x40)), Insn([0xEB, 0xFC], Jmp(-4)), Insn([0x90], Plain)]
  }

  // Accepted with the margin of five, although the jump back lands two bytes
  // before the end of the first block, which grew to sixteen.
  lemma BackwardJumpBroken(target: u64)
    requires target + 0x100 < TWO64
    ensures
      var insns := Backward();
      && Readable(insns, target) && Sized(insns) && Internal(insns, target, PROLOG_MARGIN, 1, target)
      && var blocks := [JumpIf(target + 0x42, 4), Copy([0xEB, 0xFC]), Copy([0x90])];
         && BuildFrom(insns, target, PROLOG_MARGIN, None, []) == Some(Built(blocks, true, true))
         && Off(blocks, 0) == 0 && Off(blocks, 1) + 2 - 4 == 14 && Off(blocks, 2) == 18
  {
    var insns := Backward();
    assert Len(insns, 0) == 0;
    assert Len(insns, 1) == 2;
    assert Len(insns, 2) == 4;
    assert Len(insns, 3) == 5;
    WrapSmall(target);
    WrapSmall(target + 0x42);
    var b0, b1, b2 := JumpIf(target + 0x42, 4), Copy([0xEB, 0xFC]), Copy([0x90]);
    assert Process(insns[0], target, target, 5, 2, None) == Some(Processed(b0, false, None));
    assert Process(insns[1], target + 2, target, 5, 4, None) == Some(Processed(b1, false, Some(target)));
    assert Process(insns[2], target + 4, target, 5, 5, Some(target)) == Some(Processed(b2, false, Some(target)));
    var b := Built([b0, b1, b2], true, true);
    assert [] + [b0] == [b0] && [b0] + [b1] == [b0, b1] && [b0, b1] + [b2] == b.blocks;
    assert BuildFrom(insns, target, 5, Some(target), [b0, b1]) == Some(b);
    assert BuildFrom(insns, target, 5, None, [b0]) == Some(b);
    assert Off(b.blocks, 0) == 0;
    assert Off(b.blocks, 1) == 16;
  }

  // ---- builds that are not finished -----------------------------------------

  // When the decoder gives up before the builder is finished, all instructions
  // are there and nothing follows them: an instruction that falls through runs
  // off the end of the code.
  lemma {:induction false} UnfinishedRunsOff(cpu: Cpu, insns: seq<Insn>, target: u64, margin: nat, b: Built,
                                             base: u64, t: State)
    requires X64(cpu) && Readable(insns, target) && Accepted(insns, target, margin, b) && !b.finished && |insns| > 0
    requires
      var last := insns[|insns| - 1];
      last.kind.Plain? && last.kind == cpu.kind(last.bytes) && cpu.valid(last.bytes) && Holds(t.mem, t.pc, last.bytes)
    requires |b.blocks| == |insns| ==> t.pc == base + Off(b.blocks, |insns| - 1)
    requires Step(cpu, t).Next? && !Step(cpu, t).computed
    ensures |b.blocks| == |insns| && AllBlocks(b, Ip(insns, target, |b.blocks|)) == b.blocks
    ensures Step(cpu, t).state.pc == Wrap(base + Emitter.Offset(Thunks(b.blocks), |b.blocks|))
  {
    var n := |insns|;
    var p := SiteMeans(insns, target, margin, b, n - 1);
    OffIsOffset(b.blocks, n);
    assert cpu.fetch(t.mem, t.pc) == Some(insns[n - 1].bytes);
  }

  // A nop and then bytes that are no instruction.
  lemma UnfinishedExample(target: u64)
    requires target + 1 < TWO64
    ensures
      var insns := [Insn([0x90], Plain)];
      && Readable(insns, target) && Sized(insns)
      && BuildFrom(insns, target, PROLOG_MARGIN, None, []) == Some(Built([Copy([0x90])], false, false))
  {
    var insns := [Insn([0x90], Plain)];
    assert Len(insns, 0) == 0;
    assert Len(insns, 1) == 1;
    assert [] + [Copy([0x90])] == [Copy([0x90])];
    assert BuildFrom(insns, target, PROLOG_MARGIN, None, [Copy([0x90])]) == Some(Built([Copy([0x90])], false, false));
  }

  // ---- destinations that are no instruction ---------------------------------

  // jz +1; add eax, 1
  function Amid(): seq<Insn> {
    [Insn([0x74, 1], Jcc(4, 1)), Insn([0x83, 0xC0, 1], Plain)]
  }

  // A jump into the middle of the second instruction is accepted and copied.
  lemma OffBoundaryBuilds(target: u64)
    requires target + 0x100 < TWO64
    ensures
      var insns, blocks := Amid(), [Copy([0x74, 1]), Copy([0x83, 0xC0, 1])];
      && Readable(insns, target) && Internal(insns, target, PROLOG_MARGIN, 0, target + 3)
      && BuildFrom(insns, target, PROLOG_MARGIN, None, []) == Some(Built(blocks, true, true))
  {
    var insns := Amid();
    assert Len(insns, 0) == 0;
    assert Len(insns, 1) == 2;
    assert Len(insns, 2) == 5;
    WrapSmall(target + 3);
    var b0, b1 := Copy([0x74, 1]), Copy([0x83, 0xC0, 1]);
    assert Process(insns[0], target, target, 5, 2, None) == Some(Processed(b0, false, Some(target + 3)));
    assert Process(insns[1], target + 2, target, 5, 5, Some(target + 3)) ==
           Some(Processed(b1, false, Some(target + 3)));
    assert [] + [b0] == [b0] && [b0] + [b1] == [b0, b1];
    assert BuildFrom(insns, target, 5, Some(target + 3), [b0]) == Some(Built([b0, b1], true, true));
  }

  // Where `code` is held, what follows its first bytes is the end of `bytes` and
  // then `tail` exactly when `code` ends like that and `tail` is behind it.
  lemma HeldBehind(m: Memory, a: int, code: seq<byte>, bytes: seq<byte>, off: nat, tail: seq<byte>)
    requires Holds(m, a, code) && off <= |code| == |bytes|
    ensures Holds(m, a + off, bytes[off..] + tail) <==> code[off..] == bytes[off..] && Holds(m, a + |code|, tail)
  {
    var rest := bytes[off..];
    if Holds(m, a + off, rest + tail) {
      Parts(m, a + off, rest, tail);
      forall k | 0 <= k < |rest| ensures code[off..][k] == rest[k] {
        assert ByteIs(m, a + off + k, rest[k]) && ByteIs(m, a + (off + k), code[off + k]);
      }
    }
    if code[off..] == rest && Holds(m, a + |code|, tail) {
      forall k | 0 <= k < |rest + tail| ensures ByteIs(m, a + off + k, (rest + tail)[k]) {
        if k < |rest| {
          assert code[off..][k] == rest[k];
          assert ByteIs(m, a + (off + k), code[off + k]);
        } else {
          assert ByteIs(m, a + |code| + (k - |rest|), tail[k - |rest|]);
        }
      }
    }
  }

  // A forward jump into the middle of instruction j lands as far into block j.
  lemma LandsAmid(p: Program, i: nat, j: nat, dest: u64)
    requires p.Valid() && i <= j < p.N() && Internal(p.insns, p.target, PROLOG_MARGIN, i, dest)
    requires p.Start(j) < dest < p.Start(j + 1)
    ensures p.built.blocks[j].Size() == |p.insns[j].bytes|
    ensures Wrap(p.At(i) + (dest - p.Start(i))) == p.At(j) + (dest - p.Start(j))
  {
    forall k | i <= k <= j ensures SameSize(p.insns, p.built.blocks, k) {
      LenMonotone(p.insns, k, j);
      GuardSuffices(p.insns, p.target, PROLOG_MARGIN, p.built, i, dest, k);
    }
    assert SameSize(p.insns, p.built.blocks, j);
    DisplacementKept(p.insns, p.built.blocks, i, j);
    BlockInside(p, j);
    WrapSmall(p.At(j) + (dest - p.Start(j)));
  }

  lemma CopyOrNot(p: Program, j: nat, off: nat, t: Memory, tail: seq<byte>)
    requires p.Valid() && j < p.N() && InTrampoline(p, t) && off <= |p.insns[j].bytes| == p.built.blocks[j].Size()
    ensures
      var bytes, code := p.insns[j].bytes, p.built.blocks[j].Generate(Wrap(p.At(j)));
      && code.Some? && |code.value| == |bytes| && (p.built.blocks[j].Copy? ==> code.value == bytes)
      && (Holds(t, p.At(j) + off, bytes[off..] + tail) <==>
            code.value[off..] == bytes[off..] && Holds(t, p.At(j + 1), tail))
  {
    BlockHeld(p, t, j);
    BlockInside(p, j);
    WrapSmall(p.At(j));
    HeldBehind(t, p.At(j), p.built.blocks[j].Generate(p.At(j)).value, p.insns[j].bytes, off, tail);
    var pr := SiteMeans(p.insns, p.target, PROLOG_MARGIN, p.built, j);
  }

  // Destinations that are no instruction.  A forward jump into the middle of
  // instruction j lands as far into block j.  The prolog goes on there with the
  // rest of the instruction and with the bytes `tail` behind it; the trampoline
  // finds the same bytes exactly when block j ends like the instruction, as a
  // copy does, and what follows it starts with `tail`.
  lemma OffBoundaryIff(p: Program, i: nat, j: nat, dest: u64, m: Memory, t: Memory, tail: seq<byte>)
    requires p.Valid() && i <= j < p.N() && Internal(p.insns, p.target, PROLOG_MARGIN, i, dest)
    requires p.Start(j) < dest < p.Start(j + 1)
    requires Holds(m, p.Start(j), p.insns[j].bytes) && Holds(m, p.Start(j + 1), tail) && InTrampoline(p, t)
    ensures
      var landing, off, bytes := Wrap(p.At(i) + (dest - p.Start(i))), dest - p.Start(j), p.insns[j].bytes;
      var code := p.built.blocks[j].Generate(Wrap(p.At(j)));
      && landing == p.At(j) + off && code.Some? && |code.value| == |bytes|
      && Holds(m, dest, bytes[off..] + tail)
      && (Holds(t, landing, bytes[off..] + tail) <==>
            code.value[off..] == bytes[off..] && Holds(t, p.At(j + 1), tail))
      && (p.built.blocks[j].Copy? ==> code.value == bytes)
  {
    var off, bytes := dest - p.Start(j), p.insns[j].bytes;
    LandsAmid(p, i, j, dest);
    HeldBehind(m, p.Start(j), bytes, bytes, off, tail);
    CopyOrNot(p, j, off, t, tail);
  }
}
