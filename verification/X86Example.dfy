// A small processor and a prolog that meet the hypotheses of the x86-64
// theorems.
module X86Example {
  import opened Machine
  import opened Patching
  import opened X86Isa
  import opened X86Trampoline
  import opened X86Layout
  import opened X86Simulation
  import opened X86Theorem

  // jmp rel8, jcc rel8, jmp rel32, jmp and call through memory, nop.
  function LengthOf(b0: byte, b1: byte): nat {
    if b0 == 0xEB || 0x70 <= b0 < 0x80 then 2
    else if b0 == 0xE9 then 5
    else if b0 == 0xFF && (b1 == 0x25 || b1 == 0x15) then 6
    else if b0 == 0x90 then 1
    else 0
  }

  function Second(bs: seq<byte>): byte {
    if |bs| > 1 then bs[1] else 0
  }

  predicate IsInsn(bs: seq<byte>) {
    |bs| > 0 && |bs| == LengthOf(bs[0], Second(bs))
  }

  function FetchInsn(m: Memory, a: int): Option<seq<byte>> {
    if a !in m then None
    else
      var n := LengthOf(m[a], if a + 1 in m then m[a + 1] else 0);
      if n > 0 && Mapped(m, a, n) && a + n <= TWO64 then Some(ReadOut(m, a, n)) else None
  }

  function WordAt(bs: seq<byte>, k: nat): word
    requires k + 4 <= |bs|
  {
    Join32(bs[k], bs[k + 1], bs[k + 2], bs[k + 3])
  }

  function KindOf(bs: seq<byte>): Kind {
    if !IsInsn(bs) then Plain
    else if bs[0] == 0xEB then Jmp(S8(bs[1]))
    else if 0x70 <= bs[0] < 0x80 then Jcc(bs[0] - 0x70, S8(bs[1]))
    else if bs[0] == 0xE9 then Jmp(S32(WordAt(bs, 1)))
    else if bs[0] == 0xFF then Rip(S32(WordAt(bs, 2)), bs[1] == 0x25)
    else Plain
  }

  function Processor(): Cpu {
    Cpu((m: Memory, a: int) => FetchInsn(m, a), (bs: seq<byte>) => IsInsn(bs), (bs: seq<byte>) => KindOf(bs),
        (bs: seq<byte>, r: Regs, f: Flags, m: Memory) => Falls(r, f, m),
        (bs: seq<byte>, ea: u64, r: Regs, f: Flags, m: Memory) => Falls(r, f, m),
        (bs: seq<byte>, r: Regs, f: Flags) => (false, r),
        (dest: u64, r: Regs, f: Flags, m: Memory) => Falls(r, f, m))
  }

  lemma FetchesInsn(m: Memory, a: int, bs: seq<byte>)
    requires IsInsn(bs) && Holds(m, a, bs)
    ensures FetchInsn(m, a) == Some(bs)
  {
    var n := |bs|;
    assert ByteIs(m, a + 0, bs[0]);
    assert n > 1 ==> ByteIs(m, a + 1, bs[1]);
    assert ByteIs(m, a + (n - 1), bs[n - 1]);
    forall x: u64 | a <= x < a + n ensures x in m {
      assert ByteIs(m, a + (x - a), bs[x - a]);
    }
    assert m[a] == bs[0] && (n > 1 ==> m[a + 1] == bs[1]);
    assert n == LengthOf(m[a], if a + 1 in m then m[a + 1] else 0);
    forall k | 0 <= k < n ensures ReadOut(m, a, n)[k] == bs[k] {
      assert ByteIs(m, a + k, bs[k]);
    }
    assert ReadOut(m, a, n) == bs;
  }

  lemma WordBack(prefix: seq<byte>, w: word)
    ensures WordAt(prefix + LE32(w), |prefix|) == w
  {
    var n, bs := |prefix|, prefix + LE32(w);
    assert bs[n] == ByteOf(w, 0) && bs[n + 1] == ByteOf(w, 1) && bs[n + 2] == ByteOf(w, 2) && bs[n + 3] == ByteOf(w, 3);
    FourBytes(w);
  }

  lemma IsX64()
    ensures X64(Processor())
  {
    var cpu := Processor();
    forall m: Memory, a: int, bs: seq<byte> | cpu.valid(bs) && Holds(m, a, bs) ensures cpu.fetch(m, a) == Some(bs) {
      FetchesInsn(m, a, bs);
    }
    forall w: word ensures cpu.valid(JmpNear(w)) && cpu.kind(JmpNear(w)) == Jmp(S32(w)) {
      WordBack([0xE9], w);
    }
    forall w: word ensures cpu.valid(JmpMem(w)) && cpu.kind(JmpMem(w)) == Rip(S32(w), true) {
      WordBack(JMP_MEM, w);
    }
    forall w: word ensures cpu.valid(CallMem(w)) && cpu.kind(CallMem(w)) == Rip(S32(w), false) {
      WordBack(CALL_MEM, w);
    }
  }

  // jz +1; nop; jmp +127
  function Prolog(): seq<Insn> {
    [Insn([0x74, 1], Jcc(4, 1)), Insn([0x90], Plain), Insn([0xEB, 0x7F], Jmp(0x7F))]
  }

  lemma PrologLengths(target: u64)
    requires target + 5 < TWO64
    ensures
      var insns := Prolog();
      Len(insns, 1) == 2 && Len(insns, 2) == 3 && Len(insns, 3) == 5 && Readable(insns, target) && Sized(insns)
  {
    var insns := Prolog();
    assert Len(insns, 0) == 0;
    assert Len(insns, 1) == 2;
    assert Len(insns, 2) == 3;
    assert Len(insns, 3) == 5;
  }

  // An internal jump and an instruction that grows, at every address.
  lemma RelocatableExample(target: u64, base: u64) returns (p: Program)
    requires target + 0x100 < TWO64 && base + 0x100 < TWO64
    ensures X64(Processor()) && Relocatable(Processor(), p) && OnlyForward(p)
    ensures p.target == target && p.base == base && p.insns == Prolog()
    ensures BuildFrom(p.insns, target, PROLOG_MARGIN, None, []) == Some(p.built)
    ensures |p.built.blocks| == 3 && p.built.blocks[2].Size() == 14
  {
    var insns := Prolog();
    IsX64();
    PrologLengths(target);
    var b0, b1, b2 := Copy([0x74, 1]), Copy([0x90]), Jump(target + 5 + 0x7F);
    p := Program(target, insns, Built([b0, b1, b2], false, true), base);
    ExampleBuilds(target, p.built);
    BuildIsAccepted(insns, target, PROLOG_MARGIN);
    assert Off(p.built.blocks, 0) == 0 && Off(p.built.blocks, 1) == 2;
    assert Off(p.built.blocks, 2) == 3 && Off(p.built.blocks, 3) == 17;
    assert p.Valid();
    ExampleSites(p);
  }

  lemma ExampleBuilds(target: u64, b: Built)
    requires target + 0x100 < TWO64
    requires b == Built([Copy([0x74, 1]), Copy([0x90]), Jump(target + 5 + 0x7F)], false, true)
    ensures Readable(Prolog(), target) && BuildFrom(Prolog(), target, PROLOG_MARGIN, None, []) == Some(b)
  {
    var insns := Prolog();
    var b0, b1, b2 := b.blocks[0], b.blocks[1], b.blocks[2];
    PrologLengths(target);
    WrapSmall(target + 3);
    WrapSmall(target + 5 + 0x7F);
    assert Process(insns[0], target, target, 5, 2, None) == Some(Processed(b0, false, Some(target + 3)));
    assert Process(insns[1], target + 2, target, 5, 3, Some(target + 3)) ==
           Some(Processed(b1, false, Some(target + 3)));
    assert Process(insns[2], target + 3, target, 5, 5, Some(target + 3)) == Some(Processed(b2, true, Some(target + 3)));
    assert [] + [b0] == [b0] && [b0] + [b1] == [b0, b1] && [b0, b1] + [b2] == b.blocks;
    assert BuildFrom(insns, target, 5, Some(target + 3), [b0, b1]) == Some(b);
    assert BuildFrom(insns, target, 5, Some(target + 3), [b0]) == Some(b);
  }

  lemma ExampleSites(p: Program)
    requires p.Valid() && p.insns == Prolog() && p.N() == 3 && p.target + 0x100 < TWO64
    ensures Relocatable(Processor(), p) && OnlyForward(p)
  {
    var cpu := Processor();
    PrologLengths(p.target);
    WrapSmall(p.target + 3);
    WrapSmall(p.target + 5 + 0x7F);
    assert Lands(p, 0, 2, p.target + 3);
    assert SiteOk(cpu, p, 0);
    assert SiteOk(cpu, p, 1);
    assert SiteOk(cpu, p, 2);
  }
}
