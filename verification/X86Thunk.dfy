// The absolute thunks of src/arch/x86/thunk/x64.rs and the relative ones of
// src/arch/x86/thunk/x86.rs.
module X86Thunk {
  import opened Machine
  import opened X86Isa

  function JmpAbs(dest: u64): (code: seq<byte>)
    ensures |code| == 14
  {
    JmpMem(0) + LE64(dest)
  }

  // call [rip+2]; jmp +8; address
  function CallAbs(dest: u64): (code: seq<byte>)
    ensures |code| == 16
  {
    CallMem(2) + JmpShort(8) + LE64(dest)
  }

  // 0x71 ^ condition
  function InvertedCc(cc: int): int {
    if cc % 2 == 0 then cc + 1 else cc - 1
  }

  // jcc +14 with the condition inverted; jmp [rip+0]; address
  function JccAbs(dest: u64, cc: int): (code: seq<byte>)
    ensures |code| == 16
  {
    JccShort(InvertedCc(cc), 0x0E) + JmpMem(0) + LE64(dest)
  }

  lemma InvertedCond(cc: int, f: Flags)
    requires 0 <= cc < 16
    ensures 0 <= InvertedCc(cc) < 16 && Cond(InvertedCc(cc), f) == !Cond(cc, f)
  {
  }

  lemma FetchJmpMem(cpu: Cpu, m: Memory, a: int, w: word)
    requires X64(cpu) && Holds(m, a, JmpMem(w))
    ensures cpu.fetch(m, a) == Some(JmpMem(w)) && cpu.kind(JmpMem(w)) == Rip(S32(w), true)
  {
    assert cpu.valid(JmpMem(w));
  }

  lemma FetchCallMem(cpu: Cpu, m: Memory, a: int, w: word)
    requires X64(cpu) && Holds(m, a, CallMem(w))
    ensures cpu.fetch(m, a) == Some(CallMem(w)) && cpu.kind(CallMem(w)) == Rip(S32(w), false)
  {
    assert cpu.valid(CallMem(w));
  }

  lemma FetchShort(cpu: Cpu, m: Memory, a: int, d: byte)
    requires X64(cpu) && Holds(m, a, JmpShort(d))
    ensures cpu.fetch(m, a) == Some(JmpShort(d)) && cpu.kind(JmpShort(d)) == Jmp(S8(d))
  {
    assert cpu.valid(JmpShort(d));
  }

  lemma ExecMem(cpu: Cpu, bs: seq<byte>, s: State, disp: int, jump: bool, ea: u64)
    requires |bs| == 6 && cpu.kind(bs) == Rip(disp, jump) && ea == Wrap(s.pc + 6 + disp)
    ensures Exec(cpu, bs, s) == ExecRip(cpu, bs[..2], ea, jump, Wrap(s.pc + 6), s)
  {
  }

  lemma JmpParts(m: Memory, a: int, dest: u64)
    requires Holds(m, a, JmpAbs(dest))
    ensures Holds(m, a, JmpMem(0)) && Read64(m, a + 6) == Some(dest)
  {
    Parts(m, a, JmpMem(0), LE64(dest));
    ReadBack64(m, a + 6, dest);
  }

  // Running jmp_abs: one computed jump, nothing clobbered.
  lemma JmpAbsRuns(cpu: Cpu, s: State, dest: u64)
    requires X64(cpu) && Holds(s.mem, s.pc, JmpAbs(dest)) && s.pc + 14 <= TWO64
    ensures Step(cpu, s) == Next(s.(pc := dest), true)
  {
    JmpParts(s.mem, s.pc, dest);
    FetchJmpMem(cpu, s.mem, s.pc, 0);
    WrapSmall(s.pc + 6);
    assert JmpMem(0)[..2] == JMP_MEM;
    ExecMem(cpu, JmpMem(0), s, 0, true, s.pc + 6);
  }

  lemma ExecJccShort(cpu: Cpu, s: State, cc: int, d: byte)
    requires X64(cpu) && 0 <= cc < 16 && Holds(s.mem, s.pc, JccShort(cc, d))
    requires s.pc + 2 < TWO64 && 0 <= s.pc + 2 + S8(d) < TWO64
    ensures Step(cpu, s) ==
      Next(s.(pc := if Cond(cc, s.flags) then s.pc + 2 + S8(d) else s.pc + 2), false)
  {
    assert cpu.valid(JccShort(cc, d));
  }

  lemma JccParts(m: Memory, a: int, dest: u64, cc: int)
    requires Holds(m, a, JccAbs(dest, cc))
    ensures Holds(m, a, JccShort(InvertedCc(cc), 0x0E)) && Holds(m, a + 2, JmpAbs(dest))
  {
    var jcc := JccShort(InvertedCc(cc), 0x0E);
    assert JccAbs(dest, cc) == jcc + JmpAbs(dest);
    Parts(m, a, jcc, JmpAbs(dest));
  }

  // Running jcc_abs: past the block when the condition fails, else on to the
  // jump inside it.
  lemma JccAbsRuns(cpu: Cpu, s: State, dest: u64, cc: int)
    requires X64(cpu) && 0 <= cc < 16 && Holds(s.mem, s.pc, JccAbs(dest, cc)) && s.pc + 16 < TWO64
    ensures Step(cpu, s) == Next(s.(pc := s.pc + if Cond(cc, s.flags) then 2 else 16), false)
    ensures Holds(s.mem, s.pc + 2, JmpAbs(dest))
  {
    JccParts(s.mem, s.pc, dest, cc);
    InvertedCond(cc, s.flags);
    ExecJccShort(cpu, s, InvertedCc(cc), 0x0E);
  }

  lemma CallParts(m: Memory, a: int, dest: u64)
    requires Holds(m, a, CallAbs(dest))
    ensures Holds(m, a, CallMem(2)) && Holds(m, a + 6, JmpShort(8)) && Read64(m, a + 8) == Some(dest)
  {
    assert CallAbs(dest) == CallMem(2) + (JmpShort(8) + LE64(dest));
    Parts(m, a, CallMem(2), JmpShort(8) + LE64(dest));
    Parts(m, a + 6, JmpShort(8), LE64(dest));
    ReadBack64(m, a + 8, dest);
  }

  // Running call_abs: the callee returns to the short jump over the literal.
  lemma CallAbsRuns(cpu: Cpu, s: State, dest: u64)
    requires X64(cpu) && Holds(s.mem, s.pc, CallAbs(dest)) && s.pc + 16 < TWO64
    ensures Step(cpu, s) == Return(cpu.callee(dest, s.regs, s.flags, s.mem), s.pc + 6)
  {
    CallParts(s.mem, s.pc, dest);
    FetchCallMem(cpu, s.mem, s.pc, 2);
    WrapSmall(s.pc + 6);
    WrapSmall(s.pc + 8);
    assert CallMem(2)[..2] == CALL_MEM;
    ExecMem(cpu, CallMem(2), s, 2, false, s.pc + 8);
  }

  lemma CallAbsResumes(cpu: Cpu, t: State, a: int, dest: u64)
    requires X64(cpu) && 0 <= a && Holds(t.mem, a, CallAbs(dest)) && a + 16 < TWO64 && t.pc == a + 6
    ensures Step(cpu, t) == Next(t.(pc := a + 16), false)
  {
    CallParts(t.mem, a, dest);
    FetchShort(cpu, t.mem, t.pc, 8);
  }
}
