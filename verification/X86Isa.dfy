// x86-64 code as the relocation sees it: instructions are byte strings, and of
// each only its control flow and RIP-relative operand are known.  Encodings and
// conditions after the Intel 64 SDM, volume 2 (JMP, Jcc, CALL) and volume 1,
// appendix B (condition codes).
module X86Isa {
  import opened Machine

  type Regs = map<int, u64>
  datatype Flags = Flags(cf: bool, pf: bool, zf: bool, sf: bool, of: bool)

  datatype State = State(pc: u64, regs: Regs, flags: Flags, mem: Memory)

  // Relative displacements count from the end of the instruction.
  datatype Kind =
    | Jmp(disp: int)
    | Jcc(cc: int, disp: int)
    | Call(disp: int)
    | Loop(disp: int)
    | Rip(disp: int, jump: bool)
    | Ret
    | Plain

  // What an instruction that is not modelled, or a called function, does.
  datatype Effect =
    | Fault
    | Falls(regs: Regs, flags: Flags, mem: Memory)
    | Jumps(pc: u64, regs: Regs, flags: Flags, mem: Memory)

  // `computed` marks a jump whose destination comes from data.
  datatype Outcome = Trap | Next(state: State, computed: bool)

  datatype Cpu = Cpu(
    fetch: (Memory, int) -> Option<seq<byte>>,
    valid: seq<byte> -> bool,
    kind: seq<byte> -> Kind,
    plain: (seq<byte>, Regs, Flags, Memory) -> Effect,
    rip: (seq<byte>, u64, Regs, Flags, Memory) -> Effect,
    loop: (seq<byte>, Regs, Flags) -> (bool, Regs),
    callee: (u64, Regs, Flags, Memory) -> Effect)

  // Even codes test a condition, odd codes its negation.
  predicate Cond(cc: int, f: Flags) {
    match cc
    case 0 => f.of
    case 1 => !f.of
    case 2 => f.cf
    case 3 => !f.cf
    case 4 => f.zf
    case 5 => !f.zf
    case 6 => f.cf || f.zf
    case 7 => !(f.cf || f.zf)
    case 8 => f.sf
    case 9 => !f.sf
    case 10 => f.pf
    case 11 => !f.pf
    case 12 => f.sf != f.of
    case 13 => f.sf == f.of
    case 14 => f.zf || f.sf != f.of
    case _ => !(f.zf || f.sf != f.of)
  }

  function S8(b: byte): int {
    if b < 0x80 then b else b - 0x100
  }

  function S32(w: word): int {
    if w < 0x8000_0000 then w else w - 0x1_0000_0000
  }

  const JMP_MEM: seq<byte> := [0xFF, 0x25]
  const CALL_MEM: seq<byte> := [0xFF, 0x15]

  function Apply(e: Effect, next: u64): Outcome {
    match e
    case Fault => Trap
    case Falls(r, f, m) => Next(State(next, r, f, m), false)
    case Jumps(pc, r, f, m) => Next(State(pc, r, f, m), true)
  }

  // A jump or a return does not fall through.
  function Depart(e: Effect): Outcome {
    match e
    case Jumps(pc, r, f, m) => Next(State(pc, r, f, m), true)
    case _ => Trap
  }

  // A called function comes back behind the call.
  function Return(e: Effect, next: u64): Outcome {
    match e
    case Falls(r, f, m) => Next(State(next, r, f, m), false)
    case _ => Trap
  }

  // An instruction with a RIP-relative operand: its bytes before the
  // displacement, the operand's address and the next instruction's.
  function ExecRip(cpu: Cpu, opcode: seq<byte>, ea: u64, jump: bool, next: u64, s: State): Outcome {
    if jump then
      if opcode == JMP_MEM then JumpVia(Read64(s.mem, ea), s)
      else Depart(cpu.rip(opcode, ea, s.regs, s.flags, s.mem))
    else if opcode == CALL_MEM then CallVia(cpu, Read64(s.mem, ea), next, s)
    else Apply(cpu.rip(opcode, ea, s.regs, s.flags, s.mem), next)
  }

  function JumpVia(dest: Option<u64>, s: State): Outcome {
    match dest
    case None => Trap
    case Some(pc) => Next(s.(pc := pc), true)
  }

  function CallVia(cpu: Cpu, dest: Option<u64>, next: u64, s: State): Outcome {
    match dest
    case None => Trap
    case Some(pc) => Return(cpu.callee(pc, s.regs, s.flags, s.mem), next)
  }

  function Exec(cpu: Cpu, bs: seq<byte>, s: State): Outcome {
    var next := Wrap(s.pc + |bs|);
    match cpu.kind(bs)
    case Jmp(disp) => Next(s.(pc := Wrap(s.pc + |bs| + disp)), false)
    case Jcc(cc, disp) =>
      Next(s.(pc := if Cond(cc, s.flags) then Wrap(s.pc + |bs| + disp) else next), false)
    case Loop(disp) =>
      var (taken, regs) := cpu.loop(bs, s.regs, s.flags);
      Next(s.(pc := if taken then Wrap(s.pc + |bs| + disp) else next, regs := regs), false)
    case Call(disp) => Return(cpu.callee(Wrap(s.pc + |bs| + disp), s.regs, s.flags, s.mem), next)
    case Rip(disp, jump) =>
      if |bs| < 4 then Trap
      else ExecRip(cpu, bs[..|bs| - 4], Wrap(s.pc + |bs| + disp), jump, next, s)
    case Ret => Depart(cpu.plain(bs, s.regs, s.flags, s.mem))
    case Plain => Apply(cpu.plain(bs, s.regs, s.flags, s.mem), next)
  }

  function Step(cpu: Cpu, s: State): Outcome {
    match cpu.fetch(s.mem, s.pc)
    case None => Trap
    case Some(bs) => Exec(cpu, bs, s)
  }

  // Instructions are self-delimiting: bytes that make up one are fetched as it.
  ghost predicate Fetches(cpu: Cpu) {
    forall m: Memory, a: int, bs: seq<byte> {:trigger Holds(m, a, bs), cpu.valid(bs)} ::
      cpu.valid(bs) && Holds(m, a, bs) ==> cpu.fetch(m, a) == Some(bs)
  }

  // The encodings the thunks and the patch use.
  ghost predicate Encodes(cpu: Cpu) {
    && (forall d: byte {:trigger JmpShort(d)} ::
          cpu.valid(JmpShort(d)) && cpu.kind(JmpShort(d)) == Jmp(S8(d)))
    && (forall cc: int, d: byte {:trigger JccShort(cc, d)} :: 0 <= cc < 16 ==>
          cpu.valid(JccShort(cc, d)) && cpu.kind(JccShort(cc, d)) == Jcc(cc, S8(d)))
    && (forall w: word {:trigger JmpNear(w)} ::
          cpu.valid(JmpNear(w)) && cpu.kind(JmpNear(w)) == Jmp(S32(w)))
    && (forall w: word {:trigger JmpMem(w)} ::
          cpu.valid(JmpMem(w)) && cpu.kind(JmpMem(w)) == Rip(S32(w), true))
    && (forall w: word {:trigger CallMem(w)} ::
          cpu.valid(CallMem(w)) && cpu.kind(CallMem(w)) == Rip(S32(w), false))
  }

  function JmpShort(d: byte): seq<byte> {
    [0xEB, d]
  }

  function JccShort(cc: int, d: byte): seq<byte> {
    [if 0 <= cc < 16 then 0x70 + cc else 0, d]
  }

  function JmpNear(w: word): seq<byte> {
    [0xE9] + LE32(w)
  }

  function JmpMem(w: word): seq<byte> {
    JMP_MEM + LE32(w)
  }

  function CallMem(w: word): seq<byte> {
    CALL_MEM + LE32(w)
  }

  ghost predicate X64(cpu: Cpu) {
    Fetches(cpu) && Encodes(cpu)
  }

  // ---- runs ----------------------------------------------------------------

  datatype Result = Running | Trapped | Left(state: State)

  predicate Inside(lo: int, hi: int, s: State) {
    lo <= s.pc < hi
  }

  // At most `fuel` steps inside [lo, hi); a computed jump leaves it.
  function Run(cpu: Cpu, lo: int, hi: int, s: State, fuel: nat): Result
    decreases fuel
  {
    if !Inside(lo, hi, s) then Left(s)
    else if fuel == 0 then Running
    else
      match Step(cpu, s)
      case Trap => Trapped
      case Next(t, computed) => if computed then Left(t) else Run(cpu, lo, hi, t, fuel - 1)
  }

  // k steps from s to t, all inside the region and none computed.
  ghost predicate Glides(cpu: Cpu, lo: int, hi: int, s: State, k: nat, t: State)
    decreases k
  {
    if k == 0 then s == t
    else
      Inside(lo, hi, s) &&
      match Step(cpu, s)
      case Trap => false
      case Next(s', computed) => !computed && Glides(cpu, lo, hi, s', k - 1, t)
  }

  lemma {:induction false} GlideRun(cpu: Cpu, lo: int, hi: int, s: State, k: nat, t: State, fuel: nat)
    requires Glides(cpu, lo, hi, s, k, t)
    ensures Run(cpu, lo, hi, s, k + fuel) == Run(cpu, lo, hi, t, fuel)
    decreases k
  {
    if k > 0 {
      GlideRun(cpu, lo, hi, Step(cpu, s).state, k - 1, t, fuel);
    }
  }

  lemma {:induction false} GlideOn(cpu: Cpu, lo: int, hi: int, a: State, j: nat, b: State, k: nat, c: State)
    requires Glides(cpu, lo, hi, a, j, b) && Glides(cpu, lo, hi, b, k, c)
    ensures Glides(cpu, lo, hi, a, j + k, c)
    decreases j
  {
    if j > 0 {
      GlideOn(cpu, lo, hi, Step(cpu, a).state, j - 1, b, k, c);
    }
  }

  lemma {:induction false} RunFuel(cpu: Cpu, lo: int, hi: int, s: State, f: nat, g: nat)
    requires f <= g
    ensures Run(cpu, lo, hi, s, f) == Running || Run(cpu, lo, hi, s, g) == Run(cpu, lo, hi, s, f)
    decreases f
  {
    if Inside(lo, hi, s) && f > 0 {
      match Step(cpu, s)
      case Trap =>
      case Next(t, computed) =>
        if !computed {
          RunFuel(cpu, lo, hi, t, f - 1, g - 1);
        }
    }
  }
}
