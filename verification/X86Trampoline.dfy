// The x86-64 trampoline builder of src/arch/x86/trampoline/mod.rs, over the
// instructions the decoder yields.
module X86Trampoline {
  import opened Machine
  import opened Prolog
  import opened Emitter
  import opened X86Isa
  import T = X86Thunk

  datatype Insn = Insn(bytes: seq<byte>, kind: Kind)

  // Address of instruction k relative to the first.
  function Len(insns: seq<Insn>, k: nat): nat
    requires k <= |insns|
  {
    if k == 0 then 0 else Len(insns, k - 1) + |insns[k - 1].bytes|
  }

  lemma {:induction false} LenMonotone(insns: seq<Insn>, i: nat, k: nat)
    requires i <= k <= |insns|
    ensures Len(insns, i) <= Len(insns, k)
    decreases k - i
  {
    if i < k {
      LenMonotone(insns, i, k - 1);
    }
  }

  // A displacement accepted by is_within_range.
  predicate InRange(displacement: int) {
    -0x8000_0000 <= displacement < 0x8000_0000
  }

  // The displacement of an operand that moved from `ip` to `at`.
  function Adjusted(ip: u64, at: u64, disp: int): int {
    Signed(Wrap(ip - at + disp), TWO64)
  }

  function WithDisp(bytes: seq<byte>, disp: int): (code: seq<byte>)
    requires |bytes| >= 4
    ensures |code| == |bytes|
  {
    bytes[..|bytes| - 4] + LE32(disp % 0x1_0000_0000)
  }

  datatype Block =
    | Copy(bytes: seq<byte>)
    | Jump(dest: u64)
    | Calls(dest: u64)
    | JumpIf(dest: u64, cc: int)
    | Relocate(bytes: seq<byte>, ip: u64, disp: int)
  {
    function Size(): nat {
      match this
      case Copy(bytes) => |bytes|
      case Jump(_) => 14
      case Calls(_) => 16
      case JumpIf(_, _) => 16
      case Relocate(bytes, _, _) => |bytes|
    }

    // None is a failed assertion.
    function Generate(at: u64): Option<seq<byte>> {
      match this
      case Copy(bytes) => Some(bytes)
      case Jump(dest) => Some(T.JmpAbs(dest))
      case Calls(dest) => Some(T.CallAbs(dest))
      case JumpIf(dest, cc) => Some(T.JccAbs(dest, cc))
      case Relocate(bytes, ip, disp) =>
        var adjusted := Adjusted(ip, at, disp);
        if InRange(adjusted) && |bytes| >= 4 then Some(WithDisp(bytes, adjusted)) else None
    }
  }

  // The low half of the first byte that is not the 0F prefix.
  function Condition(bytes: seq<byte>): Option<int> {
    if bytes == [] then None
    else if bytes[0] != 0x0F then Some(bytes[0] % 0x10)
    else Condition(bytes[1..])
  }

  // The operand lies in the bytes disassembled so far.
  predicate OperandInProlog(disp: int, total: int) {
    -total <= disp < 0
  }

  datatype Processed = Processed(block: Block, finished: bool, branch: Option<u64>)

  // What `process_instruction` returns and the fields it leaves behind; `total`
  // counts the instruction itself.  None is UnsupportedInstruction, or the
  // panic of a conditional jump without an opcode.
  function Process(insn: Insn, ip: u64, target: u64, margin: nat, total: nat, branch: Option<u64>)
    : Option<Processed>
  {
    match insn.kind
    case Rip(disp, jump) =>
      var block := if OperandInProlog(disp, total) then Copy(insn.bytes) else Relocate(insn.bytes, ip, disp);
      Some(Processed(block, jump, branch))
    case Call(disp) => Some(Processed(Calls(Wrap(ip + |insn.bytes| + disp)), false, branch))
    case Jmp(disp) =>
      var dest := Wrap(ip + |insn.bytes| + disp);
      if InProlog(target, margin, dest) then Some(Processed(Copy(insn.bytes), false, Some(dest)))
      else Some(Processed(Jump(dest), !InBranch(branch, ip), branch))
    case Loop(disp) =>
      var dest := Wrap(ip + |insn.bytes| + disp);
      if InProlog(target, margin, dest) then Some(Processed(Copy(insn.bytes), false, Some(dest))) else None
    case Jcc(_, disp) =>
      var dest := Wrap(ip + |insn.bytes| + disp);
      if InProlog(target, margin, dest) then Some(Processed(Copy(insn.bytes), false, Some(dest)))
      else if Condition(insn.bytes).None? then None
      else Some(Processed(JumpIf(dest, Condition(insn.bytes).value), false, branch))
    case Ret => Some(Processed(Copy(insn.bytes), !InBranch(branch, ip), branch))
    case Plain => Some(Processed(Copy(insn.bytes), false, branch))
  }

  // ---- what the builder makes of an instruction -----------------------------

  // A jump whose destination is the instruction's own to tell.
  predicate IsTransfer(insn: Insn) {
    insn.kind.Jmp? || insn.kind.Jcc? || insn.kind.Loop?
  }

  function DestOf(insn: Insn, ip: u64): u64
    requires IsTransfer(insn)
  {
    Wrap(ip + |insn.bytes| + insn.kind.disp)
  }

  // A jump that stays among the first `margin` bytes.
  predicate StaysIn(insn: Insn, ip: u64, target: u64, margin: nat) {
    IsTransfer(insn) && target <= DestOf(insn, ip) < target + margin
  }

  // What the builder does not support: a loop out of the prolog, and a
  // conditional jump out of it that has no opcode.
  predicate Unsupported(insn: Insn, ip: u64, target: u64, margin: nat) {
    && !StaysIn(insn, ip, target, margin)
    && (insn.kind.Loop? || (insn.kind.Jcc? && forall b | b in insn.bytes :: b == 0x0F))
  }

  // How long the instruction's block is.
  function NewSize(insn: Insn, ip: u64, target: u64, margin: nat): nat {
    match insn.kind
    case Call(_) => 16
    case Jmp(_) => if StaysIn(insn, ip, target, margin) then |insn.bytes| else 14
    case Jcc(_, _) => if StaysIn(insn, ip, target, margin) then |insn.bytes| else 16
    case _ => |insn.bytes|
  }

  // Nothing behind the instruction is reached through it.
  predicate Leaves(insn: Insn, ip: u64, target: u64, margin: nat) {
    insn.kind.Ret? || (insn.kind.Jmp? && !StaysIn(insn, ip, target, margin))
  }

  // The condition code is the low half of the first byte behind the 0F prefixes.
  ghost predicate CodeOf(bytes: seq<byte>, cc: int) {
    exists i :: 0 <= i < |bytes| && bytes[i] != 0x0F && cc == bytes[i] % 0x10
      && forall j | 0 <= j < i :: bytes[j] == 0x0F
  }

  ghost predicate Meant(p: Processed, insn: Insn, ip: u64, target: u64, margin: nat, total: nat, branch: Option<u64>) {
    var ahead := branch.Some? && ip < branch.value;
    && p.branch == (if StaysIn(insn, ip, target, margin) then Some(DestOf(insn, ip)) else branch)
    && (p.finished <==>
          (insn.kind.Rip? && insn.kind.jump) || (Leaves(insn, ip, target, margin) && !ahead))
    && p.block.Size() == NewSize(insn, ip, target, margin)
    && match insn.kind
       case Rip(disp, _) =>
         p.block == if 0 <= total + disp && disp < 0 then Copy(insn.bytes) else Relocate(insn.bytes, ip, disp)
       case Call(disp) => p.block == Calls(Wrap(ip + |insn.bytes| + disp))
       case Ret => p.block == Copy(insn.bytes)
       case Plain => p.block == Copy(insn.bytes)
       case Loop(_) => p.block == Copy(insn.bytes)
       case Jmp(_) =>
         p.block == if StaysIn(insn, ip, target, margin) then Copy(insn.bytes) else Jump(DestOf(insn, ip))
       case Jcc(_, _) =>
         if StaysIn(insn, ip, target, margin) then p.block == Copy(insn.bytes)
         else p.block.JumpIf? && p.block.dest == DestOf(insn, ip) && CodeOf(insn.bytes, p.block.cc)
  }

  lemma {:induction false} ConditionIs(bytes: seq<byte>)
    ensures
      match Condition(bytes)
      case None => forall b | b in bytes :: b == 0x0F
      case Some(cc) => CodeOf(bytes, cc) && exists b :: b in bytes && b != 0x0F
    decreases |bytes|
  {
    if bytes != [] {
      var first, rest := bytes[0], bytes[1..];
      assert first in bytes && (first != 0x0F ==> CodeOf(bytes, bytes[0] % 0x10));
      if first == 0x0F {
        ConditionIs(rest);
        assert bytes == [first] + rest;
        assert forall b | b in rest :: b in bytes;
        if Condition(rest).Some? {
          CodeBehind(bytes, Condition(rest).value);
        }
      }
    }
  }

  lemma CodeBehind(bytes: seq<byte>, cc: int)
    requires |bytes| > 0 && bytes[0] == 0x0F && CodeOf(bytes[1..], cc)
    ensures CodeOf(bytes, cc)
  {
    var rest := bytes[1..];
    var i :| 0 <= i < |rest| && rest[i] != 0x0F && cc == rest[i] % 0x10 && forall j | 0 <= j < i :: rest[j] == 0x0F;
    forall j | 0 <= j < i + 1 ensures bytes[j] == 0x0F {
      assert j > 0 ==> bytes[j] == rest[j - 1];
    }
    assert bytes[i + 1] == rest[i];
  }

  // Every instruction but those two kinds is accepted.  A return and a jump out of
  // the prolog finish it exactly when no remembered destination lies ahead, an
  // unconditional jump through a RIP-relative operand always.
  lemma ProcessMeans(insn: Insn, ip: u64, target: u64, margin: nat, total: nat, branch: Option<u64>)
    ensures
      match Process(insn, ip, target, margin, total, branch)
      case None => Unsupported(insn, ip, target, margin)
      case Some(p) =>
        !Unsupported(insn, ip, target, margin) && Meant(p, insn, ip, target, margin, total, branch)
  {
    ConditionIs(insn.bytes);
  }

  // The instructions decoded at `target`, up to the first invalid one or the
  // end of the bytes given to the decoder.
  ghost predicate Readable(insns: seq<Insn>, target: u64) {
    && target + Len(insns, |insns|) < TWO64
    && forall i | 0 <= i < |insns| :: |insns[i].bytes| > 0
  }

  // `finished` is false when the decoder gave up first; the code then ends
  // without a jump.
  datatype Built = Built(blocks: seq<Block>, jump: bool, finished: bool)

  function Ip(insns: seq<Insn>, target: u64, i: nat): (ip: u64)
    requires i <= |insns| && Readable(insns, target)
    ensures ip == target + Len(insns, i)
  {
    LenMonotone(insns, i, |insns|);
    target + Len(insns, i)
  }

  ghost function BuildFrom(insns: seq<Insn>, target: u64, margin: nat, branch: Option<u64>, done: seq<Block>)
    : Option<Built>
    requires Readable(insns, target) && |done| <= |insns|
    decreases |insns| - |done|
  {
    var i := |done|;
    if i == |insns| then Some(Built(done, false, false))
    else
      var total := Len(insns, i + 1);
      match Process(insns[i], Ip(insns, target, i), target, margin, total, branch)
      case None => None
      case Some(p) =>
        if InBranch(p.branch, Ip(insns, target, i)) && p.block.Size() != |insns[i].bytes| then None
        else if p.finished then Some(Built(done + [p.block], false, true))
        else if total >= margin then Some(Built(done + [p.block], true, true))
        else BuildFrom(insns, target, margin, p.branch, done + [p.block])
  }

  function AllBlocks(b: Built, next: u64): seq<Block> {
    if b.jump then b.blocks + [Jump(next)] else b.blocks
  }

  function AsThunk(block: Block): Thunk {
    Thunk(at => block.Generate(at), block.Size())
  }

  function Thunks(blocks: seq<Block>): (ts: seq<Thunk>)
    ensures |ts| == |blocks|
  {
    seq(|blocks|, k requires 0 <= k < |blocks| => AsThunk(blocks[k]))
  }

  lemma ThunksAppend(blocks: seq<Block>, block: Block)
    ensures Thunks(blocks + [block]) == Thunks(blocks) + [AsThunk(block)]
  {
  }

  class Trampoline {
    const emitter: CodeEmitter
    const prologSize: nat

    constructor (emitter: CodeEmitter, prologSize: nat)
      ensures this.emitter == emitter && this.prologSize == prologSize
    {
      this.emitter := emitter;
      this.prologSize := prologSize;
    }
  }

  class Builder {
    const target: u64
    const margin: nat
    var totalBytes: nat
    var finished: bool
    var branchAddress: Option<u64>

    constructor (target: u64, margin: nat)
      ensures this.target == target && this.margin == margin
      ensures totalBytes == 0 && !finished && branchAddress == None
    {
      this.target, this.margin := target, margin;
      totalBytes, finished, branchAddress := 0, false, None;
    }

    predicate IsInstructionInBranch(ip: u64)
      reads this`branchAddress
    {
      InBranch(branchAddress, ip)
    }

    method HandleRipRelative(insn: Insn, ip: u64, disp: int, jump: bool) returns (block: Block)
      modifies this`finished
      ensures finished == jump
      ensures block == if OperandInProlog(disp, totalBytes) then Copy(insn.bytes) else Relocate(insn.bytes, ip, disp)
    {
      finished := jump;
      if OperandInProlog(disp, totalBytes) {
        return Copy(insn.bytes);
      }
      return Relocate(insn.bytes, ip, disp);
    }

    method HandleRelativeBranch(insn: Insn, ip: u64, dest: u64) returns (r: Option<Block>)
      requires !finished && (insn.kind.Call? || insn.kind.Jmp? || insn.kind.Jcc? || insn.kind.Loop?)
      requires dest == Wrap(ip + |insn.bytes| + insn.kind.disp)
      modifies this`finished, this`branchAddress
      ensures
        var p := Process(insn, ip, target, margin, totalBytes, old(branchAddress));
        && (r.Some? <==> p.Some?)
        && (p.Some? ==> r.value == p.value.block && finished == p.value.finished
                        && branchAddress == p.value.branch)
    {
      if insn.kind.Call? {
        return Some(Calls(dest));
      }
      if InProlog(target, margin, dest) {
        branchAddress := Some(dest);
        return Some(Copy(insn.bytes));
      } else if insn.kind.Loop? {
        return None;
      } else if insn.kind.Jmp? {
        finished := !IsInstructionInBranch(ip);
        return Some(Jump(dest));
      } else {
        var condition := Condition(insn.bytes);
        if condition.None? {
          return None;
        }
        return Some(JumpIf(dest, condition.value));
      }
    }

    method ProcessInstruction(insn: Insn, ip: u64) returns (r: Option<Block>)
      requires !finished
      modifies this`finished, this`branchAddress
      ensures
        var p := Process(insn, ip, target, margin, totalBytes, old(branchAddress));
        && (r.Some? <==> p.Some?)
        && (p.Some? ==> r.value == p.value.block && finished == p.value.finished
                        && branchAddress == p.value.branch)
    {
      match insn.kind
      case Rip(disp, jump) =>
        var block := HandleRipRelative(insn, ip, disp, jump);
        return Some(block);
      case Plain =>
        return Some(Copy(insn.bytes));
      case Ret =>
        finished := !IsInstructionInBranch(ip);
        return Some(Copy(insn.bytes));
      case _ =>
        r := HandleRelativeBranch(insn, ip, Wrap(ip + |insn.bytes| + insn.kind.disp));
    }

    // One pass of the decode loop; false is UnsupportedInstruction.
    method Advance(insn: Insn, ip: u64, emitter: CodeEmitter, ghost blocks: seq<Block>) returns (ok: bool)
      requires !finished && emitter.thunks == Thunks(blocks) && ip + |insn.bytes| < TWO64
      modifies this, emitter
      ensures totalBytes == old(totalBytes) + |insn.bytes|
      ensures
        var p := Process(insn, ip, target, margin, totalBytes, old(branchAddress));
        && (ok <==> p.Some? && (InBranch(p.value.branch, ip) ==> p.value.block.Size() == |insn.bytes|))
        && (ok ==>
              var full := totalBytes >= margin && !p.value.finished;
              && finished == (p.value.finished || full) && branchAddress == p.value.branch
              && emitter.thunks ==
                   Thunks(AllBlocks(Built(blocks + [p.value.block], full, finished), ip + |insn.bytes|)))
    {
      totalBytes := totalBytes + |insn.bytes|;
      var thunk := ProcessInstruction(insn, ip);
      if thunk.None? || (IsInstructionInBranch(ip) && thunk.value.Size() != |insn.bytes|) {
        return false;
      }
      emitter.AddThunk(AsThunk(thunk.value));
      ThunksAppend(blocks, thunk.value);
      if totalBytes >= margin && !finished {
        emitter.AddThunk(AsThunk(Jump(ip + |insn.bytes|)));
        ThunksAppend(blocks + [thunk.value], Jump(ip + |insn.bytes|));
        finished := true;
      }
      return true;
    }

    method Build(insns: seq<Insn>) returns (r: Option<Trampoline>)
      requires Readable(insns, target)
      requires totalBytes == 0 && !finished && branchAddress == None
      modifies this
      ensures
        var b := BuildFrom(insns, target, margin, None, []);
        && (r.Some? <==> b.Some?)
        && (b.Some? ==>
              var n := |b.value.blocks|;
              && n <= |insns| && fresh(r.value) && fresh(r.value.emitter)
              && r.value.prologSize == Len(insns, n)
              && r.value.emitter.thunks == Thunks(AllBlocks(b.value, Ip(insns, target, n))))
    {
      var emitter := new CodeEmitter();
      ghost var blocks: seq<Block> := [];
      ghost var all := BuildFrom(insns, target, margin, None, []);
      var i := 0;
      while i < |insns| && !finished
        invariant 0 <= i == |blocks| <= |insns| && totalBytes == Len(insns, i) && fresh(emitter)
        invariant !finished ==> emitter.thunks == Thunks(blocks)
        invariant !finished ==> all == BuildFrom(insns, target, margin, branchAddress, blocks)
        invariant finished ==> all.Some? && all.value.blocks == blocks
        invariant finished ==> emitter.thunks == Thunks(AllBlocks(all.value, Ip(insns, target, i)))
      {
        var insn, ip := insns[i], Ip(insns, target, i);
        ghost var p := Process(insn, ip, target, margin, Len(insns, i + 1), branchAddress);
        LenMonotone(insns, i + 1, |insns|);
        var ok := Advance(insn, ip, emitter, blocks);
        if !ok {
          return None;
        }
        blocks := blocks + [p.value.block];
        i := i + 1;
      }
      var trampoline := new Trampoline(emitter, totalBytes);
      r := Some(trampoline);
    }
  }
}
