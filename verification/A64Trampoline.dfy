// The AArch64 trampoline builder of src/arch/aarch64/trampoline/mod.rs.
module A64Trampoline {
  import opened Machine
  import opened Prolog
  import opened Emitter
  import I = A64Isa
  import T = A64Thunk

  // (value << shift) as isize >> shift, with shift = 64 - bits.
  function SignExtend(value: int, bits: int): u64
    requires bits in {14, 19, 21, 26}
  {
    var scale :=
      if bits == 14 then 0x4_0000_0000_0000
      else if bits == 19 then 0x2000_0000_0000
      else if bits == 21 then 0x800_0000_0000
      else 0x40_0000_0000;
    Wrap(Signed(Wrap(value * scale), TWO64) / scale)
  }

  lemma SignExtendMeaning(value: int)
    ensures 0 <= value < 0x4000 ==> SignExtend(value, 14) == Wrap(Signed(value, 0x4000))
    ensures 0 <= value < 0x8_0000 ==> SignExtend(value, 19) == Wrap(Signed(value, 0x8_0000))
    ensures 0 <= value < 0x20_0000 ==> SignExtend(value, 21) == Wrap(Signed(value, 0x20_0000))
    ensures 0 <= value < 0x400_0000 ==> SignExtend(value, 26) == Wrap(Signed(value, 0x400_0000))
  {
    if 0 <= value < 0x4000 {
      ShiftBack(value, 0x4000, 0x4_0000_0000_0000);
    }
    if 0 <= value < 0x8_0000 {
      ShiftBack(value, 0x8_0000, 0x2000_0000_0000);
    }
    if 0 <= value < 0x20_0000 {
      ShiftBack(value, 0x20_0000, 0x800_0000_0000);
    }
    if 0 <= value < 0x400_0000 {
      ShiftBack(value, 0x400_0000, 0x40_0000_0000);
    }
  }

  lemma ShiftBack(value: int, modulus: int, scale: int)
    requires 0 <= value < modulus && scale > 0 && modulus * scale == TWO64
    ensures 0 <= value * scale < TWO64
    ensures Signed(Wrap(value * scale), TWO64) / scale == Signed(value, modulus)
  {
    Grows(value, modulus, scale);
    Grows(2 * value, modulus, scale);
    Grows(modulus, 2 * value, scale);
    assert (2 * value) * scale == 2 * (value * scale);
    assert (value - modulus) * scale == value * scale - TWO64;
    Quotient(value, scale);
    Quotient(value - modulus, scale);
  }

  datatype Block =
    | Copy(instr: word)
    | Jump(dest: u64)
    | Calls(dest: u64)
    | CbzFar(rt: int, wide: bool, negate: bool, dest: u64)
    | TbzFar(rt: int, bit: int, negate: bool, dest: u64)
    | MovImm(rd: int, value: u64)
    | LdrLiteral(op: int, rt: int, addr: u64)
    | Nop
  {
    predicate Valid() {
      match this
      case CbzFar(rt, _, _, _) => 0 <= rt < 0x20
      case TbzFar(rt, bit, _, _) => 0 <= rt < 0x20 && 0 <= bit < 0x40
      case MovImm(rd, _) => 0 <= rd < 0x20
      case LdrLiteral(op, rt, _) => 0 <= op < 3 && 0 <= rt < 0x20
      case _ => true
    }

    function Encode(): seq<byte>
      requires Valid()
    {
      match this
      case Copy(instr) => LE32(instr)
      case Jump(dest) => T.JmpAbs(dest)
      case Calls(dest) => T.CallAbs(dest)
      case CbzFar(rt, wide, negate, dest) => T.CbzFar(rt, wide, negate, dest)
      case TbzFar(rt, bit, negate, dest) => T.TbzFar(rt, bit, negate, dest)
      case MovImm(rd, value) => T.MovImm64(rd, value)
      case LdrLiteral(op, rt, addr) => T.LdrLiteral(op, rt, addr)
      case Nop => LE32(T.NOP)
    }
  }

  // The thunk and the size that `process` announces beside it, and the fields
  // it leaves behind.
  datatype Processed = Processed(block: Block, size: nat, finished: bool, branch: Option<u64>)

  function Dest(pc: u64, value: int, bits: int): u64
    requires bits in {14, 19, 21, 26}
  {
    Wrap(pc + Wrap(4 * SignExtend(value, bits)))
  }

  // A direct branch: copied when its destination is in the prolog.
  function BranchTo(instr: word, dest: u64, far: Block, size: nat, finished: bool, target: u64, margin: nat,
                    branch: Option<u64>): Processed
  {
    if InProlog(target, margin, dest) then Processed(Copy(instr), 4, finished, Track(branch, dest))
    else Processed(far, size, finished, branch)
  }

  // Which pattern an instruction matches, with the bits the source extracts.
  datatype Pattern =
    | PB(imm26: int)
    | PBl(imm26: int)
    | PCbz(rt: int, wide: bool, negate: bool, imm19: int)
    | PTbz(rt: int, bit: int, negate: bool, imm14: int)
    | PAdr(rd: int, page: bool, imm21: int)
    | PSimd
    | PLiteral(op: int, rt: int, imm19: int)
    | PRet
    | PRest
  {
    predicate Valid() {
      match this
      case PCbz(rt, _, _, _) => 0 <= rt < 0x20
      case PTbz(rt, bit, _, _) => 0 <= rt < 0x20 && 0 <= bit < 0x40
      case PAdr(rd, _, _) => 0 <= rd < 0x20
      case PLiteral(op, rt, _) => 0 <= rt < 0x20 && 0 <= op < 4
      case _ => true
    }
  }

  // The masks of the source select the bits that the divisions and remainders
  // here do; the tests come in its order.
  function Match(instr: word): (p: Pattern)
    ensures p.Valid()
  {
    var rt := instr % 0x20;
    var imm19 := instr / 0x20 % 0x8_0000;
    var negate := instr / 0x100_0000 % 2 != 0;
    if instr / 0x400_0000 == 0x05 then PB(instr % 0x400_0000)
    else if instr / 0x400_0000 == 0x25 then PBl(instr % 0x400_0000)
    else if instr / 0x200_0000 % 0x40 == 0x1A then PCbz(rt, instr / 0x8000_0000 != 0, negate, imm19)
    else if instr / 0x200_0000 % 0x40 == 0x1B then
      PTbz(rt, instr / 0x8000_0000 % 2 * 0x20 + instr / 0x8_0000 % 0x20, negate, instr / 0x20 % 0x4000)
    else if instr / 0x100_0000 % 0x20 == 0x10 then
      PAdr(rt, instr / 0x8000_0000 != 0, imm19 * 4 + instr / 0x2000_0000 % 4)
    else if instr / 0x100_0000 % 0x40 == 0x1C then PSimd
    else if instr / 0x100_0000 % 0x40 == 0x18 then PLiteral(instr / 0x4000_0000 % 4, rt, imm19)
    else if instr / 0x400 == 0x35_97C0 && rt == 0 then PRet
    else PRest
  }

  function Relocate(p: Pattern, instr: word, pc: u64, target: u64, margin: nat, branch: Option<u64>)
    : (r: Option<Processed>)
    requires p.Valid()
    ensures r.Some? ==> r.value.block.Valid()
  {
    match p
    case PB(imm26) =>
      var dest := Dest(pc, imm26, 26);
      Some(BranchTo(instr, dest, Jump(dest), 16, !InBranch(branch, pc), target, margin, branch))
    case PBl(imm26) => Some(Processed(Calls(Dest(pc, imm26, 26)), 16, false, branch))
    case PCbz(rt, wide, negate, imm19) =>
      var dest := Dest(pc, imm19, 19);
      Some(BranchTo(instr, dest, CbzFar(rt, wide, negate, dest), 20, false, target, margin, branch))
    case PTbz(rt, bit, negate, imm14) =>
      var dest := Dest(pc, imm14, 14);
      Some(BranchTo(instr, dest, TbzFar(rt, bit, negate, dest), 20, false, target, margin, branch))
    case PAdr(rd, page, imm21) =>
      Some(Processed(MovImm(rd, Address(pc, page, imm21)), 16, false, branch))
    case PSimd => None
    case PLiteral(op, rt, imm19) =>
      if op == 3 then Some(Processed(Nop, 4, false, branch))
      else Some(Processed(LdrLiteral(op, rt, Dest(pc, imm19, 19)), 20, false, branch))
    case PRet => Some(Processed(Copy(instr), 4, !InBranch(branch, pc), branch))
    case PRest => Some(Processed(Copy(instr), 4, false, branch))
  }

  // ADR, or ADRP when `page` is set.
  function Address(pc: u64, page: bool, imm21: int): u64 {
    var imm := SignExtend(imm21, 21);
    if page then Wrap(pc - pc % 0x1000 + Wrap(imm * 0x1000)) else Wrap(pc + imm)
  }

  // None is UnsupportedInstruction.
  function Process(instr: word, pc: u64, target: u64, margin: nat, branch: Option<u64>): (r: Option<Processed>)
    ensures r.Some? ==> r.value.block.Valid()
  {
    Relocate(Match(instr), instr, pc, target, margin, branch)
  }

  // The size announced beside a thunk is its length.
  lemma SizeIsLength(instr: word, pc: u64, target: u64, margin: nat, branch: Option<u64>)
    ensures
      var p := Process(instr, pc, target, margin, branch);
      p.Some? ==> p.value.size == |p.value.block.Encode()|
  {
  }

  // ---- building ------------------------------------------------------------

  // One block per disassembled word; `jump` says that the continuation jump
  // follows the last of them.
  datatype Built = Built(blocks: seq<Block>, jump: bool)

  ghost function BuildFrom(ws: seq<word>, target: u64, margin: nat, branch: Option<u64>, done: seq<Block>)
    : Option<Built>
    requires ReadableWords(ws, target, margin) && |done| < |ws|
    decreases |ws| - |done|
  {
    var pc := target + 4 * |done|;
    match Process(ws[|done|], pc, target, margin, branch)
    case None => None
    case Some(p) =>
      if InBranch(p.branch, pc) && p.size != 4 then None
      else if p.finished then Some(Built(done + [p.block], false))
      else if 4 * (|done| + 1) >= margin then Some(Built(done + [p.block], true))
      else BuildFrom(ws, target, margin, p.branch, done + [p.block])
  }

  function AllBlocks(b: Built, target: u64): seq<Block> {
    if b.jump then b.blocks + [Jump(Wrap(target + 4 * |b.blocks|))] else b.blocks
  }

  // Vec<u8> as a thunk: the same bytes at every address.
  function AsThunk(block: Block): Thunk {
    var code := if block.Valid() then Some(block.Encode()) else None;
    Thunk(_ => code, if code.Some? then |code.value| else 0)
  }

  function Thunks(blocks: seq<Block>): (ts: seq<Thunk>)
    ensures |ts| == |blocks|
  {
    seq(|blocks|, k requires 0 <= k < |blocks| => AsThunk(blocks[k]))
  }

  lemma ThunksAppend(blocks: seq<Block>, block: Block)
    ensures Thunks(blocks + [block]) == Thunks(blocks) + [AsThunk(block)]
  {
  }

  // What the blocks encode to, one after the other.
  ghost function Encoded(blocks: seq<Block>): seq<byte>
    requires forall b | b in blocks :: b.Valid()
  {
    if blocks == [] then [] else Encoded(blocks[..|blocks| - 1]) + blocks[|blocks| - 1].Encode()
  }

  lemma {:induction false} EmissionIsEncoded(base: u64, blocks: seq<Block>, n: nat)
    requires n <= |blocks| && forall b | b in blocks :: b.Valid()
    ensures Emission(Thunks(blocks), base, n) == Some(Encoded(blocks[..n]))
    ensures |Encoded(blocks[..n])| == Offset(Thunks(blocks), n)
  {
    if n > 0 {
      EmissionIsEncoded(base, blocks, n - 1);
      assert blocks[..n][..n - 1] == blocks[..n - 1];
      assert Thunks(blocks)[n - 1] == AsThunk(blocks[n - 1]);
    }
  }

  lemma {:induction false} BlocksValid(ws: seq<word>, target: u64, margin: nat, branch: Option<u64>, done: seq<Block>)
    requires ReadableWords(ws, target, margin) && |done| < |ws| && forall b | b in done :: b.Valid()
    requires BuildFrom(ws, target, margin, branch, done).Some?
    ensures forall b | b in BuildFrom(ws, target, margin, branch, done).value.blocks :: b.Valid()
    decreases |ws| - |done|
  {
    var p := Process(ws[|done|], target + 4 * |done|, target, margin, branch).value;
    if !p.finished && 4 * (|done| + 1) < margin {
      BlocksValid(ws, target, margin, p.branch, done + [p.block]);
    }
  }

  // The code of every trampoline that was built, with any margin, can be emitted
  // at any address, has the announced length, and is the same everywhere.
  lemma EmissionOfBuild(ws: seq<word>, target: u64, margin: nat, b: Built, base: u64)
    requires ReadableWords(ws, target, margin) && Some(b) == BuildFrom(ws, target, margin, None, [])
    ensures
      var blocks := AllBlocks(b, target);
      var ts := Thunks(blocks);
      && (forall x | x in blocks :: x.Valid())
      && Emission(ts, base, |ts|) == Some(Encoded(blocks)) && |Encoded(blocks)| == Offset(ts, |ts|)
  {
    BlocksValid(ws, target, margin, None, []);
    var blocks := AllBlocks(b, target);
    EmissionIsEncoded(base, blocks, |blocks|);
    assert blocks[..|blocks|] == blocks;
  }

  class Trampoline {
    const emitter: CodeEmitter
    const prologSize: nat

    constructor (emitter: CodeEmitter, prologSize: nat)
      ensures this.emitter == emitter && this.prologSize == prologSize
    {
      this.emitter := emitter;
      this.prologSize := prologSize;
    }
  }

  class Builder {
    const target: u64
    const margin: nat
    var totalBytes: nat
    var finished: bool
    var branchAddress: Option<u64>

    constructor (target: u64, margin: nat)
      ensures this.target == target && this.margin == margin
      ensures totalBytes == 0 && !finished && branchAddress == None
    {
      this.target, this.margin := target, margin;
      totalBytes, finished, branchAddress := 0, false, None;
    }

    predicate IsInBranch(pc: int)
      reads this`branchAddress
    {
      InBranch(branchAddress, pc)
    }

    method TrackBranch(dest: u64)
      modifies this`branchAddress
      ensures branchAddress == Track(old(branchAddress), dest)
    {
      if branchAddress.None? || dest > branchAddress.value {
        branchAddress := Some(dest);
      }
    }

    // A direct branch, copied or expanded.
    method Branch(instr: word, dest: u64, far: Block, length: nat) returns (block: Block, size: nat)
      modifies this`branchAddress
      ensures
        var p := BranchTo(instr, dest, far, length, finished, target, margin, old(branchAddress));
        block == p.block && size == p.size && branchAddress == p.branch
    {
      if InProlog(target, margin, dest) {
        TrackBranch(dest);
        return Copy(instr), 4;
      }
      return far, length;
    }

    method ProcessInstruction(instr: word, pc: u64) returns (ok: bool, block: Block, size: nat)
      requires !finished
      modifies this`finished, this`branchAddress
      ensures
        var p := Process(instr, pc, target, margin, old(branchAddress));
        && (ok <==> p.Some?)
        && (ok ==> block == p.value.block && size == p.value.size && finished == p.value.finished
                   && branchAddress == p.value.branch)
    {
      ok, block, size := true, Copy(instr), 4;
      match Match(instr)
      case PB(imm26) =>
        var dest := Dest(pc, imm26, 26);
        finished := !IsInBranch(pc);
        block, size := Branch(instr, dest, Jump(dest), 16);
      case PBl(imm26) =>
        block, size := Calls(Dest(pc, imm26, 26)), 16;
      case PCbz(rt, wide, negate, imm19) =>
        var dest := Dest(pc, imm19, 19);
        block, size := Branch(instr, dest, CbzFar(rt, wide, negate, dest), 20);
      case PTbz(rt, bit, negate, imm14) =>
        var dest := Dest(pc, imm14, 14);
        block, size := Branch(instr, dest, TbzFar(rt, bit, negate, dest), 20);
      case PAdr(rd, page, imm21) =>
        block, size := MovImm(rd, Address(pc, page, imm21)), 16;
      case PSimd =>
        ok := false;
      case PLiteral(op, rt, imm19) =>
        if op == 3 {
          block := Nop;
        } else {
          block, size := LdrLiteral(op, rt, Dest(pc, imm19, 19)), 20;
        }
      case PRet =>
        finished := !IsInBranch(pc);
      case PRest =>
    }

    method AddBlock(emitter: CodeEmitter, block: Block, ghost blocks: seq<Block>)
      requires emitter.thunks == Thunks(blocks)
      modifies emitter
      ensures emitter.thunks == Thunks(blocks + [block])
    {
      emitter.AddThunk(AsThunk(block));
      ThunksAppend(blocks, block);
    }

    // The continuation jump, once the margin is covered.
    method FinishIfFull(emitter: CodeEmitter, ghost blocks: seq<Block>)
      requires totalBytes == 4 * |blocks| && target + totalBytes < TWO64
      requires emitter.thunks == Thunks(blocks)
      modifies this`finished, emitter
      ensures
        var full := totalBytes >= margin && !old(finished);
        && finished == (old(finished) || full)
        && emitter.thunks == Thunks(AllBlocks(Built(blocks, full), target))
    {
      if totalBytes >= margin && !finished {
        WrapSmall(target + totalBytes);
        AddBlock(emitter, Jump(target + totalBytes), blocks);
        finished := true;
      }
    }

    // One pass of the loop, for word number |blocks|; false is
    // UnsupportedInstruction.
    method Advance(instr: word, emitter: CodeEmitter, ghost ws: seq<word>, ghost blocks: seq<Block>)
      returns (ok: bool, ghost next: seq<Block>)
      requires ReadableWords(ws, target, margin) && |blocks| < |ws| && instr == ws[|blocks|]
      requires !finished && totalBytes == 4 * |blocks| && emitter.thunks == Thunks(blocks)
      modifies this, emitter
      ensures
        var all := BuildFrom(ws, target, margin, old(branchAddress), blocks);
        if !ok then all.None?
        else
          && totalBytes == old(totalBytes) + 4 == 4 * |next|
          && if !finished then
               && |next| < |ws| && emitter.thunks == Thunks(next)
               && all == BuildFrom(ws, target, margin, branchAddress, next)
             else all.Some? && all.value.blocks == next && emitter.thunks == Thunks(AllBlocks(all.value, target))
    {
      var instrAddr := target + totalBytes;
      var block, size;
      ghost var all := BuildFrom(ws, target, margin, branchAddress, blocks);
      ok, block, size := ProcessInstruction(instr, instrAddr);
      next := blocks + [block];
      if !ok || (IsInBranch(instrAddr) && size != 4) {
        ok := false;
        return;
      }
      assert all == if finished then Some(Built(next, false))
                    else if 4 * |next| >= margin then Some(Built(next, true))
                    else BuildFrom(ws, target, margin, branchAddress, next);
      AddBlock(emitter, block, blocks);
      totalBytes := totalBytes + 4;
      FinishIfFull(emitter, next);
    }

    // `ws` are the words at `target`, read one at a time by the source.
    method Build(ws: seq<word>) returns (r: Option<Trampoline>)
      requires ReadableWords(ws, target, margin)
      requires totalBytes == 0 && !finished && branchAddress == None
      modifies this
      ensures
        var b := BuildFrom(ws, target, margin, None, []);
        && (r.Some? <==> b.Some?)
        && (b.Some? ==> fresh(r.value) && fresh(r.value.emitter)
                        && r.value.prologSize == 4 * |b.value.blocks|
                        && r.value.emitter.thunks == Thunks(AllBlocks(b.value, target)))
    {
      var emitter := new CodeEmitter();
      ghost var blocks: seq<Block> := [];
      ghost var all := BuildFrom(ws, target, margin, None, []);
      while !finished
        invariant totalBytes == 4 * |blocks| && fresh(emitter)
        invariant !finished ==> |blocks| < |ws| && emitter.thunks == Thunks(blocks)
        invariant !finished ==> all == BuildFrom(ws, target, margin, branchAddress, blocks)
        invariant finished ==> all.Some? && all.value.blocks == blocks
        invariant finished ==> emitter.thunks == Thunks(AllBlocks(all.value, target))
        decreases !finished, |ws| - |blocks|
      {
        var ok;
        ok, blocks := Advance(ws[totalBytes / 4], emitter, ws, blocks);
        if !ok {
          return None;
        }
      }
      var trampoline := new Trampoline(emitter, totalBytes);
      r := Some(trampoline);
    }
  }

  // ---- what it means -------------------------------------------------------

  // The same in terms of the decoded instruction.
  ghost predicate Meant(p: Processed, i: I.Instr, instr: word, pc: u64, target: u64, margin: nat, branch: Option<u64>) {
    match i
    case B(imm) =>
      var dest := Wrap(pc + imm);
      p == BranchTo(instr, dest, Jump(dest), 16, !InBranch(branch, pc), target, margin, branch)
    case Cbz(wide, negate, rt, imm) =>
      var dest := Wrap(pc + imm);
      0 <= rt < 0x20 &&
      p == BranchTo(instr, dest, CbzFar(rt, wide, negate, dest), 20, false, target, margin, branch)
    case Tbz(bit, negate, rt, imm) =>
      var dest := Wrap(pc + imm);
      0 <= rt < 0x20 && 0 <= bit < 0x40 &&
      p == BranchTo(instr, dest, TbzFar(rt, bit, negate, dest), 20, false, target, margin, branch)
    case Adr(rd, imm) => 0 <= rd < 0x20 && p == Processed(MovImm(rd, Wrap(pc + imm)), 16, false, branch)
    case Adrp(rd, imm) =>
      0 <= rd < 0x20 && p == Processed(MovImm(rd, Wrap(pc - pc % 0x1000 + imm)), 16, false, branch)
    case Literal(op, rt, imm) =>
      && 0 <= rt < 0x20 && 0 <= op < 4
      && p == if op == 3 then Processed(Nop, 4, false, branch)
              else Processed(LdrLiteral(op, rt, Wrap(pc + imm)), 20, false, branch)
    case Ret(_) => p == Processed(Copy(instr), 4, !InBranch(branch, pc), branch)
    case Special(Bl(imm)) => p == Processed(Calls(Wrap(pc + imm)), 16, false, branch)
    case _ => p == Processed(Copy(instr), 4, false, branch)
  }

  // The bits the builder selects, as fields.
  lemma SameBits(w: word, hi: int, mid: int, rt: int)
    requires I.Split(w) == I.Fields(hi, mid, rt)
    ensures w % 0x20 == rt && w / 0x20 % 0x8_0000 == mid && w / 0x20 % 0x4000 == mid % 0x4000
    ensures w % 0x400_0000 == hi % 4 * 0x100_0000 + mid * 0x20 + rt
    ensures w / 0x400 == hi * 0x4000 + mid / 0x20 && w / 0x8_0000 % 0x20 == mid / 0x4000
    ensures w / 0x100_0000 == hi
  {
    var a := w / 0x20;
    assert w == rt + 0x20 * a && a == mid + 0x8_0000 * hi;
    Low26(w, hi, mid * 0x20 + rt);
    Middle(a, hi, mid);
  }

  lemma Low26(w: word, hi: int, low: int)
    requires w == low + 0x100_0000 * hi && 0 <= low < 0x100_0000 && 0 <= hi < 0x100
    ensures w / 0x100_0000 == hi
    ensures w % 0x400_0000 == hi % 4 * 0x100_0000 + low
  {
    var q, r := hi / 4, hi % 4;
    assert w == q * 0x400_0000 + (r * 0x100_0000 + low);
  }

  lemma Middle(a: int, hi: int, mid: int)
    requires a == mid + 0x8_0000 * hi && 0 <= mid < 0x8_0000 && 0 <= hi < 0x100
    ensures a % 0x4000 == mid % 0x4000 && a / 0x20 == hi * 0x4000 + mid / 0x20 && a / 0x4000 % 0x20 == mid / 0x4000
  {
    var q, r := mid / 0x4000, mid % 0x4000;
    assert a == (q + 0x20 * hi) * 0x4000 + r;
    assert a / 0x4000 == q + 0x20 * hi;
    assert (q + 0x20 * hi) % 0x20 == q;
  }

  lemma HighBits(w: word, hi: int)
    requires w / 0x100_0000 == hi
    ensures w / 0x400_0000 == hi / 4 && w / 0x200_0000 % 0x40 == hi % 0x80 / 2
    ensures w / 0x8000_0000 == hi / 0x80 && w / 0x2000_0000 % 4 == hi / 0x20 % 4 && w / 0x4000_0000 % 4 == hi / 0x40
  {
    var low := w % 0x100_0000;
    assert w == hi * 0x100_0000 + low;
    assert w / 0x200_0000 == hi / 2;
    assert w / 0x400_0000 == hi / 4;
    assert w / 0x2000_0000 == hi / 0x20;
    assert w / 0x4000_0000 == hi / 0x40;
    assert w / 0x8000_0000 == hi / 0x80;
  }

  lemma WrapMul(x: int, c: int)
    ensures Wrap(c * Wrap(x)) == Wrap(c * x)
  {
    var q := x / TWO64;
    assert x == q * TWO64 + Wrap(x);
    assert c * x == c * Wrap(x) + (c * q) * TWO64;
    Periodic(c * Wrap(x), c * q);
  }

  lemma DestMeans(pc: u64, value: int, bits: int, x: int)
    requires bits in {14, 19, 21, 26} && SignExtend(value, bits) == Wrap(x)
    ensures Dest(pc, value, bits) == Wrap(pc + 4 * x)
  {
    WrapMul(x, 4);
    WrapAdd(4 * x, pc);
  }

  // What the builder selects, in terms of the fields.
  ghost predicate Bits(w: word, f: I.Fields) {
    && f == I.Split(w)
    && w % 0x20 == f.rt && w / 0x20 % 0x8_0000 == f.mid && w / 0x20 % 0x4000 == f.mid % 0x4000
    && w % 0x400_0000 == f.hi % 4 * 0x100_0000 + f.mid * 0x20 + f.rt
    && w / 0x400 == f.hi * 0x4000 + f.mid / 0x20 && w / 0x8_0000 % 0x20 == f.mid / 0x4000
    && w / 0x100_0000 == f.hi
    && w / 0x400_0000 == f.hi / 4 && w / 0x200_0000 % 0x40 == f.hi % 0x80 / 2
    && w / 0x8000_0000 == f.hi / 0x80 && w / 0x2000_0000 % 4 == f.hi / 0x20 % 4
    && w / 0x4000_0000 % 4 == f.hi / 0x40
  }

  // A pattern and the instruction it stands for.
  ghost predicate StandsFor(p: Pattern, i: I.Instr) {
    match i
    case B(imm) => p.PB? && 0 <= p.imm26 < 0x400_0000 && imm == 4 * Signed(p.imm26, 0x400_0000)
    case Cbz(wide, negate, rt, imm) =>
      p.PCbz? && p == PCbz(rt, wide, negate, p.imm19)
      && 0 <= p.imm19 < 0x8_0000 && imm == 4 * Signed(p.imm19, 0x8_0000)
    case Tbz(bit, negate, rt, imm) =>
      p.PTbz? && p == PTbz(rt, bit, negate, p.imm14)
      && 0 <= p.imm14 < 0x4000 && imm == 4 * Signed(p.imm14, 0x4000)
    case Adr(rd, imm) =>
      p.PAdr? && p == PAdr(rd, false, p.imm21) && 0 <= p.imm21 < 0x20_0000 && imm == Signed(p.imm21, 0x20_0000)
    case Adrp(rd, imm) =>
      p.PAdr? && p == PAdr(rd, true, p.imm21) && 0 <= p.imm21 < 0x20_0000
      && imm == Signed(p.imm21, 0x20_0000) * 0x1000
    case Literal(op, rt, imm) =>
      p.PLiteral? && p == PLiteral(op, rt, p.imm19)
      && 0 <= p.imm19 < 0x8_0000 && imm == 4 * Signed(p.imm19, 0x8_0000)
    case Ret(_) => p == PRet
    case Special(Bl(imm)) => p.PBl? && 0 <= p.imm26 < 0x400_0000 && imm == 4 * Signed(p.imm26, 0x400_0000)
    case Special(Unknown(_)) => p == PSimd || p == PRest
    case _ => p == PRest
  }

  lemma MatchMeans(instr: word)
    ensures StandsFor(Match(instr), I.Decode(instr))
  {
    var f := I.Split(instr);
    SameBits(instr, f.hi, f.mid, f.rt);
    HighBits(instr, f.hi);
    Dispatch(instr, f);
  }

  predicate IsBranch(f: I.Fields) {
    f.hi / 4 == 5 || f.hi % 0x80 / 2 == 0x1A || f.hi % 0x80 / 2 == 0x1B
  }

  lemma Dispatch(instr: word, f: I.Fields)
    requires Bits(instr, f)
    ensures StandsFor(Match(instr), I.Decode(instr))
  {
    if f.hi / 4 == 5 {
      MatchB(instr, f);
    } else if f.hi % 0x80 / 2 == 0x1A {
      MatchCbz(instr, f);
    } else if f.hi % 0x80 / 2 == 0x1B {
      MatchTbz(instr, f);
    } else if f.hi % 0x20 == 0x10 {
      assert Match(instr).PAdr?;
    } else if f.hi == 0xD6 || f.hi == 0xD7 {
      MatchRegister(instr, f);
    } else {
      MatchOther(instr, f);
    }
  }

  lemma MatchB(instr: word, f: I.Fields)
    requires Bits(instr, f) && f.hi / 4 == 5
    ensures StandsFor(Match(instr), I.Decode(instr))
  {
    assert I.Decode(instr).B? && Match(instr).PB?;
  }

  lemma MatchCbz(instr: word, f: I.Fields)
    requires Bits(instr, f) && f.hi % 0x80 / 2 == 0x1A
    ensures StandsFor(Match(instr), I.Decode(instr))
  {
    assert I.Decode(instr).Cbz? && Match(instr).PCbz?;
  }

  lemma MatchTbz(instr: word, f: I.Fields)
    requires Bits(instr, f) && f.hi % 0x80 / 2 == 0x1B
    ensures StandsFor(Match(instr), I.Decode(instr))
  {
    assert I.Decode(instr).Tbz? && Match(instr).PTbz?;
  }

  lemma MatchRegister(instr: word, f: I.Fields)
    requires Bits(instr, f) && (f.hi == 0xD6 || f.hi == 0xD7)
    ensures StandsFor(Match(instr), I.Decode(instr))
  {
  }

  lemma MatchOther(instr: word, f: I.Fields)
    requires Bits(instr, f) && !IsBranch(f) && f.hi % 0x20 != 0x10 && f.hi != 0xD6 && f.hi != 0xD7
    ensures StandsFor(Match(instr), I.Decode(instr))
  {
  }

  lemma RelocateMeans(p: Pattern, i: I.Instr, instr: word, pc: u64, target: u64, margin: nat, branch: Option<u64>)
    requires p.Valid() && StandsFor(p, i) && Relocate(p, instr, pc, target, margin, branch).Some?
    ensures Meant(Relocate(p, instr, pc, target, margin, branch).value, i, instr, pc, target, margin, branch)
  {
    if i.B? || i.Cbz? || i.Tbz? {
      RelocateBranch(p, i, instr, pc, target, margin, branch);
    } else if i.Adr? || i.Adrp? {
      RelocateAddress(p, i, instr, pc, target, margin, branch);
    } else if p.PBl? {
      RelocateCall(p, i, instr, pc, target, margin, branch);
    } else {
      RelocateOther(p, i, instr, pc, target, margin, branch);
    }
  }

  lemma RelocateBranch(p: Pattern, i: I.Instr, instr: word, pc: u64, target: u64, margin: nat, branch: Option<u64>)
    requires p.Valid() && StandsFor(p, i) && (i.B? || i.Cbz? || i.Tbz?)
    requires Relocate(p, instr, pc, target, margin, branch).Some?
    ensures Meant(Relocate(p, instr, pc, target, margin, branch).value, i, instr, pc, target, margin, branch)
  {
    match i
    case B(_) =>
      SignExtendMeaning(p.imm26);
      DestMeans(pc, p.imm26, 26, Signed(p.imm26, 0x400_0000));
    case Cbz(_, _, _, _) =>
      SignExtendMeaning(p.imm19);
      DestMeans(pc, p.imm19, 19, Signed(p.imm19, 0x8_0000));
    case Tbz(_, _, _, _) =>
      SignExtendMeaning(p.imm14);
      DestMeans(pc, p.imm14, 14, Signed(p.imm14, 0x4000));
  }

  lemma RelocateAddress(p: Pattern, i: I.Instr, instr: word, pc: u64, target: u64, margin: nat, branch: Option<u64>)
    requires p.Valid() && StandsFor(p, i) && (i.Adr? || i.Adrp?)
    requires Relocate(p, instr, pc, target, margin, branch).Some?
    ensures Meant(Relocate(p, instr, pc, target, margin, branch).value, i, instr, pc, target, margin, branch)
  {
    SignExtendMeaning(p.imm21);
    AdrDest(pc, Signed(p.imm21, 0x20_0000), SignExtend(p.imm21, 21));
  }

  lemma RelocateCall(p: Pattern, i: I.Instr, instr: word, pc: u64, target: u64, margin: nat, branch: Option<u64>)
    requires p.Valid() && StandsFor(p, i) && p.PBl?
    ensures Meant(Relocate(p, instr, pc, target, margin, branch).value, i, instr, pc, target, margin, branch)
  {
    if i.Special? && i.s.Bl? {
      SignExtendMeaning(p.imm26);
      DestMeans(pc, p.imm26, 26, Signed(p.imm26, 0x400_0000));
    }
  }

  lemma RelocateOther(p: Pattern, i: I.Instr, instr: word, pc: u64, target: u64, margin: nat, branch: Option<u64>)
    requires p.Valid() && StandsFor(p, i) && !(i.B? || i.Cbz? || i.Tbz? || i.Adr? || i.Adrp? || p.PBl?)
    requires Relocate(p, instr, pc, target, margin, branch).Some?
    ensures Meant(Relocate(p, instr, pc, target, margin, branch).value, i, instr, pc, target, margin, branch)
  {
    if i.Literal? {
      SignExtendMeaning(p.imm19);
      DestMeans(pc, p.imm19, 19, Signed(p.imm19, 0x8_0000));
    }
  }

  lemma AdrDest(pc: u64, x: int, imm: u64)
    requires imm == Wrap(x)
    ensures Wrap(pc + imm) == Wrap(pc + x)
    ensures Wrap(pc - pc % 0x1000 + Wrap(imm * 0x1000)) == Wrap(pc - pc % 0x1000 + x * 0x1000)
  {
    WrapAdd(x, pc);
    WrapMul(x, 0x1000);
    WrapAdd(x * 0x1000, pc - pc % 0x1000);
  }

  // A literal load to a SIMD register: section C6.2.
  predicate IsSimdLiteral(instr: word) {
    I.Split(instr).hi % 0x40 == 0x1C
  }

  lemma SimdOnly(instr: word)
    ensures Match(instr).PSimd? <==> IsSimdLiteral(instr)
  {
    var f := I.Split(instr);
    SameBits(instr, f.hi, f.mid, f.rt);
    HighBits(instr, f.hi);
    SimdBits(instr, f, f.hi);
  }

  lemma SimdBits(instr: word, f: I.Fields, hi: int)
    requires Bits(instr, f) && hi == f.hi
    ensures Match(instr).PSimd? <==> hi % 0x40 == 0x1C
  {
    if hi % 0x40 == 0x1C {
      HighOnly(hi);
    }
  }

  lemma HighOnly(hi: int)
    requires 0 <= hi < 0x100 && hi % 0x40 == 0x1C
    ensures hi / 4 != 0x05 && hi / 4 != 0x25 && hi % 0x80 / 2 != 0x1A && hi % 0x80 / 2 != 0x1B && hi % 0x20 != 0x10
  {
  }

  // The builder accepts every word but the literal loads to SIMD registers.
  lemma ProcessMeans(instr: word, pc: u64, target: u64, margin: nat, branch: Option<u64>)
    ensures
      match Process(instr, pc, target, margin, branch)
      case None => IsSimdLiteral(instr)
      case Some(p) => !IsSimdLiteral(instr) && Meant(p, I.Decode(instr), instr, pc, target, margin, branch)
  {
    SimdOnly(instr);
    if Process(instr, pc, target, margin, branch).Some? {
      MatchMeans(instr);
      RelocateMeans(Match(instr), I.Decode(instr), instr, pc, target, margin, branch);
    }
  }
}
