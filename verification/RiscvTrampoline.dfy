// The RISC-V trampoline builder of src/arch/riscv/trampoline/mod.rs.
module RiscvTrampoline {
  import opened Machine
  import opened Prolog
  import opened Emitter
  import I = RiscvIsa
  import T = RiscvThunk

  // The low bits of a u32 reinterpreted as an i32.
  function AsI32(x: int): int
    requires 0 <= x < 0x1_0000_0000
  {
    if x < 0x8000_0000 then x else x - 0x1_0000_0000
  }

  // ((raw << 11) as i32) >> 11
  function DecodeJType(instr: word): int {
    var hi := instr / 0x80 / 0x20;
    var imm19_12, hi11 := hi % 0x100, hi / 0x100;
    var imm11, hi1 := hi11 % 2, hi11 / 2;
    var imm10_1, imm20 := hi1 % 0x400, hi1 / 0x400 % 2;
    var raw := imm20 * 0x10_0000 + imm19_12 * 0x1000 + imm11 * 0x800 + imm10_1 * 2;
    AsI32(raw * 0x800) / 0x800
  }

  // ((raw << 19) as i32) >> 19
  function DecodeBType(instr: word): int {
    var f := I.Split(instr);
    var imm12, imm10_5, imm4_1, imm11 := f.funct7 / 0x40 % 2, f.funct7 % 0x40, f.rd / 2, f.rd % 2;
    var raw := imm12 * 0x1000 + imm11 * 0x800 + imm10_5 * 0x20 + imm4_1 * 2;
    AsI32(raw * 0x8_0000) / 0x8_0000
  }

  // instr as i32 & 0xFFFFF000
  function PageDisp(instr: word): int {
    AsI32(instr / 0x80 / 0x20 * 0x1000)
  }

  lemma DecodeJMeaning(instr: word)
    ensures DecodeJType(instr) == I.ImmJ(instr)
  {
    var hi1 := instr / 0x80 / 0x20 / 0x100 / 2;
    assert hi1 / 0x400 < 2;
  }

  lemma DecodeBMeaning(instr: word)
    ensures DecodeBType(instr) == I.ImmB(I.Split(instr))
  {
  }

  lemma PageDispMeaning(instr: word)
    ensures PageDisp(instr) == I.ImmU(instr)
  {
  }

  // What `process` returns and the fields it leaves behind, for a builder
  // that is not finished yet.
  datatype Processed = Processed(block: T.Block, finished: bool, branch: Option<u64>)

  // None is UnsupportedInstruction.
  function Process(instr: word, pc: u64, target: u64, margin: nat, branch: Option<u64>)
    : (r: Option<Processed>)
    ensures r.Some? ==> r.value.block.Valid()
  {
    var f := I.Split(instr);
    if instr % 4 != 3 then None
    else if f.opcode == 0x6F then
      var dest := Wrap(pc + DecodeJType(instr));
      var finished := f.rd == 0 && !InBranch(branch, pc);
      if InProlog(target, margin, dest) then Some(Processed(T.Copy(instr), finished, Track(branch, dest)))
      else Some(Processed(T.Jump(f.rd, dest), finished, branch))
    else if f.opcode == 0x67 then
      Some(Processed(T.Copy(instr), f.rd == 0 && !InBranch(branch, pc), branch))
    else if f.opcode == 0x17 then
      Some(Processed(T.LoadImm(f.rd, Wrap(pc + PageDisp(instr))), false, branch))
    else if f.opcode == 0x63 then
      var dest := Wrap(pc + DecodeBType(instr));
      if InProlog(target, margin, dest) then Some(Processed(T.Copy(instr), false, Track(branch, dest)))
      else Some(Processed(T.Far(instr, dest), false, branch))
    else Some(Processed(T.Copy(instr), false, branch))
  }

  // The same in terms of the decoded instruction.
  ghost predicate Meant(p: Processed, i: I.Instr, instr: word, pc: u64, target: u64, margin: nat,
                        branch: Option<u64>)
  {
    match i
    case Jal(rd, imm) =>
      var dest, finished := Wrap(pc + imm), rd == 0 && !InBranch(branch, pc);
      0 <= rd < 0x20 &&
      p == if InProlog(target, margin, dest)
           then Processed(T.Copy(instr), finished, Track(branch, dest))
           else Processed(T.Jump(rd, dest), finished, branch)
    case Jalr(rd, _, _) => p == Processed(T.Copy(instr), rd == 0 && !InBranch(branch, pc), branch)
    case Auipc(rd, disp) =>
      0 <= rd < 0x20 && p == Processed(T.LoadImm(rd, Wrap(pc + disp)), false, branch)
    case Branch(funct3, rs1, rs2, imm) =>
      var dest := Wrap(pc + imm);
      var f := I.Split(instr);
      && funct3 in {0, 1, 4, 5, 6, 7} && f.funct3 == funct3 && f.rs1 == rs1 && f.rs2 == rs2
      && (if InProlog(target, margin, dest)
          then p == Processed(T.Copy(instr), false, Track(branch, dest))
          else p == Processed(T.Far(instr, dest), false, branch))
    case Ld(_, _, _) => p == Processed(T.Copy(instr), false, branch)
    case Other(_) => p == Processed(T.Copy(instr), false, branch)
    case Illegal =>
      var f := I.Split(instr);
      if f.opcode == 0x67 then p == Processed(T.Copy(instr), f.rd == 0 && !InBranch(branch, pc), branch)
      else
        var dest := Wrap(pc + I.ImmB(f));
        && f.opcode == 0x63 && f.funct3 in {2, 3}
        && (if InProlog(target, margin, dest)
            then p == Processed(T.Copy(instr), false, Track(branch, dest))
            else p == Processed(T.Far(instr, dest), false, branch))
  }

  // The builder accepts exactly the words that are no compressed instructions.
  lemma ProcessMeans(instr: word, pc: u64, target: u64, margin: nat, branch: Option<u64>)
    ensures
      match Process(instr, pc, target, margin, branch)
      case None => instr % 4 != 3
      case Some(p) => instr % 4 == 3 && Meant(p, I.Decode(instr), instr, pc, target, margin, branch)
  {
    var f := I.Split(instr);
    if instr % 4 == 3 && f.opcode == 0x63 {
      ProcessBranchMeans(instr, f, pc, target, margin, branch);
    } else if f.opcode == 0x6F {
      DecodeJMeaning(instr);
    } else if f.opcode == 0x17 {
      PageDispMeaning(instr);
    }
  }

  lemma ProcessBranchMeans(instr: word, f: I.Fields, pc: u64, target: u64, margin: nat,
                           branch: Option<u64>)
    requires instr % 4 == 3 && f == I.Split(instr) && f.opcode == 0x63
    ensures
      var p := Process(instr, pc, target, margin, branch);
      p.Some? && Meant(p.value, I.Decode(instr), instr, pc, target, margin, branch)
  {
    DecodeBMeaning(instr);
  }

  // One block per disassembled word; `jump` says that the continuation jump
  // follows the last of them.
  datatype Built = Built(blocks: seq<T.Block>, jump: bool)

  // What `build` goes on to make, with the blocks of the words before i done.
  ghost function BuildFrom(ws: seq<word>, target: u64, margin: nat, branch: Option<u64>,
                           done: seq<T.Block>): Option<Built>
    requires ReadableWords(ws, target, margin) && |done| < |ws|
    decreases |ws| - |done|
  {
    var pc := target + 4 * |done|;
    match Process(ws[|done|], pc, target, margin, branch)
    case None => None
    case Some(p) =>
      if InBranch(p.branch, pc) && p.block.Size() != 4 then None
      else if p.finished then Some(Built(done + [p.block], false))
      else if 4 * (|done| + 1) >= margin then Some(Built(done + [p.block], true))
      else BuildFrom(ws, target, margin, p.branch, done + [p.block])
  }

  // The blocks with the continuation jump, if there is one.
  function AllBlocks(b: Built, target: u64): seq<T.Block> {
    if b.jump then b.blocks + [T.Jump(0, Wrap(target + 4 * |b.blocks|))] else b.blocks
  }

  // Vec<u8> as a thunk: the same bytes at every address.
  function AsThunk(block: T.Block): Thunk {
    Thunk(_ => if block.Valid() then Some(block.Encode()) else None, block.Size())
  }

  function Thunks(blocks: seq<T.Block>): (ts: seq<Thunk>)
    ensures |ts| == |blocks|
  {
    seq(|blocks|, k requires 0 <= k < |blocks| => AsThunk(blocks[k]))
  }

  lemma ThunksAppend(blocks: seq<T.Block>, block: T.Block)
    ensures Thunks(blocks + [block]) == Thunks(blocks) + [AsThunk(block)]
  {
  }

  method AddBlock(emitter: CodeEmitter, block: T.Block, ghost blocks: seq<T.Block>)
    requires emitter.thunks == Thunks(blocks)
    modifies emitter
    ensures emitter.thunks == Thunks(blocks + [block])
  {
    emitter.AddThunk(AsThunk(block));
    ThunksAppend(blocks, block);
  }

  class Trampoline {
    const emitter: CodeEmitter
    const prologSize: nat

    constructor (emitter: CodeEmitter, prologSize: nat)
      ensures this.emitter == emitter && this.prologSize == prologSize
    {
      this.emitter := emitter;
      this.prologSize := prologSize;
    }
  }

  class Builder {
    const target: u64
    const margin: nat
    var totalBytes: nat
    var finished: bool
    var branchAddress: Option<u64>

    constructor (target: u64, margin: nat)
      ensures this.target == target && this.margin == margin
      ensures totalBytes == 0 && !finished && branchAddress == None
    {
      this.target, this.margin := target, margin;
      totalBytes, finished, branchAddress := 0, false, None;
    }

    predicate IsInBranch(pc: int)
      reads this`branchAddress
    {
      InBranch(branchAddress, pc)
    }

    method TrackBranch(dest: u64)
      modifies this`branchAddress
      ensures branchAddress == Track(old(branchAddress), dest)
    {
      if branchAddress.None? || dest > branchAddress.value {
        branchAddress := Some(dest);
      }
    }

    // The size is known from the block, as the source takes it from the thunk.
    method ProcessInstruction(instr: word, pc: u64) returns (r: Option<T.Block>)
      requires !finished
      modifies this`finished, this`branchAddress
      ensures
        var p := Process(instr, pc, target, margin, old(branchAddress));
        && (r.Some? <==> p.Some?)
        && (p.Some? ==> r.value == p.value.block && finished == p.value.finished
                        && branchAddress == p.value.branch)
    {
      if instr % 4 != 3 {
        return None;
      }
      var f := I.Split(instr);
      if f.opcode == 0x6F {
        var dest := Wrap(pc + DecodeJType(instr));
        if f.rd == 0 {
          finished := !IsInBranch(pc);
        }
        if InProlog(target, margin, dest) {
          TrackBranch(dest);
          return Some(T.Copy(instr));
        }
        return Some(T.Jump(f.rd, dest));
      } else if f.opcode == 0x67 {
        if f.rd == 0 {
          finished := !IsInBranch(pc);
        }
        return Some(T.Copy(instr));
      } else if f.opcode == 0x17 {
        return Some(T.LoadImm(f.rd, Wrap(pc + PageDisp(instr))));
      } else if f.opcode == 0x63 {
        var dest := Wrap(pc + DecodeBType(instr));
        if InProlog(target, margin, dest) {
          TrackBranch(dest);
          return Some(T.Copy(instr));
        }
        return Some(T.Far(instr, dest));
      }
      return Some(T.Copy(instr));
    }

    // The continuation jump, once the margin is covered.
    method FinishIfFull(emitter: CodeEmitter, ghost blocks: seq<T.Block>)
      requires totalBytes == 4 * |blocks| && target + totalBytes < TWO64
      requires emitter.thunks == Thunks(blocks)
      modifies this`finished, emitter
      ensures
        var full := totalBytes >= margin && !old(finished);
        && finished == (old(finished) || full)
        && emitter.thunks == Thunks(AllBlocks(Built(blocks, full), target))
    {
      if totalBytes >= margin && !finished {
        WrapSmall(target + totalBytes);
        AddBlock(emitter, T.Jump(0, target + totalBytes), blocks);
        finished := true;
      }
    }

    // `ws` are the words at `target`, read one at a time by the source.
    method Build(ws: seq<word>) returns (r: Option<Trampoline>)
      requires ReadableWords(ws, target, margin)
      requires totalBytes == 0 && !finished && branchAddress == None
      modifies this
      ensures
        var b := BuildFrom(ws, target, margin, None, []);
        && (r.Some? <==> b.Some?)
        && (b.Some? ==> fresh(r.value) && fresh(r.value.emitter)
                        && r.value.prologSize == 4 * |b.value.blocks|
                        && r.value.emitter.thunks == Thunks(AllBlocks(b.value, target)))
    {
      var emitter := new CodeEmitter();
      ghost var blocks: seq<T.Block> := [];
      ghost var all := BuildFrom(ws, target, margin, None, []);
      while !finished
        invariant totalBytes == 4 * |blocks| && fresh(emitter)
        invariant !finished ==> |blocks| < |ws| && emitter.thunks == Thunks(blocks)
        invariant !finished ==> all == BuildFrom(ws, target, margin, branchAddress, blocks)
        invariant finished ==> all.Some? && all.value.blocks == blocks
        invariant finished ==> emitter.thunks == Thunks(AllBlocks(all.value, target))
        decreases !finished, |ws| - |blocks|
      {
        var instrAddr := target + totalBytes;
        var processed := ProcessInstruction(ws[totalBytes / 4], instrAddr);
        if processed.None? {
          return None;
        }
        if IsInBranch(instrAddr) && processed.value.Size() != 4 {
          return None;
        }
        AddBlock(emitter, processed.value, blocks);
        blocks := blocks + [processed.value];
        totalBytes := totalBytes + 4;
        FinishIfFull(emitter, blocks);
      }
      var trampoline := new Trampoline(emitter, totalBytes);
      r := Some(trampoline);
    }
  }
}
