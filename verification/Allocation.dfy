// Emitting code into memory that was allocated for it, src/arch/memory.rs.
module Allocation {
  import opened Machine
  import opened Emitter
  import opened Patching

  // Memory holds the code that thunk k generates for its own address.
  ghost predicate ThunkAt(m: Memory, base: u64, thunks: seq<Thunk>, k: nat)
    requires k < |thunks|
  {
    Sound(thunks, base, k) && Holds(m, base + Offset(thunks, k), CodeAt(thunks, base, k))
  }

  // The buffer at `base` is as long as the emitter's code.  None is a panic of
  // the emission; memory is then left as it was.
  method AllocatePic(code: CodeMemory, emitter: CodeEmitter, base: u64) returns (length: Option<nat>)
    requires base + Offset(emitter.thunks, |emitter.thunks|) <= TWO64
    modifies code
    ensures length.Some? <==> Emission(emitter.thunks, base, |emitter.thunks|).Some?
    ensures length.None? ==> code.bytes == old(code.bytes)
    ensures length.Some? ==> length.value == Offset(emitter.thunks, |emitter.thunks|)
    ensures length.Some? ==> forall k {:trigger ThunkAt(code.bytes, base, emitter.thunks, k)} ::
              0 <= k < |emitter.thunks| ==> ThunkAt(code.bytes, base, emitter.thunks, k)
    ensures length.Some? ==> forall x: u64 | !Within(base, length.value, x) :: SameAt(old(code.bytes), code.bytes, x)
  {
    length := None;
    var n := emitter.Len();
    var bytes := emitter.Emit(base);
    if bytes.Some? {
      EmissionLength(emitter.thunks, base, |emitter.thunks|);
      Written(code.bytes, base, emitter.thunks, bytes.value);
      code.bytes := Write(code.bytes, base, bytes.value);
      length := Some(n);
    }
  }

  // A successful emission, once written, puts every thunk in its place and
  // touches nothing else.
  lemma Written(m: Memory, base: u64, thunks: seq<Thunk>, bytes: seq<byte>)
    requires Emission(thunks, base, |thunks|) == Some(bytes) && base + |bytes| <= TWO64
    ensures
      var after := Write(m, base, bytes);
      forall k {:trigger ThunkAt(after, base, thunks, k)} :: 0 <= k < |thunks| ==> ThunkAt(after, base, thunks, k)
    ensures forall x: u64 | !Within(base, |bytes|, x) :: SameAt(m, Write(m, base, bytes), x)
  {
    var after := Write(m, base, bytes);
    WriteHolds(m, base, bytes);
    forall k | 0 <= k < |thunks| ensures ThunkAt(after, base, thunks, k) {
      EmittedThunk(after, base, thunks, bytes, k);
    }
  }
}
