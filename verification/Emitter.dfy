// Thunks and the code emitter of src/pic.
module Emitter {
  import opened Machine

  // The Thunkable trait: code for an address, and the announced length.  A
  // thunk that panics at an address yields None there.
  datatype Thunk = Thunk(generate: u64 -> Option<seq<byte>>, len: nat)

  // Total length of the first `n` thunks, the offset of thunk `n`.
  function Offset(thunks: seq<Thunk>, n: nat): nat
    requires n <= |thunks|
  {
    if n == 0 then 0 else Offset(thunks, n - 1) + thunks[n - 1].len
  }

  // Thunk k does not panic at the address it is emitted at and keeps to the
  // length it announced.
  ghost predicate Sound(thunks: seq<Thunk>, base: u64, k: nat)
    requires k < |thunks|
  {
    var code := thunks[k].generate(Wrap(base + Offset(thunks, k)));
    code.Some? && |code.value| == thunks[k].len
  }

  function CodeAt(thunks: seq<Thunk>, base: u64, k: nat): seq<byte>
    requires k < |thunks|
  {
    match thunks[k].generate(Wrap(base + Offset(thunks, k)))
    case None => []
    case Some(code) => code
  }

  // The code of the first n thunks; None once one of them is unsound.
  ghost function Emission(thunks: seq<Thunk>, base: u64, n: nat): Option<seq<byte>>
    requires n <= |thunks|
  {
    if n == 0 then Some([])
    else
      match Emission(thunks, base, n - 1)
      case None => None
      case Some(code) =>
        if Sound(thunks, base, n - 1) then Some(code + CodeAt(thunks, base, n - 1)) else None
  }

  class CodeEmitter {
    var thunks: seq<Thunk>

    constructor ()
      ensures thunks == []
    {
      thunks := [];
    }

    method AddThunk(thunk: Thunk)
      modifies this
      ensures thunks == old(thunks) + [thunk]
    {
      thunks := thunks + [thunk];
    }

    method Len() returns (sum: nat)
      ensures sum == Offset(thunks, |thunks|)
    {
      sum := 0;
      for i := 0 to |thunks|
        invariant sum == Offset(thunks, i)
      {
        sum := sum + thunks[i].len;
      }
    }

    // None stands for a panic: a closure that asserts, or the length check.
    method Emit(base: u64) returns (r: Option<seq<byte>>)
      ensures r == Emission(thunks, base, |thunks|)
    {
      var result: seq<byte> := [];
      var address := base;
      for i := 0 to |thunks|
        invariant address == Wrap(base + Offset(thunks, i))
        invariant Emission(thunks, base, i) == Some(result)
      {
        var code := thunks[i].generate(address);
        if code.None? || |code.value| != thunks[i].len {
          EmissionStuck(thunks, base, i + 1, |thunks|);
          return None;
        }
        WrapAdd(base + Offset(thunks, i), thunks[i].len);
        address := Wrap(address + thunks[i].len);
        result := result + code.value;
      }
      return Some(result);
    }
  }

  lemma WrapAdd(a: int, b: int)
    ensures Wrap(Wrap(a) + b) == Wrap(a + b)
  {
  }

  lemma {:induction false} OffsetMonotone(thunks: seq<Thunk>, i: nat, j: nat)
    requires i <= j <= |thunks|
    ensures Offset(thunks, i) <= Offset(thunks, j)
    decreases j - i
  {
    if i < j {
      OffsetMonotone(thunks, i, j - 1);
    }
  }

  lemma {:induction false} EmissionStuck(thunks: seq<Thunk>, base: u64, i: nat, n: nat)
    requires i <= n <= |thunks| && Emission(thunks, base, i).None?
    ensures Emission(thunks, base, n).None?
    decreases n - i
  {
    if i < n {
      EmissionStuck(thunks, base, i, n - 1);
    }
  }

  // Emission succeeds exactly when every thunk is sound at its own address.
  lemma {:induction false} EmissionSucceeds(thunks: seq<Thunk>, base: u64, n: nat)
    requires n <= |thunks|
    ensures Emission(thunks, base, n).Some? <==> forall k | 0 <= k < n :: Sound(thunks, base, k)
  {
    if n > 0 {
      EmissionSucceeds(thunks, base, n - 1);
    }
  }

  // Every thunk's bytes lie at its own offset, and the length is len().
  lemma {:induction false} EmissionPlaces(thunks: seq<Thunk>, base: u64, n: nat, k: nat)
    requires k < n <= |thunks| && Emission(thunks, base, n).Some?
    ensures
      var code := Emission(thunks, base, n).value;
      var lo, hi := Offset(thunks, k), Offset(thunks, k + 1);
      && |code| == Offset(thunks, n)
      && 0 <= lo <= hi <= |code|
      && Sound(thunks, base, k) && code[lo..hi] == CodeAt(thunks, base, k)
    decreases n
  {
    var code := Emission(thunks, base, n).value;
    var init := Emission(thunks, base, n - 1).value;
    EmissionLength(thunks, base, n - 1);
    if k < n - 1 {
      EmissionPlaces(thunks, base, n - 1, k);
      var lo, hi := Offset(thunks, k), Offset(thunks, k + 1);
      assert code[lo..hi] == init[lo..hi];
    }
  }

  lemma {:induction false} EmissionLength(thunks: seq<Thunk>, base: u64, n: nat)
    requires n <= |thunks| && Emission(thunks, base, n).Some?
    ensures |Emission(thunks, base, n).value| == Offset(thunks, n)
  {
    if n > 0 {
      EmissionLength(thunks, base, n - 1);
    }
  }

  // Memory that holds an emission holds every thunk's bytes at its offset.
  lemma EmittedThunk(m: Memory, base: u64, thunks: seq<Thunk>, code: seq<byte>, k: nat)
    requires Emission(thunks, base, |thunks|) == Some(code) && Holds(m, base, code) && k < |thunks|
    ensures Sound(thunks, base, k) && Holds(m, base + Offset(thunks, k), CodeAt(thunks, base, k))
  {
    EmissionPlaces(thunks, base, |thunks|, k);
    HoldsPart(m, base, code, Offset(thunks, k), CodeAt(thunks, base, k));
  }
}
