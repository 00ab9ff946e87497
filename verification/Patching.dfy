// Overwriting code bytes: the patchers' toggle and the detour around it.
module Patching {
  import opened Machine

  // copy_from_slice at address a.
  function Write(m: Memory, a: int, bs: seq<byte>): Memory
    requires 0 <= a && a + |bs| <= TWO64
  {
    m + map x: u64 {:trigger Within(a, |bs|, x)} | a <= x < a + |bs| && Within(a, |bs|, x) :: bs[x - a]
  }

  predicate Within(a: int, n: int, x: int) {
    a <= x < a + n
  }

  // The n bytes at address a; unmapped ones read as zero.
  function ReadOut(m: Memory, a: int, n: nat): (bs: seq<byte>)
    ensures |bs| == n
  {
    seq(n, k requires 0 <= k < n => if a + k in m then m[a + k] else 0)
  }

  predicate Mapped(m: Memory, a: int, n: nat) {
    forall x: u64 | a <= x < a + n :: x in m
  }

  lemma ReadOutHolds(m: Memory, a: int, n: nat)
    requires 0 <= a && a + n <= TWO64 && Mapped(m, a, n)
    ensures Holds(m, a, ReadOut(m, a, n))
  {
    forall k | 0 <= k < n ensures ByteIs(m, a + k, ReadOut(m, a, n)[k]) {
      var x: u64 := a + k;
      assert x in m;
    }
  }

  lemma WriteHolds(m: Memory, a: int, bs: seq<byte>)
    requires 0 <= a && a + |bs| <= TWO64
    ensures Holds(Write(m, a, bs), a, bs)
  {
    forall k | 0 <= k < |bs| ensures ByteIs(Write(m, a, bs), a + k, bs[k]) {
      var x: u64 := a + k;
      assert x in Write(m, a, bs);
    }
  }

  lemma WriteAt(m: Memory, a: int, bs: seq<byte>, x: u64)
    requires 0 <= a && a + |bs| <= TWO64
    ensures
      var after := Write(m, a, bs);
      if Within(a, |bs|, x) then x in after && after[x] == bs[x - a] else SameAt(m, after, x)
  {
  }

  // Writing what is there already changes nothing.
  lemma WriteSame(m: Memory, a: int, bs: seq<byte>)
    requires 0 <= a && a + |bs| <= TWO64 && Holds(m, a, bs)
    ensures Write(m, a, bs) == m
  {
    forall x: u64 | a <= x < a + |bs| ensures x in m && m[x] == bs[x - a] {
      assert ByteIs(m, a + (x - a), bs[x - a]);
    }
  }

  lemma WriteTwice(m: Memory, a: int, bs: seq<byte>, cs: seq<byte>)
    requires 0 <= a && a + |bs| <= TWO64 && |bs| == |cs|
    ensures Write(Write(m, a, bs), a, cs) == Write(m, a, cs)
  {
  }

  // Toggling on and off again restores the memory the patch was made from.
  lemma WriteBack(m: Memory, a: int, original: seq<byte>, bs: seq<byte>)
    requires 0 <= a && a + |bs| <= TWO64 && |bs| == |original| && Holds(m, a, original)
    ensures Write(Write(m, a, bs), a, original) == m
  {
    WriteTwice(m, a, bs, original);
    WriteSame(m, a, original);
  }

  lemma WritesCommute(m: Memory, a: int, bs: seq<byte>, b: int, cs: seq<byte>)
    requires 0 <= a && a + |bs| <= TWO64 && 0 <= b && b + |cs| <= TWO64
    requires a + |bs| <= b || b + |cs| <= a
    ensures Write(Write(m, a, bs), b, cs) == Write(Write(m, b, cs), a, bs)
  {
  }

  // ---- Detour::toggle -------------------------------------------------------

  datatype Status = Fine | RegionFailure

  // Memory, the flag, and what the caller is told.  `protect` is whether the
  // operating system lets the area be written.
  function Toggling(m: Memory, enabled: bool, a: int, original: seq<byte>, detour: seq<byte>, on: bool, protect: bool)
    : (Memory, bool, Status)
    requires 0 <= a && a + |detour| <= TWO64 && |original| == |detour|
  {
    if enabled == on then (m, enabled, Fine)
    else if !protect then (m, enabled, RegionFailure)
    else (Write(m, a, if on then detour else original), on, Fine)
  }

  // ---- sequences of toggles -------------------------------------------------

  // Memory and flag after a sequence of Detour::toggle calls, each of which
  // finds the area writable.
  function Toggled(m: Memory, a: int, original: seq<byte>, detour: seq<byte>, ons: seq<bool>): (Memory, bool)
    requires 0 <= a && a + |detour| <= TWO64 && |original| == |detour|
    decreases |ons|
  {
    if |ons| == 0 then (m, false)
    else
      var (before, enabled) := Toggled(m, a, original, detour, ons[..|ons| - 1]);
      var (after, flag, _) := Toggling(before, enabled, a, original, detour, ons[|ons| - 1], true);
      (after, flag)
  }

  // However often it is toggled, memory is the original one or the one with
  // the patch over it, as the last toggle says.
  lemma {:induction false} TogglesEnd(m: Memory, a: int, original: seq<byte>, detour: seq<byte>, ons: seq<bool>)
    requires 0 <= a && a + |detour| <= TWO64 && |original| == |detour| && Holds(m, a, original)
    ensures
      var on := |ons| > 0 && ons[|ons| - 1];
      Toggled(m, a, original, detour, ons) == (if on then Write(m, a, detour) else m, on)
    decreases |ons|
  {
    if |ons| > 0 {
      TogglesEnd(m, a, original, detour, ons[..|ons| - 1]);
      WriteBack(m, a, original, detour);
    }
  }

  class CodeMemory {
    var bytes: Memory

    constructor (bytes: Memory)
      ensures this.bytes == bytes
    {
      this.bytes := bytes;
    }
  }

  // The Patcher of every architecture: where it writes, what was there and
  // what it writes.
  class Patcher {
    const area: u64
    const original: seq<byte>
    const detour: seq<byte>

    constructor (code: CodeMemory, area: u64, detour: seq<byte>)
      requires area + |detour| <= TWO64 && Mapped(code.bytes, area, |detour|)
      ensures this.area == area && this.detour == detour
      ensures original == ReadOut(code.bytes, area, |detour|) && Holds(code.bytes, area, original)
    {
      this.area, this.detour := area, detour;
      this.original := ReadOut(code.bytes, area, |detour|);
      new;
      ReadOutHolds(code.bytes, area, |detour|);
    }

    ghost predicate Valid() {
      area + |detour| <= TWO64 && |original| == |detour|
    }

    method Toggle(code: CodeMemory, enable: bool)
      requires Valid()
      modifies code
      ensures code.bytes == Write(old(code.bytes), area, if enable then detour else original)
    {
      code.bytes := Write(code.bytes, area, if enable then detour else original);
    }
  }

  class Detour {
    const patcher: Patcher
    var enabled: bool

    constructor (patcher: Patcher)
      ensures this.patcher == patcher && !enabled
    {
      this.patcher := patcher;
      this.enabled := false;
    }

    method Toggle(code: CodeMemory, on: bool, protect: bool) returns (r: Status)
      requires patcher.Valid()
      modifies this, code
      ensures
        var p := patcher;
        if old(enabled) == on then r == Fine && enabled == on && code.bytes == old(code.bytes)
        else if !protect then r == RegionFailure && enabled == old(enabled) && code.bytes == old(code.bytes)
        else r == Fine && enabled == on
             && code.bytes == Write(old(code.bytes), p.area, if on then p.detour else p.original)
      ensures (code.bytes, enabled, r) ==
        Toggling(old(code.bytes), old(enabled), patcher.area, patcher.original, patcher.detour, on, protect)
    {
      if enabled == on {
        return Fine;
      }
      if !protect {
        return RegionFailure;
      }
      patcher.Toggle(code, on);
      enabled := on;
      return Fine;
    }

    method Enable(code: CodeMemory, protect: bool) returns (r: Status)
      requires patcher.Valid()
      modifies this, code
      ensures r == Fine ==> enabled
      ensures r == Fine ==>
        code.bytes == if old(enabled) then old(code.bytes) else Write(old(code.bytes), patcher.area, patcher.detour)
      ensures r != Fine ==> enabled == old(enabled) && code.bytes == old(code.bytes)
    {
      r := Toggle(code, true, protect);
    }

    method Disable(code: CodeMemory, protect: bool) returns (r: Status)
      requires patcher.Valid()
      modifies this, code
      ensures r == Fine ==> !enabled
      ensures r == Fine ==>
        code.bytes == if old(enabled) then Write(old(code.bytes), patcher.area, patcher.original) else old(code.bytes)
      ensures r != Fine ==> enabled == old(enabled) && code.bytes == old(code.bytes)
    {
      r := Toggle(code, false, protect);
    }
  }
}
