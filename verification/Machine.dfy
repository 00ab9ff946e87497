// Fixed-width integers, little-endian bytes and byte-addressed memory, shared
// by every instruction-set model.
module Machine {
  const TWO64: int := 0x1_0000_0000_0000_0000
  const TWO32: int := 0x1_0000_0000

  type byte = x: int | 0 <= x < 256
  type word = x: int | 0 <= x < 0x1_0000_0000
  type u64 = x: int | 0 <= x < 0x1_0000_0000_0000_0000

  // Memory as the processor sees it.  An address outside the map is unmapped
  // and every access to it traps.
  type Memory = map<u64, byte>

  datatype Option<+T> = None | Some(value: T)

  // usize arithmetic of the 64-bit targets (wrapping_add, wrapping_sub).
  function Wrap(x: int): u64 {
    x % 0x1_0000_0000_0000_0000
  }

  lemma WrapSmall(x: int)
    requires 0 <= x < TWO64
    ensures Wrap(x) == x
  {
  }

  lemma Periodic(x: int, c: int)
    ensures Wrap(x + c * TWO64) == Wrap(x)
  {
    var q := x / TWO64;
    assert x + c * TWO64 == (q + c) * TWO64 + x % TWO64;
  }

  lemma Grows(a: int, b: int, scale: int)
    requires scale > 0
    ensures a < b ==> a * scale < b * scale
    ensures a <= b ==> a * scale <= b * scale
  {
  }

  lemma WrapInjective(x: u64, y: u64, k: int)
    ensures Wrap(x + k) == Wrap(y + k) <==> x == y
  {
    var p, q := (x + k) / TWO64, (y + k) / TWO64;
    if Wrap(x + k) == Wrap(y + k) {
      assert x + k == p * TWO64 + Wrap(x + k) && y + k == q * TWO64 + Wrap(y + k);
      assert x - y == (p - q) * TWO64;
    }
  }

  lemma Quotient(q: int, d: int)
    requires d > 0
    ensures q * d / d == q && q * d % d == 0
  {
    var r := q * d / d;
    assert q * d == d * r + q * d % d;
    assert (q - r) * d == q * d % d;
    Grows(q - r, 0, d);
    Grows(1, q - r, d);
  }

  // Two's complement value of the low bits of a field below `modulus`.
  function Signed(x: int, modulus: int): int
    requires modulus > 0 && 0 <= x < modulus
  {
    if 2 * x < modulus then x else x - modulus
  }

  // (to as isize).wrapping_sub(from as isize)
  function Displacement(from: u64, to: u64): int {
    Signed(Wrap(to - from), TWO64)
  }

  lemma SmallDisplacement(from: u64, to: u64)
    requires -0x8000_0000_0000_0000 <= to - from < 0x8000_0000_0000_0000
    ensures Displacement(from, to) == to - from
  {
  }

  // `to` is x bytes behind `from`, in an address space that wraps around.
  predicate Away(from: u64, to: u64, x: int) {
    to == Wrap(from + x)
  }

  lemma DisplacementIs(from: u64, to: u64, x: int)
    requires -0x8000_0000_0000_0000 <= x < 0x8000_0000_0000_0000
    ensures Away(from, to, x) <==> Displacement(from, to) == x
  {
    var q, r := (to - from) / TWO64, (from + x) / TWO64;
    assert to - from == q * TWO64 + Wrap(to - from) && from + x == r * TWO64 + Wrap(from + x);
    if Displacement(from, to) == x {
      var c := if x >= 0 then q else q + 1;
      assert from + x == to + -c * TWO64;
      Periodic(to, -c);
    }
    if Away(from, to, x) {
      assert to - from == x + -r * TWO64;
      Periodic(x, -r);
    }
  }

  // When the displacement is in a range.
  lemma DisplacementIn(from: u64, to: u64, lo: int, hi: int)
    requires -0x8000_0000_0000_0000 <= lo <= hi <= 0x8000_0000_0000_0000
    ensures lo <= Displacement(from, to) < hi <==> exists x :: lo <= x < hi && Away(from, to, x)
  {
    DisplacementIs(from, to, Displacement(from, to));
    if x :| lo <= x < hi && Away(from, to, x) {
      DisplacementIs(from, to, x);
    }
  }

  // Byte k of v, counted from the least significant one.
  function ByteOf(v: int, k: nat): byte
    requires v >= 0
    decreases k
  {
    if k == 0 then v % 0x100 else ByteOf(v / 0x100, k - 1)
  }

  // u32::to_le_bytes, and u64::to_le_bytes as those of its two halves.  The
  // comprehensions keep the arithmetic out of proofs that only move bytes.
  function LE32(w: word): (bs: seq<byte>)
    ensures |bs| == 4
  {
    seq(4, k requires 0 <= k < 4 => ByteOf(w, k))
  }

  function LE64(v: u64): (bs: seq<byte>)
    ensures |bs| == 8
  {
    seq(8, k requires 0 <= k < 8 =>
      if k < 4 then ByteOf(v % 0x1_0000_0000, k) else ByteOf(v / 0x1_0000_0000, k - 4))
  }

  function Join32(b0: byte, b1: byte, b2: byte, b3: byte): word {
    b0 + 0x100 * b1 + 0x1_0000 * b2 + 0x100_0000 * b3
  }

  // A four-byte read; None when some byte is unmapped.
  function Read32(m: Memory, a: int): Option<word> {
    if a in m && a + 1 in m && a + 2 in m && a + 3 in m then
      Some(Join32(m[a], m[a + 1], m[a + 2], m[a + 3]))
    else None
  }

  // An eight-byte little-endian read, misaligned addresses allowed.
  function Read64(m: Memory, a: int): Option<u64> {
    var lo, hi := Read32(m, a), Read32(m, a + 4);
    if lo.Some? && hi.Some? then Some(lo.value + 0x1_0000_0000 * hi.value) else None
  }

  // Memory holds the bytes `bs` starting at address `a`.
  ghost predicate Holds(m: Memory, a: int, bs: seq<byte>) {
    forall k | 0 <= k < |bs| :: ByteIs(m, a + k, bs[k])
  }

  ghost predicate ByteIs(m: Memory, a: int, b: byte) {
    a in m && m[a] == b
  }

  lemma HoldsPart(m: Memory, a: int, bs: seq<byte>, i: int, part: seq<byte>)
    requires Holds(m, a, bs) && 0 <= i && i + |part| <= |bs|
    requires bs[i..i + |part|] == part
    ensures Holds(m, a + i, part)
  {
    forall k | 0 <= k < |part| ensures ByteIs(m, a + i + k, part[k]) {
      assert ByteIs(m, a + (i + k), bs[i + k]);
    }
  }

  lemma Parts(m: Memory, a: int, x: seq<byte>, y: seq<byte>)
    requires Holds(m, a, x + y)
    ensures Holds(m, a, x) && Holds(m, a + |x|, y)
  {
    HoldsPart(m, a, x + y, 0, x);
    HoldsPart(m, a, x + y, |x|, y);
  }

  // The four low bytes of v make up its low word.
  lemma FourBytes(v: int)
    requires v >= 0
    ensures Join32(ByteOf(v, 0), ByteOf(v, 1), ByteOf(v, 2), ByteOf(v, 3)) == v % 0x1_0000_0000
  {
    var v1 := v / 0x100;
    var v2 := v1 / 0x100;
    var v3 := v2 / 0x100;
    assert ByteOf(v, 1) == ByteOf(v1, 0);
    assert ByteOf(v, 2) == ByteOf(v1, 1) == ByteOf(v2, 0);
    assert ByteOf(v, 3) == ByteOf(v1, 2) == ByteOf(v2, 1) == ByteOf(v3, 0);
    Peel(v, v1, v2, v3, v3 / 0x100);
  }

  lemma Peel(v: int, v1: int, v2: int, v3: int, v4: int)
    requires v >= 0 && v1 == v / 0x100 && v2 == v1 / 0x100 && v3 == v2 / 0x100 && v4 == v3 / 0x100
    ensures v % 0x1_0000_0000 ==
      v % 0x100 + 0x100 * (v1 % 0x100) + 0x1_0000 * (v2 % 0x100) + 0x100_0000 * (v3 % 0x100)
    ensures v / 0x1_0000_0000 == v4
  {
    var low := v % 0x100 + 0x100 * (v1 % 0x100) + 0x1_0000 * (v2 % 0x100) + 0x100_0000 * (v3 % 0x100);
    assert v3 == 0x100 * v4 + v3 % 0x100;
    assert v2 == 0x100 * v3 + v2 % 0x100;
    assert v1 == 0x100 * v2 + v1 % 0x100;
    assert v == 0x1_0000_0000 * v4 + low;
    assert 0 <= low < 0x1_0000_0000;
  }

  lemma ReadBytes(m: Memory, a: int, b0: byte, b1: byte, b2: byte, b3: byte)
    requires ByteIs(m, a, b0) && ByteIs(m, a + 1, b1) && ByteIs(m, a + 2, b2) && ByteIs(m, a + 3, b3)
    ensures Read32(m, a) == Some(Join32(b0, b1, b2, b3))
  {
  }

  lemma ReadBack32(m: Memory, a: int, w: word)
    requires Holds(m, a, LE32(w))
    ensures Read32(m, a) == Some(w)
  {
    var bs := LE32(w);
    assert ByteIs(m, a + 0, bs[0]) && ByteIs(m, a + 1, bs[1]) && ByteIs(m, a + 2, bs[2]) && ByteIs(m, a + 3, bs[3]);
    ReadBytes(m, a, bs[0], bs[1], bs[2], bs[3]);
    FourBytes(w);
  }

  // The bytes that a word was read from.
  lemma ReadIsHeld(m: Memory, a: int, w: word)
    requires Read32(m, a) == Some(w)
    ensures Holds(m, a, LE32(w))
  {
    BytesOf(m[a], m[a + 1], m[a + 2], m[a + 3]);
    assert LE32(w) == [m[a], m[a + 1], m[a + 2], m[a + 3]];
  }

  lemma BytesOf(b0: byte, b1: byte, b2: byte, b3: byte)
    ensures
      var w := Join32(b0, b1, b2, b3);
      ByteOf(w, 0) == b0 && ByteOf(w, 1) == b1 && ByteOf(w, 2) == b2 && ByteOf(w, 3) == b3
  {
    var v2 := b2 + 0x100 * b3;
    var v1 := b1 + 0x100 * v2;
    var w := Join32(b0, b1, b2, b3);
    assert w == b0 + 0x100 * v1;
    assert w / 0x100 == v1 && v1 / 0x100 == v2 && v2 / 0x100 == b3;
    assert ByteOf(w, 1) == ByteOf(v1, 0);
    assert ByteOf(w, 2) == ByteOf(v1, 1) == ByteOf(v2, 0);
    assert ByteOf(w, 3) == ByteOf(v1, 2) == ByteOf(v2, 1) == ByteOf(b3, 0);
  }

  lemma LE64Splits(v: u64)
    ensures LE64(v) == LE32(v % 0x1_0000_0000) + LE32(v / 0x1_0000_0000)
  {
  }

  lemma ReadBack64(m: Memory, a: int, v: u64)
    requires Holds(m, a, LE64(v))
    ensures Read64(m, a) == Some(v)
  {
    var lo, hi := v % 0x1_0000_0000, v / 0x1_0000_0000;
    LE64Splits(v);
    HoldsPart(m, a, LE64(v), 0, LE32(lo));
    HoldsPart(m, a, LE64(v), 4, LE32(hi));
    ReadBack32(m, a, lo);
    ReadBack32(m, a + 4, hi);
  }

  // ---- comparing memories --------------------------------------------------

  ghost predicate SameAt(a: Memory, b: Memory, x: u64) {
    (x in a <==> x in b) && (x in a ==> a[x] == b[x])
  }

  // Equal memories but for the addresses in d.
  ghost predicate Agree(a: Memory, b: Memory, d: set<int>) {
    forall x: u64 :: x !in d ==> SameAt(a, b, x)
  }

  lemma AgreeEverywhere(a: Memory, b: Memory)
    requires Agree(a, b, {})
    ensures a == b
  {
    forall x | x in a.Keys ensures x in b.Keys && b[x] == a[x] {
      assert SameAt(a, b, x);
    }
    forall x | x in b.Keys ensures x in a.Keys {
      assert SameAt(a, b, x);
    }
  }

  lemma AgreeHolds(a: Memory, b: Memory, d: set<int>, x: int, bs: seq<byte>)
    requires Agree(a, b, d) && Holds(a, x, bs) && 0 <= x && x + |bs| <= TWO64
    requires forall z | x <= z < x + |bs| :: z !in d
    ensures Holds(b, x, bs)
  {
    forall k | 0 <= k < |bs| ensures ByteIs(b, x + k, bs[k]) {
      assert ByteIs(a, x + k, bs[k]);
      assert SameAt(a, b, x + k);
    }
  }
}
