// Detour::new from the allocator's point of view (src/arch/detour.rs:21-60):
// the relay, if there is one, and the trampoline are allocated close to the
// target and their code is emitted for where they ended up.
module Construction {
  import opened Machine
  import opened Emitter
  import opened Patching
  import P = Proximity
  import Search

  // The allocator and its surroundings; `range` is the distance the pool was
  // made for, and `unit` what the sizes of an architecture's code are multiples
  // of.
  datatype Setup = Setup(world: P.World, pools: seq<P.Pool>, range: nat, unit: nat,
                         relayItems: seq<Search.Item>, codeItems: seq<Search.Item>)
  {
    ghost predicate Valid(target: u64) {
      && world.Valid() && P.Inv(pools) && P.Sited(world, pools, unit)
      && P.ItemsIn(relayItems, P.Lowest(target, range), P.Highest(target, range), unit)
      && P.ItemsIn(codeItems, P.Lowest(target, range), P.Highest(target, range), unit)
    }
  }

  datatype Placed = Placed(pools: seq<P.Pool>, chunk: P.Chunk, mem: Memory)

  // allocate_pic: None is an error of the allocator, or a panic of the emission.
  ghost function AllocatePic(w: P.World, pools: seq<P.Pool>, m: Memory, target: u64, range: nat,
                             items: seq<Search.Item>, thunks: seq<Thunk>): Option<Placed>
  {
    var n := Offset(thunks, |thunks|);
    var (after, r) := P.Allocated(w, pools, P.Lowest(target, range), P.Highest(target, range), items, n);
    if r.Err? || r.chunk.start < 0 || r.chunk.start + n >= TWO64 then None
    else
      match Emission(thunks, r.chunk.start, |thunks|)
      case None => None
      case Some(code) =>
        if |code| != n then None else Some(Placed(after, r.chunk, Write(m, r.chunk.start, code)))
  }

  // What `new` leaves behind.
  datatype Built = Built(pools: seq<P.Pool>, relay: Option<u64>, base: u64, mem: Memory)

  ghost function New(s: Setup, m: Memory, target: u64, relay: Option<seq<Thunk>>, code: seq<Thunk>): Option<Built> {
    match relay
    case None =>
      (match AllocatePic(s.world, s.pools, m, target, s.range, s.codeItems, code)
       case None => None
       case Some(p) => Some(Built(p.pools, None, p.chunk.start % TWO64, p.mem)))
    case Some(thunks) =>
      match AllocatePic(s.world, s.pools, m, target, s.range, s.relayItems, thunks)
      case None => None
      case Some(r) =>
        match AllocatePic(s.world, r.pools, r.mem, target, s.range, s.codeItems, code)
        case None => None
        case Some(p) => Some(Built(p.pools, Some(r.chunk.start % TWO64), p.chunk.start % TWO64, p.mem))
  }

  // Code for `thunks` stands at address a.
  ghost predicate CodeIn(m: Memory, a: u64, thunks: seq<Thunk>) {
    var code := Emission(thunks, a, |thunks|);
    code.Some? && |code.value| == Offset(thunks, |thunks|) && Holds(m, a, code.value)
  }

  // A place the allocator gives: near the target, aligned, in user memory and
  // away from everything else that is mapped.
  ghost predicate Good(s: Setup, target: u64, c: P.Chunk) {
    && target - s.range <= c.start < target + s.range && s.unit > 0 && c.start % s.unit == 0
    && P.InUserSpace(c) && forall o | o in s.world.others :: P.Apart(c, o)
  }

  lemma {:induction false} PicPlaces(s: Setup, pools: seq<P.Pool>, m: Memory, target: u64,
                                     items: seq<Search.Item>, thunks: seq<Thunk>, d: P.Chunk)
    requires s.world.Valid() && P.Inv(pools) && P.Sited(s.world, pools, s.unit)
    requires P.ItemsIn(items, P.Lowest(target, s.range), P.Highest(target, s.range), s.unit)
    requires Offset(thunks, |thunks|) > 0 && Offset(thunks, |thunks|) % s.unit == 0
    requires AllocatePic(s.world, pools, m, target, s.range, items, thunks).Some?
    ensures
      var p := AllocatePic(s.world, pools, m, target, s.range, items, thunks).value;
      && P.Inv(p.pools) && P.Sited(s.world, p.pools, s.unit)
      && Good(s, target, p.chunk) && p.chunk.size == Offset(thunks, |thunks|)
      && P.IsLive(p.pools, p.chunk) && (P.IsLive(pools, d) ==> P.IsLive(p.pools, d) && P.Apart(p.chunk, d))
      && CodeIn(p.mem, p.chunk.start, thunks) && OnlyWithin(m, p.mem, p.chunk)
  {
    var n := Offset(thunks, |thunks|);
    var lo, hi := P.Lowest(target, s.range), P.Highest(target, s.range);
    var (after, r) := P.Allocated(s.world, pools, lo, hi, items, n);
    P.AllocateKeeps(s.world, pools, lo, hi, items, n, d);
    P.AllocateSites(s.world, pools, target, s.range, items, n, s.unit);
    var code := Emission(thunks, r.chunk.start, |thunks|).value;
    WriteHolds(m, r.chunk.start, code);
    OnlyWritten(m, r.chunk.start, code);
  }

  // The allocator serves a request for the code, and every thunk can be emitted
  // where that is.
  ghost predicate Served(s: Setup, pools: seq<P.Pool>, target: u64, items: seq<Search.Item>, thunks: seq<Thunk>) {
    var n := Offset(thunks, |thunks|);
    var r := P.Allocated(s.world, pools, P.Lowest(target, s.range), P.Highest(target, s.range), items, n).1;
    r.Ok? && 0 <= r.chunk.start < TWO64 && forall k | 0 <= k < |thunks| :: Sound(thunks, r.chunk.start, k)
  }

  // That is exactly when emitted code is allocated.
  lemma {:induction false} PicSucceedsIff(s: Setup, pools: seq<P.Pool>, m: Memory, target: u64,
                                          items: seq<Search.Item>, thunks: seq<Thunk>)
    requires s.world.Valid() && P.Sited(s.world, pools, s.unit)
    requires P.ItemsIn(items, P.Lowest(target, s.range), P.Highest(target, s.range), s.unit)
    requires Offset(thunks, |thunks|) > 0 && Offset(thunks, |thunks|) % s.unit == 0
    ensures
      var n := Offset(thunks, |thunks|);
      var (after, r) := P.Allocated(s.world, pools, P.Lowest(target, s.range), P.Highest(target, s.range), items, n);
      var pic := AllocatePic(s.world, pools, m, target, s.range, items, thunks);
      && (r.Ok? ==> 0 <= r.chunk.start < TWO64) && (pic.Some? <==> Served(s, pools, target, items, thunks))
      && (pic.Some? ==> pic.value.pools == after && P.Sited(s.world, after, s.unit))
  {
    var n := Offset(thunks, |thunks|);
    var r := P.Allocated(s.world, pools, P.Lowest(target, s.range), P.Highest(target, s.range), items, n).1;
    P.AllocateSites(s.world, pools, target, s.range, items, n, s.unit);
    if r.Ok? {
      AllocatedSize(s.world, pools, P.Lowest(target, s.range), P.Highest(target, s.range), items, n);
      EmissionSucceeds(thunks, r.chunk.start, |thunks|);
      if Emission(thunks, r.chunk.start, |thunks|).Some? {
        EmissionLength(thunks, r.chunk.start, |thunks|);
      }
    }
  }

  // A construction succeeds exactly when the relay, if there is to be one, is
  // served, and then the trampoline from what is left.
  lemma {:induction false} NewSucceedsIff(s: Setup, m: Memory, target: u64, relay: Option<seq<Thunk>>,
                                          code: seq<Thunk>)
    requires s.Valid(target) && Offset(code, |code|) > 0 && Offset(code, |code|) % s.unit == 0
    requires relay.Some? ==>
      Offset(relay.value, |relay.value|) > 0 && Offset(relay.value, |relay.value|) % s.unit == 0
    ensures New(s, m, target, relay, code).Some? <==>
      match relay
      case None => Served(s, s.pools, target, s.codeItems, code)
      case Some(thunks) =>
        && Served(s, s.pools, target, s.relayItems, thunks)
        && Served(s, P.Allocated(s.world, s.pools, P.Lowest(target, s.range), P.Highest(target, s.range), s.relayItems,
                                 Offset(thunks, |thunks|)).0, target, s.codeItems, code)
  {
    match relay
    case None => PicSucceedsIff(s, s.pools, m, target, s.codeItems, code);
    case Some(thunks) =>
      PicSucceedsIff(s, s.pools, m, target, s.relayItems, thunks);
      var r := AllocatePic(s.world, s.pools, m, target, s.range, s.relayItems, thunks);
      if r.Some? {
        PicSucceedsIff(s, r.value.pools, r.value.mem, target, s.codeItems, code);
      }
  }

  lemma AllocatedSize(w: P.World, pools: seq<P.Pool>, lo: int, hi: int, items: seq<Search.Item>, size: nat)
    ensures
      var r := P.Allocated(w, pools, lo, hi, items, size).1;
      r.Ok? ==> r.chunk.size == size
  {
  }

  // Nothing changed outside of the chunk.
  ghost predicate OnlyWithin(a: Memory, b: Memory, c: P.Chunk) {
    forall x: u64 | !Within(c.start, c.size, x) :: SameAt(a, b, x)
  }

  lemma OnlyWritten(m: Memory, a: int, bs: seq<byte>)
    requires 0 <= a && a + |bs| <= TWO64
    ensures OnlyWithin(m, Write(m, a, bs), P.Chunk(a, |bs|))
  {
  }

  lemma KeepsHeld(a: Memory, b: Memory, c: P.Chunk, x: int, bs: seq<byte>)
    requires OnlyWithin(a, b, c) && Holds(a, x, bs) && 0 <= x && x + |bs| <= TWO64
    requires P.Apart(c, P.Chunk(x, |bs|))
    ensures Holds(b, x, bs)
  {
    forall k | 0 <= k < |bs| ensures ByteIs(b, x + k, bs[k]) {
      assert ByteIs(a, x + k, bs[k]);
      var z: u64 := x + k;
      assert !Within(c.start, c.size, z);
      assert SameAt(a, b, z);
    }
  }

  // What is mapped elsewhere keeps its bytes.
  ghost predicate SameIn(a: Memory, b: Memory, o: P.Chunk) {
    forall x: u64 | Within(o.start, o.size, x) :: SameAt(a, b, x)
  }

  lemma SameElsewhere(a: Memory, b: Memory, c: P.Chunk, o: P.Chunk)
    requires OnlyWithin(a, b, c) && P.Apart(c, o)
    ensures SameIn(a, b, o)
  {
  }

  // A successful `new`: relay and trampoline stand where the allocator put
  // them, near the target, apart from each other and from all that was mapped
  // before, and no other byte changed.
  lemma {:induction false} NewPlaces(s: Setup, m: Memory, target: u64, relay: Option<seq<Thunk>>,
                                     code: seq<Thunk>, o: P.Chunk)
    requires s.Valid(target) && o in s.world.others && New(s, m, target, relay, code).Some?
    requires Offset(code, |code|) > 0 && Offset(code, |code|) % s.unit == 0
    requires relay.Some? ==>
      Offset(relay.value, |relay.value|) > 0 && Offset(relay.value, |relay.value|) % s.unit == 0
    ensures
      var b := New(s, m, target, relay, code).value;
      var chunk := P.Chunk(b.base, Offset(code, |code|));
      && P.Inv(b.pools) && P.Sited(s.world, b.pools, s.unit)
      && CodeIn(b.mem, b.base, code) && Good(s, target, chunk) && P.Apart(chunk, o) && SameIn(m, b.mem, o)
      && (b.relay.Some? <==> relay.Some?)
      && (relay.Some? ==>
            var other := P.Chunk(b.relay.value, Offset(relay.value, |relay.value|));
            && CodeIn(b.mem, b.relay.value, relay.value) && Good(s, target, other)
            && P.Apart(other, o) && P.Apart(other, chunk))
  {
    match relay
    case None =>
      PicPlaces(s, s.pools, m, target, s.codeItems, code, o);
      var p := AllocatePic(s.world, s.pools, m, target, s.range, s.codeItems, code).value;
      WrapSmall(p.chunk.start);
      SameElsewhere(m, p.mem, p.chunk, o);
    case Some(thunks) =>
      PicPlaces(s, s.pools, m, target, s.relayItems, thunks, o);
      var r := AllocatePic(s.world, s.pools, m, target, s.range, s.relayItems, thunks).value;
      PicPlaces(s, r.pools, r.mem, target, s.codeItems, code, r.chunk);
      var p := AllocatePic(s.world, r.pools, r.mem, target, s.range, s.codeItems, code).value;
      WrapSmall(r.chunk.start);
      WrapSmall(p.chunk.start);
      SameElsewhere(m, r.mem, r.chunk, o);
      SameElsewhere(r.mem, p.mem, p.chunk, o);
      KeepsHeld(r.mem, p.mem, p.chunk, r.chunk.start, Emission(thunks, r.chunk.start, |thunks|).value);
  }

  // After any run of such requests, for whatever origins, the allocator is in a
  // state that the next construction can start from.
  lemma {:induction false} AnyTimeValid(s: Setup, ops: seq<P.Op>, target: u64)
    requires s.world.Valid() && P.Proper(s.world, [], ops) && P.InUnits(ops, s.unit)
    requires P.ItemsIn(s.relayItems, P.Lowest(target, s.range), P.Highest(target, s.range), s.unit)
    requires P.ItemsIn(s.codeItems, P.Lowest(target, s.range), P.Highest(target, s.range), s.unit)
    ensures
      var pools := P.Execute(s.world, [], ops);
      pools.Some? && s.(pools := pools.value).Valid(target)
  {
    P.RunSites(s.world, [], ops, s.unit);
  }

  // ---- an allocator with a few free pages -----------------------------------

  const PAGE: nat := 0x1000

  // Nothing is mapped but `others`; any of `pages` can be, once.
  function FreePages(pages: set<int>, others: set<P.Chunk>): P.World {
    P.World((p: P.Pool, size: nat) => if p.live == {} && size <= p.len then Some(p.lower) else None,
            (x: int, size: nat, ps: seq<P.Pool>) =>
              if x in pages && size <= PAGE && forall p | p in ps :: P.Apart(P.Chunk(x, PAGE), p.Area()) then
                Some(P.Chunk(x, PAGE))
              else None,
            others)
  }

  // The search for the relay finds page a, the one for the trampoline page b.
  function TwoPages(a: int, b: int, others: set<P.Chunk>, range: nat, unit: nat): Setup {
    Setup(FreePages({a, b}, others), [], range, unit, [Search.Found(a)], [Search.Found(b)])
  }

  ghost predicate Spare(a: int, others: set<P.Chunk>) {
    0 <= a && a + 2 * PAGE <= TWO64 && forall o | o in others :: P.Apart(P.Chunk(a, PAGE), o)
  }

  lemma TwoPagesValid(a: u64, b: u64, others: set<P.Chunk>, target: u64, range: nat, unit: nat)
    requires Spare(a, others) && Spare(b, others) && unit > 0 && a % unit == 0 && b % unit == 0
    requires P.Lowest(target, range) <= a < P.Highest(target, range)
    requires P.Lowest(target, range) <= b < P.Highest(target, range)
    ensures TwoPages(a, b, others, range, unit).Valid(target)
  {
  }

  // A request that no pool can serve gets a page of its own.
  lemma PageServes(pages: set<int>, others: set<P.Chunk>, pools: seq<P.Pool>, lo: int, hi: int, a: int, size: nat)
    requires a in pages && 0 < size <= PAGE
    requires forall p | p in pools :: p.live != {} && P.Apart(P.Chunk(a, PAGE), p.Area())
    ensures
      var c := P.Chunk(a, size);
      P.Allocated(FreePages(pages, others), pools, lo, hi, [Search.Found(a)], size) ==
        (pools + [P.Pool(a, PAGE, {c})], P.Ok(c))
  {
    var w := FreePages(pages, others);
    var pool := P.Pool(a, PAGE, {});
    P.EligibleIs(w, pools, lo, hi, size, 0);
    assert w.mmap(a, size, pools) == Some(P.Chunk(a, PAGE));
    assert P.Mapping(w, pools, [Search.Found(a)], size, 0) == Some(Search.Found(a));
    assert w.place(pool, size) == Some(a);
    assert P.Take(pool, P.Chunk(a, size)) == P.Pool(a, PAGE, {P.Chunk(a, size)});
  }

  lemma {:induction false} PicServed(w: P.World, pools: seq<P.Pool>, m: Memory, target: u64, range: nat,
                                     items: seq<Search.Item>, thunks: seq<Thunk>, a: u64)
    requires Emission(thunks, a, |thunks|).Some? && a + Offset(thunks, |thunks|) < TWO64
    requires
      var n := Offset(thunks, |thunks|);
      P.Allocated(w, pools, P.Lowest(target, range), P.Highest(target, range), items, n).1 == P.Ok(P.Chunk(a, n))
    ensures
      var n := Offset(thunks, |thunks|);
      var after := P.Allocated(w, pools, P.Lowest(target, range), P.Highest(target, range), items, n).0;
      var p := AllocatePic(w, pools, m, target, range, items, thunks);
      p.Some? && p.value.pools == after && p.value.chunk == P.Chunk(a, n)
  {
    EmissionLength(thunks, a, |thunks|);
  }

  // The relay is allocated first, and then the trampoline beside it.
  lemma {:induction false} NewWithRelay(s: Setup, m: Memory, target: u64, relay: seq<Thunk>, code: seq<Thunk>,
                                        r: Placed, p: Placed)
    requires AllocatePic(s.world, s.pools, m, target, s.range, s.relayItems, relay) == Some(r)
    requires AllocatePic(s.world, r.pools, r.mem, target, s.range, s.codeItems, code) == Some(p)
    ensures New(s, m, target, Some(relay), code) ==
      Some(Built(p.pools, Some(r.chunk.start % TWO64), p.chunk.start % TWO64, p.mem))
  {
  }

  // With one page for the relay and another for the trampoline `new` succeeds.
  lemma {:induction false} TwoPagesServe(a: u64, b: u64, others: set<P.Chunk>, range: nat, unit: nat, m: Memory,
                                         target: u64, relay: seq<Thunk>, code: seq<Thunk>)
    requires P.Apart(P.Chunk(a, PAGE), P.Chunk(b, PAGE)) && a + 2 * PAGE <= TWO64 && b + 2 * PAGE <= TWO64
    requires 0 < Offset(relay, |relay|) <= PAGE && Emission(relay, a, |relay|).Some?
    requires 0 < Offset(code, |code|) <= PAGE && Emission(code, b, |code|).Some?
    ensures
      var built := New(TwoPages(a, b, others, range, unit), m, target, Some(relay), code);
      built.Some? && built.value.relay == Some(a) && built.value.base == b
  {
    var s := TwoPages(a, b, others, range, unit);
    var r := PagePic({a, b}, others, [], m, target, range, relay, a);
    var p := PagePic({a, b}, others, r.pools, r.mem, target, range, code, b);
    WrapSmall(a);
    WrapSmall(b);
    NewWithRelay(s, m, target, relay, code, r, p);
  }

  // Code that gets a page of its own.
  lemma {:induction false} PagePic(pages: set<int>, others: set<P.Chunk>, pools: seq<P.Pool>, m: Memory, target: u64,
                                   range: nat, thunks: seq<Thunk>, a: u64) returns (r: Placed)
    requires a in pages && a + 2 * PAGE <= TWO64
    requires 0 < Offset(thunks, |thunks|) <= PAGE && Emission(thunks, a, |thunks|).Some?
    requires forall p | p in pools :: p.live != {} && P.Apart(P.Chunk(a, PAGE), p.Area())
    ensures AllocatePic(FreePages(pages, others), pools, m, target, range, [Search.Found(a)], thunks) == Some(r)
    ensures
      var c := P.Chunk(a, Offset(thunks, |thunks|));
      r.chunk == c && r.pools == pools + [P.Pool(a, PAGE, {c})]
  {
    var n := Offset(thunks, |thunks|);
    var w, lo, hi := FreePages(pages, others), P.Lowest(target, range), P.Highest(target, range);
    PageServes(pages, others, pools, lo, hi, a, n);
    PicServed(w, pools, m, target, range, [Search.Found(a)], thunks, a);
    r := AllocatePic(w, pools, m, target, range, [Search.Found(a)], thunks).value;
  }
}
