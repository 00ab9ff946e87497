// The allocator for memory close to an address, src/alloc/proximity.rs.  The
// slice-pool crate, mmap and the region search are represented by what they
// answer.
module Proximity {
  import opened Machine
  import Search

  // A live allocation.
  datatype Chunk = Chunk(start: int, size: nat)
  {
    function End(): int {
      start + size
    }
  }

  predicate Apart(a: Chunk, b: Chunk) {
    a.End() <= b.start || b.End() <= a.start
  }

  // A mapped pool and what was allocated from it.
  datatype Pool = Pool(lower: int, len: nat, live: set<Chunk>)
  {
    function Area(): Chunk {
      Chunk(lower, len)
    }

    predicate Covers(address: int) {
      lower <= address < lower + len
    }
  }

  predicate Inside(c: Chunk, p: Pool) {
    p.lower <= c.start && c.End() <= p.lower + p.len
  }

  // An address where a gap between allocations starts.
  predicate StartsGap(p: Pool, a: int) {
    a == p.lower || exists c :: c in p.live && a == c.End()
  }

  // Whole pages of user memory; the last page of the address space is none.
  predicate InUserSpace(c: Chunk) {
    0 <= c.start && c.End() + 0x1000 <= TWO64
  }

  // What the crates answer: where a pool puts an allocation, and what mapping
  // `size` bytes at an address gives.  `others` is what else is mapped, the
  // program's code among it.
  datatype World = World(place: (Pool, nat) -> Option<int>, mmap: (int, nat, seq<Pool>) -> Option<Chunk>,
                         others: set<Chunk>)
  {
    // A slice pool hands out disjoint slices of itself from the start of a gap,
    // and an unused one that is large enough never refuses.
    ghost predicate Slices() {
      forall p: Pool, size: nat {:trigger place(p, size)} :: size > 0 ==>
        match place(p, size)
        case Some(a) =>
          Inside(Chunk(a, size), p) && StartsGap(p, a) && forall c | c in p.live :: Apart(Chunk(a, size), c)
        case None => p.live != {} || p.len < size
    }

    // A new mapping starts at the address asked for, is as long as asked for,
    // and is disjoint from everything mapped before.
    ghost predicate Maps() {
      forall a: int, size: nat, ps: seq<Pool> {:trigger mmap(a, size, ps)} :: size > 0 && mmap(a, size, ps).Some? ==>
        var m := mmap(a, size, ps).value;
        && m.start == a && m.size >= size && InUserSpace(m)
        && (forall p | p in ps :: Apart(m, p.Area())) && forall o | o in others :: Apart(m, o)
    }

    ghost predicate Valid() {
      Slices() && Maps()
    }
  }

  // ---- the pools ------------------------------------------------------------

  ghost predicate PoolValid(p: Pool) {
    && (forall c | c in p.live :: c.size > 0 && Inside(c, p))
    && (forall c, d | c in p.live && d in p.live && c != d :: Apart(c, d))
  }

  ghost predicate Inv(pools: seq<Pool>) {
    && (forall i {:trigger pools[i]} :: 0 <= i < |pools| ==> pools[i].len > 0 && PoolValid(pools[i]))
    && (forall i, j :: 0 <= i < j < |pools| ==> Apart(pools[i].Area(), pools[j].Area()))
  }

  ghost predicate IsLive(pools: seq<Pool>, c: Chunk) {
    exists i :: 0 <= i < |pools| && c in pools[i].live
  }

  datatype Failure = OutOfMemory | RegionFailure(error: int)
  datatype Result = Ok(chunk: Chunk) | Err(failure: Failure)

  // saturating_sub and saturating_add
  function Lowest(origin: int, maxDistance: nat): int {
    Search.Saturating(origin - maxDistance)
  }

  function Highest(origin: int, maxDistance: nat): int {
    if origin + maxDistance < TWO64 then origin + maxDistance else TWO64 - 1
  }

  // The lowest and highest address of the pool are in the range.
  predicate IsPoolInRange(p: Pool, lo: int, hi: int) {
    lo <= p.lower < hi && lo <= p.lower + p.len - 1 < hi
  }

  function Take(p: Pool, c: Chunk): Pool {
    p.(live := p.live + {c})
  }

  // The first pool from number i on that is in range and can take the request.
  function Eligible(w: World, pools: seq<Pool>, lo: int, hi: int, size: nat, i: nat): Option<nat>
    decreases |pools| - i
  {
    if i >= |pools| then None
    else if IsPoolInRange(pools[i], lo, hi) && w.place(pools[i], size).Some? then Some(i)
    else Eligible(w, pools, lo, hi, size, i + 1)
  }

  // The first search result from number k on that fails or can be mapped.
  function Mapping(w: World, pools: seq<Pool>, items: seq<Search.Item>, size: nat, k: nat): Option<Search.Item>
    decreases |items| - k
  {
    if k >= |items| then None
    else
      match items[k]
      case Error(_) => Some(items[k])
      case Found(a) => if w.mmap(a, size, pools).Some? then Some(items[k]) else Mapping(w, pools, items, size, k + 1)
  }

  // `items` is what the search after and then before the origin yields.
  function Allocated(w: World, pools: seq<Pool>, lo: int, hi: int, items: seq<Search.Item>, size: nat)
    : (seq<Pool>, Result)
  {
    match Eligible(w, pools, lo, hi, size, 0)
    case Some(i) =>
      if i < |pools| && w.place(pools[i], size).Some? then
        var c := Chunk(w.place(pools[i], size).value, size);
        (pools[i := Take(pools[i], c)], Ok(c))
      else (pools, Err(OutOfMemory))
    case None =>
      match Mapping(w, pools, items, size, 0)
      case None => (pools, Err(OutOfMemory))
      case Some(Error(e)) => (pools, Err(RegionFailure(e)))
      case Some(Found(a)) =>
        if w.mmap(a, size, pools).None? then (pools, Err(OutOfMemory))
        else
          var m := w.mmap(a, size, pools).value;
          var pool := Pool(m.start, m.size, {});
          match w.place(pool, size)
          case None => (pools, Err(OutOfMemory))
          case Some(b) => (pools + [Take(pool, Chunk(b, size))], Ok(Chunk(b, size)))
  }

  // The pool `release` finds, None being its panic.
  function Position(pools: seq<Pool>, address: int, i: nat): Option<nat>
    decreases |pools| - i
  {
    if i >= |pools| then None
    else if pools[i].Covers(address) then Some(i)
    else Position(pools, address, i + 1)
  }

  // `len` is the size of the pool in bytes, not the number of its allocations.
  function Released(pools: seq<Pool>, c: Chunk): Option<seq<Pool>> {
    match Position(pools, c.start, 0)
    case None => None
    case Some(i) =>
      if i >= |pools| then None
      else if pools[i].len == 1 then Some(pools[..i] + pools[i + 1..])
      else Some(pools[i := pools[i].(live := pools[i].live - {c})])
  }

  // ---- the class ------------------------------------------------------------

  class ProximityAllocator {
    const maxDistance: nat
    var pools: seq<Pool>

    constructor (maxDistance: nat)
      ensures this.maxDistance == maxDistance && pools == []
    {
      this.maxDistance, this.pools := maxDistance, [];
    }

    method AllocateMemory(w: World, lo: int, hi: int, size: nat) returns (r: Result)
      modifies this
      ensures
        var i := Eligible(w, old(pools), lo, hi, size, 0);
        match i
        case None => r == Err(OutOfMemory) && pools == old(pools)
        case Some(i) =>
          && i < |old(pools)| && w.place(old(pools)[i], size).Some?
          && r == Ok(Chunk(w.place(old(pools)[i], size).value, size))
          && pools == old(pools)[i := Take(old(pools)[i], r.chunk)]
    {
      for i := 0 to |pools|
        invariant pools == old(pools)
        invariant Eligible(w, pools, lo, hi, size, 0) == Eligible(w, pools, lo, hi, size, i)
      {
        if IsPoolInRange(pools[i], lo, hi) {
          var slice := w.place(pools[i], size);
          if slice.Some? {
            var c := Chunk(slice.value, size);
            pools := pools[i := Take(pools[i], c)];
            return Ok(c);
          }
        }
      }
      return Err(OutOfMemory);
    }

    method AllocatePool(w: World, items: seq<Search.Item>, size: nat) returns (pool: Option<Pool>, failure: Failure)
      ensures
        match Mapping(w, pools, items, size, 0)
        case None => pool.None? && failure == OutOfMemory
        case Some(Error(e)) => pool.None? && failure == RegionFailure(e)
        case Some(Found(a)) =>
          var m := w.mmap(a, size, pools);
          m.Some? && pool == Some(Pool(m.value.start, m.value.size, {}))
    {
      pool, failure := None, OutOfMemory;
      for k := 0 to |items|
        invariant Mapping(w, pools, items, size, 0) == Mapping(w, pools, items, size, k)
      {
        match items[k]
        case Error(e) => return None, RegionFailure(e);
        case Found(a) =>
          var m := w.mmap(a, size, pools);
          if m.Some? {
            return Some(Pool(m.value.start, m.value.size, {})), OutOfMemory;
          }
      }
    }

    method Allocate(w: World, origin: int, items: seq<Search.Item>, size: nat) returns (r: Result)
      requires w.Valid() && size > 0
      modifies this
      ensures (pools, r) ==
        Allocated(w, old(pools), Lowest(origin, maxDistance), Highest(origin, maxDistance), items, size)
    {
      r := AllocateMemory(w, Lowest(origin, maxDistance), Highest(origin, maxDistance), size);
      if r.Ok? {
        return;
      }
      var pool, failure := AllocatePool(w, items, size);
      if pool.None? {
        return Err(failure);
      }
      var slice := w.place(pool.value, size);
      var c := Chunk(slice.value, size);
      pools := pools + [Take(pool.value, c)];
      return Ok(c);
    }

    // The live allocation is dropped after its pool was looked up.
    method Release(c: Chunk)
      requires Inv(pools) && IsLive(pools, c)
      modifies this
      ensures Some(pools) == Released(old(pools), c)
    {
      LookupSucceeds(pools, c);
      var i := 0;
      while !pools[i].Covers(c.start)
        invariant 0 <= i < |pools| && pools == old(pools)
        invariant Position(pools, c.start, 0) == Position(pools, c.start, i)
        invariant Position(pools, c.start, i).Some?
        decreases |pools| - i
      {
        i := i + 1;
        assert Position(pools, c.start, i).Some?;
      }
      if pools[i].len == 1 {
        pools := pools[..i] + pools[i + 1..];
      } else {
        pools := pools[i := pools[i].(live := pools[i].live - {c})];
      }
    }
  }

  // ---- one call -------------------------------------------------------------

  // The pool's first and last byte are in the range, and it has room.
  ghost predicate Serves(w: World, p: Pool, lo: int, hi: int, size: nat) {
    lo <= p.lower < hi && lo <= p.lower + p.len - 1 < hi && w.place(p, size).Some?
  }

  // The first pool that can serve the request, None only if there is none.
  lemma {:induction false} EligibleIs(w: World, pools: seq<Pool>, lo: int, hi: int, size: nat, i: nat)
    ensures
      var r := Eligible(w, pools, lo, hi, size, i);
      r.Some? ==> i <= r.value < |pools| && Serves(w, pools[r.value], lo, hi, size)
    ensures
      var r := Eligible(w, pools, lo, hi, size, i);
      forall j | i <= j < (if r.Some? then r.value else |pools|) :: !Serves(w, pools[j], lo, hi, size)
    decreases |pools| - i
  {
    if i < |pools| {
      EligibleIs(w, pools, lo, hi, size, i + 1);
    }
  }

  // An address that cannot be mapped, which the search goes on from.
  predicate Passed(w: World, pools: seq<Pool>, item: Search.Item, size: nat) {
    item.Found? && w.mmap(item.address, size, pools).None?
  }

  // The first search result that fails or can be mapped, None only if there is
  // none.
  lemma {:induction false} MappingIs(w: World, pools: seq<Pool>, items: seq<Search.Item>, size: nat, k: nat)
    returns (j: nat)
    ensures
      match Mapping(w, pools, items, size, k)
      case None => forall i | k <= i < |items| :: Passed(w, pools, items[i], size)
      case Some(item) =>
        && k <= j < |items| && item == items[j] && !Passed(w, pools, item, size)
        && forall i | k <= i < j :: Passed(w, pools, items[i], size)
    decreases |items| - k
  {
    j := k;
    if k < |items| && Passed(w, pools, items[k], size) {
      j := MappingIs(w, pools, items, size, k + 1);
    }
  }

  // Whether and where a request is served: by the first pool that can, or else
  // from a new pool at the first address that can be mapped; it fails with the
  // first failure of the search before that, and is out of memory exactly when
  // there is neither pool nor address.
  lemma AllocatedIs(w: World, pools: seq<Pool>, lo: int, hi: int, items: seq<Search.Item>, size: nat)
    requires w.Valid() && size > 0
    ensures
      var (after, r) := Allocated(w, pools, lo, hi, items, size);
      var none := forall i | 0 <= i < |pools| :: !Serves(w, pools[i], lo, hi, size);
      && (r == Err(OutOfMemory) <==> none && forall k | 0 <= k < |items| :: Passed(w, pools, items[k], size))
      && (forall e :: r == Err(RegionFailure(e)) <==> none && First(w, pools, items, size, Search.Error(e)))
      && (r.Ok? ==>
            var c := r.chunk;
            if none then
              First(w, pools, items, size, Search.Found(c.start)) && |after| == |pools| + 1 && after[..|pools|] == pools
              && after[|pools|].lower == c.start && after[|pools|].live == {c}
            else
              exists i :: 0 <= i < |pools| && Serves(w, pools[i], lo, hi, size)
                && after == pools[i := Take(pools[i], c)] && c == Chunk(w.place(pools[i], size).value, size)
                && forall j | 0 <= j < i :: !Serves(w, pools[j], lo, hi, size))
  {
    EligibleIs(w, pools, lo, hi, size, 0);
    var k := MappingIs(w, pools, items, size, 0);
    var (after, r) := Allocated(w, pools, lo, hi, items, size);
    match Eligible(w, pools, lo, hi, size, 0)
    case Some(i) =>
      assert Serves(w, pools[i], lo, hi, size) && after == pools[i := Take(pools[i], r.chunk)];
    case None =>
      if Mapping(w, pools, items, size, 0).Some? {
        assert First(w, pools, items, size, items[k]);
        OnlyFirst(w, pools, items, size, k);
        if items[k].Found? {
          NewPoolServes(w, pools, items[k].address, size);
        }
      }
  }

  // The first item that the search does not go on from.
  ghost predicate First(w: World, pools: seq<Pool>, items: seq<Search.Item>, size: nat, item: Search.Item) {
    exists k :: 0 <= k < |items| && item == items[k] && !Passed(w, pools, item, size)
      && forall i | 0 <= i < k :: Passed(w, pools, items[i], size)
  }

  lemma OnlyFirst(w: World, pools: seq<Pool>, items: seq<Search.Item>, size: nat, k: nat)
    requires k < |items| && !Passed(w, pools, items[k], size)
    requires forall i | 0 <= i < k :: Passed(w, pools, items[i], size)
    ensures forall item | First(w, pools, items, size, item) :: item == items[k]
  {
    forall item | First(w, pools, items, size, item) ensures item == items[k] {
      var n :| 0 <= n < |items| && item == items[n] && !Passed(w, pools, item, size)
        && forall i | 0 <= i < n :: Passed(w, pools, items[i], size);
      assert n == k;
    }
  }

  // A pool that was just mapped has room at its start.
  lemma NewPoolServes(w: World, pools: seq<Pool>, a: int, size: nat)
    requires w.Valid() && size > 0 && w.mmap(a, size, pools).Some?
    ensures
      var m := w.mmap(a, size, pools).value;
      m.start == a && w.place(Pool(m.start, m.size, {}), size) == Some(a)
  {
    var m := w.mmap(a, size, pools).value;
    assert w.place(Pool(m.start, m.size, {}), size).Some?;
  }

  // The range of a request: the addresses within the distance of the origin that
  // are addresses, but for the last one.
  lemma RangeIs(origin: u64, distance: nat, x: int)
    ensures Lowest(origin, distance) <= x < Highest(origin, distance) <==>
            origin - distance <= x < origin + distance && 0 <= x < TWO64 - 1
  {
  }

  // An address in a pool is found there, and nowhere else.
  lemma {:induction false} PositionIs(pools: seq<Pool>, address: int, i: nat, k: nat)
    requires Inv(pools) && i <= k < |pools| && pools[k].Covers(address)
    ensures Position(pools, address, i) == Some(k)
    decreases |pools| - i
  {
    if i < k {
      assert Apart(pools[i].Area(), pools[k].Area());
      PositionIs(pools, address, i + 1, k);
    }
  }

  lemma LookupSucceeds(pools: seq<Pool>, c: Chunk)
    requires Inv(pools) && IsLive(pools, c)
    ensures
      var i := Position(pools, c.start, 0);
      && i.Some? && i.value < |pools| && c in pools[i.value].live
      && forall j | 0 <= j < |pools| && c in pools[j].live :: j == i.value
  {
    forall j | 0 <= j < |pools| && c in pools[j].live ensures Position(pools, c.start, 0) == Some(j) {
      assert PoolValid(pools[j]);
      PositionIs(pools, c.start, 0, j);
    }
  }

  lemma TakeValid(p: Pool, c: Chunk)
    requires PoolValid(p) && c.size > 0 && Inside(c, p) && forall d | d in p.live :: Apart(c, d)
    ensures PoolValid(Take(p, c))
  {
  }

  lemma ReplaceKeeps(pools: seq<Pool>, i: nat, p: Pool)
    requires Inv(pools) && i < |pools| && PoolValid(p) && p.Area() == pools[i].Area()
    ensures Inv(pools[i := p])
  {
  }

  // A successful allocation is a new chunk of the size asked for, disjoint from
  // everything live, and nothing else changes; a failed one changes nothing.
  lemma AllocateKeeps(w: World, pools: seq<Pool>, lo: int, hi: int, items: seq<Search.Item>, size: nat, d: Chunk)
    requires w.Valid() && Inv(pools) && size > 0
    ensures
      var (after, r) := Allocated(w, pools, lo, hi, items, size);
      && Inv(after)
      && (r.Ok? ==> r.chunk.size == size && IsLive(after, r.chunk) && (IsLive(pools, d) ==> Apart(r.chunk, d)))
      && (IsLive(after, d) <==> IsLive(pools, d) || r == Ok(d))
      && (r.Err? ==> after == pools)
  {
    EligibleIs(w, pools, lo, hi, size, 0);
    var j := MappingIs(w, pools, items, size, 0);
    match Eligible(w, pools, lo, hi, size, 0)
    case Some(i) => ReuseKeeps(w, pools, i, size, d);
    case None =>
      match Mapping(w, pools, items, size, 0)
      case Some(Found(a)) => MapKeeps(w, pools, a, size, d);
      case _ =>
  }

  lemma ReuseKeeps(w: World, pools: seq<Pool>, i: nat, size: nat, d: Chunk)
    requires w.Valid() && Inv(pools) && size > 0 && i < |pools| && w.place(pools[i], size).Some?
    ensures
      var c := Chunk(w.place(pools[i], size).value, size);
      var after := pools[i := Take(pools[i], c)];
      && Inv(after) && IsLive(after, c) && (IsLive(pools, d) ==> Apart(c, d))
      && (IsLive(after, d) <==> IsLive(pools, d) || d == c)
  {
    var c := Chunk(w.place(pools[i], size).value, size);
    var after := pools[i := Take(pools[i], c)];
    TakeValid(pools[i], c);
    ReplaceKeeps(pools, i, Take(pools[i], c));
    assert c in after[i].live;
    if IsLive(pools, d) {
      var k :| 0 <= k < |pools| && d in pools[k].live;
      assert d in after[k].live;
      ApartAcross(pools, i, c, k, d);
    }
  }

  // Chunks of different pools are disjoint.
  lemma ApartAcross(pools: seq<Pool>, i: nat, c: Chunk, k: nat, d: Chunk)
    requires Inv(pools) && i < |pools| && k < |pools| && d in pools[k].live
    requires Inside(c, pools[i]) && (i == k ==> forall e | e in pools[i].live :: Apart(c, e))
    ensures Apart(c, d)
  {
    assert PoolValid(pools[k]);
    if i < k {
      assert Apart(pools[i].Area(), pools[k].Area());
    } else if k < i {
      assert Apart(pools[k].Area(), pools[i].Area());
    }
  }

  lemma MapKeeps(w: World, pools: seq<Pool>, a: int, size: nat, d: Chunk)
    requires w.Valid() && Inv(pools) && size > 0 && w.mmap(a, size, pools).Some?
    ensures
      var m := w.mmap(a, size, pools).value;
      var pool := Pool(m.start, m.size, {});
      && w.place(pool, size).Some?
      && var c := Chunk(w.place(pool, size).value, size);
         var after := pools + [Take(pool, c)];
         && Inv(after) && IsLive(after, c) && (IsLive(pools, d) ==> Apart(c, d))
         && (IsLive(after, d) <==> IsLive(pools, d) || d == c)
  {
    var m := w.mmap(a, size, pools).value;
    var pool := Pool(m.start, m.size, {});
    var c := Chunk(w.place(pool, size).value, size);
    TakeValid(pool, c);
    AppendKeeps(pools, Take(pool, c));
    var after := pools + [Take(pool, c)];
    assert c in after[|pools|].live;
    if IsLive(pools, d) {
      var k :| 0 <= k < |pools| && d in pools[k].live;
      assert d in after[k].live;
      assert Apart(pools[k].Area(), after[|pools|].Area());
      assert PoolValid(pools[k]);
    }
  }

  lemma AppendKeeps(pools: seq<Pool>, p: Pool)
    requires Inv(pools) && PoolValid(p) && p.len > 0 && forall q | q in pools :: Apart(p.Area(), q.Area())
    ensures Inv(pools + [p])
  {
  }

  // Releasing a live allocation never fails, and ends that one alone.
  lemma ReleaseKeeps(pools: seq<Pool>, c: Chunk, d: Chunk)
    requires Inv(pools) && IsLive(pools, c)
    ensures
      var after := Released(pools, c);
      after.Some? && Inv(after.value) && (IsLive(after.value, d) <==> IsLive(pools, d) && d != c)
  {
    LookupSucceeds(pools, c);
    var i := Position(pools, c.start, 0).value;
    var after := Released(pools, c).value;
    if pools[i].len == 1 {
      if d in pools[i].live {
        OnlyChunk(pools[i], c, d);
      }
      RemovedKeeps(pools, i, d);
      NotElsewhere(pools, after, i, c);
    } else {
      var p := pools[i].(live := pools[i].live - {c});
      assert PoolValid(pools[i]);
      ReplaceKeeps(pools, i, p);
      if IsLive(pools, d) && d != c {
        var k :| 0 <= k < |pools| && d in pools[k].live;
        assert d in after[k].live;
      }
    }
  }

  // What is live in the other pools stays so when pool i goes.
  lemma RemovedKeeps(pools: seq<Pool>, i: nat, d: Chunk)
    requires i < |pools|
    ensures
      var after := pools[..i] + pools[i + 1..];
      IsLive(pools, d) <==> IsLive(after, d) || d in pools[i].live
  {
    var after := pools[..i] + pools[i + 1..];
    assert forall k | 0 <= k < |after| :: after[k] == pools[if k < i then k else k + 1];
    if IsLive(pools, d) && d !in pools[i].live {
      var k :| 0 <= k < |pools| && d in pools[k].live;
      assert d in after[if k < i then k else k - 1].live;
    }
  }

  // A pool of one byte holds at most one allocation.
  lemma OnlyChunk(p: Pool, c: Chunk, d: Chunk)
    requires PoolValid(p) && p.len == 1 && c in p.live && d in p.live
    ensures c == d
  {
  }

  lemma NotElsewhere(pools: seq<Pool>, after: seq<Pool>, i: nat, c: Chunk)
    requires Inv(pools) && i < |pools| && c in pools[i].live && after == pools[..i] + pools[i + 1..]
    ensures Inv(after) && !IsLive(after, c)
  {
    LookupSucceeds(pools, c);
    assert forall k | 0 <= k < |after| :: after[k] == pools[if k < i then k else k + 1];
  }

  // A request is served from an existing pool only if all of the pool is in
  // the requested range, so the allocation is.
  lemma ReuseInRange(w: World, pools: seq<Pool>, lo: int, hi: int, items: seq<Search.Item>, size: nat)
    requires w.Valid() && size > 0 && Eligible(w, pools, lo, hi, size, 0).Some?
    ensures
      var i := Eligible(w, pools, lo, hi, size, 0).value;
      var (after, r) := Allocated(w, pools, lo, hi, items, size);
      && i < |pools| && lo <= pools[i].lower && pools[i].lower + pools[i].len <= hi
      && r.Ok? && |after| == |pools| && lo <= r.chunk.start && r.chunk.End() <= hi
    ensures forall origin: u64, distance: nat {:trigger Lowest(origin, distance)} ::
      lo == Lowest(origin, distance) && hi == Highest(origin, distance) ==>
        var c := Allocated(w, pools, lo, hi, items, size).1.chunk;
        origin - distance <= c.start && c.End() <= origin + distance
  {
    EligibleIs(w, pools, lo, hi, size, 0);
  }

  // A new pool is asked for at a free page of the range.
  lemma MapsFreePage(w: World, pools: seq<Pool>, s: Search.Space, origin: int, size: nat, a: int)
    requires s.Valid() && origin > 0 && s.InRange(origin) && s.query(origin).Mapped?
    requires
      var items := Search.Drain(s, Search.After, origin) + Search.Drain(s, Search.Before, origin);
      Mapping(w, pools, items, size, 0) == Some(Search.Found(a))
    ensures s.query(a) == Search.Free && s.InRange(a) && a > 0 && s.Aligned(a)
  {
    var after, before := Search.Drain(s, Search.After, origin), Search.Drain(s, Search.Before, origin);
    var j := MappingIs(w, pools, after + before, size, 0);
    Search.SearchYields(s, Search.After, origin, a);
    Search.SearchYields(s, Search.Before, origin, a);
  }

  // ---- where an allocation is ----------------------------------------------

  // The pools are user memory of their own, and everything in them starts at a
  // multiple of `unit`.
  ghost predicate PoolSited(w: World, p: Pool, unit: nat) {
    && unit > 0 && InUserSpace(p.Area()) && p.lower % unit == 0
    && (forall o | o in w.others :: Apart(p.Area(), o))
    && (forall c | c in p.live :: c.start % unit == 0 && c.size % unit == 0)
  }

  ghost predicate Sited(w: World, pools: seq<Pool>, unit: nat) {
    unit > 0 && forall i {:trigger pools[i]} :: 0 <= i < |pools| ==> PoolSited(w, pools[i], unit)
  }

  // What the search yields lies in the range, on multiples of `unit`.
  ghost predicate ItemsIn(items: seq<Search.Item>, lo: int, hi: int, unit: nat) {
    unit > 0 && forall a :: Search.Found(a) in items ==> lo <= a < hi && a % unit == 0
  }

  // A search through pages that are multiples of the unit yields such items.
  lemma SearchedItems(s: Search.Space, origin: int, unit: nat)
    requires s.Valid() && origin > 0 && s.InRange(origin) && s.query(origin).Mapped?
    requires unit > 0 && s.page % unit == 0
    ensures ItemsIn(Search.Drain(s, Search.After, origin) + Search.Drain(s, Search.Before, origin), s.lo, s.hi, unit)
  {
    var after, before := Search.Drain(s, Search.After, origin), Search.Drain(s, Search.Before, origin);
    forall a | Search.Found(a) in after + before ensures s.lo <= a < s.hi && a % unit == 0 {
      Search.SearchYields(s, Search.After, origin, a);
      Search.SearchYields(s, Search.Before, origin, a);
      Divides(a, s.page, unit);
    }
  }

  lemma Divides(a: int, page: nat, unit: nat)
    requires unit > 0 && page > 0 && a % page == 0 && page % unit == 0
    ensures a % unit == 0
  {
    var q, k := page / unit, a / page;
    assert page == q * unit && a == k * page;
    assert a == (k * q) * unit;
    Quotient(k * q, unit);
  }

  lemma SumDivides(a: int, b: int, unit: nat)
    requires unit > 0 && a % unit == 0 && b % unit == 0
    ensures (a + b) % unit == 0
  {
    var q, k := a / unit, b / unit;
    assert a + b == (q + k) * unit;
    Quotient(q + k, unit);
  }

  lemma GapAligned(w: World, p: Pool, a: int, unit: nat)
    requires PoolSited(w, p, unit) && StartsGap(p, a)
    ensures a % unit == 0
  {
    if a != p.lower {
      var c :| c in p.live && a == c.End();
      SumDivides(c.start, c.size, unit);
    }
  }

  // A pool that hands out a chunk stays sited, and so is the chunk.
  lemma TakeSited(w: World, p: Pool, size: nat, unit: nat)
    requires w.Valid() && size > 0 && PoolSited(w, p, unit) && size % unit == 0 && w.place(p, size).Some?
    ensures
      var c := Chunk(w.place(p, size).value, size);
      && PoolSited(w, Take(p, c), unit)
      && c.start % unit == 0 && InUserSpace(c) && Inside(c, p) && forall o | o in w.others :: Apart(c, o)
  {
    var a := w.place(p, size).value;
    GapAligned(w, p, a, unit);
    var c := Chunk(a, size);
    forall o | o in w.others ensures Apart(c, o) {
      assert Apart(p.Area(), o);
    }
  }

  // A new allocation starts in the range asked for, is aligned, in user memory,
  // and disjoint from everything else that is mapped.
  lemma AllocateSited(w: World, pools: seq<Pool>, lo: int, hi: int, items: seq<Search.Item>, size: nat, unit: nat)
    requires w.Valid() && Sited(w, pools, unit) && size > 0 && size % unit == 0 && ItemsIn(items, lo, hi, unit)
    ensures
      var (after, r) := Allocated(w, pools, lo, hi, items, size);
      && Sited(w, after, unit)
      && (r.Ok? ==>
            && lo <= r.chunk.start < hi && r.chunk.start % unit == 0 && InUserSpace(r.chunk)
            && forall o | o in w.others :: Apart(r.chunk, o))
  {
    EligibleIs(w, pools, lo, hi, size, 0);
    var j := MappingIs(w, pools, items, size, 0);
    match Eligible(w, pools, lo, hi, size, 0)
    case Some(i) => TakeSited(w, pools[i], size, unit);
    case None =>
      match Mapping(w, pools, items, size, 0)
      case Some(Found(a)) => MapSites(w, a, pools, size, unit);
      case _ =>
  }

  // For a request close to an origin that is within the distance of it.
  lemma AllocateSites(w: World, pools: seq<Pool>, origin: u64, distance: nat, items: seq<Search.Item>,
                      size: nat, unit: nat)
    requires w.Valid() && Sited(w, pools, unit) && size > 0 && size % unit == 0
    requires ItemsIn(items, Lowest(origin, distance), Highest(origin, distance), unit)
    ensures
      var (after, r) := Allocated(w, pools, Lowest(origin, distance), Highest(origin, distance), items, size);
      && Sited(w, after, unit)
      && (r.Ok? ==>
            && origin - distance <= r.chunk.start < origin + distance
            && r.chunk.start % unit == 0 && InUserSpace(r.chunk) && forall o | o in w.others :: Apart(r.chunk, o))
  {
    AllocateSited(w, pools, Lowest(origin, distance), Highest(origin, distance), items, size, unit);
  }

  lemma MapSites(w: World, a: int, pools: seq<Pool>, size: nat, unit: nat)
    requires w.Valid() && size > 0 && unit > 0 && size % unit == 0 && a % unit == 0 && w.mmap(a, size, pools).Some?
    ensures
      var m := w.mmap(a, size, pools).value;
      var pool := Pool(m.start, m.size, {});
      && PoolSited(w, pool, unit) && w.place(pool, size) == Some(a)
      && var c := Chunk(a, size);
         && PoolSited(w, Take(pool, c), unit) && InUserSpace(c) && forall o | o in w.others :: Apart(c, o)
  {
    var m := w.mmap(a, size, pools).value;
    var pool := Pool(m.start, m.size, {});
    assert w.place(pool, size).Some?;
    TakeSited(w, pool, size, unit);
  }

  lemma ReleaseSites(w: World, pools: seq<Pool>, c: Chunk, unit: nat)
    requires Inv(pools) && IsLive(pools, c) && Sited(w, pools, unit)
    ensures Released(pools, c).Some? && Sited(w, Released(pools, c).value, unit)
  {
    LookupSucceeds(pools, c);
    var i := Position(pools, c.start, 0).value;
    assert PoolSited(w, pools[i], unit);
    var after := Released(pools, c).value;
    forall k | 0 <= k < |after| ensures PoolSited(w, after[k], unit) {
      assert pools[i].len == 1 ==> after[k] == pools[if k < i then k else k + 1];
    }
  }

  // ---- runs -----------------------------------------------------------------

  datatype Op =
    | Alloc(lo: int, hi: int, items: seq<Search.Item>, size: nat)
    | Free(chunk: Chunk)

  // None once a lookup fails.
  function Execute(w: World, pools: seq<Pool>, ops: seq<Op>): Option<seq<Pool>>
    decreases |ops|
  {
    if ops == [] then Some(pools)
    else
      match ops[0]
      case Alloc(lo, hi, items, size) => Execute(w, Allocated(w, pools, lo, hi, items, size).0, ops[1..])
      case Free(c) =>
        match Released(pools, c)
        case None => None
        case Some(after) => Execute(w, after, ops[1..])
  }

  // Requests are for at least one byte, and only live allocations are
  // released.
  ghost predicate Proper(w: World, pools: seq<Pool>, ops: seq<Op>)
    decreases |ops|
  {
    if ops == [] then true
    else
      match ops[0]
      case Alloc(lo, hi, items, size) => size > 0 && Proper(w, Allocated(w, pools, lo, hi, items, size).0, ops[1..])
      case Free(c) => IsLive(pools, c) && (Released(pools, c).Some? ==> Proper(w, Released(pools, c).value, ops[1..]))
  }

  // Over every run live allocations are pairwise disjoint, each lies in exactly
  // one pool, and no lookup fails.
  lemma {:induction false} RunKeeps(w: World, pools: seq<Pool>, ops: seq<Op>)
    requires w.Valid() && Inv(pools) && Proper(w, pools, ops)
    ensures Execute(w, pools, ops).Some? && Inv(Execute(w, pools, ops).value)
    decreases |ops|
  {
    if ops != [] {
      match ops[0]
      case Alloc(lo, hi, items, size) =>
        AllocateKeeps(w, pools, lo, hi, items, size, Chunk(0, 0));
        RunKeeps(w, Allocated(w, pools, lo, hi, items, size).0, ops[1..]);
      case Free(c) =>
        ReleaseKeeps(pools, c, c);
        RunKeeps(w, Released(pools, c).value, ops[1..]);
    }
  }

  // Requests are for multiples of the unit, and what the search yields for them
  // is.
  ghost predicate InUnits(ops: seq<Op>, unit: nat) {
    unit > 0 && forall op | op in ops && op.Alloc? :: op.size % unit == 0 && ItemsIn(op.items, op.lo, op.hi, unit)
  }

  // Over every run of such requests, for whatever origins, everything allocated
  // is aligned, in user memory, and away from all that was mapped before.
  lemma {:induction false} RunSites(w: World, pools: seq<Pool>, ops: seq<Op>, unit: nat)
    requires w.Valid() && Inv(pools) && Sited(w, pools, unit) && Proper(w, pools, ops) && InUnits(ops, unit)
    ensures Execute(w, pools, ops).Some?
    ensures Inv(Execute(w, pools, ops).value) && Sited(w, Execute(w, pools, ops).value, unit)
    decreases |ops|
  {
    if ops != [] {
      match ops[0]
      case Alloc(lo, hi, items, size) =>
        AllocateKeeps(w, pools, lo, hi, items, size, Chunk(0, 0));
        AllocateSited(w, pools, lo, hi, items, size, unit);
        RunSites(w, Allocated(w, pools, lo, hi, items, size).0, ops[1..], unit);
      case Free(c) =>
        ReleaseKeeps(pools, c, c);
        ReleaseSites(w, pools, c, unit);
        RunSites(w, Released(pools, c).value, ops[1..], unit);
    }
  }

  // So along every run from no pools each live chunk keeps away from what else
  // is mapped.
  lemma LiveSited(w: World, ops: seq<Op>, unit: nat, c: Chunk)
    requires w.Valid() && Proper(w, [], ops) && InUnits(ops, unit)
    ensures Execute(w, [], ops).Some? && Inv(Execute(w, [], ops).value) && Sited(w, Execute(w, [], ops).value, unit)
    ensures IsLive(Execute(w, [], ops).value, c) ==>
      c.start % unit == 0 && c.size % unit == 0 && InUserSpace(c) && forall o | o in w.others :: Apart(c, o)
  {
    RunSites(w, [], ops, unit);
    var pools := Execute(w, [], ops).value;
    if IsLive(pools, c) {
      var i :| 0 <= i < |pools| && c in pools[i].live;
      assert PoolSited(w, pools[i], unit) && PoolValid(pools[i]);
      forall o | o in w.others ensures Apart(c, o) {
        assert Apart(pools[i].Area(), o);
      }
    }
  }

  lemma LiveApart(w: World, ops: seq<Op>, c: Chunk, d: Chunk)
    requires w.Valid() && Proper(w, [], ops)
    ensures Execute(w, [], ops).Some?
    ensures
      var pools := Execute(w, [], ops).value;
      IsLive(pools, c) && IsLive(pools, d) && c != d ==> Apart(c, d)
    ensures
      var pools := Execute(w, [], ops).value;
      IsLive(pools, c) ==>
        exists i :: 0 <= i < |pools| && Inside(c, pools[i])
          && forall j | 0 <= j < |pools| && pools[j].Covers(c.start) :: j == i
  {
    RunKeeps(w, [], ops);
    var pools := Execute(w, [], ops).value;
    if IsLive(pools, c) {
      LookupSucceeds(pools, c);
      var i := Position(pools, c.start, 0).value;
      assert PoolValid(pools[i]);
      forall j | 0 <= j < |pools| && pools[j].Covers(c.start) ensures j == i {
        PositionIs(pools, c.start, 0, j);
      }
      if IsLive(pools, d) && c != d {
        var k :| 0 <= k < |pools| && d in pools[k].live;
        assert forall e | e in pools[i].live && e != c :: Apart(c, e);
        if k != i {
          ApartAcross(pools, i, c, k, d);
        }
      }
    }
  }

  ghost predicate HasPool(pools: seq<Pool>, area: Chunk) {
    exists i :: 0 <= i < |pools| && pools[i].Area() == area
  }

  lemma AllocateStays(w: World, pools: seq<Pool>, lo: int, hi: int, items: seq<Search.Item>, size: nat, area: Chunk)
    requires HasPool(pools, area)
    ensures HasPool(Allocated(w, pools, lo, hi, items, size).0, area)
  {
    var i :| 0 <= i < |pools| && pools[i].Area() == area;
    var after := Allocated(w, pools, lo, hi, items, size).0;
    assert after[i].Area() == area;
  }

  lemma ReleaseStays(pools: seq<Pool>, c: Chunk, area: Chunk)
    requires Released(pools, c).Some? && area.size >= 2 && HasPool(pools, area)
    ensures HasPool(Released(pools, c).value, area)
  {
    var i :| 0 <= i < |pools| && pools[i].Area() == area;
    var k := Position(pools, c.start, 0).value;
    var after := Released(pools, c).value;
    assert after[if pools[k].len == 1 && k < i then i - 1 else i].Area() == area;
  }

  // A release gives its pool back exactly when the pool is one byte long.
  lemma ReleaseDropsIff(pools: seq<Pool>, c: Chunk, i: nat)
    requires Inv(pools) && i < |pools| && c in pools[i].live
    ensures Released(pools, c).Some?
    ensures HasPool(Released(pools, c).value, pools[i].Area()) <==> pools[i].len != 1
  {
    LookupSucceeds(pools, c);
    assert IsLive(pools, c);
    var after, area := Released(pools, c).value, pools[i].Area();
    if pools[i].len == 1 {
      forall k | 0 <= k < |after| ensures after[k].Area() != area {
        var n := if k < i then k else k + 1;
        assert after[k] == pools[n];
        assert if n < i then Apart(pools[n].Area(), area) else Apart(area, pools[n].Area());
      }
    } else {
      assert after[i].Area() == area;
    }
  }

  // The comparison with 1 in `release` is with the pool's length in bytes, so
  // no pool of two bytes or more is ever given back.
  lemma {:induction false} PoolsStay(w: World, pools: seq<Pool>, ops: seq<Op>, area: Chunk)
    requires w.Valid() && Inv(pools) && Proper(w, pools, ops) && area.size >= 2 && HasPool(pools, area)
    ensures Execute(w, pools, ops).Some? && HasPool(Execute(w, pools, ops).value, area)
    decreases |ops|
  {
    if ops != [] {
      match ops[0]
      case Alloc(lo, hi, items, size) =>
        AllocateKeeps(w, pools, lo, hi, items, size, Chunk(0, 0));
        AllocateStays(w, pools, lo, hi, items, size, area);
        PoolsStay(w, Allocated(w, pools, lo, hi, items, size).0, ops[1..], area);
      case Free(c) =>
        ReleaseKeeps(pools, c, c);
        ReleaseStays(pools, c, area);
        PoolsStay(w, Released(pools, c).value, ops[1..], area);
    }
  }
}
