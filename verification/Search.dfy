// The search for free pages around an address, src/alloc/search.rs.
module Search {
  import opened Machine

  // What region::query says of an address.
  datatype Answer =
    | Mapped(lower: int, upper: int)
    | Free
    | Failed(error: int)

  datatype Item = Found(address: int) | Error(error: int)

  datatype Direction = Before | After

  datatype Space = Space(query: int -> Answer, page: int, lo: int, hi: int)
  {
    // Regions are made of whole pages, an answer holds for the whole region,
    // and no address overflows.
    ghost predicate Valid() {
      && page > 0 && 0 <= lo
      && (forall a {:trigger query(a)} :: Sound(a))
    }

    ghost predicate Sound(a: int) {
      match query(a)
      case Mapped(l, u) =>
        && 0 <= l <= a < u < TWO64 && Aligned(l) && Aligned(u)
        && forall b {:trigger query(b)} :: l <= b < u ==> query(b) == Mapped(l, u)
      case _ => InRange(a) ==> a + page < TWO64
    }

    predicate Aligned(a: int) {
      page > 0 && a % page == 0
    }

    predicate InRange(a: int) {
      lo <= a < hi
    }

    function Step(dir: Direction, current: int): int {
      match dir
      case Before => Saturating(current - page)
      case After => current + page
    }

    function Skip(dir: Direction, l: int, u: int): int {
      match dir
      case Before => Saturating(l - page)
      case After => u
    }
  }

  function Saturating(x: int): int {
    if x < 0 then 0 else x
  }

  // How far there is to go.
  function Distance(s: Space, dir: Direction, current: int): nat {
    match dir
    case Before => if current > 0 then current else 0
    case After => if current < s.hi then s.hi - current else 0
  }

  // The next item and the address after it.
  ghost function NextFrom(s: Space, dir: Direction, current: int): (Option<Item>, int)
    requires s.Valid()
    decreases Distance(s, dir, current)
  {
    if !(current > 0 && s.InRange(current)) then (None, current)
    else
      assert s.Sound(current);
      match s.query(current)
      case Mapped(l, u) => NextFrom(s, dir, s.Skip(dir, l, u))
      case Free => (Some(Found(current)), s.Step(dir, current))
      case Failed(e) => (Some(Error(e)), s.Step(dir, current))
  }

  class FreeRegionIter {
    const space: Space
    const search: Direction
    var current: int

    constructor (space: Space, origin: int, search: Direction)
      ensures this.space == space && this.search == search && current == origin
    {
      this.space, this.search, this.current := space, search, origin;
    }

    method Next() returns (item: Option<Item>)
      requires space.Valid() && current >= 0
      modifies this
      ensures (item, current) == NextFrom(space, search, old(current))
      ensures current >= 0
      ensures item.Some? ==> Distance(space, search, current) < Distance(space, search, old(current))
    {
      while current > 0 && space.InRange(current)
        invariant current >= 0
        invariant NextFrom(space, search, current) == NextFrom(space, search, old(current))
        invariant Distance(space, search, current) <= Distance(space, search, old(current))
        decreases Distance(space, search, current)
      {
        assert space.Sound(current);
        match space.query(current)
        case Mapped(lower, upper) =>
          current := match search case Before => Saturating(lower - space.page) case After => upper;
        case Free =>
          item := Some(Found(current));
          current := space.Step(search, current);
          return;
        case Failed(error) =>
          item := Some(Error(error));
          current := space.Step(search, current);
          return;
      }
      item := None;
    }
  }

  lemma {:induction false} NextAdvances(s: Space, dir: Direction, current: int)
    requires s.Valid() && current >= 0
    ensures
      var (item, next) := NextFrom(s, dir, current);
      next >= 0 && (item.Some? ==> Distance(s, dir, next) < Distance(s, dir, current))
    decreases Distance(s, dir, current)
  {
    if current > 0 && s.InRange(current) {
      assert s.Sound(current);
      match s.query(current)
      case Mapped(l, u) => NextAdvances(s, dir, s.Skip(dir, l, u));
      case _ =>
    }
  }

  // Everything the iterator yields.
  ghost function Drain(s: Space, dir: Direction, current: int): seq<Item>
    requires s.Valid() && current >= 0
    decreases Distance(s, dir, current)
  {
    NextAdvances(s, dir, current);
    var (item, next) := NextFrom(s, dir, current);
    if item.None? then [] else [item.value] + Drain(s, dir, next)
  }

  // ---- the naive scan -------------------------------------------------------

  // What one page contributes.
  function Visit(s: Space, a: int): seq<Item> {
    match s.query(a)
    case Mapped(_, _) => []
    case Free => [Found(a)]
    case Failed(e) => [Error(e)]
  }

  // Page by page, upwards to the end of the range.
  function ScanUp(s: Space, a: int): seq<Item>
    requires s.page > 0
    decreases if a < s.hi then s.hi - a else 0
  {
    if a >= s.hi then [] else Visit(s, a) + ScanUp(s, a + s.page)
  }

  // Page by page, downwards to its start, and never page zero.
  function ScanDown(s: Space, a: int): seq<Item>
    requires s.page > 0
    decreases if a > 0 then a else 0
  {
    if a <= 0 || a < s.lo then [] else Visit(s, a) + ScanDown(s, a - s.page)
  }

  function Scan(s: Space, dir: Direction, a: int): seq<Item>
    requires s.page > 0
  {
    match dir
    case Before => ScanDown(s, a)
    case After => ScanUp(s, a)
  }

  lemma Multiples(page: int, a: int, b: int)
    requires page > 0 && a % page == 0 && b % page == 0 && a < b
    ensures a + page <= b && (a + page) % page == 0 && (b - page) % page == 0
  {
    NextMultiple(page, a);
    NextMultiple(page, b);
    InOrder(page, a / page, b / page);
  }

  lemma NextMultiple(page: int, a: int)
    requires page > 0 && a % page == 0
    ensures a == a / page * page && (a + page) % page == 0 && (a - page) % page == 0
  {
    var x := a / page;
    assert (x + 1) * page == x * page + page;
    assert (x - 1) * page == x * page - page;
    Quotient(x + 1, page);
    Quotient(x - 1, page);
  }

  lemma InOrder(page: int, x: int, y: int)
    requires page > 0 && x * page < y * page
    ensures x * page + page <= y * page
  {
    Grows(y, x, page);
    Grows(x + 1, y, page);
    assert (x + 1) * page == x * page + page;
  }

  // The pages of one mapped region contribute nothing.
  lemma {:induction false} SkipUp(s: Space, a: int, l: int, u: int)
    requires s.Valid() && s.Aligned(a) && l <= a <= u && s.Aligned(u)
    requires forall b {:trigger s.query(b)} :: l <= b < u ==> s.query(b) == Mapped(l, u)
    ensures ScanUp(s, a) == ScanUp(s, u)
    decreases u - a
  {
    if a < u {
      Multiples(s.page, a, u);
      SkipUp(s, a + s.page, l, u);
      if a >= s.hi {
        assert ScanUp(s, u) == [];
      } else {
        assert Visit(s, a) == [];
      }
    }
  }

  lemma {:induction false} SkipDown(s: Space, a: int, l: int, u: int)
    requires s.Valid() && s.Aligned(a) && 0 <= l <= a < u && s.Aligned(l)
    requires forall b {:trigger s.query(b)} :: l <= b < u ==> s.query(b) == Mapped(l, u)
    ensures ScanDown(s, a) == ScanDown(s, l - s.page)
    decreases a - l
  {
    if a > 0 && a >= s.lo {
      assert Visit(s, a) == [];
      if l < a {
        Multiples(s.page, l, a);
        SkipDown(s, a - s.page, l, u);
      }
    }
  }

  // From an aligned address on, skipping whole regions yields exactly what the
  // page-by-page scan yields.
  lemma {:induction false} AlignedDrain(s: Space, dir: Direction, a: int)
    requires s.Valid() && a >= 0 && s.Aligned(a)
    requires (dir == After ==> s.lo <= a && a > 0) && (dir == Before ==> a < s.hi)
    ensures Drain(s, dir, a) == Scan(s, dir, a)
    decreases Distance(s, dir, a), 1
  {
    if a > 0 && s.InRange(a) {
      assert s.Sound(a);
      match s.query(a)
      case Mapped(l, u) =>
        var next := s.Skip(dir, l, u);
        SkipAligned(s, dir, l, u);
        AlignedDrain(s, dir, next);
        if dir.After? {
          SkipUp(s, a, l, u);
        } else {
          SkipDown(s, a, l, u);
          ScanBelow(s, l - s.page);
        }
      case Free => StepDrain(s, dir, a);
      case Failed(_) => StepDrain(s, dir, a);
    }
  }

  lemma {:induction false} StepDrain(s: Space, dir: Direction, a: int)
    requires s.Valid() && s.Aligned(a) && a > 0 && s.InRange(a) && !s.query(a).Mapped?
    ensures Drain(s, dir, a) == Scan(s, dir, a)
    decreases Distance(s, dir, a), 0
  {
    StepAligned(s, dir, a);
    AlignedDrain(s, dir, s.Step(dir, a));
    if dir.Before? {
      ScanBelow(s, a - s.page);
    }
  }

  lemma ScanBelow(s: Space, a: int)
    requires s.page > 0
    ensures ScanDown(s, a) == ScanDown(s, Saturating(a))
  {
  }

  lemma StepAligned(s: Space, dir: Direction, a: int)
    requires s.Valid() && a > 0 && s.Aligned(a)
    ensures s.Aligned(s.Step(dir, a))
  {
    NextMultiple(s.page, a);
  }

  lemma SkipAligned(s: Space, dir: Direction, l: int, u: int)
    requires s.Valid() && 0 <= l && s.Aligned(l) && s.Aligned(u)
    ensures s.Aligned(s.Skip(dir, l, u))
  {
    if l > 0 {
      Multiples(s.page, 0, l);
    }
  }

  function PageOf(s: Space, a: int): int
    requires s.page > 0
  {
    a - a % s.page
  }

  lemma PageAligned(s: Space, a: int, l: int)
    requires s.page > 0 && s.Aligned(l) && l <= a
    ensures s.Aligned(PageOf(s, a)) && l <= PageOf(s, a) <= a
  {
    Quotient(a / s.page, s.page);
    assert PageOf(s, a) == a / s.page * s.page;
    if PageOf(s, a) < l {
      Multiples(s.page, PageOf(s, a), l);
    }
  }

  // Region search refines the page scan: from a mapped origin in the range the
  // iterator yields what a scan from the origin's page yields, in its order.
  lemma SearchIsScan(s: Space, dir: Direction, origin: int)
    requires s.Valid() && origin > 0 && s.InRange(origin) && s.query(origin).Mapped?
    ensures Drain(s, dir, origin) == Scan(s, dir, PageOf(s, origin))
  {
    assert s.Sound(origin);
    var l, u := s.query(origin).lower, s.query(origin).upper;
    PageAligned(s, origin, l);
    SkipAligned(s, dir, l, u);
    AlignedDrain(s, dir, s.Skip(dir, l, u));
    FromPage(s, dir, PageOf(s, origin), l, u);
  }

  lemma FromPage(s: Space, dir: Direction, a: int, l: int, u: int)
    requires s.Valid() && s.Aligned(a) && 0 <= l <= a < u && s.Aligned(l) && s.Aligned(u)
    requires forall b {:trigger s.query(b)} :: l <= b < u ==> s.query(b) == Mapped(l, u)
    ensures Scan(s, dir, a) == Scan(s, dir, s.Skip(dir, l, u))
  {
    if dir.After? {
      SkipUp(s, a, l, u);
    } else {
      SkipDown(s, a, l, u);
      ScanBelow(s, l - s.page);
      assert Scan(s, dir, a) == ScanDown(s, l - s.page);
    }
  }

  // ---- what the scan yields -------------------------------------------------

  // Exactly the free pages of the range, in ascending order.
  lemma {:induction false} ScanUpExact(s: Space, a: int, p: int)
    requires s.page > 0 && s.Aligned(a)
    ensures Found(p) in ScanUp(s, a) <==> a <= p < s.hi && s.Aligned(p) && s.query(p) == Free
    decreases if a < s.hi then s.hi - a else 0
  {
    if a < s.hi {
      NextMultiple(s.page, a);
      ScanUpExact(s, a + s.page, p);
      if a < p && s.Aligned(p) {
        Multiples(s.page, a, p);
      }
    }
  }

  lemma {:induction false} ScanDownExact(s: Space, a: int, p: int)
    requires s.page > 0 && s.Aligned(a)
    ensures Found(p) in ScanDown(s, a) <==> 0 < p <= a && s.lo <= p && s.Aligned(p) && s.query(p) == Free
    decreases if a > 0 then a else 0
  {
    if a > 0 && a >= s.lo {
      NextMultiple(s.page, a);
      ScanDownExact(s, a - s.page, p);
      if p < a && s.Aligned(p) {
        Multiples(s.page, p, a);
      }
    }
  }

  // x comes before y when searching in that direction.
  predicate Ahead(dir: Direction, x: Item, y: Item) {
    x.Found? && y.Found? ==> if dir.After? then x.address < y.address else x.address > y.address
  }

  ghost predicate Ordered(dir: Direction, items: seq<Item>) {
    forall i, j :: 0 <= i < j < |items| ==> Ahead(dir, items[i], items[j])
  }

  // Beyond a.
  ghost predicate AllBeyond(dir: Direction, a: int, items: seq<Item>) {
    forall i | 0 <= i < |items| ::
      items[i].Found? ==> if dir.After? then a <= items[i].address else a >= items[i].address
  }

  lemma {:induction false} ScanOrdered(s: Space, dir: Direction, a: int)
    requires s.page > 0
    ensures Ordered(dir, Scan(s, dir, a)) && AllBeyond(dir, a, Scan(s, dir, a))
    decreases Distance(s, dir, a)
  {
    if dir.After? && a < s.hi {
      ScanOrdered(s, dir, a + s.page);
    } else if dir.Before? && a > 0 && a >= s.lo {
      ScanOrdered(s, dir, a - s.page);
    }
  }

  // The closest free page comes first, and nothing is missed or repeated.
  lemma SearchYields(s: Space, dir: Direction, origin: int, p: int)
    requires s.Valid() && origin > 0 && s.InRange(origin) && s.query(origin).Mapped?
    ensures Ordered(dir, Drain(s, dir, origin))
    ensures Found(p) in Drain(s, dir, origin) <==>
      && s.Aligned(p) && s.query(p) == Free
      && if dir.After? then origin < p < s.hi else 0 < p < origin && s.lo <= p
  {
    SearchIsScan(s, dir, origin);
    assert s.Sound(origin);
    var l, u := s.query(origin).lower, s.query(origin).upper;
    PageAligned(s, origin, l);
    ScanOrdered(s, dir, PageOf(s, origin));
    match dir
    case After => ScanUpExact(s, PageOf(s, origin), p);
    case Before =>
      ScanDownExact(s, PageOf(s, origin), p);
      if s.Aligned(p) && p < origin && PageOf(s, origin) < p {
        Multiples(s.page, PageOf(s, origin), p);
      }
  }
}
