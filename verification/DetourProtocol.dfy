// Many threads toggling many detours under the pool lock
// (src/arch/detour.rs:87-113), one machine step at a time.
module DetourProtocol {
  import opened Machine
  import opened Patching

  datatype Patch = Patch(area: u64, original: seq<byte>, detour: seq<byte>)

  // Where a thread is inside Detour::toggle(on) on detour d.
  datatype Phase =
    | Idle
    | Waiting(d: nat, on: bool)
    | Checking(d: nat, on: bool)
    | Copying(d: nat, on: bool, k: nat)
    | Leaving(d: nat, on: bool, protect: bool, status: Status)

  datatype Sys = Sys(mem: Memory, enabled: seq<bool>, lock: Option<int>, threads: map<int, Phase>)

  datatype Action =
    | Call(t: int, d: nat, on: bool)
    | Acquire(t: int)
    | Check(t: int, protect: bool)
    | CopyByte(t: int)
    | Store(t: int)
    | Release(t: int)

  function At(s: Sys, t: int): Phase {
    if t in s.threads then s.threads[t] else Idle
  }

  function Code(ps: seq<Patch>, d: nat, on: bool): seq<byte>
    requires d < |ps|
  {
    if on then ps[d].detour else ps[d].original
  }

  function Move(s: Sys, t: int, p: Phase): Sys {
    s.(threads := s.threads[t := p])
  }

  // One step of one thread; None when the thread cannot take it.
  function Next(ps: seq<Patch>, s: Sys, a: Action): Option<Sys> {
    match (a, At(s, a.t))
    case (Call(t, d, on), Idle) => if d < |ps| then Some(Move(s, t, Waiting(d, on))) else None
    case (Acquire(t), Waiting(d, on)) =>
      if s.lock.None? then Some(Move(s, t, Checking(d, on)).(lock := Some(t))) else None
    case (Check(t, protect), Checking(d, on)) =>
      if d >= |s.enabled| then None
      else if s.enabled[d] == on then Some(Move(s, t, Leaving(d, on, protect, Fine)))
      else if !protect then Some(Move(s, t, Leaving(d, on, protect, RegionFailure)))
      else Some(Move(s, t, Copying(d, on, 0)))
    case (CopyByte(t), Copying(d, on, k)) =>
      if d < |ps| && k < |Code(ps, d, on)| && ps[d].area + k < TWO64 then
        Some(Move(s, t, Copying(d, on, k + 1)).(mem := s.mem[ps[d].area + k := Code(ps, d, on)[k]]))
      else None
    case (Store(t), Copying(d, on, k)) =>
      if d < |ps| && k == |Code(ps, d, on)| && d < |s.enabled| then
        Some(Move(s, t, Leaving(d, on, true, Fine)).(enabled := s.enabled[d := on]))
      else None
    case (Release(t), Leaving(_, _, _, _)) => Some(Move(s, t, Idle).(lock := None))
    case _ => None
  }

  function Execute(ps: seq<Patch>, s: Sys, run: seq<Action>): Option<Sys>
    decreases |run|
  {
    if |run| == 0 then Some(s)
    else
      match Execute(ps, s, run[..|run| - 1])
      case None => None
      case Some(s') => Next(ps, s', run[|run| - 1])
  }

  // The detours were made from memory m and their areas are disjoint.
  ghost predicate Disjoint(ps: seq<Patch>, m: Memory) {
    && (forall d | 0 <= d < |ps| ::
          && ps[d].area + |ps[d].detour| <= TWO64 && |ps[d].original| == |ps[d].detour|
          && Holds(m, ps[d].area, ps[d].original))
    && (forall d, e | 0 <= d < e < |ps| ::
          ps[d].area + |ps[d].detour| <= ps[e].area || ps[e].area + |ps[e].detour| <= ps[d].area)
  }

  function Init(ps: seq<Patch>, m: Memory): Sys {
    Sys(m, seq(|ps|, _ => false), None, map[])
  }

  // Memory m with detour_prolog over the areas of the first n detours that
  // are enabled.
  ghost function Overlay(ps: seq<Patch>, m: Memory, enabled: seq<bool>, n: nat): Memory
    requires Disjoint(ps, m) && |enabled| == |ps| && n <= |ps|
  {
    if n == 0 then m
    else
      var below := Overlay(ps, m, enabled, n - 1);
      if enabled[n - 1] then Write(below, ps[n - 1].area, ps[n - 1].detour) else below
  }

  // Writing a detour's bytes over the overlay is the overlay with that detour
  // switched.
  lemma {:induction false} OverlayUntouched(ps: seq<Patch>, m: Memory, enabled: seq<bool>, n: nat, d: nat)
    requires Disjoint(ps, m) && |enabled| == |ps| && n <= d < |ps|
    ensures Holds(Overlay(ps, m, enabled, n), ps[d].area, ps[d].original)
  {
    if n > 0 && enabled[n - 1] {
      OverlayUntouched(ps, m, enabled, n - 1, d);
      var below := Overlay(ps, m, enabled, n - 1);
      forall k | 0 <= k < |ps[d].original|
        ensures ByteIs(Overlay(ps, m, enabled, n), ps[d].area + k, ps[d].original[k])
      {
        assert ByteIs(below, ps[d].area + k, ps[d].original[k]);
      }
    } else if n > 0 {
      OverlayUntouched(ps, m, enabled, n - 1, d);
    }
  }

  lemma {:induction false} OverlaySwitch(ps: seq<Patch>, m: Memory, enabled: seq<bool>, n: nat, d: nat, on: bool)
    requires Disjoint(ps, m) && |enabled| == |ps| && d < n <= |ps|
    ensures Write(Overlay(ps, m, enabled, n), ps[d].area, Code(ps, d, on))
            == Overlay(ps, m, enabled[d := on], n)
  {
    var switched := enabled[d := on];
    if d == n - 1 {
      OverlayPrefix(ps, m, enabled, switched, n - 1);
      OverlayUntouched(ps, m, enabled, n - 1, d);
      var below := Overlay(ps, m, enabled, n - 1);
      if enabled[d] {
        WriteTwice(below, ps[d].area, ps[d].detour, Code(ps, d, on));
      }
      if !on {
        WriteSame(below, ps[d].area, ps[d].original);
      }
    } else {
      OverlaySwitch(ps, m, enabled, n - 1, d, on);
      if enabled[n - 1] {
        WritesCommute(Overlay(ps, m, enabled, n - 1), ps[n - 1].area, ps[n - 1].detour,
                      ps[d].area, Code(ps, d, on));
      }
    }
  }

  lemma {:induction false} OverlayPrefix(ps: seq<Patch>, m: Memory, a: seq<bool>, b: seq<bool>, n: nat)
    requires Disjoint(ps, m) && |a| == |b| == |ps| && n <= |ps| && a[..n] == b[..n]
    ensures Overlay(ps, m, a, n) == Overlay(ps, m, b, n)
  {
    if n > 0 {
      assert a[..n][n - 1] == b[..n][n - 1];
      assert a[..n - 1] == a[..n][..n - 1] && b[..n - 1] == b[..n][..n - 1];
      OverlayPrefix(ps, m, a, b, n - 1);
    }
  }

  // ---- the invariant -------------------------------------------------------

  predicate Holder(p: Phase) {
    p.Checking? || p.Copying? || p.Leaving?
  }

  // Memory while a thread is in phase p under the lock.
  ghost predicate Shows(ps: seq<Patch>, m: Memory, s: Sys, p: Phase)
    requires Disjoint(ps, m) && |s.enabled| == |ps|
  {
    var settled := Overlay(ps, m, s.enabled, |ps|);
    match p
    case Copying(d, on, k) =>
      && d < |ps| && s.enabled[d] != on && k <= |Code(ps, d, on)|
      && s.mem == Write(settled, ps[d].area, Code(ps, d, on)[..k])
    case Checking(d, on) => d < |ps| && s.mem == settled
    case _ => s.mem == settled
  }

  ghost predicate Inv(ps: seq<Patch>, m: Memory, s: Sys)
    requires Disjoint(ps, m)
  {
    && |s.enabled| == |ps|
    && (forall t | t in s.threads :: Holder(s.threads[t]) ==> s.lock == Some(t))
    && (forall t | t in s.threads && s.threads[t].Waiting? :: s.threads[t].d < |ps|)
    && (s.lock.Some? ==> Holder(At(s, s.lock.value)))
    && Shows(ps, m, s, if s.lock.Some? then At(s, s.lock.value) else Idle)
  }

  lemma InvStep(ps: seq<Patch>, m: Memory, s: Sys, a: Action)
    requires Disjoint(ps, m) && Inv(ps, m, s) && Next(ps, s, a).Some?
    ensures Inv(ps, m, Next(ps, s, a).value)
  {
    match a
    case CopyByte(t) => InvCopy(ps, m, s, t);
    case Store(t) => InvStore(ps, m, s, t);
    case _ =>
  }

  lemma InvCopy(ps: seq<Patch>, m: Memory, s: Sys, t: int)
    requires Disjoint(ps, m) && Inv(ps, m, s) && Next(ps, s, CopyByte(t)).Some?
    ensures Inv(ps, m, Next(ps, s, CopyByte(t)).value)
  {
    var Copying(d, on, k) := At(s, t);
    var s', code := Next(ps, s, CopyByte(t)).value, Code(ps, d, on);
    CopyOne(Overlay(ps, m, s.enabled, |ps|), ps[d].area, code, k);
    assert s'.enabled == s.enabled && s'.mem == s.mem[ps[d].area + k := code[k]];
    assert Shows(ps, m, s', Copying(d, on, k + 1));
    InvMoved(ps, m, s, s', t, Copying(d, on, k + 1));
  }

  // The thread that holds the lock went on to p.
  lemma InvMoved(ps: seq<Patch>, m: Memory, s: Sys, s': Sys, t: int, p: Phase)
    requires Disjoint(ps, m) && Inv(ps, m, s) && s.lock == Some(t) && Holder(p)
    requires s'.threads == s.threads[t := p] && s'.lock == s.lock && |s'.enabled| == |ps| && Shows(ps, m, s', p)
    ensures Inv(ps, m, s')
  {
  }

  lemma InvStore(ps: seq<Patch>, m: Memory, s: Sys, t: int)
    requires Disjoint(ps, m) && Inv(ps, m, s) && Next(ps, s, Store(t)).Some?
    ensures Inv(ps, m, Next(ps, s, Store(t)).value)
  {
    var Copying(d, on, k) := At(s, t);
    var code := Code(ps, d, on);
    assert code[..k] == code;
    OverlaySwitch(ps, m, s.enabled, |ps|, d, on);
  }

  lemma CopyOne(m: Memory, a: int, bs: seq<byte>, k: nat)
    requires 0 <= a && a + |bs| <= TWO64 && k < |bs|
    ensures Write(m, a, bs[..k])[a + k := bs[k]] == Write(m, a, bs[..k + 1])
  {
  }

  lemma {:induction false} InvRun(ps: seq<Patch>, m: Memory, run: seq<Action>)
    requires Disjoint(ps, m) && Execute(ps, Init(ps, m), run).Some?
    ensures Inv(ps, m, Execute(ps, Init(ps, m), run).value)
    decreases |run|
  {
    if |run| == 0 {
      OverlayNone(ps, m, |ps|);
    } else {
      InvRun(ps, m, run[..|run| - 1]);
      InvStep(ps, m, Execute(ps, Init(ps, m), run[..|run| - 1]).value, run[|run| - 1]);
    }
  }

  lemma {:induction false} OverlayNone(ps: seq<Patch>, m: Memory, n: nat)
    requires Disjoint(ps, m) && n <= |ps|
    ensures Overlay(ps, m, seq(|ps|, _ => false), n) == m
  {
    if n > 0 {
      OverlayNone(ps, m, n - 1);
    }
  }

  // Toggle safety: whatever the interleaving, whenever the lock is free memory
  // is the initial one with exactly the enabled detours written over it.
  lemma ToggleSafety(ps: seq<Patch>, m: Memory, run: seq<Action>)
    requires Disjoint(ps, m) && Execute(ps, Init(ps, m), run).Some?
    ensures
      var s := Execute(ps, Init(ps, m), run).value;
      && |s.enabled| == |ps|
      && (s.lock.None? ==> s.mem == Overlay(ps, m, s.enabled, |ps|))
  {
    InvRun(ps, m, run);
  }

  // At most one thread is ever past the lock.
  lemma MutualExclusion(ps: seq<Patch>, m: Memory, run: seq<Action>, t: int, u: int)
    requires Disjoint(ps, m) && Execute(ps, Init(ps, m), run).Some?
    requires
      var s := Execute(ps, Init(ps, m), run).value;
      Holder(At(s, t)) && Holder(At(s, u))
    ensures t == u
  {
    InvRun(ps, m, run);
  }

  // ---- every run is a sequence of whole toggles -----------------------------

  ghost predicate Fitting(ps: seq<Patch>) {
    forall d {:trigger ps[d]} | 0 <= d < |ps| ::
      ps[d].area + |ps[d].detour| <= TWO64 && |ps[d].original| == |ps[d].detour|
  }

  // A call of toggle under the lock, and what the operating system answered.
  datatype Toggle = Toggle(d: nat, on: bool, protect: bool)

  // A check is when the call it belongs to takes its turn.
  function Logged(log: seq<Toggle>, s: Sys, a: Action): seq<Toggle> {
    match (a, At(s, a.t))
    case (Check(_, protect), Checking(d, on)) => log + [Toggle(d, on, protect)]
    case _ => log
  }

  // The calls of a run in the order in which they held the lock.
  function Log(ps: seq<Patch>, s: Sys, run: seq<Action>): seq<Toggle>
    decreases |run|
  {
    if |run| == 0 then []
    else
      var log := Log(ps, s, run[..|run| - 1]);
      match Execute(ps, s, run[..|run| - 1])
      case None => log
      case Some(s') => Logged(log, s', run[|run| - 1])
  }

  datatype Settled = Settled(mem: Memory, enabled: seq<bool>)

  // Detour::toggle, called on one detour of many.
  ghost function One(ps: seq<Patch>, x: Settled, o: Toggle): (Settled, Status)
    requires Fitting(ps)
  {
    if o.d < |ps| && o.d < |x.enabled| then
      var p := ps[o.d];
      var (m, flag, status) := Toggling(x.mem, x.enabled[o.d], p.area, p.original, p.detour, o.on, o.protect);
      (Settled(m, x.enabled[o.d := flag]), status)
    else (x, Fine)
  }

  ghost function InOrder(ps: seq<Patch>, x: Settled, log: seq<Toggle>): Settled
    requires Fitting(ps)
    decreases |log|
  {
    if |log| == 0 then x else One(ps, InOrder(ps, x, log[..|log| - 1]), log[|log| - 1]).0
  }

  // What is in memory while a thread is in phase p under the lock.
  ghost predicate Between(ps: seq<Patch>, x: Settled, log: seq<Toggle>, s: Sys, p: Phase)
    requires Fitting(ps)
  {
    var now, n := Settled(s.mem, s.enabled), |log|;
    match p
    case Copying(d, on, k) =>
      n > 0 && log[n - 1] == Toggle(d, on, true) && d < |ps| &&
      var before := InOrder(ps, x, log[..n - 1]);
      && d < |s.enabled| && s.enabled == before.enabled && s.enabled[d] != on && k <= |Code(ps, d, on)|
      && s.mem == Write(before.mem, ps[d].area, Code(ps, d, on)[..k])
    case Leaving(d, on, protect, status) =>
      && n > 0 && log[n - 1] == Toggle(d, on, protect) && d < |s.enabled| && now == InOrder(ps, x, log)
      && status == One(ps, InOrder(ps, x, log[..n - 1]), log[n - 1]).1
      && (status == Fine <==> s.enabled[d] == on) && (protect ==> status == Fine)
    case _ => now == InOrder(ps, x, log)
  }

  ghost predicate Linear(ps: seq<Patch>, x: Settled, log: seq<Toggle>, s: Sys)
    requires Fitting(ps)
  {
    && |s.enabled| == |ps|
    && (forall t | t in s.threads :: Holder(s.threads[t]) ==> s.lock == Some(t))
    && (s.lock.Some? ==> Holder(At(s, s.lock.value)))
    && Between(ps, x, log, s, if s.lock.Some? then At(s, s.lock.value) else Idle)
  }

  lemma LinearCheck(ps: seq<Patch>, x: Settled, log: seq<Toggle>, s: Sys, t: int, protect: bool)
    requires Fitting(ps) && Linear(ps, x, log, s) && At(s, t).Checking? && Next(ps, s, Check(t, protect)).Some?
    ensures
      var Checking(d, on) := At(s, t);
      Linear(ps, x, log + [Toggle(d, on, protect)], Next(ps, s, Check(t, protect)).value)
  {
    var Checking(d, on) := At(s, t);
    var next := log + [Toggle(d, on, protect)];
    assert next[..|next| - 1] == log;
    assert s.enabled[d := s.enabled[d]] == s.enabled;
    if s.enabled[d] != on && protect {
      var s' := Next(ps, s, Check(t, protect)).value;
      assert Code(ps, d, on)[..0] == [];
      assert Write(s.mem, ps[d].area, []) == s.mem;
    }
  }

  lemma LinearCopy(ps: seq<Patch>, x: Settled, log: seq<Toggle>, s: Sys, t: int)
    requires Fitting(ps) && Linear(ps, x, log, s) && Next(ps, s, CopyByte(t)).Some?
    ensures Linear(ps, x, log, Next(ps, s, CopyByte(t)).value)
  {
    var Copying(d, on, k) := At(s, t);
    CopyOne(InOrder(ps, x, log[..|log| - 1]).mem, ps[d].area, Code(ps, d, on), k);
  }

  lemma LinearStore(ps: seq<Patch>, x: Settled, log: seq<Toggle>, s: Sys, t: int)
    requires Fitting(ps) && Linear(ps, x, log, s) && Next(ps, s, Store(t)).Some?
    ensures Linear(ps, x, log, Next(ps, s, Store(t)).value)
  {
    var Copying(d, on, k) := At(s, t);
    assert Code(ps, d, on)[..k] == Code(ps, d, on);
  }

  lemma LinearStep(ps: seq<Patch>, x: Settled, log: seq<Toggle>, s: Sys, a: Action)
    requires Fitting(ps) && Linear(ps, x, log, s) && Next(ps, s, a).Some?
    ensures Linear(ps, x, Logged(log, s, a), Next(ps, s, a).value)
  {
    match a
    case Check(t, protect) => LinearCheck(ps, x, log, s, t, protect);
    case CopyByte(t) => LinearCopy(ps, x, log, s, t);
    case Store(t) => LinearStore(ps, x, log, s, t);
    case _ =>
  }

  lemma {:induction false} LinearRun(ps: seq<Patch>, m: Memory, run: seq<Action>)
    requires Fitting(ps) && Execute(ps, Init(ps, m), run).Some?
    ensures
      var s := Init(ps, m);
      Linear(ps, Settled(m, s.enabled), Log(ps, s, run), Execute(ps, s, run).value)
    decreases |run|
  {
    if |run| > 0 {
      var init, n := Init(ps, m), |run| - 1;
      var x, log := Settled(m, init.enabled), Log(ps, init, run[..n]);
      LinearRun(ps, m, run[..n]);
      LinearStep(ps, x, log, Execute(ps, init, run[..n]).value, run[n]);
    }
  }

  // Whatever the interleaving, and even if areas overlap, the calls take effect
  // one after the other in the order in which they held the lock, each as
  // Detour::toggle does alone.  A thread that leaves is told what its own call
  // did: with the protection granted, or not needed, the detour is as asked for.
  lemma ToggleLinearizes(ps: seq<Patch>, m: Memory, run: seq<Action>, t: int)
    requires Fitting(ps) && Execute(ps, Init(ps, m), run).Some?
    ensures
      var s, log := Execute(ps, Init(ps, m), run).value, Log(ps, Init(ps, m), run);
      var x := Settled(m, Init(ps, m).enabled);
      && (s.lock.None? ==> Settled(s.mem, s.enabled) == InOrder(ps, x, log))
      && match At(s, t)
         case Leaving(d, on, protect, status) =>
           && |log| > 0 && log[|log| - 1] == Toggle(d, on, protect)
           && Settled(s.mem, s.enabled) == InOrder(ps, x, log)
           && status == One(ps, InOrder(ps, x, log[..|log| - 1]), log[|log| - 1]).1
           && d < |s.enabled| && (status == Fine <==> s.enabled[d] == on) && (protect ==> s.enabled[d] == on)
         case _ => true
  {
    LinearRun(ps, m, run);
  }

  // ---- a call that nobody interrupts ----------------------------------------

  function Copies(t: int, n: nat): seq<Action> {
    seq(n, _ => CopyByte(t))
  }

  // The steps of one call up to the release of the lock.
  function Held(ps: seq<Patch>, s: Sys, t: int, d: nat, on: bool, protect: bool): seq<Action>
    requires d < |ps| && d < |s.enabled|
  {
    [Call(t, d, on), Acquire(t), Check(t, protect)]
    + if s.enabled[d] != on && protect then Copies(t, |Code(ps, d, on)|) + [Store(t)] else []
  }

  lemma After(ps: seq<Patch>, s: Sys, run: seq<Action>, a: Action)
    ensures Execute(ps, s, run + [a]) ==
            match Execute(ps, s, run) case None => None case Some(s') => Next(ps, s', a)
  {
    assert (run + [a])[..|run|] == run;
  }

  lemma Entered(ps: seq<Patch>, s: Sys, t: int, d: nat, on: bool, protect: bool)
    requires d < |ps| == |s.enabled| && s.lock.None? && At(s, t) == Idle
    ensures
      var phase :=
        if s.enabled[d] == on then Leaving(d, on, protect, Fine)
        else if !protect then Leaving(d, on, protect, RegionFailure)
        else Copying(d, on, 0);
      Execute(ps, s, [Call(t, d, on), Acquire(t), Check(t, protect)]) ==
        Some(s.(threads := s.threads[t := phase], lock := Some(t)))
  {
    var a, b, c := Call(t, d, on), Acquire(t), Check(t, protect);
    var s1 := Move(s, t, Waiting(d, on));
    var s2 := Move(s1, t, Checking(d, on)).(lock := Some(t));
    assert Next(ps, s, a) == Some(s1) && Next(ps, s1, b) == Some(s2);
    var s3 := Next(ps, s2, c).value;
    ThreeMoves(s.threads, t, Waiting(d, on), Checking(d, on), At(s3, t));
    assert [] + [a] == [a] && [a] + [b] == [a, b] && [a, b] + [c] == [a, b, c];
    After(ps, s, [], a);
    After(ps, s, [a], b);
    After(ps, s, [a, b], c);
  }

  lemma ThreeMoves(threads: map<int, Phase>, t: int, p: Phase, q: Phase, r: Phase)
    ensures threads[t := p][t := q] == threads[t := q] && threads[t := q][t := r] == threads[t := r]
  {
  }

  // A thread that has copied k bytes of its code.
  ghost function Copied(ps: seq<Patch>, s: Sys, t: int, d: nat, on: bool, k: nat): Sys
    requires Fitting(ps) && d < |ps| && k <= |Code(ps, d, on)|
  {
    s.(threads := s.threads[t := Copying(d, on, k)], mem := Write(s.mem, ps[d].area, Code(ps, d, on)[..k]))
  }

  lemma CopiedNext(ps: seq<Patch>, s: Sys, t: int, d: nat, on: bool, k: nat)
    requires Fitting(ps) && d < |ps| && k < |Code(ps, d, on)|
    ensures Next(ps, Copied(ps, s, t, d, on, k), CopyByte(t)) == Some(Copied(ps, s, t, d, on, k + 1))
  {
    CopyOne(s.mem, ps[d].area, Code(ps, d, on), k);
    ThreeMoves(s.threads, t, Copying(d, on, k), Copying(d, on, k + 1), Idle);
  }

  lemma CopiedNone(ps: seq<Patch>, s: Sys, t: int, d: nat, on: bool)
    requires Fitting(ps) && d < |ps| && t in s.threads && s.threads[t] == Copying(d, on, 0)
    ensures Copied(ps, s, t, d, on, 0) == s
  {
    assert Write(s.mem, ps[d].area, Code(ps, d, on)[..0]) == s.mem;
    assert s.threads[t := Copying(d, on, 0)] == s.threads;
  }

  lemma CopiesMore(first: seq<Action>, t: int, k: nat)
    ensures first + Copies(t, k + 1) == (first + Copies(t, k)) + [CopyByte(t)]
  {
    assert Copies(t, k + 1) == Copies(t, k) + [CopyByte(t)];
  }

  lemma {:induction false} CopiesRun(ps: seq<Patch>, s: Sys, first: seq<Action>, s': Sys, t: int, d: nat, on: bool,
                                     k: nat)
    requires Fitting(ps) && d < |ps| && k <= |Code(ps, d, on)|
    requires Execute(ps, s, first) == Some(s') && At(s', t) == Copying(d, on, 0)
    ensures Execute(ps, s, first + Copies(t, k)) == Some(Copied(ps, s', t, d, on, k))
  {
    if k == 0 {
      assert first + Copies(t, 0) == first;
      CopiedNone(ps, s', t, d, on);
    } else {
      CopiesRun(ps, s, first, s', t, d, on, k - 1);
      CopiesMore(first, t, k - 1);
      After(ps, s, first + Copies(t, k - 1), CopyByte(t));
      CopiedNext(ps, s', t, d, on, k - 1);
    }
  }

  // The copying and the store.
  lemma {:induction false} Stored(ps: seq<Patch>, s: Sys, first: seq<Action>, s': Sys, t: int, d: nat, on: bool)
    requires Fitting(ps) && d < |ps| == |s'.enabled|
    requires Execute(ps, s, first) == Some(s') && At(s', t) == Copying(d, on, 0)
    ensures
      var code := Code(ps, d, on);
      Execute(ps, s, first + (Copies(t, |code|) + [Store(t)])) ==
        Some(s'.(threads := s'.threads[t := Leaving(d, on, true, Fine)], mem := Write(s'.mem, ps[d].area, code),
                 enabled := s'.enabled[d := on]))
  {
    var code, n := Code(ps, d, on), |Code(ps, d, on)|;
    CopiesRun(ps, s, first, s', t, d, on, n);
    assert code[..n] == code;
    assert first + (Copies(t, n) + [Store(t)]) == (first + Copies(t, n)) + [Store(t)];
    After(ps, s, first + Copies(t, n), Store(t));
    ThreeMoves(s'.threads, t, Copying(d, on, n), Leaving(d, on, true, Fine), Idle);
  }

  lemma {:induction false} AloneHeld(ps: seq<Patch>, s: Sys, t: int, d: nat, on: bool, protect: bool)
    requires Fitting(ps) && d < |ps| == |s.enabled| && s.lock.None? && At(s, t) == Idle
    ensures
      var (x, status) := One(ps, Settled(s.mem, s.enabled), Toggle(d, on, protect));
      Execute(ps, s, Held(ps, s, t, d, on, protect)) ==
        Some(s.(mem := x.mem, enabled := x.enabled, lock := Some(t),
                threads := s.threads[t := Leaving(d, on, protect, status)]))
  {
    var first := [Call(t, d, on), Acquire(t), Check(t, protect)];
    Entered(ps, s, t, d, on, protect);
    if s.enabled[d] != on && protect {
      var s' := Execute(ps, s, first).value;
      Stored(ps, s, first, s', t, d, on);
      ThreeMoves(s.threads, t, Copying(d, on, 0), Leaving(d, on, true, Fine), Idle);
    } else {
      assert first + [] == first;
      assert s.enabled[d := s.enabled[d]] == s.enabled;
    }
  }

  // From any state with the lock free a call can run to its end, and does to
  // memory, to the flag and to its caller what Detour::toggle does.
  lemma {:induction false} AloneToggles(ps: seq<Patch>, s: Sys, t: int, d: nat, on: bool, protect: bool)
    requires Fitting(ps) && d < |ps| == |s.enabled| && s.lock.None? && At(s, t) == Idle
    ensures
      var held := Held(ps, s, t, d, on, protect);
      var (x, status) := One(ps, Settled(s.mem, s.enabled), Toggle(d, on, protect));
      && Execute(ps, s, held).Some? && At(Execute(ps, s, held).value, t) == Leaving(d, on, protect, status)
      && Execute(ps, s, held + [Release(t)]) ==
         Some(s.(mem := x.mem, enabled := x.enabled, threads := s.threads[t := Idle]))
  {
    AloneHeld(ps, s, t, d, on, protect);
    var held := Held(ps, s, t, d, on, protect);
    var s' := Execute(ps, s, held).value;
    After(ps, s, held, Release(t));
    ThreeMoves(s.threads, t, At(s', t), Idle, Idle);
  }

  // And no run gets stuck: whoever holds the lock can take a step, and whoever
  // waits for it can once it is free.
  lemma HolderMoves(ps: seq<Patch>, m: Memory, run: seq<Action>, t: int)
    requires Disjoint(ps, m) && Execute(ps, Init(ps, m), run).Some?
    ensures
      var s := Execute(ps, Init(ps, m), run).value;
      && (s.lock == Some(t) ==> exists a: Action :: a.t == t && Next(ps, s, a).Some?)
      && (s.lock.None? && At(s, t).Waiting? ==> Next(ps, s, Acquire(t)).Some?)
  {
    InvRun(ps, m, run);
    var s := Execute(ps, Init(ps, m), run).value;
    if s.lock == Some(t) {
      match At(s, t)
      case Checking(_, _) => assert Next(ps, s, Check(t, true)).Some?;
      case Copying(d, on, k) =>
        if k < |Code(ps, d, on)| {
          assert Next(ps, s, CopyByte(t)).Some?;
        } else {
          assert Next(ps, s, Store(t)).Some?;
        }
      case Leaving(_, _, _, _) => assert Next(ps, s, Release(t)).Some?;
    }
  }

  // What the overlay is, address by address.
  lemma {:induction false} OverlayAt(ps: seq<Patch>, m: Memory, enabled: seq<bool>, n: nat, x: u64)
    requires Disjoint(ps, m) && |enabled| == |ps| && n <= |ps|
    ensures
      var o := Overlay(ps, m, enabled, n);
      && (forall d | 0 <= d < n && enabled[d] && ps[d].area <= x < ps[d].area + |ps[d].detour| ::
            x in o && o[x] == ps[d].detour[x - ps[d].area])
      && ((forall d | 0 <= d < n && enabled[d] :: !(ps[d].area <= x < ps[d].area + |ps[d].detour|)) ==>
            (x in o <==> x in m) && (x in m ==> o[x] == m[x]))
  {
    if n > 0 {
      OverlayAt(ps, m, enabled, n - 1, x);
    }
  }
}
