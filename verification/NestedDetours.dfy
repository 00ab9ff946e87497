// Several detours on overlapping code, created and toggled like a stack
// (src/arch/detour.rs:50-105).
module NestedDetours {
  import opened Machine
  import opened Patching

  datatype Hook = Hook(area: u64, original: seq<byte>, detour: seq<byte>, enabled: bool)

  datatype State = State(mem: Memory, hooks: seq<Hook>)

  // Hook number i, the last one created being the highest.
  datatype Op =
    | Create(area: u64, detour: seq<byte>)
    | Toggle(i: nat, on: bool)
    | Forget

  function Bytes(h: Hook): seq<byte> {
    if h.enabled then h.detour else h.original
  }

  // Detour::new reads the bytes it will restore; toggle writes.
  function Apply(s: State, op: Op): Option<State> {
    match op
    case Create(area, detour) =>
      if area + |detour| <= TWO64 && (forall x: u64 | Within(area, |detour|, x) :: x in s.mem) then
        Some(s.(hooks := s.hooks + [Hook(area, ReadOut(s.mem, area, |detour|), detour, false)]))
      else None
    case Toggle(i, on) =>
      if i < |s.hooks| then
        var h := s.hooks[i];
        if h.enabled == on then Some(s)
        else if h.area + |Bytes(h.(enabled := on))| <= TWO64 then
          Some(State(Write(s.mem, h.area, Bytes(h.(enabled := on))), s.hooks[i := h.(enabled := on)]))
        else None
      else None
    case Forget =>
      if |s.hooks| > 0 && !s.hooks[|s.hooks| - 1].enabled then Some(s.(hooks := s.hooks[..|s.hooks| - 1]))
      else None
  }

  function Execute(s: State, ops: seq<Op>): Option<State>
    decreases |ops|
  {
    if |ops| == 0 then Some(s)
    else
      match Execute(s, ops[..|ops| - 1])
      case None => None
      case Some(s') => Apply(s', ops[|ops| - 1])
  }

  // Stack order: only the newest detour is ever toggled.
  ghost predicate StackOrdered(s: State, ops: seq<Op>)
    decreases |ops|
  {
    |ops| > 0 ==>
      && StackOrdered(s, ops[..|ops| - 1])
      && match (Execute(s, ops[..|ops| - 1]), ops[|ops| - 1])
         case (Some(s'), Toggle(i, _)) => i == |s'.hooks| - 1
         case _ => true
  }

  // Memory when hook k was created, seen from the initial memory.
  ghost function Before(m: Memory, hooks: seq<Hook>, k: nat): Memory
    requires k <= |hooks|
  {
    if k == 0 then m
    else
      var h := hooks[k - 1];
      var below := Before(m, hooks, k - 1);
      if h.enabled && h.area + |h.detour| <= TWO64 then Write(below, h.area, h.detour) else below
  }

  // Hook k remembers the bytes of its area as they were then.
  ghost predicate Remembers(m: Memory, hooks: seq<Hook>, k: nat)
    requires k < |hooks|
  {
    var h := hooks[k];
    && h.area + |h.detour| <= TWO64 && |h.original| == |h.detour|
    && Holds(Before(m, hooks, k), h.area, h.original)
  }

  ghost predicate Inv(m: Memory, s: State) {
    && s.mem == Before(m, s.hooks, |s.hooks|)
    && forall k {:trigger Remembers(m, s.hooks, k)} :: 0 <= k < |s.hooks| ==> Remembers(m, s.hooks, k)
  }

  lemma {:induction false} BeforePrefix(m: Memory, a: seq<Hook>, b: seq<Hook>, k: nat)
    requires k <= |a| && k <= |b| && a[..k] == b[..k]
    ensures Before(m, a, k) == Before(m, b, k)
  {
    if k > 0 {
      assert a[..k][k - 1] == b[..k][k - 1];
      assert a[..k - 1] == a[..k][..k - 1] && b[..k - 1] == b[..k][..k - 1];
      BeforePrefix(m, a, b, k - 1);
    }
  }

  lemma RemembersPrefix(m: Memory, a: seq<Hook>, b: seq<Hook>, k: nat)
    requires k < |a| && k < |b| && a[..k + 1] == b[..k + 1] && Remembers(m, a, k)
    ensures Remembers(m, b, k)
  {
    assert a[k] == a[..k + 1][k] == b[k];
    assert a[..k] == a[..k + 1][..k] && b[..k] == b[..k + 1][..k];
    BeforePrefix(m, a, b, k);
  }

  // The first n hooks remember the same in both.
  lemma LowerRemember(m: Memory, a: seq<Hook>, b: seq<Hook>, n: nat)
    requires n <= |a| && n <= |b| && a[..n] == b[..n]
    requires forall k {:trigger Remembers(m, a, k)} :: 0 <= k < n ==> Remembers(m, a, k)
    ensures forall k {:trigger Remembers(m, b, k)} :: 0 <= k < n ==> Remembers(m, b, k)
  {
    forall k | 0 <= k < n ensures Remembers(m, b, k) {
      assert Remembers(m, a, k);
      assert a[..k + 1] == a[..n][..k + 1] && b[..k + 1] == b[..n][..k + 1];
      RemembersPrefix(m, a, b, k);
    }
  }

  lemma InvApply(m: Memory, s: State, op: Op)
    requires Inv(m, s) && Apply(s, op).Some?
    requires op.Toggle? ==> op.i == |s.hooks| - 1
    ensures Inv(m, Apply(s, op).value)
  {
    match op
    case Create(area, detour) => InvCreate(m, s, area, detour);
    case Toggle(i, on) => InvToggle(m, s, on);
    case Forget => InvForget(m, s);
  }

  lemma InvCreate(m: Memory, s: State, area: u64, detour: seq<byte>)
    requires Inv(m, s) && Apply(s, Create(area, detour)).Some?
    ensures Inv(m, Apply(s, Create(area, detour)).value)
  {
    var n, s' := |s.hooks|, Apply(s, Create(area, detour)).value;
    assert s.hooks[..n] == s'.hooks[..n];
    BeforePrefix(m, s.hooks, s'.hooks, n);
    ReadOutAt(s.mem, area, |detour|);
    LowerRemember(m, s.hooks, s'.hooks, n);
    assert Remembers(m, s'.hooks, n);
  }

  // Switching the newest detour is writing over the memory it was made from.
  lemma SwitchTop(m: Memory, s: State, on: bool)
    requires Inv(m, s) && |s.hooks| > 0
    ensures
      var top := |s.hooks| - 1;
      var h, below := s.hooks[top], Before(m, s.hooks, top);
      && h.area + |h.detour| <= TWO64
      && Apply(s, Toggle(top, on)) ==
         Some(State(if on then Write(below, h.area, h.detour) else below,
                    s.hooks[top := h.(enabled := on)]))
  {
    var top := |s.hooks| - 1;
    assert Remembers(m, s.hooks, top);
    ToggleTop(Before(m, s.hooks, top), s.hooks[top], on);
    if s.hooks[top].enabled == on {
      assert s.hooks[top := s.hooks[top]] == s.hooks;
    }
  }

  lemma InvToggle(m: Memory, s: State, on: bool)
    requires |s.hooks| > 0 && Inv(m, s)
    ensures Apply(s, Toggle(|s.hooks| - 1, on)).Some?
    ensures Inv(m, Apply(s, Toggle(|s.hooks| - 1, on)).value)
  {
    var top := |s.hooks| - 1;
    SwitchTop(m, s, on);
    var hooks := s.hooks[top := s.hooks[top].(enabled := on)];
    SwitchedRemembers(m, s.hooks, hooks, top);
  }

  lemma SwitchedRemembers(m: Memory, a: seq<Hook>, b: seq<Hook>, top: nat)
    requires |a| == |b| == top + 1 && a[..top] == b[..top]
    requires b[top] == a[top].(enabled := b[top].enabled)
    requires forall k {:trigger Remembers(m, a, k)} :: 0 <= k <= top ==> Remembers(m, a, k)
    ensures Before(m, a, top) == Before(m, b, top)
    ensures forall k {:trigger Remembers(m, b, k)} :: 0 <= k <= top ==> Remembers(m, b, k)
  {
    BeforePrefix(m, a, b, top);
    LowerRemember(m, a, b, top);
    assert Remembers(m, a, top);
  }

  lemma InvForget(m: Memory, s: State)
    requires Inv(m, s) && Apply(s, Forget).Some?
    ensures Inv(m, Apply(s, Forget).value)
  {
    var top, s' := |s.hooks| - 1, Apply(s, Forget).value;
    assert s.hooks[..top] == s'.hooks[..top];
    BeforePrefix(m, s.hooks, s'.hooks, top);
    LowerRemember(m, s.hooks, s'.hooks, top);
  }

  lemma ReadOutAt(m: Memory, a: u64, n: nat)
    requires a + n <= TWO64 && forall x: u64 | Within(a, n, x) :: x in m
    ensures Holds(m, a, ReadOut(m, a, n))
  {
    forall x: u64 | a <= x < a + n ensures x in m {
      assert Within(a, n, x);
    }
    ReadOutHolds(m, a, n);
  }

  lemma ToggleTop(below: Memory, h: Hook, on: bool)
    requires h.area + |h.detour| <= TWO64 && |h.original| == |h.detour|
    requires Holds(below, h.area, h.original)
    ensures
      var now := if h.enabled then Write(below, h.area, h.detour) else below;
      Write(now, h.area, Bytes(h.(enabled := on))) == if on then Write(below, h.area, h.detour) else below
  {
    WriteBack(below, h.area, h.original, h.detour);
    WriteSame(below, h.area, h.original);
    WriteTwice(below, h.area, h.detour, h.detour);
  }

  lemma {:induction false} InvExecute(m: Memory, ops: seq<Op>)
    requires Execute(State(m, []), ops).Some? && StackOrdered(State(m, []), ops)
    ensures Inv(m, Execute(State(m, []), ops).value)
    decreases |ops|
  {
    if |ops| > 0 {
      InvExecute(m, ops[..|ops| - 1]);
      InvApply(m, Execute(State(m, []), ops[..|ops| - 1]).value, ops[|ops| - 1]);
    }
  }

  lemma TopRestores(m: Memory, s: State)
    requires Inv(m, s) && |s.hooks| > 0
    ensures
      var r := Apply(s, Toggle(|s.hooks| - 1, false));
      r.Some? && r.value.mem == Before(m, s.hooks, |s.hooks| - 1)
  {
    SwitchTop(m, s, false);
  }

  // What `Before` is: the memory that was there right after the create.
  lemma {:induction false} BeforeIsCreation(m: Memory, ops: seq<Op>, area: u64, detour: seq<byte>)
    requires Execute(State(m, []), ops + [Create(area, detour)]).Some?
    requires StackOrdered(State(m, []), ops)
    ensures Execute(State(m, []), ops).Some?
    ensures
      var t, s := Execute(State(m, []), ops).value, Execute(State(m, []), ops + [Create(area, detour)]).value;
      |s.hooks| == |t.hooks| + 1 && s.mem == t.mem == Before(m, s.hooks, |t.hooks|)
  {
    var all := ops + [Create(area, detour)];
    assert all[..|all| - 1] == ops;
    InvExecute(m, ops);
    var t := Execute(State(m, []), ops).value;
    var s := Execute(State(m, []), all).value;
    BeforePrefix(m, t.hooks, s.hooks, |t.hooks|);
  }

  // How many detours there are after the first i operations.
  ghost function Count(m: Memory, ops: seq<Op>, i: nat): nat
    requires i <= |ops|
  {
    match Execute(State(m, []), ops[..i])
    case None => 0
    case Some(s) => |s.hooks|
  }

  lemma {:induction false} PrefixRuns(m: Memory, ops: seq<Op>, i: nat)
    requires i <= |ops| && Execute(State(m, []), ops).Some? && StackOrdered(State(m, []), ops)
    ensures Execute(State(m, []), ops[..i]).Some? && StackOrdered(State(m, []), ops[..i])
    decreases |ops|
  {
    if i < |ops| {
      PrefixRuns(m, ops[..|ops| - 1], i);
      assert ops[..|ops| - 1][..i] == ops[..i];
    } else {
      assert ops[..i] == ops;
    }
  }

  // One operation that leaves more than k detours keeps the first k.
  lemma FrameStep(s: State, op: Op, k: nat)
    requires Apply(s, op).Some? && (op.Toggle? ==> op.i == |s.hooks| - 1)
    requires k < |s.hooks| && k < |Apply(s, op).value.hooks|
    ensures Apply(s, op).value.hooks[..k] == s.hooks[..k]
  {
  }

  // As long as there are more than k detours the first k stay as they are.
  lemma {:induction false} Frame(m: Memory, ops: seq<Op>, lo: nat, hi: nat, k: nat)
    requires lo <= hi <= |ops| && Execute(State(m, []), ops).Some? && StackOrdered(State(m, []), ops)
    requires forall i | lo <= i <= hi :: Count(m, ops, i) > k
    ensures
      var a, b := Execute(State(m, []), ops[..lo]), Execute(State(m, []), ops[..hi]);
      a.Some? && b.Some? && k < |a.value.hooks| && k < |b.value.hooks| && a.value.hooks[..k] == b.value.hooks[..k]
    decreases hi - lo
  {
    PrefixRuns(m, ops, hi);
    assert Count(m, ops, hi) > k;
    if lo < hi {
      Frame(m, ops, lo, hi - 1, k);
      assert ops[..hi][..hi - 1] == ops[..hi - 1];
      FrameStep(Execute(State(m, []), ops[..hi - 1]).value, ops[hi - 1], k);
    }
  }

  // Nested detours restore.  However a stack-ordered run goes on after the
  // creation of a detour, with detours created, toggled and forgotten above it:
  // whenever it is the newest again, disabling it returns memory to exactly what
  // it was when that detour was created.
  lemma DisableRestores(m: Memory, ops: seq<Op>, area: u64, detour: seq<byte>, later: seq<Op>)
    requires
      var all := ops + [Create(area, detour)] + later;
      && Execute(State(m, []), all).Some? && StackOrdered(State(m, []), all)
      && (forall i | |ops| < i <= |all| :: Count(m, all, i) > Count(m, all, |ops|))
      && Count(m, all, |all|) == Count(m, all, |ops|) + 1
    ensures
      var all := ops + [Create(area, detour)] + later;
      var created, s := Execute(State(m, []), ops), Execute(State(m, []), all).value;
      && created.Some? && |s.hooks| == |created.value.hooks| + 1
      && var r := Apply(s, Toggle(|created.value.hooks|, false));
         r.Some? && r.value.mem == created.value.mem
  {
    var upto := ops + [Create(area, detour)];
    var all := upto + later;
    assert all[..|ops|] == ops && all[..|upto|] == upto && all[..|all|] == all;
    PrefixRuns(m, all, |upto|);
    PrefixRuns(m, all, |ops|);
    var k := Count(m, all, |ops|);
    Frame(m, all, |upto|, |all|, k);
    BeforeIsCreation(m, ops, area, detour);
    InvExecute(m, all);
    NewestRestores(m, Execute(State(m, []), upto).value.hooks, Execute(State(m, []), all).value, k);
  }

  lemma NewestRestores(m: Memory, hooks: seq<Hook>, s: State, k: nat)
    requires Inv(m, s) && k < |hooks| && |s.hooks| == k + 1 && hooks[..k] == s.hooks[..k]
    ensures
      var r := Apply(s, Toggle(k, false));
      r.Some? && r.value.mem == Before(m, hooks, k)
  {
    BeforePrefix(m, hooks, s.hooks, k);
    TopRestores(m, s);
  }

  // Unwinding: disabling and forgetting every detour, newest first.
  ghost function Unwind(n: nat): seq<Op> {
    if n == 0 then [] else [Toggle(n - 1, false), Forget] + Unwind(n - 1)
  }

  lemma {:induction false} UnwindRestores(m: Memory, s: State)
    requires Inv(m, s)
    ensures ExecuteFront(s, Unwind(|s.hooks|)) == Some(State(m, []))
    decreases |s.hooks|
  {
    var n := |s.hooks|;
    if n > 0 {
      var off := Apply(s, Toggle(n - 1, false));
      InvToggle(m, s, false);
      SwitchTop(m, s, false);
      InvForget(m, off.value);
      var rest := Apply(off.value, Forget).value;
      UnwindRestores(m, rest);
      var ops := Unwind(n);
      assert ops[1..] == [Forget] + Unwind(n - 1);
      assert ops[1..][1..] == Unwind(n - 1);
    }
  }

  // The same as Execute, from the front.
  function ExecuteFront(s: State, ops: seq<Op>): Option<State>
    decreases |ops|
  {
    if |ops| == 0 then Some(s)
    else
      match Apply(s, ops[0])
      case None => None
      case Some(s') => ExecuteFront(s', ops[1..])
  }

  // Whatever stack-ordered run came before, unwinding restores every byte.
  lemma UnwindingRestores(m: Memory, ops: seq<Op>)
    requires Execute(State(m, []), ops).Some? && StackOrdered(State(m, []), ops)
    ensures
      var s := Execute(State(m, []), ops).value;
      ExecuteFront(s, Unwind(|s.hooks|)) == Some(State(m, []))
  {
    InvExecute(m, ops);
    UnwindRestores(m, Execute(State(m, []), ops).value);
  }

  // ---- out of order ---------------------------------------------------------

  lemma {:induction false} FrontAppend(s: State, a: seq<Op>, b: seq<Op>)
    ensures ExecuteFront(s, a + b) ==
            match ExecuteFront(s, a) case None => None case Some(t) => ExecuteFront(t, b)
    decreases |a|
  {
    if a == [] {
      assert a + b == b;
    } else {
      assert (a + b)[1..] == a[1..] + b;
      match Apply(s, a[0])
      case None =>
      case Some(t) => FrontAppend(t, a[1..], b);
    }
  }

  ghost predicate Fits(m: Memory, area: u64, n: nat) {
    area + n <= TWO64 && forall x: u64 | Within(area, n, x) :: x in m
  }

  // Creating a detour and switching it on.
  lemma CreateOn(s: State, area: u64, d: seq<byte>)
    requires Fits(s.mem, area, |d|)
    ensures ExecuteFront(s, [Create(area, d), Toggle(|s.hooks|, true)]) ==
            Some(State(Write(s.mem, area, d), s.hooks + [Hook(area, ReadOut(s.mem, area, |d|), d, true)]))
  {
    var ops := [Create(area, d), Toggle(|s.hooks|, true)];
    var h := Hook(area, ReadOut(s.mem, area, |d|), d, false);
    var t := s.(hooks := s.hooks + [h]);
    assert Apply(s, ops[0]) == Some(t);
    assert t.hooks[|s.hooks| := h.(enabled := true)] == s.hooks + [h.(enabled := true)];
    var u := State(Write(s.mem, area, d), s.hooks + [h.(enabled := true)]);
    assert Apply(t, Toggle(|s.hooks|, true)) == Some(u);
    TwoOps(s, ops[0], t, ops[1], u);
  }

  lemma TwoOps(s: State, e: Op, t: State, f: Op, u: State)
    requires Apply(s, e) == Some(t) && Apply(t, f) == Some(u)
    ensures ExecuteFront(s, [e, f]) == Some(u)
  {
    assert [e, f][1..] == [f];
    assert ExecuteFront(t, [f]) == Some(u);
  }

  // Switching the older of two enabled detours off, then the newer.
  lemma OlderOff(s: State)
    requires |s.hooks| == 2 && s.hooks[0].enabled && s.hooks[1].enabled
    requires forall i | 0 <= i < 2 :: s.hooks[i].area + |s.hooks[i].original| <= TWO64
    ensures
      var r := ExecuteFront(s, [Toggle(0, false), Toggle(1, false)]);
      var h, g := s.hooks[0], s.hooks[1];
      r.Some? && r.value.mem == Write(Write(s.mem, h.area, h.original), g.area, g.original)
  {
    var ops := [Toggle(0, false), Toggle(1, false)];
    var h := s.hooks[0];
    var t := State(Write(s.mem, h.area, h.original), s.hooks[0 := h.(enabled := false)]);
    assert Apply(s, ops[0]) == Some(t);
    assert t.hooks[1] == s.hooks[1];
    TwoOps(s, ops[0], t, ops[1], Apply(t, ops[1]).value);
  }

  // Two detours, the older one enabled when the newer one was made, disabled
  // oldest first.
  function OutOfOrder(a1: u64, d1: seq<byte>, a2: u64, d2: seq<byte>): seq<Op> {
    [Create(a1, d1), Toggle(0, true)] + ([Create(a2, d2), Toggle(1, true)] + [Toggle(0, false), Toggle(1, false)])
  }

  // The newer detour puts back what it found, and so the older one's patch
  // where the two overlap.
  function LeftOver(m: Memory, a1: u64, d1: seq<byte>, a2: u64, n2: nat): Memory
    requires a1 + |d1| <= TWO64 && a2 + n2 <= TWO64
  {
    var m1 := Write(m, a1, d1);
    Write(Write(m1, a1, ReadOut(m, a1, |d1|)), a2, ReadOut(m1, a2, n2))
  }

  lemma OutOfOrderRuns(m: Memory, a1: u64, d1: seq<byte>, a2: u64, d2: seq<byte>)
    requires Fits(m, a1, |d1|) && Fits(m, a2, |d2|)
    ensures
      var r := ExecuteFront(State(m, []), OutOfOrder(a1, d1, a2, d2));
      r.Some? && r.value.mem == LeftOver(m, a1, d1, a2, |d2|)
  {
    var on1, on2, off := [Create(a1, d1), Toggle(0, true)], [Create(a2, d2), Toggle(1, true)],
                         [Toggle(0, false), Toggle(1, false)];
    CreateOn(State(m, []), a1, d1);
    var s := ExecuteFront(State(m, []), on1).value;
    CreateOn(s, a2, d2);
    var t := ExecuteFront(s, on2).value;
    OlderOff(t);
    FrontAppend(s, on2, off);
    FrontAppend(State(m, []), on1, on2 + off);
    var o1, o2 := ReadOut(m, a1, |d1|), ReadOut(s.mem, a2, |d2|);
    Covered(Write(s.mem, a2, d2), Write(s.mem, a1, o1), s.mem, a1, o1, a2, d2, o2);
  }

  // What the newer patch wrote is gone in the end.
  lemma Covered(m2: Memory, m3: Memory, m1: Memory, a1: u64, o1: seq<byte>, a2: u64, d2: seq<byte>, o2: seq<byte>)
    requires a1 + |o1| <= TWO64 && a2 + |d2| <= TWO64 && |o2| == |d2|
    requires m2 == Write(m1, a2, d2) && m3 == Write(m1, a1, o1)
    ensures Write(Write(m2, a1, o1), a2, o2) == Write(m3, a2, o2)
  {
  }

  lemma LeftOverAt(m: Memory, a1: u64, d1: seq<byte>, a2: u64, n2: nat, x: u64)
    requires a1 + |d1| <= TWO64 && a2 + n2 <= TWO64
    requires Within(a1, |d1|, x) || Within(a2, n2, x) ==> x in m
    ensures
      var left := LeftOver(m, a1, d1, a2, n2);
      if Within(a1, |d1|, x) && Within(a2, n2, x) then x in m && x in left && left[x] == d1[x - a1]
      else SameAt(m, left, x)
  {
    var m1 := Write(m, a1, d1);
    var o1, o2 := ReadOut(m, a1, |d1|), ReadOut(m1, a2, n2);
    var m2 := Write(m1, a1, o1);
    WriteAt(m, a1, d1, x);
    WriteAt(m1, a1, o1, x);
    WriteAt(m2, a2, o2, x);
    ReadAt(m, a1, |d1|, x);
    ReadAt(m1, a2, n2, x);
    Combine(m, m1, m2, Write(m2, a2, o2), a1, d1, o1, a2, o2, x);
  }

  lemma ReadAt(m: Memory, a: u64, n: nat, x: u64)
    ensures Within(a, n, x) && x in m ==> ReadOut(m, a, n)[x - a] == m[x]
  {
  }

  lemma Combine(m: Memory, m1: Memory, m2: Memory, left: Memory, a1: u64, d1: seq<byte>, o1: seq<byte>,
                a2: u64, o2: seq<byte>, x: u64)
    requires |o1| == |d1| && (Within(a1, |d1|, x) || Within(a2, |o2|, x) ==> x in m)
    requires if Within(a1, |d1|, x) then x in m1 && m1[x] == d1[x - a1] && o1[x - a1] == m[x] else SameAt(m, m1, x)
    requires if Within(a1, |o1|, x) then x in m2 && m2[x] == o1[x - a1] else SameAt(m1, m2, x)
    requires
      if Within(a2, |o2|, x) then x in left && left[x] == o2[x - a2] && o2[x - a2] == m1[x]
      else SameAt(m2, left, x)
    ensures
      if Within(a1, |d1|, x) && Within(a2, |o2|, x) then x in left && left[x] == d1[x - a1]
      else SameAt(m, left, x)
  {
  }

  // Out of order it goes wrong: memory comes back exactly when the older
  // detour's patch changed none of the bytes that the newer one covers as well.
  // The two areas may overlap in any way, or not at all.
  lemma OutOfOrderIff(m: Memory, a1: u64, d1: seq<byte>, a2: u64, d2: seq<byte>)
    requires Fits(m, a1, |d1|) && Fits(m, a2, |d2|)
    ensures
      var r := ExecuteFront(State(m, []), OutOfOrder(a1, d1, a2, d2));
      && r.Some?
      && (r.value.mem == m <==>
            forall x: u64 | Within(a1, |d1|, x) && Within(a2, |d2|, x) :: m[x] == d1[x - a1])
  {
    OutOfOrderRuns(m, a1, d1, a2, d2);
    var left := LeftOver(m, a1, d1, a2, |d2|);
    if forall x: u64 | Within(a1, |d1|, x) && Within(a2, |d2|, x) :: m[x] == d1[x - a1] {
      forall x: u64 ensures SameAt(m, left, x) {
        LeftOverAt(m, a1, d1, a2, |d2|, x);
      }
      AgreeEverywhere(m, left);
    } else {
      var x: u64 :| Within(a1, |d1|, x) && Within(a2, |d2|, x) && m[x] != d1[x - a1];
      LeftOverAt(m, a1, d1, a2, |d2|, x);
    }
  }
}
