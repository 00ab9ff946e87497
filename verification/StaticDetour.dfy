// The static detour of src/detours/statik.rs: any number of calls of
// `initialize` and `set_detour` interleaved at their atomic operations.  Call n
// brings closure n, and boxes detour n if it initializes.
module StaticDetour {
  import opened Machine

  // What a call does next.
  datatype Phase =
    | Begin                          // initialize: make the detour
    | Exchange                       // compare-exchange null with its detour
    | Discard                        // lost: drop its own detour
    | Swap                           // exchange the closure pointer for its own
    | Release(previous: Option<nat>) // drop the closure that was replaced
    | Done
    | Refused                        // AlreadyInitialized
    | Failed                         // the detour could not be made

  datatype Call = Call(initialize: bool, phase: Phase)

  datatype State = State(calls: seq<Call>, closure: Option<nat>, detour: Option<nat>,
                         freedClosures: multiset<nat>, freedDetours: multiset<nat>)

  const START := State([], None, None, multiset{}, multiset{})

  // A new call, or the next operation of call i; `made` is whether
  // GenericDetour::new succeeds.
  datatype Event = Initialize | SetDetour | Operation(i: nat, made: bool)

  function To(s: State, i: nat, phase: Phase): State
    requires i < |s.calls|
  {
    s.(calls := s.calls[i := s.calls[i].(phase := phase)])
  }

  function Next(s: State, e: Event): State {
    match e
    case Initialize => s.(calls := s.calls + [Call(true, Begin)])
    case SetDetour => s.(calls := s.calls + [Call(false, Swap)])
    case Operation(i, made) =>
      if i >= |s.calls| then s
      else
        match s.calls[i].phase
        case Begin => To(s, i, if made then Exchange else Failed)
        case Exchange =>
          if s.detour.None? then To(s, i, Swap).(detour := Some(i)) else To(s, i, Discard)
        case Discard => To(s, i, Refused).(freedDetours := s.freedDetours + multiset{i})
        case Swap => To(s, i, Release(s.closure)).(closure := Some(i))
        case Release(previous) =>
          if previous.None? then To(s, i, Done)
          else To(s, i, Done).(freedClosures := s.freedClosures + multiset{previous.value})
        case _ => s
  }

  function Execute(s: State, es: seq<Event>): State
    decreases |es|
  {
    if es == [] then s else Execute(Next(s, es[0]), es[1..])
  }

  // ---- who holds what -------------------------------------------------------

  function Holds(p: Option<nat>, n: nat): nat {
    if p == Some(n) then 1 else 0
  }

  // The closure a call has taken out and not dropped yet.
  function Takes(c: Call, n: nat): nat {
    if c.phase.Release? then Holds(c.phase.previous, n) else 0
  }

  // How many calls are about to drop closure n.
  function Taken(calls: seq<Call>, n: nat): nat {
    if calls == [] then 0 else Taken(calls[..|calls| - 1], n) + Takes(calls[|calls| - 1], n)
  }

  // Closures that were ever made current.
  predicate HasInstalled(c: Call) {
    c.phase.Release? || c.phase.Done?
  }

  predicate Installed(calls: seq<Call>, n: nat) {
    n < |calls| && HasInstalled(calls[n])
  }

  // Closure n is not lost and not freed twice: if it was installed it is the
  // current one, or one call is about to drop it, or it was dropped, once.
  ghost predicate Kept(s: State, n: nat) {
    Holds(s.closure, n) + Taken(s.calls, n) + s.freedClosures[n] == if Installed(s.calls, n) then 1 else 0
  }

  ghost predicate ClosuresKept(s: State) {
    forall n: nat :: Kept(s, n)
  }

  // Calls that got past the compare-exchange.
  predicate Won(c: Call) {
    c.initialize && (c.phase.Swap? || c.phase.Release? || c.phase.Done?)
  }

  // The global detour is the winner's; losers and nobody else free their own.
  ghost predicate DetoursKept(s: State) {
    && (forall i {:trigger s.calls[i]} :: 0 <= i < |s.calls| ==> (Won(s.calls[i]) <==> s.detour == Some(i)))
    && (s.detour.Some? ==> s.detour.value < |s.calls|)
    && (forall i: nat {:trigger s.freedDetours[i]} ::
          s.freedDetours[i] == if i < |s.calls| && s.calls[i].phase.Refused? then 1 else 0)
    && (forall i {:trigger s.calls[i]} :: 0 <= i < |s.calls| ==> WellFormed(s.calls[i]))
  }

  predicate WellFormed(c: Call) {
    c.initialize || c.phase.Swap? || c.phase.Release? || c.phase.Done?
  }

  ghost predicate Inv(s: State) {
    ClosuresKept(s) && DetoursKept(s)
  }

  // ---- one step -------------------------------------------------------------

  lemma {:induction false} TakenUpdate(calls: seq<Call>, i: nat, c: Call, n: nat)
    requires i < |calls|
    ensures Taken(calls[i := c], n) + Takes(calls[i], n) == Taken(calls, n) + Takes(c, n)
    decreases |calls|
  {
    var last, next := |calls| - 1, calls[i := c];
    if i < last {
      TakenUpdate(calls[..last], i, c, n);
      assert next[..last] == calls[..last][i := c];
    } else {
      assert next[..last] == calls[..last];
    }
  }

  lemma ClosuresStep(s: State, e: Event)
    requires ClosuresKept(s)
    ensures ClosuresKept(Next(s, e))
  {
    var t := Next(s, e);
    forall n: nat ensures Kept(t, n) {
      assert Kept(s, n);
      if e.Operation? && e.i < |s.calls| {
        OperationKeepsClosure(s, e.i, e.made, n);
      } else if !e.Operation? {
        assert t.calls[..|t.calls| - 1] == s.calls;
      }
    }
  }

  lemma OperationKeepsClosure(s: State, i: nat, made: bool, n: nat)
    requires Kept(s, n) && i < |s.calls|
    ensures Kept(Next(s, Operation(i, made)), n)
  {
    var t := Next(s, Operation(i, made));
    var c := t.calls[i];
    assert t.calls == s.calls[i := c];
    TakenUpdate(s.calls, i, c, n);
  }

  lemma DetoursStep(s: State, e: Event)
    requires DetoursKept(s)
    ensures DetoursKept(Next(s, e))
  {
    match e
    case Operation(i, made) =>
      if i < |s.calls| {
        assert Won(s.calls[i]) <==> s.detour == Some(i);
        assert WellFormed(s.calls[i]);
        var t := OperationFacts(s, i, made);
        OperationKeeps(s, t, i, t.calls[i]);
      }
    case Initialize => NewCallKeeps(s, Call(true, Begin));
    case SetDetour => NewCallKeeps(s, Call(false, Swap));
  }

  lemma NewCallKeeps(s: State, c: Call)
    requires DetoursKept(s) && (c == Call(true, Begin) || c == Call(false, Swap))
    ensures DetoursKept(s.(calls := s.calls + [c]))
  {
    var calls := s.calls + [c];
    assert forall k | 0 <= k < |s.calls| :: calls[k] == s.calls[k];
    assert !Won(c) && WellFormed(c);
  }

  lemma OperationFacts(s: State, i: nat, made: bool) returns (t: State)
    requires i < |s.calls| && WellFormed(s.calls[i]) && (Won(s.calls[i]) <==> s.detour == Some(i))
    ensures t == Next(s, Operation(i, made)) && i < |t.calls|
    ensures
      var c := t.calls[i];
      && t.calls == s.calls[i := c] && WellFormed(c) && (Won(c) <==> t.detour == Some(i))
      && (t.detour == s.detour || (s.detour.None? && t.detour == Some(i)))
      && (s.calls[i].phase.Refused? ==> c.phase.Refused?)
      && t.freedDetours == s.freedDetours +
           if c.phase.Refused? && !s.calls[i].phase.Refused? then multiset{i} else multiset{}
  {
    t := Next(s, Operation(i, made));
    if t == s {
      assert s.calls == s.calls[i := s.calls[i]];
    }
  }

  lemma OperationKeeps(s: State, t: State, i: nat, c: Call)
    requires DetoursKept(s) && i < |s.calls| && t.calls == s.calls[i := c]
    requires WellFormed(c) && (Won(c) <==> t.detour == Some(i))
    requires t.detour == s.detour || (s.detour.None? && t.detour == Some(i))
    requires !s.calls[i].phase.Refused? || c.phase.Refused?
    requires t.freedDetours == s.freedDetours +
               if c.phase.Refused? && !s.calls[i].phase.Refused? then multiset{i} else multiset{}
    ensures DetoursKept(t)
  {
    forall k | 0 <= k < |t.calls| ensures (Won(t.calls[k]) <==> t.detour == Some(k)) && WellFormed(t.calls[k]) {
      assert Won(s.calls[k]) <==> s.detour == Some(k);
      assert WellFormed(s.calls[k]);
    }
    forall k: nat ensures t.freedDetours[k] == if k < |t.calls| && t.calls[k].phase.Refused? then 1 else 0 {
      assert s.freedDetours[k] == if k < |s.calls| && s.calls[k].phase.Refused? then 1 else 0;
    }
  }

  lemma {:induction false} InvRun(s: State, es: seq<Event>)
    requires Inv(s)
    ensures Inv(Execute(s, es))
    decreases |es|
  {
    if es != [] {
      ClosuresStep(s, es[0]);
      DetoursStep(s, es[0]);
      InvRun(Next(s, es[0]), es[1..]);
    }
  }

  // ---- main results ---------------------------------------------------------

  lemma {:induction false} NothingTaken(calls: seq<Call>, n: nat)
    requires forall i | 0 <= i < |calls| :: !calls[i].phase.Release?
    ensures Taken(calls, n) == 0
    decreases |calls|
  {
    if calls != [] {
      NothingTaken(calls[..|calls| - 1], n);
    }
  }

  // Whatever the interleaving, no closure is dropped twice, none that is
  // current or was never installed is dropped, and once no call is in progress
  // every closure that was installed is current or was dropped exactly once.
  lemma ClosuresFreedOnce(es: seq<Event>, n: nat)
    ensures
      var s := Execute(START, es);
      && s.freedClosures[n] <= 1
      && (s.closure == Some(n) ==> s.freedClosures[n] == 0)
      && (s.freedClosures[n] == 1 ==> Installed(s.calls, n))
      && ((forall i | 0 <= i < |s.calls| :: !s.calls[i].phase.Release?) ==>
            (Installed(s.calls, n) <==> s.closure == Some(n) || s.freedClosures[n] == 1))
  {
    InvRun(START, es);
    var s := Execute(START, es);
    assert Kept(s, n);
    if forall i | 0 <= i < |s.calls| :: !s.calls[i].phase.Release? {
      NothingTaken(s.calls, n);
    }
  }

  // At most one `initialize` wins; its detour is the global one and is never
  // freed.  A call that lost has freed its own detour, once, and nothing else
  // is freed.
  lemma OneWinner(es: seq<Event>, i: nat)
    requires i < |Execute(START, es).calls|
    ensures
      var s := Execute(START, es);
      && (Won(s.calls[i]) <==> s.detour == Some(i))
      && (Won(s.calls[i]) ==> s.freedDetours[i] == 0)
      && s.freedDetours[i] == if s.calls[i].phase.Refused? then 1 else 0
    ensures
      var s := Execute(START, es);
      (s.calls[i].phase.Refused? || s.calls[i].phase.Discard?) ==> s.detour.Some?
  {
    InvRun(START, es);
    var s := Execute(START, es);
    assert Won(s.calls[i]) <==> s.detour == Some(i);
    assert s.freedDetours[i] == if i < |s.calls| && s.calls[i].phase.Refused? then 1 else 0;
    LostToSomeone(START, es);
    assert Lost(s.calls[i]) ==> s.detour.Some?;
  }

  predicate Lost(c: Call) {
    c.phase.Refused? || c.phase.Discard?
  }

  ghost predicate LostFairly(s: State) {
    forall i | 0 <= i < |s.calls| :: Lost(s.calls[i]) ==> s.detour.Some?
  }

  lemma LostStep(s: State, e: Event)
    requires LostFairly(s)
    ensures LostFairly(Next(s, e))
  {
    var t := Next(s, e);
    forall k | 0 <= k < |t.calls| && Lost(t.calls[k]) ensures t.detour.Some? {
      assert k < |s.calls| ==> Lost(s.calls[k]) || (e.Operation? && e.i == k);
    }
  }

  // No call loses unless one has won.
  lemma {:induction false} LostToSomeone(s: State, es: seq<Event>)
    requires LostFairly(s)
    ensures LostFairly(Execute(s, es))
    decreases |es|
  {
    if es != [] {
      LostStep(s, es[0]);
      LostToSomeone(Next(s, es[0]), es[1..]);
    }
  }

  // Once set, the detour pointer never changes.
  lemma {:induction false} DetourStays(s: State, es: seq<Event>)
    requires s.detour.Some?
    ensures Execute(s, es).detour == s.detour
    decreases |es|
  {
    if es != [] {
      DetourStays(Next(s, es[0]), es[1..]);
    }
  }

  // `enable`, `disable` and `is_enabled` load the pointer; what they loaded
  // stays allocated however the run goes on.
  lemma LoadedStaysValid(before: seq<Event>, after: seq<Event>, d: nat)
    requires Execute(START, before).detour == Some(d)
    ensures
      var s := Execute(Execute(START, before), after);
      s.detour == Some(d) && s.freedDetours[d] == 0
  {
    var s := Execute(START, before);
    InvRun(START, before);
    DetourStays(s, after);
    InvRun(s, after);
    var t := Execute(s, after);
    assert Won(t.calls[d]) <==> t.detour == Some(d);
  }

  // ---- the two pointers ----------------------------------------------------

  // What all calls share.
  datatype Shared = Shared(closure: Option<nat>, detour: Option<nat>,
                           freedClosures: multiset<nat>, freedDetours: multiset<nat>)

  function SharedOf(s: State): Shared {
    Shared(s.closure, s.detour, s.freedClosures, s.freedDetours)
  }

  // A whole call, when nothing comes in between.
  function Alone(s: State, initialize: bool, made: bool): State {
    var n := |s.calls|;
    var op := Operation(n, made);
    Execute(s, if initialize then [Initialize, op, op, op, op] else [SetDetour, op, op])
  }

  class StaticDetour {
    var closure: Option<nat>
    var detour: Option<nat>
    var freedClosures: multiset<nat>
    var freedDetours: multiset<nat>

    constructor ()
      ensures Contents() == SharedOf(START)
    {
      closure, detour, freedClosures, freedDetours := None, None, multiset{}, multiset{};
    }

    function Contents(): Shared
      reads this
    {
      Shared(closure, detour, freedClosures, freedDetours)
    }

    method SetDetour(id: nat)
      modifies this
      ensures detour == old(detour) && freedDetours == old(freedDetours) && closure == Some(id)
      ensures freedClosures ==
        old(freedClosures) + if old(closure).Some? then multiset{old(closure).value} else multiset{}
      ensures forall s: State, made: bool {:trigger Alone(s, false, made)} ::
                SharedOf(s) == old(Contents()) && |s.calls| == id ==> Contents() == SharedOf(Alone(s, false, made))
    {
      ghost var before := Contents();
      var previous := closure;
      closure := Some(id);
      if previous.Some? {
        freedClosures := freedClosures + multiset{previous.value};
      }
      forall s: State, made: bool | SharedOf(s) == before && |s.calls| == id
        ensures Contents() == SharedOf(Alone(s, false, made))
      {
        SetDetourAlone(s, made);
      }
    }

    // `id` names the closure and the detour this call brings.
    method Initialize(id: nat, made: bool) returns (ok: bool)
      modifies this
      ensures ok <==> made && old(detour).None?
      ensures forall s: State | SharedOf(s) == old(Contents()) && |s.calls| == id ::
                Contents() == SharedOf(Alone(s, true, made))
    {
      ghost var before := Contents();
      ok := made;
      if made {
        if detour.Some? {
          freedDetours := freedDetours + multiset{id};
          ok := false;
        } else {
          detour := Some(id);
          SetDetour(id);
        }
      }
      forall s: State | SharedOf(s) == before && |s.calls| == id
        ensures Contents() == SharedOf(Alone(s, true, made))
      {
        InitializeAlone(s, made);
      }
    }
  }

  lemma Twice(s: State, e: Event, f: Event)
    ensures Execute(s, [e, f]) == Next(Next(s, e), f)
  {
    assert [e, f][1..] == [f];
    assert Execute(Next(s, e), [f]) == Next(Next(s, e), f);
  }

  lemma Three(s: State, e: Event, f: Event)
    ensures Execute(s, [e, f, f]) == Next(Next(Next(s, e), f), f)
  {
    Twice(Next(s, e), f, f);
    assert [e, f, f][1..] == [f, f];
  }

  // A set_detour that nobody interrupts installs its closure and drops the one
  // before.
  lemma SetDetourAlone(s: State, made: bool)
    ensures SharedOf(Alone(s, false, made)) ==
      Shared(Some(|s.calls|), s.detour,
             s.freedClosures + if s.closure.Some? then multiset{s.closure.value} else multiset{}, s.freedDetours)
  {
    Three(s, SetDetour, Operation(|s.calls|, made));
  }

  lemma Five(s: State, e: Event, f: Event)
    ensures Execute(s, [e, f, f, f, f]) == Next(Next(Next(Next(Next(s, e), f), f), f), f)
  {
    var t := Next(Next(Next(s, e), f), f);
    Twice(t, f, f);
    assert [e, f, f, f, f][1..] == [f, f, f, f];
    assert [f, f, f, f][1..] == [f, f, f];
    assert [f, f, f][1..] == [f, f];
    assert Execute(Next(Next(s, e), f), [f, f, f]) == Execute(t, [f, f]);
  }

  lemma InitializeAlone(s: State, made: bool)
    ensures
      var n := |s.calls|;
      var t := Alone(s, true, made);
      SharedOf(t) ==
        if !made then SharedOf(s)
        else if s.detour.Some? then SharedOf(s).(freedDetours := s.freedDetours + multiset{n})
        else
          Shared(Some(n), Some(n),
                 s.freedClosures + if s.closure.Some? then multiset{s.closure.value} else multiset{}, s.freedDetours)
  {
    Five(s, Initialize, Operation(|s.calls|, made));
  }
}
