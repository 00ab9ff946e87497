// Runs of RISC-V code through a region, and how two of them compare.
module RiscvRun {
  import opened Machine
  import opened RiscvIsa
  import T = RiscvThunk

  // A run through [lo, hi) leaves it when the program counter does, or with a
  // computed jump (JALR), wherever that lands.
  datatype Result = Running | Trapped | Left(state: State)

  predicate Inside(lo: int, hi: int, s: State) {
    lo <= s.pc < hi
  }

  predicate AtJalr(cpu: Cpu, s: State) {
    var i := Fetch(cpu, s);
    i.Some? && i.value.Jalr?
  }

  // At most `fuel` steps.
  function Run(cpu: Cpu, lo: int, hi: int, s: State, fuel: nat): Result
    decreases fuel
  {
    if !Inside(lo, hi, s) then Left(s)
    else if fuel == 0 then Running
    else
      match Step(cpu, s)
      case Trap => Trapped
      case Next(t) => if AtJalr(cpu, s) then Left(t) else Run(cpu, lo, hi, t, fuel - 1)
  }

  // k steps from s to t, all of them inside the region and none computed.
  ghost predicate Glides(cpu: Cpu, lo: int, hi: int, s: State, k: nat, t: State)
    decreases k
  {
    if k == 0 then s == t
    else
      && Inside(lo, hi, s) && !AtJalr(cpu, s)
      && match Step(cpu, s)
         case Trap => false
         case Next(s') => Glides(cpu, lo, hi, s', k - 1, t)
  }

  lemma {:induction false} GlideRun(cpu: Cpu, lo: int, hi: int, s: State, k: nat, t: State, fuel: nat)
    requires Glides(cpu, lo, hi, s, k, t)
    ensures Run(cpu, lo, hi, s, k + fuel) == Run(cpu, lo, hi, t, fuel)
    decreases k
  {
    if k > 0 {
      GlideRun(cpu, lo, hi, Step(cpu, s).state, k - 1, t, fuel);
    }
  }

  lemma {:induction false} GlideOn(cpu: Cpu, lo: int, hi: int, a: State, j: nat, b: State, k: nat, c: State)
    requires Glides(cpu, lo, hi, a, j, b) && Glides(cpu, lo, hi, b, k, c)
    ensures Glides(cpu, lo, hi, a, j + k, c)
    decreases j
  {
    if j > 0 {
      GlideOn(cpu, lo, hi, Step(cpu, a).state, j - 1, b, k, c);
    }
  }

  // Fuel decides only how long a run is watched.
  lemma {:induction false} RunFuel(cpu: Cpu, lo: int, hi: int, s: State, f: nat, g: nat)
    requires f <= g
    ensures Run(cpu, lo, hi, s, f) == Running || Run(cpu, lo, hi, s, g) == Run(cpu, lo, hi, s, f)
    decreases f
  {
    if Inside(lo, hi, s) && f > 0 {
      match Step(cpu, s)
      case Trap =>
      case Next(t) =>
        if !AtJalr(cpu, s) {
          RunFuel(cpu, lo, hi, t, f - 1, g - 1);
        }
    }
  }

  // ---- comparing states ----------------------------------------------------

  // The same registers but for the scratch register t1.
  ghost predicate SameButT1(a: Regs, b: Regs) {
    a[T.T1 := 0] == b[T.T1 := 0]
  }

  // What a caller can observe when both runs have left.
  ghost predicate Similar(s: State, t: State, d: set<int>) {
    s.pc == t.pc && SameButT1(s.regs, t.regs) && Agree(s.mem, t.mem, d)
  }

  ghost predicate Alike(a: Outcome, b: Outcome, d: set<int>) {
    match (a, b)
    case (Trap, Trap) => true
    case (Next(s), Next(t)) => s.pc == t.pc && s.regs == t.regs && Agree(s.mem, t.mem, d)
    case _ => false
  }

  // The step from s neither reads an address in d nor depends on one.
  ghost predicate Blind(cpu: Cpu, s: State, d: set<int>) {
    Fetch(cpu, s).Some? ==>
      forall m: Memory | Agree(s.mem, m, d) ::
        Alike(Exec(cpu, Fetch(cpu, s).value, s), Exec(cpu, Fetch(cpu, s).value, s.(mem := m)), d)
  }

  lemma AlwaysBlind(cpu: Cpu, s: State)
    ensures Blind(cpu, s, {})
  {
    forall m: Memory | Agree(s.mem, m, {}) ensures m == s.mem {
      AgreeEverywhere(s.mem, m);
    }
    assert Agree(s.mem, s.mem, {});
    if Fetch(cpu, s).Some? {
      forall m: Memory | Agree(s.mem, m, {})
        ensures Alike(Exec(cpu, Fetch(cpu, s).value, s), Exec(cpu, Fetch(cpu, s).value, s.(mem := m)), {})
      {
        AgreeEverywhere(s.mem, m);
        var o := Exec(cpu, Fetch(cpu, s).value, s);
        assert s.(mem := m) == s;
        if o.Next? {
          assert Agree(o.state.mem, o.state.mem, {});
        }
      }
    }
  }
}
