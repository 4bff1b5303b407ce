/**
 * The subleq machine: a single instruction "subtract and branch if the result
 * is less than or equal to zero", executed over a sparse memory keyed by
 * (possibly negative) integers. Address -1 is the sink: it reads as 0, and an
 * instruction whose destination is -1 emits to the output instead of storing.
 *
 * These are the specification functions of the engine in src/vm.py; the
 * imperative engine in module Vm is proved to compute exactly `Run`.
 */
module Machine {

  /** The machine state the interpreter loop keeps: memory, program counter, output. */
  datatype State = State(mem: map<int, int>, pc: int, out: seq<int>)

  /** One step either reaches a new state or reads a key that is not in memory. */
  datatype StepResult = Next(s: State) | Fault(address: int)

  /** How a fuel-bounded run ends; every case carries the state it ended in. */
  datatype Execution =
    | Halted(s: State)                  // pc reached -1
    | Faulted(address: int, s: State)   // a read of a missing key, in state s
    | Exhausted(s: State)               // the fuel ran out first

  /** What a caller of the interpreter observes: the returned list or the raised fault. */
  datatype Outcome = Returned(out: seq<int>) | SegmentationFault(address: int) | OutOfFuel

  /** The sink cell is present and holds 0. */
  predicate Sink(m: map<int, int>) {
    -1 in m && m[-1] == 0
  }

  /** The three cells of the instruction at pc are present. */
  predicate Fetched(s: State) {
    s.pc in s.mem && s.pc + 1 in s.mem && s.pc + 2 in s.mem
  }

  /**
   * Loading: after `mem[-1] = 0`, the image is written cell by cell,
   * `program[i]` to address `i`, in increasing order. `Loaded(m, p, n)` is the
   * memory once the first `n` cells have been written.
   */
  function Loaded(m: map<int, int>, program: seq<int>, n: nat): (r: map<int, int>)
    requires n <= |program|
    ensures forall k :: k in r <==> k in m || 0 <= k < n
    ensures forall i :: 0 <= i < n ==> r[i] == program[i]
    ensures forall k :: k in m && !(0 <= k < n) ==> r[k] == m[k]
  {
    if n == 0 then m else Loaded(m, program, n - 1)[n - 1 := program[n - 1]]
  }

  /** The memory the loop starts from, given the caller's memory `mem`. */
  function Load(program: seq<int>, mem: map<int, int>): (m: map<int, int>)
    ensures forall k :: k in m <==> k in mem || k == -1 || 0 <= k < |program|
    ensures Sink(m)
    ensures forall i :: 0 <= i < |program| ==> m[i] == program[i]
    ensures forall k :: k in mem && k != -1 && !(0 <= k < |program|) ==> m[k] == mem[k]
  {
    Loaded(mem[-1 := 0], program, |program|)
  }

  /** The state in which the loop begins: pc 0, nothing emitted yet. */
  function Start(program: seq<int>, mem: map<int, int>): (s: State) {
    State(Load(program, mem), 0, [])
  }

  /**
   * One iteration of the loop body. Reads happen in the source's order:
   * mem[pc], mem[pc+1], mem[pc+2]; then mem[a] (output) or mem[b] before
   * mem[a] (subtract, an augmented assignment loads its target first); then
   * mem[b] once more for the branch. The first missing key is the fault.
   */
  function Step(s: State): (r: StepResult)
    ensures r.Fault? ==> r.address !in s.mem
    ensures r.Next? && -1 in s.mem ==> -1 in r.s.mem && r.s.mem[-1] == s.mem[-1]
  {
    var m := s.mem;
    if s.pc !in m then Fault(s.pc)
    else if s.pc + 1 !in m then Fault(s.pc + 1)
    else if s.pc + 2 !in m then Fault(s.pc + 2)
    else
      var a, b, c := m[s.pc], m[s.pc + 1], m[s.pc + 2];
      if b == -1 then
        if a !in m then Fault(a)
        else if b !in m then Fault(b)
        else Next(State(m, if m[b] <= 0 then c else s.pc + 3, s.out + [m[a]]))
      else if b !in m then Fault(b)
      else if a !in m then Fault(a)
      else
        var m' := m[b := m[b] - m[a]];
        Next(State(m', if m'[b] <= 0 then c else s.pc + 3, s.out))
  }

  /**
   * The loop `while pc + 1:` run for at most `fuel` iterations. The halt test
   * comes before every step, so a run halts exactly when pc is -1.
   */
  function Run(s: State, fuel: nat): (r: Execution)
    ensures r.Halted? <==> r.s.pc == -1
    ensures r.Faulted? ==> r.address !in r.s.mem
    decreases fuel
  {
    if s.pc == -1 then Halted(s)
    else if fuel == 0 then Exhausted(s)
    else match Step(s)
      case Fault(address) => Faulted(address, s)
      case Next(t) => Run(t, fuel - 1)
  }

  /** The interpreter on a program image and the caller's memory. */
  function Interpret(program: seq<int>, mem: map<int, int>, fuel: nat): (e: Execution) {
    Run(Start(program, mem), fuel)
  }

  /** What the interpreter returns or raises: only the output of a halted run is returned. */
  function Observe(e: Execution): (o: Outcome) {
    match e
    case Halted(s) => Returned(s.out)
    case Faulted(address, _) => SegmentationFault(address)
    case Exhausted(_) => OutOfFuel
  }
}
