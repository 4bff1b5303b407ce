/**
 * The interpreter as the source writes it: it mutates the caller's memory
 * dictionary in place (the sink, the loaded image, every subtract) and keeps
 * the program counter and the output list in local variables. The method is
 * proved to end in the outcome and the memory that `Machine.Interpret` gives.
 */
module Vm {
  import opened Machine

  /** The caller-owned sparse memory, updated in place by the interpreter. */
  class Memory {
    var cells: map<int, int>

    constructor (cells: map<int, int>)
      ensures this.cells == cells
    {
      this.cells := cells;
    }
  }

  /** Sets the sink cell to 0, then writes `program[i]` to address `i` for every index. */
  method LoadProgram(program: seq<int>, mem: Memory)
    modifies mem
    ensures mem.cells == Load(program, old(mem.cells))
  {
    mem.cells := mem.cells[-1 := 0];
    ghost var sunk := mem.cells;
    var i := 0;
    while i < |program|
      invariant 0 <= i <= |program|
      invariant mem.cells == Loaded(sunk, program, i)
    {
      mem.cells := mem.cells[i := program[i]];
      i := i + 1;
    }
  }

  /** A faulting step ends the run in the state before that step. */
  lemma FaultEndsRun(s: State, fuel: nat, address: int)
    requires s.pc != -1 && fuel > 0 && Step(s) == Fault(address)
    ensures Run(s, fuel) == Faulted(address, s)
  {
  }

  /**
   * The fetch/execute loop from pc 0 with an empty output, for at most `fuel`
   * iterations. A missing key raises SegmentationFault carrying that key; on a
   * fault `mem` keeps every write made before the faulting step.
   */
  method Execute(mem: Memory, fuel: nat) returns (r: Outcome)
    requires Sink(mem.cells)
    modifies mem
    ensures r == Observe(Run(State(old(mem.cells), 0, []), fuel))
    ensures mem.cells == Run(State(old(mem.cells), 0, []), fuel).s.mem
  {
    var out: seq<int> := [];
    var pc := 0;
    var left := fuel;
    while pc + 1 != 0
      invariant Sink(mem.cells)
      invariant Run(State(mem.cells, pc, out), left) == Run(State(old(mem.cells), 0, []), fuel)
      decreases left
    {
      if left == 0 {
        return OutOfFuel;
      }
      var m := mem.cells;
      ghost var s := State(m, pc, out);
      if pc !in m { FaultEndsRun(s, left, pc); return SegmentationFault(pc); }
      if pc + 1 !in m { FaultEndsRun(s, left, pc + 1); return SegmentationFault(pc + 1); }
      if pc + 2 !in m { FaultEndsRun(s, left, pc + 2); return SegmentationFault(pc + 2); }
      var a, b, c := m[pc], m[pc + 1], m[pc + 2];
      if b == -1 {
        if a !in m { FaultEndsRun(s, left, a); return SegmentationFault(a); }
        out := out + [m[a]];
      } else {
        if b !in m { FaultEndsRun(s, left, b); return SegmentationFault(b); }
        if a !in m { FaultEndsRun(s, left, a); return SegmentationFault(a); }
        mem.cells := m[b := m[b] - m[a]];
      }
      // the branch test reads mem[b] again; for b == -1 it is the sink
      assert b in mem.cells;
      pc := if mem.cells[b] <= 0 then c else pc + 3;
      left := left - 1;
      assert Step(s) == Next(State(mem.cells, pc, out));
    }
    return Returned(out);
  }

  /**
   * The interpreter: sets the sink, loads `program` at 0..|program|-1 over the
   * caller's memory, then runs the loop for at most `fuel` iterations. `mem`
   * is updated in place and keeps its contents when a fault is raised.
   */
  method SubleqInterpreter(program: seq<int>, mem: Memory, fuel: nat) returns (r: Outcome)
    modifies mem
    ensures r == Observe(Interpret(program, old(mem.cells), fuel))
    ensures mem.cells == Interpret(program, old(mem.cells), fuel).s.mem
  {
    LoadProgram(program, mem);
    r := Execute(mem, fuel);
  }
}
