# subleq execution engine

A model of the execution engine of a one-instruction-set computer. Its single
instruction is subleq: "subtract, and branch if the result is less than or
equal to zero". The engine in `src/vm.py` (`_subleq_interpreter`) takes a
program image (a list of integers) and a memory dictionary owned by the
caller, and works as follows:

- it sets the sink cell `-1` to 0 and writes `program[i]` to address `i`;
- it runs the fetch/execute loop from `pc = 0` until `pc` is `-1`;
- each instruction is the three cells `a, b, c` at `pc, pc+1, pc+2`;
- a destination `b == -1` emits `mem[a]` to the output;
- any other destination stores `mem[b] - mem[a]` into `mem[b]`;
- the jump to `c` is taken when `mem[b]` is then at most 0, otherwise `pc`
  moves on by 3;
- reading an address that is not in the dictionary raises a segmentation
  fault that carries that address.

Files:

- `machine.dfy` (module `Machine`) holds the specification functions:
  - the state (memory `map<int, int>`, `pc`, output `seq<int>`);
  - the load `Load`, built from `Loaded`, which writes one cell at a time;
  - one loop iteration `Step`, which returns the next state or the missing
    address;
  - the run `Run`, bounded by fuel;
  - the interpreter `Interpret` and what its caller sees, `Observe`.
- `properties.dfy` (module `MachineProperties`) holds the lemmas:
  - the output, subtract and branch rules of a step;
  - the order in which missing keys are reported;
  - the invariants of a run and two concrete programs.
- `vm.dfy` (module `Vm`) is the engine in the source's imperative form.
  - The caller's dictionary is a `Memory` object whose `cells` the methods
    update in place.
  - `LoadProgram` is the load loop and `Execute` the `while pc + 1` loop.
  - `SubleqInterpreter` runs the two in turn.
  - Each method is proved to produce exactly the memory and the outcome
    that `Machine` specifies.

Integers are unbounded, as Python's are, so no wrap-around is modelled.

Two details of `src/vm.py` shape the model:

- `_subleq_interpreter` loads the image into a dictionary the caller passes
  in, which may already hold cells at any address (src/vm.py:28, 32-46).
  `Load` and `SubleqInterpreter` therefore take that memory as a parameter.
- `mem[-1] = 0` runs before the program's type is checked (src/vm.py:32-34).
  The type checks are left out (see below).

## Model

| member | source | states |
|---|---|---|
| Machine.Loaded | src/vm.py:40-46 | after the first n cells are loaded, cell i holds program[i] for i < n; every other cell keeps its value; the keys are the old ones plus 0..n-1 |
| Machine.Load | src/vm.py:32-46 | the loaded memory has exactly the caller's keys plus -1 and 0..n-1; the sink is 0; cell i holds program[i]; the caller's other cells are unchanged |
| Machine.Start | src/vm.py:48-49 | definition only (the loaded memory, pc 0, empty output); characterised by Load's contract and InterpretInvariants |
| Machine.Step | src/vm.py:52-63 | a fault always names an address that is really missing; a step that succeeds keeps the sink cell's value |
| Machine.Run | src/vm.py:51-65 | a run halts exactly when pc is -1; a fault names an address missing from the memory at that point |
| Machine.Interpret | src/vm.py:26-65 | definition only (Run from Start); characterised by InterpretInvariants, EmptyProgramFaults, EmitFiveExample and Vm.SubleqInterpreter |
| Machine.Observe | src/vm.py:62-65 | definition only (a halted run returns its output, a faulted run raises SegmentationFault with the missing address); characterised by Vm.Execute |
| MachineProperties.StepFaultsAtFirstMissingRead | src/vm.py:53-63 | against the list Reads of the addresses a step reads in the source's order (pc, pc+1, pc+2, then a and b, or b, a and b): a step faults exactly when some of them is missing, and the fault carries the first missing one |
| MachineProperties.OutputStep | src/vm.py:54-60 | with destination -1: a missing source faults at a; otherwise memory is unchanged, mem[a] is appended to the output and pc becomes c unconditionally |
| MachineProperties.SubtractStep | src/vm.py:57-60 | with destination b other than -1: a missing b faults before a missing a; otherwise only cell b changes, to mem[b] - mem[a]; the keys and the output are unchanged; pc becomes c if the new mem[b] is at most 0, else pc + 3 |
| MachineProperties.StepFaultsIff | src/vm.py:53-63 | with the sink in place, a step faults if and only if an instruction cell, the source a, or (for a subtract) the destination b is missing |
| MachineProperties.StepKeepsKeys | src/vm.py:58 | a step never adds or removes a key |
| MachineProperties.StepOutputGrows | src/vm.py:55 | a step keeps the earlier output as a prefix and appends at most one value |
| MachineProperties.RunKeepsKeys | src/vm.py:51-63 | the key set of memory at the end of a run is the key set at its start |
| MachineProperties.RunKeepsSink | src/vm.py:54-58 | if the sink reads 0 at the start of a run, it reads 0 at its end |
| MachineProperties.RunOutputGrows | src/vm.py:51-55 | a run keeps the starting output as a prefix and appends at most one value per unit of fuel |
| MachineProperties.RunOutputMonotone | src/vm.py:51-65 | with more fuel, the output of a run extends the output with less fuel |
| MachineProperties.RunSettled | src/vm.py:51-63 | once a run has halted or faulted, more fuel gives the same result |
| MachineProperties.InterpretInvariants | src/vm.py:32-63 | at every point of execution the sink reads 0 and the keys are exactly the caller's keys plus -1 and 0..n-1 |
| MachineProperties.EmptyProgramFaults | src/vm.py:49-63 | an empty image over a memory without address 0 raises a segmentation fault at address 0 |
| MachineProperties.EmitFiveExample | src/vm.py:40-65 | the image [3, -1, -1, 5] returns [5] with any caller memory and any fuel of at least 1 |
| Vm.LoadProgram | src/vm.py:32-46 | after the in-place load, the memory is exactly Load of the old memory |
| Vm.Execute | src/vm.py:48-65 | the in-place loop returns the output, the fault address or out-of-fuel exactly as Run does, and leaves the memory Run ends with, including on a fault |
| Vm.SubleqInterpreter | src/vm.py:26-65 | the whole interpreter gives exactly Observe(Interpret(...)) over the caller's memory, and leaves that memory as Interpret ends with it |

## Left out

- Non-termination: a subleq program may run forever. Every run here is bounded
  by a `fuel` count. An `OutOfFuel` outcome (the `Exhausted` execution) stands
  for "still running after fuel steps" and does not exist in the source.
- The `InvalidProgramError` checks (`type(program) != list`, `type(v) != int`,
  src/vm.py:34-44) are typing here: the image is a `seq<int>` and memory is
  a `map<int, int>`. Their two quirks are therefore not modelled: the sink is
  set before the check, and a partial load remains when an element is bad.
- Exception classes and message texts (src/vm.py:11-22). A segmentation fault
  is the constructor `SegmentationFault(address)`, which carries only the
  address.
- The unused imports `literal_eval`, `sleep` and `time` have no behaviour.
- Aliasing of the caller's dictionary with other objects is not modelled. The
  `Memory` object is the only reference the model has to it.
- The assembler (parsing, labels, variables, `%zero`/`%out`/`%halt`) is not
  part of this model.
