/**
 * What the subleq engine guarantees: the shape of each kind of step, the
 * order in which missing keys are reported, and the invariants of a run
 * (the sink stays 0, memory never gains or loses a key, output only grows).
 */
module MachineProperties {
  import opened Machine

  // ---------------------------------------------------------------------------
  // One step
  // ---------------------------------------------------------------------------

  /**
   * The addresses one step reads, in the order the source reads them: the
   * instruction cells pc, pc+1, pc+2; then a and b (output, b == -1) or b, a
   * and b again (subtract, whose augmented assignment loads its target first).
   * The operand reads are listed only once all three instruction cells exist.
   */
  function Reads(s: State): (rs: seq<int>) {
    var fetch := [s.pc, s.pc + 1, s.pc + 2];
    if !Fetched(s) then fetch
    else
      var a, b := s.mem[s.pc], s.mem[s.pc + 1];
      fetch + if b == -1 then [a, b] else [b, a, b]
  }

  /** `k` is the first address of `rs` missing from `m`. */
  predicate FirstMissing(rs: seq<int>, m: map<int, int>, k: int) {
    exists i :: 0 <= i < |rs| && rs[i] == k && k !in m && forall j :: 0 <= j < i ==> rs[j] in m
  }

  /**
   * A step faults exactly when one of the addresses it reads is missing, and
   * the fault carries the first missing one in reading order.
   */
  lemma StepFaultsAtFirstMissingRead(s: State)
    ensures Step(s).Fault? <==> exists i :: 0 <= i < |Reads(s)| && Reads(s)[i] !in s.mem
    ensures Step(s).Fault? ==> FirstMissing(Reads(s), s.mem, Step(s).address)
  {
    var rs, m := Reads(s), s.mem;
    if s.pc !in m {
      assert rs[0] == s.pc;
    } else if s.pc + 1 !in m {
      assert rs[1] == s.pc + 1;
    } else if s.pc + 2 !in m {
      assert rs[2] == s.pc + 2;
    } else {
      var a, b := m[s.pc], m[s.pc + 1];
      if b == -1 {
        assert rs == [s.pc, s.pc + 1, s.pc + 2, a, b];
        if a !in m {
          assert rs[3] == a;
        } else if b !in m {
          assert rs[4] == b;
        }
      } else {
        assert rs == [s.pc, s.pc + 1, s.pc + 2, b, a, b];
        if b !in m {
          assert rs[3] == b;
        } else if a !in m {
          assert rs[4] == a;
        }
      }
    }
  }

  /**
   * Output step (destination -1): memory is untouched, mem[a] is emitted, and
   * because mem[-1] reads 0 the jump to c is always taken.
   */
  lemma OutputStep(s: State)
    requires Sink(s.mem) && Fetched(s) && s.mem[s.pc + 1] == -1
    ensures s.mem[s.pc] !in s.mem ==> Step(s) == Fault(s.mem[s.pc])
    ensures s.mem[s.pc] in s.mem ==>
      Step(s) == Next(State(s.mem, s.mem[s.pc + 2], s.out + [s.mem[s.mem[s.pc]]]))
  {
  }

  /**
   * Subtract step (destination b other than -1): mem[b] is read before
   * mem[a]; only cell b changes, to mem[b] - mem[a]; nothing is emitted; the
   * jump to c is taken exactly when the new mem[b] is at most 0.
   */
  lemma SubtractStep(s: State)
    requires Fetched(s) && s.mem[s.pc + 1] != -1
    ensures var a, b := s.mem[s.pc], s.mem[s.pc + 1];
      b !in s.mem ==> Step(s) == Fault(b)
    ensures var a, b := s.mem[s.pc], s.mem[s.pc + 1];
      b in s.mem && a !in s.mem ==> Step(s) == Fault(a)
    ensures var a, b, c := s.mem[s.pc], s.mem[s.pc + 1], s.mem[s.pc + 2];
      a in s.mem && b in s.mem ==>
        && Step(s).Next?
        && var t := Step(s).s;
        && t.mem.Keys == s.mem.Keys
        && t.mem[b] == s.mem[b] - s.mem[a]
        && (forall k :: k in s.mem && k != b ==> t.mem[k] == s.mem[k])
        && t.out == s.out
        && t.pc == (if t.mem[b] <= 0 then c else s.pc + 3)
  {
  }

  /** A step neither allocates nor frees a cell: the key set of memory is unchanged. */
  lemma StepKeepsKeys(s: State)
    ensures Step(s).Next? ==> Step(s).s.mem.Keys == s.mem.Keys
  {
  }

  /** A step emits at most one value and never changes what was emitted before. */
  lemma StepOutputGrows(s: State)
    ensures Step(s).Next? ==> s.out <= Step(s).s.out && |Step(s).s.out| <= |s.out| + 1
  {
  }

  /**
   * With the sink in place, a step faults exactly when one of the keys it
   * needs is missing: the three instruction cells, the source a, and (for a
   * subtract) the destination b.
   */
  lemma StepFaultsIff(s: State)
    requires Sink(s.mem)
    ensures Step(s).Fault? <==>
      || !Fetched(s)
      || s.mem[s.pc] !in s.mem
      || (s.mem[s.pc + 1] != -1 && s.mem[s.pc + 1] !in s.mem)
  {
  }

  // ---------------------------------------------------------------------------
  // Runs
  // ---------------------------------------------------------------------------

  /** The key set of memory is fixed during a run: execution never allocates a cell. */
  lemma {:induction false} RunKeepsKeys(s: State, fuel: nat)
    ensures Run(s, fuel).s.mem.Keys == s.mem.Keys
    decreases fuel
  {
    if s.pc != -1 && fuel > 0 && Step(s).Next? {
      StepKeepsKeys(s);
      RunKeepsKeys(Step(s).s, fuel - 1);
    }
  }

  /** Address -1 is never written, so the sink still reads 0 when the run ends. */
  lemma {:induction false} RunKeepsSink(s: State, fuel: nat)
    requires Sink(s.mem)
    ensures Sink(Run(s, fuel).s.mem)
    decreases fuel
  {
    if s.pc != -1 && fuel > 0 && Step(s).Next? {
      RunKeepsSink(Step(s).s, fuel - 1);
    }
  }

  /** Output is only appended to, and each step appends at most one element. */
  lemma {:induction false} RunOutputGrows(s: State, fuel: nat)
    ensures s.out <= Run(s, fuel).s.out
    ensures |Run(s, fuel).s.out| <= |s.out| + fuel
    decreases fuel
  {
    if s.pc != -1 && fuel > 0 && Step(s).Next? {
      StepOutputGrows(s);
      RunOutputGrows(Step(s).s, fuel - 1);
    }
  }

  /** The output of a longer run extends the output of a shorter one. */
  lemma {:induction false} RunOutputMonotone(s: State, n: nat, m: nat)
    requires n <= m
    ensures Run(s, n).s.out <= Run(s, m).s.out
    decreases n
  {
    if s.pc == -1 {
    } else if n == 0 {
      RunOutputGrows(s, m);
    } else {
      match Step(s)
      case Fault(_) =>
      case Next(t) => RunOutputMonotone(t, n - 1, m - 1);
    }
  }

  /** Once a run halts or faults, more fuel changes nothing. */
  lemma {:induction false} RunSettled(s: State, n: nat, m: nat)
    requires n <= m && !Run(s, n).Exhausted?
    ensures Run(s, m) == Run(s, n)
    decreases n
  {
    if s.pc != -1 {
      match Step(s)
      case Fault(_) =>
      case Next(t) => RunSettled(t, n - 1, m - 1);
    }
  }

  // ---------------------------------------------------------------------------
  // The interpreter
  // ---------------------------------------------------------------------------

  /**
   * At every point of execution (every fuel bound picks one) the sink reads 0
   * and the keys are exactly those present after loading.
   */
  lemma InterpretInvariants(program: seq<int>, mem: map<int, int>, fuel: nat)
    ensures Sink(Interpret(program, mem, fuel).s.mem)
    ensures Interpret(program, mem, fuel).s.mem.Keys == Load(program, mem).Keys
    ensures forall k :: k in Interpret(program, mem, fuel).s.mem <==>
      k in mem || k == -1 || 0 <= k < |program|
  {
    RunKeepsSink(Start(program, mem), fuel);
    RunKeepsKeys(Start(program, mem), fuel);
  }

  /** An empty image faults on the first fetch, at address 0, unless the caller's memory holds 0. */
  lemma EmptyProgramFaults(mem: map<int, int>, fuel: nat)
    requires 0 !in mem && fuel > 0
    ensures Observe(Interpret([], mem, fuel)) == SegmentationFault(0)
  {
  }

  /** The image [3, -1, -1, 5] emits mem[3] = 5 and halts, whatever the caller's memory held. */
  lemma EmitFiveExample(mem: map<int, int>, fuel: nat)
    requires fuel > 0
    ensures Observe(Interpret([3, -1, -1, 5], mem, fuel)) == Returned([5])
  {
    var s := Start([3, -1, -1, 5], mem);
    assert s.mem[0] == 3 && s.mem[1] == -1 && s.mem[2] == -1 && s.mem[3] == 5;
    OutputStep(s);
    var t := State(s.mem, -1, [5]);
    assert Step(s) == Next(t);
    assert Run(s, fuel) == Run(t, fuel - 1) == Halted(t);
  }
}
