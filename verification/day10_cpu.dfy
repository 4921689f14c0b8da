/** Day 10: a cycle-counting CPU with one register and a signal clock
    (day-10/src/main.rs). Parsing and the per-cycle trace printing are left
    out; `x` is an unbounded integer rather than `i64`. */
module Day10Cpu {
  import opened Wrappers

  datatype Instruction = Noop | AddX(v: int)

  /** `Instruction::cycles`. */
  function Cycles(i: Instruction): (r: nat)
    ensures i.Noop? <==> r == 1
    ensures i.AddX? <==> r == 2
  {
    match i
    case AddX(_) => 2
    case Noop => 1
  }

  datatype Cpu = Cpu(x: int, cyclesTaken: nat, programCounter: nat, cyclesLeft: nat, instructions: seq<Instruction>)

  /** `CPU::new`: indexing the first instruction panics on an empty
      program. */
  function NewCpu(instructions: seq<Instruction>): (r: Result<Cpu>)
    ensures r.Err? <==> |instructions| == 0
    ensures r.Ok? ==> r.value == Cpu(1, 0, 0, Cycles(instructions[0]), instructions)
  {
    if |instructions| == 0 then Err("empty program")
    else Ok(Cpu(1, 0, 0, Cycles(instructions[0]), instructions))
  }

  /** `current_instruction`: `None` once the counter runs off the end. */
  function CurrentInstruction(cpu: Cpu): (r: Option<Instruction>)
    ensures r.Some? <==> cpu.programCounter < |cpu.instructions|
    ensures r.Some? ==> r.value == cpu.instructions[cpu.programCounter]
  {
    if cpu.programCounter < |cpu.instructions| then Some(cpu.instructions[cpu.programCounter]) else None
  }

  /** The value of `x` after executing `i`. */
  function Execute(x: int, i: Instruction): int
  {
    match i
    case AddX(v) => x + v
    case Noop => x
  }

  /** `commit_current_instruction`; the `unwrap` panics past the end. */
  function Commit(cpu: Cpu): (r: Result<Cpu>)
    ensures r.Err? <==> cpu.programCounter >= |cpu.instructions|
    ensures r.Ok? ==> r.value == cpu.(x := Execute(cpu.x, cpu.instructions[cpu.programCounter]))
  {
    match CurrentInstruction(cpu)
    case None => Err("no current instruction")
    case Some(i) => Ok(cpu.(x := Execute(cpu.x, i)))
  }

  /** Committing `addx v` adds `v`; `noop` leaves `x` alone. */
  lemma CommitEffect(cpu: Cpu)
    requires cpu.programCounter < |cpu.instructions|
    ensures cpu.instructions[cpu.programCounter].Noop? ==> Commit(cpu).value.x == cpu.x
    ensures cpu.instructions[cpu.programCounter].AddX? ==>
      Commit(cpu).value.x == cpu.x + cpu.instructions[cpu.programCounter].v
  {
  }

  /** `signal_clock`: fires on cycles 20, 60, 100, ... */
  function SignalClock(cycles: int): (r: Option<int>)
    ensures r.Some? <==> (cycles + 20) % 40 == 0
    ensures r.Some? ==> r.value == cycles
  {
    if (cycles + 20) % 40 == 0 then Some(cycles) else None
  }

  /** For non-negative cycle counts the clock fires at exactly the cycles
      `20 + 40 k`. */
  lemma SignalClockCycles(cycles: nat)
    ensures SignalClock(cycles).Some? <==> exists k: nat :: cycles == 20 + 40 * k
  {
    if SignalClock(cycles).Some? {
      var k: nat := (cycles + 20) / 40 - 1;
      assert cycles == 20 + 40 * k;
    }
  }

  // ---------------------------------------------------------------------------
  // Reference definitions at the level of whole instructions.

  function TotalCycles(p: seq<Instruction>): nat
  {
    if |p| == 0 then 0 else TotalCycles(p[..|p| - 1]) + Cycles(p[|p| - 1])
  }

  function AddSum(p: seq<Instruction>): int
  {
    if |p| == 0 then 0 else AddSum(p[..|p| - 1]) + (match p[|p| - 1] case AddX(v) => v case Noop => 0)
  }

  /** The contribution of cycle `c` when `x` holds during it. */
  function Strength(c: int, x: int): int
  {
    match SignalClock(c)
    case Some(cycles) => x * cycles
    case None => 0
  }

  /** The contributions of cycles `from + 1 .. to` with `x` constant. */
  function Strengths(from: int, to: int, x: int): int
    decreases to - from
  {
    if to <= from then 0 else Strengths(from, to - 1, x) + Strength(to, x)
  }

  /** The signal of a program: every instruction `k` occupies the cycles after
      those of its predecessors, and throughout them `x` is 1 plus the sum
      of the earlier `addx` operands. */
  function Signal(p: seq<Instruction>): int
  {
    if |p| == 0 then 0
    else
      var init := p[..|p| - 1];
      Signal(init) + Strengths(TotalCycles(init), TotalCycles(init) + Cycles(p[|p| - 1]), 1 + AddSum(init))
  }

  /** What holds between cycles: the instructions before the program counter
      are done, the current one has run `Cycles - cyclesLeft` of its cycles,
      and the signal sums every cycle so far. */
  predicate Between(instructions: seq<Instruction>, cpu: Cpu, sum: int)
  {
    var pc := cpu.programCounter;
    cpu.instructions == instructions && pc <= |instructions|
    && (pc < |instructions| ==> 1 <= cpu.cyclesLeft <= Cycles(instructions[pc]))
    && cpu.cyclesTaken == TotalCycles(instructions[..pc])
         + (if pc < |instructions| then Cycles(instructions[pc]) - cpu.cyclesLeft else 0)
    && cpu.x == 1 + AddSum(instructions[..pc])
    && sum == Signal(instructions[..pc]) + Strengths(TotalCycles(instructions[..pc]), cpu.cyclesTaken, cpu.x)
  }

  /** One pass of the loop of `main`: count the cycle down, sample the
      signal with the `x` from before this cycle's commit, and commit when
      the countdown reaches zero, loading the next instruction's cycles. */
  function Tick(cpu: Cpu, sum: int): (r: (Cpu, int))
    requires cpu.programCounter < |cpu.instructions| && cpu.cyclesLeft >= 1
  {
    var cpu := cpu.(cyclesTaken := cpu.cyclesTaken + 1, cyclesLeft := cpu.cyclesLeft - 1);
    var commit := cpu.cyclesLeft == 0;
    var sum := match SignalClock(cpu.cyclesTaken) case Some(cycles) => sum + cpu.x * cycles case None => sum;
    if commit then
      var cpu := Commit(cpu).value;
      var cpu := cpu.(programCounter := cpu.programCounter + 1);
      match CurrentInstruction(cpu)
      case Some(op) => (cpu.(cyclesLeft := Cycles(op)), sum)
      case None => (cpu, sum)
    else (cpu, sum)
  }

  /** A tick keeps `Between` and takes one more cycle, never past the
      program's total. */
  lemma TickKeeps(instructions: seq<Instruction>, cpu: Cpu, sum: int)
    requires Between(instructions, cpu, sum) && cpu.programCounter < |instructions|
    ensures Between(instructions, Tick(cpu, sum).0, Tick(cpu, sum).1)
    ensures Tick(cpu, sum).0.cyclesTaken == cpu.cyclesTaken + 1 <= TotalCycles(instructions)
  {
    PrefixCycles(instructions, cpu.programCounter);
    if cpu.cyclesLeft == 1 {
      TickCommits(instructions, cpu, sum);
    } else {
      TickWaits(instructions, cpu, sum);
    }
  }

  lemma TickWaits(instructions: seq<Instruction>, cpu: Cpu, sum: int)
    requires Between(instructions, cpu, sum) && cpu.programCounter < |instructions| && cpu.cyclesLeft > 1
    ensures Between(instructions, Tick(cpu, sum).0, Tick(cpu, sum).1)
  {
    var c := cpu.cyclesTaken + 1;
    var done := instructions[..cpu.programCounter];
    assert Strengths(TotalCycles(done), c, cpu.x) == Strengths(TotalCycles(done), c - 1, cpu.x) + Strength(c, cpu.x);
  }

  lemma TickCommits(instructions: seq<Instruction>, cpu: Cpu, sum: int)
    requires Between(instructions, cpu, sum) && cpu.programCounter < |instructions| && cpu.cyclesLeft == 1
    ensures Between(instructions, Tick(cpu, sum).0, Tick(cpu, sum).1)
  {
    var pc := cpu.programCounter;
    var c := cpu.cyclesTaken + 1;
    var done := instructions[..pc];
    var x' := Execute(cpu.x, instructions[pc]);
    var sum' := sum + Strength(c, cpu.x);
    var left := if pc + 1 < |instructions| then Cycles(instructions[pc + 1]) else 0;
    var cpu' := Cpu(x', c, pc + 1, left, instructions);
    assert Between(instructions, cpu', sum') by {
      var t := TotalCycles(done);
      assert t + Cycles(instructions[pc]) == c && 1 + AddSum(done) == cpu.x;
      assert sum == Signal(done) + Strengths(t, c - 1, cpu.x);
      PrefixStep(instructions, pc);
      SignalStep(instructions, pc, t, c, cpu.x);
      assert Strengths(t, c, cpu.x) == Strengths(t, c - 1, cpu.x) + Strength(c, cpu.x);
      assert Signal(instructions[..pc + 1]) == sum';
      assert TotalCycles(instructions[..pc + 1]) == c;
      assert Strengths(c, c, x') == 0;
    }
    assert Tick(cpu, sum) == (cpu', sum') by {
      CommitTick(cpu, sum);
    }
  }

  /** The signal of one more instruction, its cycles and `x` named. */
  lemma SignalStep(instructions: seq<Instruction>, pc: nat, t: int, c: int, x: int)
    requires pc < |instructions| && t == TotalCycles(instructions[..pc])
    requires c == t + Cycles(instructions[pc]) && x == 1 + AddSum(instructions[..pc])
    ensures Signal(instructions[..pc + 1]) == Signal(instructions[..pc]) + Strengths(t, c, x)
  {
    PrefixStep(instructions, pc);
  }

  /** The tick that finishes an instruction: `x` takes its effect, the
      counter moves on and the next instruction's cycles are loaded. */
  lemma CommitTick(cpu: Cpu, sum: int)
    requires cpu.programCounter < |cpu.instructions| && cpu.cyclesLeft == 1
    ensures var pc := cpu.programCounter;
      Tick(cpu, sum) == (Cpu(Execute(cpu.x, cpu.instructions[pc]), cpu.cyclesTaken + 1, pc + 1,
                             if pc + 1 < |cpu.instructions| then Cycles(cpu.instructions[pc + 1]) else 0,
                             cpu.instructions),
                         sum + Strength(cpu.cyclesTaken + 1, cpu.x))
  {
  }

  /** One more instruction done: its cycles, its operand and its cycles'
      strengths join the totals. */
  lemma PrefixStep(instructions: seq<Instruction>, pc: nat)
    requires pc < |instructions|
    ensures var done, next := instructions[..pc], instructions[..pc + 1];
      && TotalCycles(next) == TotalCycles(done) + Cycles(instructions[pc])
      && AddSum(next) == AddSum(done) + (match instructions[pc] case AddX(v) => v case Noop => 0)
      && Signal(next) == Signal(done) + Strengths(TotalCycles(done), TotalCycles(done) + Cycles(instructions[pc]), 1 + AddSum(done))
  {
    assert instructions[..pc + 1][..pc] == instructions[..pc];
  }

  datatype Outcome = Outcome(cycles: nat, x: int, signal: int)

  /** The loop of `main`, ending once the program counter has run off the
      program. It runs for the sum of the instruction cycles, ends with `x`
      one plus the `addx` operands, and sums the strengths the
      instruction-level definition predicts. */
  method RunProgram(instructions: seq<Instruction>) returns (r: Result<Outcome>)
    ensures r.Err? <==> |instructions| == 0
    ensures r.Ok? ==> r.value == Outcome(TotalCycles(instructions), 1 + AddSum(instructions), Signal(instructions))
  {
    var start := NewCpu(instructions);
    if start.Err? {
      return Err(start.reason);
    }
    var cpu := start.value;
    var sum := 0;
    while cpu.programCounter < |instructions|
      invariant Between(instructions, cpu, sum)
      invariant cpu.cyclesTaken <= TotalCycles(instructions)
      decreases TotalCycles(instructions) - cpu.cyclesTaken
    {
      TickKeeps(instructions, cpu, sum);
      cpu, sum := Tick(cpu, sum).0, Tick(cpu, sum).1;
    }
    assert instructions[..cpu.programCounter] == instructions;
    r := Ok(Outcome(cpu.cyclesTaken, cpu.x, sum));
  }

  /** Cycles of a prefix never exceed those of the whole program, and the
      next instruction fits in what is left. */
  lemma {:induction false} PrefixCycles(p: seq<Instruction>, k: nat)
    requires k < |p|
    ensures TotalCycles(p[..k]) + Cycles(p[k]) <= TotalCycles(p)
    decreases |p|
  {
    if k < |p| - 1 {
      var init := p[..|p| - 1];
      assert init[..k] == p[..k];
      PrefixCycles(init, k);
    } else {
      assert p[..k] == p[..|p| - 1];
    }
  }

  /** The small example of the puzzle: `noop`, `addx 3`, `addx -5` takes five
      cycles and leaves `x` at -1. */
  lemma SmallExample()
    ensures TotalCycles([Noop, AddX(3), AddX(-5)]) == 5
    ensures 1 + AddSum([Noop, AddX(3), AddX(-5)]) == -1
  {
    var p := [Noop, AddX(3), AddX(-5)];
    assert p[..2] == [Noop, AddX(3)];
    assert p[..2][..1] == [Noop];
    assert [Noop][..0] == [];
  }
}
