/** Day 17: a computer with three registers A, B and C and a program of 3-bit
    numbers read as (opcode, operand) pairs. `run` steps until the program
    counter leaves the program; `out` instructions collect the output. */
module ChronospatialComputer {
  import opened Wrappers
  import opened Binary

  datatype Operation = Adv | Bxl | Bst | Jnz | Bxc | Out | Bdv | Cdv

  /** The opcode of each operation. */
  function Opcode(op: Operation): (r: nat)
    ensures r < 8
  {
    match op
    case Adv => 0
    case Bxl => 1
    case Bst => 2
    case Jnz => 3
    case Bxc => 4
    case Out => 5
    case Bdv => 6
    case Cdv => 7
  }

  /** `Operation::from_opcode`: total on 0..7, `None` where the Rust code
      panics. */
  function FromOpcode(opcode: nat): (r: Option<Operation>)
    ensures r.Some? <==> opcode < 8
    ensures r.Some? ==> Opcode(r.value) == opcode
  {
    match opcode
    case 0 => Some(Adv)
    case 1 => Some(Bxl)
    case 2 => Some(Bst)
    case 3 => Some(Jnz)
    case 4 => Some(Bxc)
    case 5 => Some(Out)
    case 6 => Some(Bdv)
    case 7 => Some(Cdv)
    case _ => None
  }

  /** Decoding inverts encoding: the opcodes name the operations one to
      one. */
  lemma OpcodeRoundTrip(op: Operation)
    ensures FromOpcode(Opcode(op)) == Some(op)
  {
    assert Opcode(FromOpcode(Opcode(op)).value) == Opcode(op);
  }

  datatype Machine = Machine(a: nat, b: nat, c: nat, program: seq<nat>, output: seq<nat>, pc: nat)

  /** `Problem::new`: the registers as given, no output, the program counter
      at 0. */
  function Init(a: nat, b: nat, c: nat, program: seq<nat>): (r: Machine)
    ensures r.program == program && r.output == [] && r.pc == 0
    ensures r.a == a && r.b == b && r.c == c
  {
    Machine(a, b, c, program, [], 0)
  }

  /** `combo_operand_value`: 0..3 stand for themselves and 4, 5, 6 for the
      registers A, B, C; `None` for 7 and above, where the Rust code
      panics. */
  function Combo(m: Machine, operand: nat): (r: Option<nat>)
    ensures r.Some? <==> operand < 7
    ensures operand < 4 ==> r == Some(operand)
    ensures r.Some? && operand >= 4 ==> r.value in {m.a, m.b, m.c}
  {
    if operand < 4 then Some(operand)
    else if operand == 4 then Some(m.a)
    else if operand == 5 then Some(m.b)
    else if operand == 6 then Some(m.c)
    else None
  }

  /** `A / 2^combo`, the quotient `adv`, `bdv` and `cdv` store. */
  function Divide(m: Machine, operand: nat): (r: Option<nat>)
    ensures r.Some? <==> operand < 7
    ensures r.Some? ==> r.value <= m.a
  {
    var v := Combo(m, operand);
    if v.None? then None
    else
      var p := Pow2(v.value);
      QuotientAtMost(m.a, p);
      var q: nat := m.a / p;
      Some(q)
  }

  lemma QuotientAtMost(a: nat, p: nat)
    requires p >= 1
    ensures 0 <= a / p <= a
  {
  }

  /** `step`: executes the instruction at `pc`. `None` where the Rust code
      panics: the operand lies past the end of the program, the opcode is
      not in 0..7, or a combo operand is 7 or above. Division by `2^combo`
      is on unbounded naturals. */
  function Step(m: Machine): (r: Option<Machine>)
    ensures r.Some? ==> m.pc + 1 < |m.program| && m.program[m.pc] < 8
    ensures r.Some? ==> r.value.program == m.program
    ensures r.Some? ==> m.output <= r.value.output && |r.value.output| <= |m.output| + 1
    ensures r.Some? ==> forall k :: |m.output| <= k < |r.value.output| ==> r.value.output[k] < 8
  {
    if m.pc + 1 >= |m.program| then None
    else
      var op := FromOpcode(m.program[m.pc]);
      var operand := m.program[m.pc + 1];
      var next := m.pc + 2;
      if op.None? then None
      else
        match op.value
        case Adv =>
          var q := Divide(m, operand);
          if q.None? then None else Some(m.(a := q.value, pc := next))
        case Bxl => Some(m.(b := Xor(m.b, operand), pc := next))
        case Bst =>
          var v := Combo(m, operand);
          if v.None? then None else Some(m.(b := v.value % 8, pc := next))
        case Jnz => Some(m.(pc := if m.a != 0 then operand else next))
        case Bxc => Some(m.(b := Xor(m.b, m.c), pc := next))
        case Out =>
          var v := Combo(m, operand);
          if v.None? then None else Some(m.(output := m.output + [v.value % 8], pc := next))
        case Bdv =>
          var q := Divide(m, operand);
          if q.None? then None else Some(m.(b := q.value, pc := next))
        case Cdv =>
          var q := Divide(m, operand);
          if q.None? then None else Some(m.(c := q.value, pc := next))
  }

  /** Every instruction but `jnz` moves to the next pair; only `out` writes
      output; `jnz` jumps to its operand exactly when A is non-zero. */
  lemma StepControl(m: Machine)
    requires Step(m).Some?
    ensures var op := m.program[m.pc];
            var n := Step(m).value;
            && (op != 3 ==> n.pc == m.pc + 2)
            && (op == 3 && m.a != 0 ==> n.pc == m.program[m.pc + 1])
            && (op == 3 && m.a == 0 ==> n.pc == m.pc + 2)
            && (op != 5 ==> n.output == m.output)
            && (op == 5 ==> |n.output| == |m.output| + 1)
  {
  }

  /** The register each instruction writes: the divisions store
      `A / 2^combo` into A, B or C; `bxl` and `bxc` xor B with the literal
      operand or with C; `bst` keeps the low three bits of the combo value.
      Every other register keeps its value. */
  lemma StepRegisters(m: Machine)
    requires Step(m).Some?
    ensures var op, operand := m.program[m.pc], m.program[m.pc + 1];
            var n := Step(m).value;
            && (op in {0, 6, 7} ==> Combo(m, operand).Some?)
            && (op == 0 ==> n.a == m.a / Pow2(Combo(m, operand).value) && n.b == m.b && n.c == m.c)
            && (op == 6 ==> n.b == m.a / Pow2(Combo(m, operand).value) && n.a == m.a && n.c == m.c)
            && (op == 7 ==> n.c == m.a / Pow2(Combo(m, operand).value) && n.a == m.a && n.b == m.b)
            && (op == 1 ==> n.b == Xor(m.b, operand) && n.a == m.a && n.c == m.c)
            && (op == 4 ==> n.b == Xor(m.b, m.c) && n.a == m.a && n.c == m.c)
            && (op == 2 ==> n.b == Combo(m, operand).value % 8 && n.b < 8 && n.a == m.a && n.c == m.c)
            && (op in {3, 5} ==> n.a == m.a && n.b == m.b && n.c == m.c)
  {
  }

  /** `bxl` twice with the same operand restores B, since exclusive or is
      its own inverse. */
  lemma BxlTwice(m: Machine)
    requires m.pc + 3 < |m.program|
    requires m.program[m.pc] == 1 && m.program[m.pc + 2] == 1 && m.program[m.pc + 1] == m.program[m.pc + 3]
    ensures Step(m).Some? && Step(Step(m).value).Some?
    ensures Step(Step(m).value).value == m.(pc := m.pc + 4)
  {
    XorTwice(m.b, m.program[m.pc + 1]);
  }

  /** How a run ends: the program counter left the program, an instruction
      panicked, or the fuel ran out first. */
  datatype Outcome = Halted(final: Machine) | Crashed | OutOfFuel

  /** `run`, for at most `fuel` steps. A halted run keeps the program, only
      extends the output, and adds values below 8. */
  function Run(m: Machine, fuel: nat): (r: Outcome)
    ensures r.Halted? ==> r.final.pc >= |m.program| && r.final.program == m.program
    ensures r.Halted? ==> m.output <= r.final.output
    ensures r.Halted? ==> forall k :: |m.output| <= k < |r.final.output| ==> r.final.output[k] < 8
    decreases fuel
  {
    if m.pc >= |m.program| then Halted(m)
    else if fuel == 0 then OutOfFuel
    else
      var n := Step(m);
      if n.None? then Crashed else Run(n.value, fuel - 1)
  }

  /** A run that ends within its fuel ends the same way with more fuel. */
  lemma {:induction false} RunMoreFuel(m: Machine, fuel: nat, more: nat)
    requires Run(m, fuel) != OutOfFuel && fuel <= more
    ensures Run(m, more) == Run(m, fuel)
    decreases fuel
  {
    if m.pc < |m.program| {
      var n := Step(m);
      if n.Some? {
        RunMoreFuel(n.value, fuel - 1, more - 1);
      }
    }
  }

  /** `run` as the Rust loop: step while the program counter is inside the
      program, here for at most `fuel` steps. */
  method RunLoop(m0: Machine, fuel: nat) returns (r: Outcome)
    ensures r == Run(m0, fuel)
  {
    var m := m0;
    var left: nat := fuel;
    while m.pc < |m.program|
      invariant left <= fuel
      invariant Run(m, left) == Run(m0, fuel)
      decreases left
    {
      if left == 0 {
        return OutOfFuel;
      }
      var n := Step(m);
      if n.None? {
        return Crashed;
      }
      m := n.value;
      left := left - 1;
    }
    return Halted(m);
  }

  /** The puzzle's example: with C = 9, `2,6` sets B to 1. */
  lemma ExampleBst()
    ensures var r := Run(Init(0, 0, 9, [2, 6]), 1);
            r.Halted? && r.final.b == 1
  {
  }

  /** The puzzle's example: with A = 10, `5,0,5,1,5,4` prints `0,1,2`. */
  lemma ExampleOut()
    ensures var r := Run(Init(10, 0, 0, [5, 0, 5, 1, 5, 4]), 3);
            r.Halted? && r.final.output == [0, 1, 2]
  {
  }
}
