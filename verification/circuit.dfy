/** Day 24: a circuit of AND/XOR/OR gates over named wires. Some wires carry
    initial values; every other wire is the output of exactly one gate.
    Wires are evaluated on demand with memoisation, and the wires whose name
    starts with 'z', ordered by the number after the 'z', are read as a
    binary number, least significant bit first. */
module CrossedWires {
  import opened Wrappers
  import opened Decimal
  import opened Binary

  type Wire = string

  datatype Op = And | Xor | Or

  /** A gate `l op r`. */
  datatype Gate = Gate(l: Wire, op: Op, r: Wire)

  datatype Circuit = Circuit(inputs: map<Wire, bool>, gates: map<Wire, Gate>)

  function Apply(op: Op, a: bool, b: bool): bool
  {
    match op
    case And => a && b
    case Xor => a != b
    case Or => a || b
  }

  predicate Known(c: Circuit, w: Wire)
  {
    w in c.inputs || w in c.gates
  }

  /** `x` is an initial wire, or a gate output of lower rank than `w`. */
  predicate Below(c: Circuit, rank: map<Wire, nat>, x: Wire, w: Wire)
    requires w in rank
  {
    x in c.inputs || (x in c.gates && x in rank && rank[x] < rank[w])
  }

  /** The gate driving `w` reads only wires below `w`. */
  predicate GateRanked(c: Circuit, rank: map<Wire, nat>, w: Wire)
    requires w in c.gates
  {
    w in rank && Below(c, rank, c.gates[w].l, w) && Below(c, rank, c.gates[w].r, w)
  }

  /** The circuit is acyclic, witnessed by `rank`: every gate output that is
      not an initial wire has a rank above its operands'. Every operand is a
      known wire, so no `unwrap` fails. */
  ghost predicate Ranked(c: Circuit, rank: map<Wire, nat>)
  {
    forall w {:trigger GateRanked(c, rank, w)} :: w in c.gates && w !in c.inputs ==> GateRanked(c, rank, w)
  }

  function Height(c: Circuit, rank: map<Wire, nat>, w: Wire): nat
  {
    if w in c.inputs || w !in rank then 0 else rank[w] + 1
  }

  /** The value a wire carries: its initial value, or its gate applied to
      the values of the gate's operands. */
  ghost function Value(c: Circuit, rank: map<Wire, nat>, w: Wire): bool
    requires Ranked(c, rank) && Known(c, w)
    decreases Height(c, rank, w)
  {
    if w in c.inputs then c.inputs[w]
    else
      assert GateRanked(c, rank, w);
      var g := c.gates[w];
      Apply(g.op, Value(c, rank, g.l), Value(c, rank, g.r))
  }

  /** The memo holds every initial value, and only correct values of known
      wires. */
  ghost predicate MemoOk(c: Circuit, rank: map<Wire, nat>, memo: map<Wire, bool>)
    requires Ranked(c, rank)
  {
    && (forall w :: w in c.inputs ==> w in memo && memo[w] == c.inputs[w])
    && (forall w :: w in memo ==> Known(c, w) && memo[w] == Value(c, rank, w))
  }

  /** `do_evaluate`: the value of `w`, read from the memo when present and
      otherwise computed from the gate and stored. The memo only gains
      entries, and since every entry is exact, the old ones keep their
      values. */
  method DoEvaluate(c: Circuit, ghost rank: map<Wire, nat>, w: Wire, memo0: map<Wire, bool>)
    returns (res: bool, memo: map<Wire, bool>)
    requires Ranked(c, rank) && MemoOk(c, rank, memo0) && Known(c, w)
    ensures res == Value(c, rank, w)
    ensures MemoOk(c, rank, memo) && w in memo && memo[w] == res
    ensures memo0.Keys <= memo.Keys
    decreases Height(c, rank, w)
  {
    if w in memo0 {
      return memo0[w], memo0;
    }
    assert GateRanked(c, rank, w);
    var g := c.gates[w];
    var l, r;
    l, memo := DoEvaluate(c, rank, g.l, memo0);
    r, memo := DoEvaluate(c, rank, g.r, memo);
    res := Apply(g.op, l, r);
    MemoAdd(c, rank, memo, w, res);
    memo := memo[w := res];
  }

  /** Storing the exact value of a known wire keeps the memo exact. */
  lemma MemoAdd(c: Circuit, rank: map<Wire, nat>, memo: map<Wire, bool>, w: Wire, v: bool)
    requires Ranked(c, rank) && MemoOk(c, rank, memo) && Known(c, w) && v == Value(c, rank, w)
    ensures MemoOk(c, rank, memo[w := v])
  {
  }

  /** The loop of `evaluate` over the gate outputs, in any order: afterwards
      the memo holds the value of every known wire. */
  method EvaluateAll(c: Circuit, ghost rank: map<Wire, nat>, order: seq<Wire>) returns (memo: map<Wire, bool>)
    requires Ranked(c, rank)
    requires forall w :: w in c.gates <==> w in order
    ensures MemoOk(c, rank, memo)
    ensures forall w :: w in memo <==> Known(c, w)
  {
    memo := c.inputs;
    var i := 0;
    while i < |order|
      invariant i <= |order|
      invariant MemoOk(c, rank, memo)
      invariant forall k :: 0 <= k < i ==> order[k] in memo
    {
      assert order[i] in order;
      var value;
      value, memo := DoEvaluate(c, rank, order[i], memo);
      i := i + 1;
    }
    forall w | Known(c, w) ensures w in memo {
      if w !in c.inputs {
        var k :| 0 <= k < |order| && order[k] == w;
      }
    }
  }

  // ---------------------------------------------------------------------
  // Reading the z wires.

  predicate IsZ(w: Wire)
  {
    |w| > 0 && w[0] == 'z'
  }

  /** `zs` is the list `evaluate` reads: every known z wire once, each with
      a numeric suffix, in ascending order of that number. */
  ghost predicate ZOrder(c: Circuit, zs: seq<Wire>)
  {
    && (forall i :: 0 <= i < |zs| ==> IsZ(zs[i]) && Known(c, zs[i]) && ParseNat(zs[i][1..]).Some?)
    && (forall w :: Known(c, w) && IsZ(w) ==> w in zs)
    && (forall i, j :: 0 <= i < j < |zs| ==> ParseNat(zs[i][1..]).value < ParseNat(zs[j][1..]).value)
  }

  /** The values of the z wires, in order. */
  ghost function ZBits(c: Circuit, rank: map<Wire, nat>, zs: seq<Wire>): (r: seq<bool>)
    requires Ranked(c, rank) && forall i :: 0 <= i < |zs| ==> Known(c, zs[i])
    ensures |r| == |zs|
  {
    seq(|zs|, i requires 0 <= i < |zs| => Value(c, rank, zs[i]))
  }

  /** `evaluate`: all gates are evaluated, then `2^index * value` is summed
      over the z wires in suffix order; the result is the binary number the
      z wires spell. */
  method Evaluate(c: Circuit, ghost rank: map<Wire, nat>, order: seq<Wire>, zs: seq<Wire>) returns (r: nat)
    requires Ranked(c, rank)
    requires forall w :: w in c.gates <==> w in order
    requires ZOrder(c, zs)
    ensures r == BinaryValue(ZBits(c, rank, zs))
  {
    var memo := EvaluateAll(c, rank, order);
    ghost var bits := ZBits(c, rank, zs);
    r := 0;
    var digit := 1;
    var i := 0;
    while i < |zs|
      invariant i <= |zs| && digit == Pow2(i)
      invariant r == BinaryValue(bits[..i])
    {
      assert zs[i] in memo;
      BinaryAppend(bits[..i], bits[i]);
      assert bits[..i + 1] == bits[..i] + [bits[i]];
      r := r + digit * Bit(memo[zs[i]]);
      digit := 2 * digit;
      i := i + 1;
    }
    assert bits[..i] == bits;
  }
}
