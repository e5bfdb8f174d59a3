/** Expression code leaves the expression's value in %rdi and balances the stack. */
module ExprSimulation {
  import opened Words
  import opened TeenyBasic
  import opened Machine
  import opened CodeGen

  /** `piece` stands at position `pc` of `code`. */
  predicate At(code: seq<Instr>, pc: nat, piece: seq<Instr>)
  {
    pc + |piece| <= |code| && code[pc..pc + |piece|] == piece
  }

  lemma AtConcat(code: seq<Instr>, pc: nat, a: seq<Instr>, b: seq<Instr>)
    requires At(code, pc, a + b)
    ensures At(code, pc, a) && At(code, pc + |a|, b)
  {
    var s := code[pc..pc + |a + b|];
    assert s[..|a|] == a && s[|a|..] == b;
  }

  lemma AtFirst(code: seq<Instr>, pc: nat, piece: seq<Instr>, k: nat)
    requires At(code, pc, piece) && k < |piece|
    ensures pc + k < |code| && code[pc + k] == piece[k]
  {
    assert code[pc..pc + |piece|][k] == code[pc + k];
  }

  lemma Chain(env: Env, code: seq<Instr>, a: Conf, n: nat, b: Conf, k: nat, c: Conf)
    requires Steps(env, code, a, n) == b && Steps(env, code, b, k) == c
    ensures Steps(env, code, a, n + k) == c
  {
    hide Exec;
    StepsAdd(env, code, a, n, k);
  }

  lemma OneStep(env: Env, code: seq<Instr>, m: State, i: Instr)
    requires m.pc < |code| && code[m.pc] == i
    ensures Steps(env, code, Running(m), 1) == Exec(env, code, m, i)
  {
    var c := Step(env, code, Running(m));
    assert Steps(env, code, Running(m), 1) == Steps(env, code, c, 0);
  }

  function Pushed(m: State): State
  {
    m.(pc := m.pc + 1, rsp := m.rsp - 8, mem := m.mem[m.rsp - 8 := m.rdi])
  }

  lemma PushStep(env: Env, code: seq<Instr>, m: State)
    requires At(code, m.pc, [PushRdi])
    ensures Steps(env, code, Running(m), 1) == Running(Pushed(m))
  {
    AtFirst(code, m.pc, [PushRdi], 0);
    OneStep(env, code, m, PushRdi);
  }

  /** The 26 variables live in the words just below %rbp. */
  function Vars(m: State): Store
  {
    seq(NUM_VARS, i => Load(m.mem, m.rbp - 8 * (i + 1)))
  }

  /** The stack pointer is below the variables. */
  predicate Framed(m: State)
  {
    m.rsp <= m.rbp - 8 * NUM_VARS
  }

  function Max(a: nat, b: nat): nat
  {
    if a < b then b else a
  }

  /** Stack words an expression's code needs. */
  function Depth(e: Expr): nat
  {
    match e
    case Num(_) => 0
    case Var(_) => 0
    case Bin(op, l, r) =>
      if op == Mul && r.Num? && ShiftsInstead(r.value) then Depth(l)
      else Max(Depth(l), Max(1 + Depth(r), 2))
  }

  /** Memory outside the `words` words below `top` is the same. */
  ghost predicate SameOutside(before: Memory, after: Memory, top: int, words: nat)
  {
    forall a :: a >= top || a < top - 8 * words ==> Load(after, a) == Load(before, a)
  }

  /** `m'` follows `m` after code of length `len` that only computes: same frame, same
      output, and stack traffic confined to `words` words below %rsp. */
  ghost predicate Computed(m: State, m': State, len: nat, words: nat)
  {
    && m'.pc == m.pc + len && m'.rsp == m.rsp && m'.rbp == m.rbp
    && m'.trace == m.trace && m'.calls == m.calls
    && SameOutside(m.mem, m'.mem, m.rsp, words)
  }

  lemma ComputedKeepsVars(m: State, m': State, len: nat, words: nat)
    requires Computed(m, m', len, words) && Framed(m)
    ensures Vars(m') == Vars(m) && Framed(m')
  {
    forall i | 0 <= i < NUM_VARS ensures Vars(m')[i] == Vars(m)[i] {
      assert m.rbp - 8 * (i + 1) >= m.rsp;
    }
  }

  /** From `m`, `n` steps lead to a trap if there is no result, else to `m'` holding it. */
  ghost predicate Yields(env: Env, code: seq<Instr>, m: State, n: nat, m': State, result: Option<Int64>, len: nat, words: nat)
  {
    if result.None? then Steps(env, code, Running(m), n) == DivideError(m.trace, m.calls)
    else
      && Steps(env, code, Running(m), n) == Running(m')
      && Computed(m, m', len, words) && m'.rdi == result.value
  }

  function Size(e: Expr): nat
  {
    if e.Bin? then 1 + Size(e.left) + Size(e.right) else 1
  }

  /** The dividend that cqto prepares is %rax itself, and idiv then divides as C does. */
  lemma DivideAfterCqto(m: State)
    requires m.rdx == if m.rax < 0 then -1 else 0
    ensures Arith(Div, m.rax, m.rcx).None? ==> Divide(m) == DivideError(m.trace, m.calls)
    ensures Arith(Div, m.rax, m.rcx).Some? ==>
      var c := Divide(m);
      c.Running? && c.state == m.(pc := m.pc + 1, rax := Arith(Div, m.rax, m.rcx).value, rdx := c.state.rdx)
  {
    assert m.rdx * TWO64 + m.rax % TWO64 == m.rax;
    if m.rcx != 0 && !(m.rax == -TWO63 && m.rcx == -1) {
      QuotientFits(m.rax, m.rcx);
    } else if m.rcx == -1 {
      assert TruncDiv(-TWO63, -1) == TWO63;
    }
  }

  /** The operation on %rdi and %rcx. */
  lemma RunOperate(env: Env, code: seq<Instr>, op: ArithOp, m: State) returns (n: nat, m': State)
    requires At(code, m.pc, Operate(op))
    ensures Yields(env, code, m, n, m', Arith(op, m.rdi, m.rcx), |Operate(op)|, 0)
  {
    if op == Div {
      n, m' := RunDivide(env, code, m);
    } else {
      hide Steps;
      AtFirst(code, m.pc, Operate(op), 0);
      OneStep(env, code, m, Operate(op)[0]);
      n, m' := 1, Exec(env, code, m, Operate(op)[0]).state;
    }
  }

  lemma RunDivide(env: Env, code: seq<Instr>, m: State) returns (n: nat, m': State)
    requires At(code, m.pc, Operate(Div))
    ensures Yields(env, code, m, n, m', Arith(Div, m.rdi, m.rcx), |Operate(Div)|, 0)
  {
    hide Steps, TruncDiv;
    AtFirst(code, m.pc, Operate(Div), 0);
    AtFirst(code, m.pc, Operate(Div), 1);
    AtFirst(code, m.pc, Operate(Div), 2);
    AtFirst(code, m.pc, Operate(Div), 3);
    OneStep(env, code, m, MovRdiRax);
    var m1 := m.(pc := m.pc + 1, rax := m.rdi);
    OneStep(env, code, m1, Cqto);
    var m2 := m1.(pc := m.pc + 2, rdx := if m1.rax < 0 then -1 else 0);
    Chain(env, code, Running(m), 1, Running(m1), 1, Running(m2));
    OneStep(env, code, m2, IdivRcx);
    var m2' := m2.(flags := env.arithmeticFlags(m2));
    DivideAfterCqto(m2');
    var c3 := Divide(m2');
    Chain(env, code, Running(m), 2, Running(m2), 1, c3);
    n, m' := 3, m;
    if c3.Running? {
      OneStep(env, code, c3.state, MovRaxRdi);
      m' := c3.state.(pc := m.pc + 4, rdi := c3.state.rax);
      Chain(env, code, Running(m), 3, c3, 1, Running(m'));
      n := 4;
    }
  }

  /** push %rdi; pop %rcx; pop %rdi. */
  lemma RunPops(env: Env, code: seq<Instr>, m: State) returns (m': State)
    requires At(code, m.pc, [PushRdi, PopRcx, PopRdi])
    ensures Steps(env, code, Running(m), 3) == Running(m')
    ensures m'.pc == m.pc + 3 && m'.rsp == m.rsp + 8 && m'.rbp == m.rbp && m'.trace == m.trace && m'.calls == m.calls
    ensures m'.rcx == m.rdi && m'.rdi == Load(m.mem, m.rsp)
    ensures SameOutside(m.mem, m'.mem, m.rsp, 1)
  {
    var piece := [PushRdi, PopRcx, PopRdi];
    AtFirst(code, m.pc, piece, 0);
    AtFirst(code, m.pc, piece, 1);
    AtFirst(code, m.pc, piece, 2);
    var m1 := m.(pc := m.pc + 1, rsp := m.rsp - 8, mem := m.mem[m.rsp - 8 := m.rdi]);
    OneStep(env, code, m, PushRdi);
    var m2 := m1.(pc := m.pc + 2, rsp := m.rsp, rcx := m.rdi);
    OneStep(env, code, m1, PopRcx);
    Chain(env, code, Running(m), 1, Running(m1), 1, Running(m2));
    m' := m2.(pc := m.pc + 3, rsp := m.rsp + 8, rdi := Load(m2.mem, m.rsp));
    OneStep(env, code, m2, PopRdi);
    Chain(env, code, Running(m), 2, Running(m2), 1, Running(m'));
  }

  /** The right operand's code with the left one pushed around it. */
  lemma {:induction false} RunRight(env: Env, code: seq<Instr>, r: Expr, m: State) returns (n: nat, m': State)
    requires At(code, m.pc, [PushRdi] + (EmitExpr(r) + [PushRdi, PopRcx, PopRdi])) && Framed(m)
    ensures
      var b := Eval(r, Vars(m));
      if b.None? then Yields(env, code, m, n, m', None, 0, 0)
      else
        && Yields(env, code, m, n, m', Some(m.rdi), |EmitExpr(r)| + 4, Max(1 + Depth(r), 2))
        && m'.rcx == b.value
    decreases Size(r), 1
  {
    hide Exec, At, Steps;
    var rc, tail := EmitExpr(r), [PushRdi, PopRcx, PopRdi];
    AtConcat(code, m.pc, [PushRdi], rc + tail);
    PushStep(env, code, m);
    var m1 := Pushed(m);
    PushKeepsVars(m);
    AtConcat(code, m1.pc, rc, tail);
    var k, m2 := RunExpr(env, code, r, m1);
    m' := m;
    if Eval(r, Vars(m)).None? {
      Chain(env, code, Running(m), 1, Running(m1), k, DivideError(m.trace, m.calls));
      n := 1 + k;
    } else {
      Chain(env, code, Running(m), 1, Running(m1), k, Running(m2));
      m' := RunPops(env, code, m2);
      Chain(env, code, Running(m), 1 + k, Running(m2), 3, Running(m'));
      n := 1 + k + 3;
      RightMemory(m, m1, m2, m', Depth(r));
    }
  }

  /** Both operands in place, or the trap of the first one that traps. */
  lemma {:induction false} RunOperands(env: Env, code: seq<Instr>, l: Expr, r: Expr, m: State) returns (n: nat, m': State)
    requires At(code, m.pc, EmitOperands(EmitExpr(l), EmitExpr(r))) && Framed(m)
    ensures
      var a, b := Eval(l, Vars(m)), Eval(r, Vars(m));
      if a.None? || b.None? then Yields(env, code, m, n, m', None, 0, 0)
      else
        var words := Max(Depth(l), Max(1 + Depth(r), 2));
        && Yields(env, code, m, n, m', a, |EmitOperands(EmitExpr(l), EmitExpr(r))|, words)
        && m'.rcx == b.value
    decreases Size(l) + Size(r), 2
  {
    hide Exec, At, Steps;
    var lc, rest := EmitExpr(l), [PushRdi] + (EmitExpr(r) + [PushRdi, PopRcx, PopRdi]);
    AtConcat(code, m.pc, lc, rest);
    var m1;
    n, m1 := RunExpr(env, code, l, m);
    m' := m;
    if Eval(l, Vars(m)).Some? {
      ComputedKeepsVars(m, m1, |lc|, Depth(l));
      var k;
      k, m' := RunRight(env, code, r, m1);
      Chain(env, code, Running(m), n, Running(m1), k, Steps(env, code, Running(m1), k));
      n := n + k;
      if Eval(r, Vars(m)).Some? {
        SameOutsideJoin(m.mem, m1.mem, m'.mem, m.rsp, Depth(l), Max(1 + Depth(r), 2));
      }
    }
  }

  lemma SameOutsideJoin(a: Memory, b: Memory, c: Memory, top: int, i: nat, j: nat)
    requires SameOutside(a, b, top, i) && SameOutside(b, c, top, j)
    ensures SameOutside(a, c, top, Max(i, j))
  {
    forall p | p >= top || p < top - 8 * Max(i, j) ensures Load(c, p) == Load(a, p) {
      assert Load(b, p) == Load(a, p);
    }
  }

  lemma PushKeepsVars(m: State)
    requires Framed(m)
    ensures Vars(Pushed(m)) == Vars(m) && Framed(Pushed(m))
  {
    var p := Pushed(m);
    forall i | 0 <= i < NUM_VARS ensures Vars(p)[i] == Vars(m)[i] {
      assert m.rbp - 8 * (i + 1) != m.rsp - 8;
    }
  }

  lemma RightMemory(m: State, m1: State, m2: State, m3: State, dr: nat)
    requires m1.rsp == m.rsp - 8 && m1.mem == m.mem[m.rsp - 8 := m.rdi]
    requires m2.rsp == m1.rsp && SameOutside(m1.mem, m2.mem, m1.rsp, dr)
    requires SameOutside(m2.mem, m3.mem, m2.rsp, 1)
    ensures Load(m2.mem, m2.rsp) == m.rdi
    ensures SameOutside(m.mem, m3.mem, m.rsp, Max(1 + dr, 2))
  {
    forall a | a >= m.rsp || a < m.rsp - 8 * Max(1 + dr, 2) ensures Load(m3.mem, a) == Load(m.mem, a) {
      assert Load(m3.mem, a) == Load(m2.mem, a);
      assert Load(m2.mem, a) == Load(m1.mem, a);
    }
    assert Load(m2.mem, m2.rsp) == Load(m1.mem, m1.rsp);
  }

  lemma ShiftOperand(v: Int64)
    requires ShiftsInstead(v)
    ensures 1 <= Log2(v) < 63 && v == Pow2(Log2(v))
  {
    PowerOfTwoTest(v);
    var k := Log2(v);
    if k >= 63 {
      Pow2Monotone(63, k);
      Pow2Of63();
      assert false;
    }
  }

  lemma Pow2Of63()
    ensures Pow2(63) == TWO63
  {
    assert Pow2(9) == 512;
    Pow2Add(9, 9);
    Pow2Add(18, 9);
    Pow2Add(27, 9);
    Pow2Add(36, 9);
    Pow2Add(45, 9);
    Pow2Add(54, 9);
  }

  lemma {:induction false} Pow2Add(i: nat, j: nat)
    ensures Pow2(i + j) == Pow2(i) * Pow2(j)
    decreases j
  {
    if j > 0 {
      Pow2Add(i, j - 1);
    }
  }

  lemma {:induction false} Pow2Monotone(i: nat, j: nat)
    requires i <= j
    ensures Pow2(i) <= Pow2(j)
    decreases j - i
  {
    if i < j {
      Pow2Monotone(i + 1, j);
    }
  }

  lemma RunLeaf(env: Env, code: seq<Instr>, e: Expr, m: State) returns (n: nat, m': State)
    requires !e.Bin? && At(code, m.pc, EmitExpr(e))
    ensures Yields(env, code, m, n, m', Eval(e, Vars(m)), |EmitExpr(e)|, Depth(e))
  {
    var i := EmitExpr(e)[0];
    AtFirst(code, m.pc, EmitExpr(e), 0);
    OneStep(env, code, m, i);
    n, m' := 1, Exec(env, code, m, i).state;
  }

  /** Expression code: the value in %rdi (or the trap), %rsp restored, nothing at or above
      %rsp changed, at most Depth(e) words used below it. */
  lemma {:induction false} RunExpr(env: Env, code: seq<Instr>, e: Expr, m: State) returns (n: nat, m': State)
    requires At(code, m.pc, EmitExpr(e)) && Framed(m)
    ensures Yields(env, code, m, n, m', Eval(e, Vars(m)), |EmitExpr(e)|, Depth(e))
    decreases Size(e), 0
  {
    hide Exec, At, Steps;
    match e
    case Num(v) => n, m' := RunLeaf(env, code, e, m);
    case Var(x) => n, m' := RunLeaf(env, code, e, m);
    case Bin(op, l, r) =>
      if op == Mul && r.Num? && ShiftsInstead(r.value) {
        n, m' := RunShift(env, code, l, r.value, m);
      } else {
        var operands := EmitOperands(EmitExpr(l), EmitExpr(r));
        AtConcat(code, m.pc, operands, Operate(op));
        var m1, k;
        n, m1 := RunOperands(env, code, l, r, m);
        m' := m1;
        if Eval(l, Vars(m)).Some? && Eval(r, Vars(m)).Some? {
          k, m' := RunOperate(env, code, op, m1);
          Chain(env, code, Running(m), n, Running(m1), k, Steps(env, code, Running(m1), k));
          n := n + k;
        }
      }
  }

  /** Multiplication by a power of two, done by a shift. */
  lemma {:induction false} RunShift(env: Env, code: seq<Instr>, l: Expr, v: Int64, m: State) returns (n: nat, m': State)
    requires ShiftsInstead(v)
    requires At(code, m.pc, EmitExpr(l) + [ShlRdi(Log2(v))]) && Framed(m)
    ensures Yields(env, code, m, n, m', Eval(Bin(Mul, l, Num(v)), Vars(m)), |EmitExpr(l)| + 1, Depth(l))
    decreases Size(l), 1
  {
    hide Exec, At, Steps;
    AtConcat(code, m.pc, EmitExpr(l), [ShlRdi(Log2(v))]);
    var m1;
    n, m1 := RunExpr(env, code, l, m);
    m' := m1;
    assert Eval(Num(v), Vars(m)) == Some(v);
    if Eval(l, Vars(m)).Some? {
      m' := ShiftStep(env, code, v, m1);
      Chain(env, code, Running(m), n, Running(m1), 1, Running(m'));
      n := n + 1;
    }
  }

  lemma ShiftStep(env: Env, code: seq<Instr>, v: Int64, m: State) returns (m': State)
    requires ShiftsInstead(v) && At(code, m.pc, [ShlRdi(Log2(v))])
    ensures Steps(env, code, Running(m), 1) == Running(m')
    ensures Computed(m, m', 1, 0) && m'.rdi == Wrap(m.rdi * v)
  {
    hide BitAnd, Log2, Pow2, ShiftLeft, Wrap;
    AtFirst(code, m.pc, [ShlRdi(Log2(v))], 0);
    OneStep(env, code, m, ShlRdi(Log2(v)));
    ShiftOperand(v);
    ShiftIsMultiplication(m.rdi, Log2(v));
    m' := m.(pc := m.pc + 1, rdi := ShiftLeft(m.rdi, Log2(v)), flags := env.arithmeticFlags(m));
  }

  /** A comparison leaves the two operands' order in the flags. */
  lemma RunCond(env: Env, code: seq<Instr>, c: Cond, m: State) returns (n: nat, m': State)
    requires At(code, m.pc, EmitCond(c)) && Framed(m)
    ensures
      if EvalCond(c, Vars(m)).None? then Steps(env, code, Running(m), n) == DivideError(m.trace, m.calls)
      else
        && Steps(env, code, Running(m), n) == Running(m')
        && Computed(m, m', |EmitCond(c)|, Max(Depth(c.left), Max(1 + Depth(c.right), 2)))
        && (c.op.Missing? || m'.flags == CompareFlags(Eval(c.left, Vars(m)).value, Eval(c.right, Vars(m)).value))
  {
    hide At, Steps;
    var operands := EmitOperands(EmitExpr(c.left), EmitExpr(c.right));
    AtConcat(code, m.pc, operands, EmitCompare(c.op));
    var m1;
    n, m1 := RunOperands(env, code, c.left, c.right, m);
    m' := m1;
    if EvalCond(c, Vars(m)).Some? && !c.op.Missing? {
      AtFirst(code, m1.pc, [CmpRcxRdi], 0);
      OneStep(env, code, m1, CmpRcxRdi);
      m' := m1.(pc := m1.pc + 1, flags := CompareFlags(m1.rdi, m1.rcx));
      Chain(env, code, Running(m), n, Running(m1), 1, Running(m'));
      n := n + 1;
    }
  }
}
