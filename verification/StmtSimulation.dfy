/** Statement code does what the statement does: same output, same variables, same trap,
    and it keeps running as long as the statement does. */
module StmtSimulation {
  import opened Words
  import opened TeenyBasic
  import opened Machine
  import opened CodeGen
  import opened ExprSimulation

  /** Statements run with %rsp just below the 26 variables. */
  predicate AtRest(m: State)
  {
    m.rsp == m.rbp - 8 * NUM_VARS
  }

  /** Every call made since `before` was made with %rsp == rsp. */
  ghost predicate CallsAt(before: seq<int>, after: seq<int>, rsp: int)
  {
    before <= after && forall i :: |before| <= i < |after| ==> after[i] == rsp
  }

  /** Nothing at or above %rbp, where the caller's frame starts, is touched. */
  ghost predicate SameAbove(before: Memory, after: Memory, rbp: int)
  {
    forall a :: a >= rbp ==> Load(after, a) == Load(before, a)
  }

  ghost predicate SameFrame(m: State, m': State)
  {
    && m'.rsp == m.rsp && m'.rbp == m.rbp
    && CallsAt(m.calls, m'.calls, m.rsp) && SameAbove(m.mem, m'.mem, m.rbp)
  }

  /** `c` is where the machine should be when a statement started in `m` has produced `o`;
      `len` is the length of the statement's code. */
  ghost predicate Agrees(m: State, len: nat, o: Outcome, c: Conf)
  {
    match o
    case Done(s, t) =>
      && c.Running? && SameFrame(m, c.state) && c.state.pc == m.pc + len
      && Vars(c.state) == s && c.state.trace == m.trace + t
    case Trapped(t) => c.DivideError? && c.trace == m.trace + t && CallsAt(m.calls, c.calls, m.rsp)
    case Unfinished(t) =>
      c.Running? && SameFrame(m, c.state) && c.state.trace == m.trace + t
  }

  /** The machine gets to `c` in `n` steps, taking at least `fuel` when there is no result. */
  ghost predicate Simulates(env: Env, code: seq<Instr>, m: State, len: nat, o: Outcome, fuel: nat, n: nat, c: Conf)
  {
    && Steps(env, code, Running(m), n) == c
    && Agrees(m, len, o, c)
    && (o.Unfinished? ==> n >= fuel)
  }

  lemma SameFrameTrans(a: State, b: State, c: State)
    requires SameFrame(a, b) && SameFrame(b, c)
    ensures SameFrame(a, c)
  {
    forall p | p >= a.rbp ensures Load(c.mem, p) == Load(a.mem, p) {
      assert Load(b.mem, p) == Load(a.mem, p);
    }
  }

  lemma ComputedFrame(m: State, m': State, len: nat, words: nat)
    requires AtRest(m) && Computed(m, m', len, words)
    ensures SameFrame(m, m') && Vars(m') == Vars(m)
  {
    ComputedKeepsVars(m, m', len, words);
  }

  /** Work done before a statement, in the same frame and with the output so far, can be put
      in front of its simulation. */
  lemma Prefix(env: Env, code: seq<Instr>, m: State, k: nat, m1: State, t: seq<Int64>, len: nat, len1: nat,
               o: Outcome, fuel: nat, fuel1: nat, n: nat, c: Conf)
    requires Steps(env, code, Running(m), k) == Running(m1) && SameFrame(m, m1) && m1.trace == m.trace + t
    requires Simulates(env, code, m1, len1, o, fuel1, n, c)
    requires (o.Done? ==> m1.pc + len1 == m.pc + len) && fuel <= fuel1 + k
    ensures Simulates(env, code, m, len, After(t, o), fuel, k + n, c)
  {
    hide Exec;
    Chain(env, code, Running(m), k, Running(m1), n, c);
    if c.Running? {
      SameFrameTrans(m, m1, c.state);
    }
    assert o.Done? || o.Unfinished? ==> c.state.trace == m.trace + (t + o.trace);
    assert o.Trapped? ==> c.trace == m.trace + (t + o.trace);
  }

  lemma TrapSimulates(env: Env, code: seq<Instr>, m: State, len: nat, fuel: nat, n: nat)
    requires Steps(env, code, Running(m), n) == DivideError(m.trace, m.calls)
    ensures Simulates(env, code, m, len, Trapped([]), fuel, n, DivideError(m.trace, m.calls))
  {
    hide Exec;
    assert m.trace + [] == m.trace;
  }

  lemma NothingSimulates(env: Env, code: seq<Instr>, m: State, len: nat, fuel: nat, n: nat, m1: State)
    requires Steps(env, code, Running(m), n) == Running(m1)
    requires SameFrame(m, m1) && m1.trace == m.trace && Vars(m1) == Vars(m) && m1.pc == m.pc + len
    ensures Simulates(env, code, m, len, Done(Vars(m), []), fuel, n, Running(m1))
  {
    hide Exec;
    assert m.trace + [] == m.trace;
  }

  lemma NoFuelSimulates(env: Env, code: seq<Instr>, m: State, len: nat)
    ensures Simulates(env, code, m, len, Unfinished([]), 0, 0, Running(m))
  {
    hide Exec;
    assert m.trace + [] == m.trace;
  }

  lemma AfterNothing(o: Outcome)
    ensures After([], o) == o
  {
    assert [] + o.trace == o.trace;
  }

  // ----- PRINT and LET -----

  lemma PrintStep(env: Env, code: seq<Instr>, m: State) returns (m': State)
    requires At(code, m.pc, [CallPrintInt]) && AtRest(m)
    ensures Steps(env, code, Running(m), 1) == Running(m')
    ensures SameFrame(m, m') && Vars(m') == Vars(m) && m'.trace == m.trace + [m.rdi] && m'.pc == m.pc + 1
  {
    AtFirst(code, m.pc, [CallPrintInt], 0);
    OneStep(env, code, m, CallPrintInt);
    m' := PrintInt(env, m).state;
    forall a | a >= m.rsp ensures Load(m'.mem, a) == Load(m.mem, a) {
    }
    forall i | 0 <= i < NUM_VARS ensures Vars(m')[i] == Vars(m)[i] {
      assert m.rbp - 8 * (i + 1) >= m.rsp;
    }
  }

  lemma StoreStep(env: Env, code: seq<Instr>, x: VarName, m: State) returns (m': State)
    requires At(code, m.pc, [StoreRdi(Displacement(x))])
    ensures Steps(env, code, Running(m), 1) == Running(m')
    ensures SameFrame(m, m') && Vars(m') == Vars(m)[Index(x) := m.rdi] && m'.trace == m.trace && m'.pc == m.pc + 1
  {
    var i := StoreRdi(Displacement(x));
    AtFirst(code, m.pc, [i], 0);
    OneStep(env, code, m, i);
    m' := m.(pc := m.pc + 1, mem := m.mem[m.rbp - Displacement(x) := m.rdi]);
    forall j | 0 <= j < NUM_VARS ensures Vars(m')[j] == Vars(m)[Index(x) := m.rdi][j] {
    }
  }

  lemma SimulatePrint(env: Env, code: seq<Instr>, e: Expr, fuel: nat, m: State) returns (n: nat, c: Conf)
    requires At(code, m.pc, EmitExpr(e) + [CallPrintInt]) && AtRest(m)
    ensures Simulates(env, code, m, |EmitExpr(e)| + 1, Run(Print(e), Vars(m), fuel), fuel, n, c)
  {
    hide Exec, At, Steps;
    AtConcat(code, m.pc, EmitExpr(e), [CallPrintInt]);
    var m1;
    n, m1 := RunExpr(env, code, e, m);
    c := DivideError(m.trace, m.calls);
    if Eval(e, Vars(m)).Some? {
      ComputedFrame(m, m1, |EmitExpr(e)|, Depth(e));
      var m2 := PrintStep(env, code, m1);
      Chain(env, code, Running(m), n, Running(m1), 1, Running(m2));
      SameFrameTrans(m, m1, m2);
      n, c := n + 1, Running(m2);
    }
  }

  lemma SimulateLet(env: Env, code: seq<Instr>, x: VarName, e: Expr, fuel: nat, m: State) returns (n: nat, c: Conf)
    requires At(code, m.pc, EmitExpr(e) + [StoreRdi(Displacement(x))]) && AtRest(m)
    ensures Simulates(env, code, m, |EmitExpr(e)| + 1, Run(Let(x, e), Vars(m), fuel), fuel, n, c)
  {
    hide Exec, At, Steps;
    AtConcat(code, m.pc, EmitExpr(e), [StoreRdi(Displacement(x))]);
    var m1;
    n, m1 := RunExpr(env, code, e, m);
    c := DivideError(m.trace, m.calls);
    if Eval(e, Vars(m)).Some? {
      ComputedFrame(m, m1, |EmitExpr(e)|, Depth(e));
      var m2 := StoreStep(env, code, x, m1);
      Chain(env, code, Running(m), n, Running(m1), 1, Running(m2));
      SameFrameTrans(m, m1, m2);
      n, c := n + 1, Running(m2);
    }
  }

  // ----- Jumps -----

  lemma JumpStep(env: Env, code: seq<Instr>, m: State, l: Label, p: nat)
    requires At(code, m.pc, [Jmp(l)]) && LabelsResolve(code) && p < |code| && code[p] == Define(l)
    ensures Steps(env, code, Running(m), 1) == Running(m.(pc := p))
  {
    AtFirst(code, m.pc, [Jmp(l)], 0);
    OneStep(env, code, m, Jmp(l));
    DefinedAt(code, p, l);
    FindOnly(code, p, l);
  }

  lemma LabelStep(env: Env, code: seq<Instr>, m: State, l: Label)
    requires m.pc < |code| && code[m.pc] == Define(l)
    ensures Steps(env, code, Running(m), 1) == Running(m.(pc := m.pc + 1))
  {
    OneStep(env, code, m, Define(l));
  }

  lemma ConditionalStep(env: Env, code: seq<Instr>, m: State, cc: Condition, l: Label, p: nat)
    requires m.pc < |code| && code[m.pc] == Jcc(cc, l)
    requires LabelsResolve(code) && p < |code| && code[p] == Define(l)
    ensures Steps(env, code, Running(m), 1) == Running(m.(pc := if Holds(cc, m.flags) then p else m.pc + 1))
  {
    OneStep(env, code, m, Jcc(cc, l));
    DefinedAt(code, p, l);
    FindOnly(code, p, l);
  }

  /** The two conditional jumps send control to one of their labels; without them it falls
      through to the first. */
  lemma BranchSteps(env: Env, code: seq<Instr>, op: CmpOp, yes: Label, no: Label, py: nat, pn: nat, a: Int64, b: Int64, m: State)
    returns (n: nat)
    requires At(code, m.pc, EmitBranch(op, yes, no)) && LabelsResolve(code)
    requires py < |code| && code[py] == Define(yes) && pn < |code| && code[pn] == Define(no)
    requires if op.Missing? then py == m.pc else m.flags == CompareFlags(a, b)
    ensures Steps(env, code, Running(m), n) == Running(m.(pc := if Compare(op, a, b) then py else pn))
  {
    if op.Missing? {
      n := 0;
      return;
    }
    hide Exec, At, Steps;
    var branch := EmitBranch(op, yes, no);
    ConditionsCompare(a, b);
    AtFirst(code, m.pc, branch, 0);
    AtFirst(code, m.pc, branch, 1);
    ConditionalStep(env, code, m, branch[0].cond, yes, py);
    n := 1;
    if !Compare(op, a, b) {
      var m1 := m.(pc := m.pc + 1);
      ConditionalStep(env, code, m1, branch[1].cond, no, pn);
      Chain(env, code, Running(m), 1, Running(m1), 1, Running(m.(pc := pn)));
      n := 2;
    }
  }

  /** Condition and branch together: to the label of the condition's value, or the trap. */
  lemma RunBranch(env: Env, code: seq<Instr>, c: Cond, yes: Label, no: Label, py: nat, pn: nat, m: State)
    returns (n: nat, m': State)
    requires At(code, m.pc, EmitCond(c)) && At(code, m.pc + |EmitCond(c)|, EmitBranch(c.op, yes, no))
    requires LabelsResolve(code) && AtRest(m)
    requires py < |code| && code[py] == Define(yes) && pn < |code| && code[pn] == Define(no)
    requires py == m.pc + |EmitCond(c)| + |EmitBranch(c.op, yes, no)|
    ensures
      var v := EvalCond(c, Vars(m));
      if v.None? then Steps(env, code, Running(m), n) == DivideError(m.trace, m.calls)
      else
        && Steps(env, code, Running(m), n) == Running(m')
        && SameFrame(m, m') && Vars(m') == Vars(m) && m'.trace == m.trace
        && m'.pc == (if v.value then py else pn) + 1
  {
    hide Exec, At, Steps;
    var m1;
    n, m1 := RunCond(env, code, c, m);
    m' := m1;
    if EvalCond(c, Vars(m)).Some? {
      ComputedFrame(m, m1, |EmitCond(c)|, Max(Depth(c.left), Max(1 + Depth(c.right), 2)));
      var a, b := Eval(c.left, Vars(m)).value, Eval(c.right, Vars(m)).value;
      var k := BranchSteps(env, code, c.op, yes, no, py, pn, a, b, m1);
      var m2 := m1.(pc := if Compare(c.op, a, b) then py else pn);
      Chain(env, code, Running(m), n, Running(m1), k, Running(m2));
      LabelStep(env, code, m2, if Compare(c.op, a, b) then yes else no);
      m' := m2.(pc := m2.pc + 1);
      Chain(env, code, Running(m), n + k, Running(m2), 1, Running(m'));
      n := n + k + 1;
    }
  }

  // ----- IF and WHILE -----

  /** Positions of the pieces of an IF's code. */
  lemma IfLayout(code: seq<Instr>, pc: nat, c: Cond, n: int, no: Label, thn: seq<Instr>, els: seq<Instr>)
    returns (pThn: nat, pJmp: nat, pElse: nat, pEnd: nat)
    requires At(code, pc, IfCode(c, n, no, thn, els))
    ensures At(code, pc, EmitCond(c)) && At(code, pc + |EmitCond(c)|, EmitBranch(c.op, IfLabel(n), no))
    ensures pThn == pc + |EmitCond(c)| + |EmitBranch(c.op, IfLabel(n), no)|
    ensures pThn < |code| && code[pThn] == Define(IfLabel(n)) && At(code, pThn + 1, thn)
    ensures pJmp == pThn + 1 + |thn| && At(code, pJmp, [Jmp(EndIfLabel(n))])
    ensures pElse == pJmp + 1 && pElse < |code| && code[pElse] == Define(ElseLabel(n)) && At(code, pElse + 1, els)
    ensures pEnd == pElse + 1 + |els| && pEnd < |code| && code[pEnd] == Define(EndIfLabel(n))
    ensures pEnd + 1 == pc + |IfCode(c, n, no, thn, els)|
  {
    hide EmitCond, At;
    var tail := [Jmp(EndIfLabel(n)), Define(ElseLabel(n))] + (els + [Define(EndIfLabel(n))]);
    var start := [Define(IfLabel(n))];
    var branch := EmitBranch(c.op, IfLabel(n), no);
    var p1 := pc + |EmitCond(c)|;
    AtConcat(code, pc, EmitCond(c), branch + (start + (thn + tail)));
    AtConcat(code, p1, branch, start + (thn + tail));
    pThn := p1 + |branch|;
    AtConcat(code, pThn, start, thn + tail);
    AtFirst(code, pThn, start, 0);
    AtConcat(code, pThn + 1, thn, tail);
    pJmp := pThn + 1 + |thn|;
    pElse, pEnd := IfTail(code, pJmp, n, els);
  }

  lemma IfTail(code: seq<Instr>, pc: nat, n: int, els: seq<Instr>) returns (pElse: nat, pEnd: nat)
    requires At(code, pc, [Jmp(EndIfLabel(n)), Define(ElseLabel(n))] + (els + [Define(EndIfLabel(n))]))
    ensures At(code, pc, [Jmp(EndIfLabel(n))])
    ensures pElse == pc + 1 && pElse < |code| && code[pElse] == Define(ElseLabel(n)) && At(code, pElse + 1, els)
    ensures pEnd == pElse + 1 + |els| && pEnd < |code| && code[pEnd] == Define(EndIfLabel(n))
  {
    hide At;
    var mid, end := [Jmp(EndIfLabel(n)), Define(ElseLabel(n))], [Define(EndIfLabel(n))];
    AtConcat(code, pc, mid, els + end);
    assert mid == [Jmp(EndIfLabel(n))] + [Define(ElseLabel(n))];
    AtConcat(code, pc, [Jmp(EndIfLabel(n))], [Define(ElseLabel(n))]);
    pElse := pc + 1;
    AtFirst(code, pElse, [Define(ElseLabel(n))], 0);
    AtConcat(code, pElse + 1, els, end);
    pEnd := pElse + 1 + |els|;
    AtFirst(code, pEnd, end, 0);
  }

  lemma WhileLayout(code: seq<Instr>, pc: nat, c: Cond, n: int, body: seq<Instr>)
    returns (pBody: nat, pJmp: nat, pEnd: nat)
    requires At(code, pc, WhileCode(c, n, body))
    ensures pc < |code| && code[pc] == Define(StartWhileLabel(n))
    ensures At(code, pc + 1, EmitCond(c))
    ensures At(code, pc + 1 + |EmitCond(c)|, EmitBranch(c.op, WhileLabel(n), WhileEndLabel(n)))
    ensures pBody == pc + 1 + |EmitCond(c)| + |EmitBranch(c.op, WhileLabel(n), WhileEndLabel(n))|
    ensures pBody < |code| && code[pBody] == Define(WhileLabel(n)) && At(code, pBody + 1, body)
    ensures pJmp == pBody + 1 + |body| && At(code, pJmp, [Jmp(StartWhileLabel(n))])
    ensures pEnd == pJmp + 1 && pEnd < |code| && code[pEnd] == Define(WhileEndLabel(n))
    ensures pEnd + 1 == pc + |WhileCode(c, n, body)|
  {
    hide EmitCond, At;
    var start := [Define(StartWhileLabel(n))];
    var top := [Define(WhileLabel(n))];
    var end := [Jmp(StartWhileLabel(n)), Define(WhileEndLabel(n))];
    var branch := EmitBranch(c.op, WhileLabel(n), WhileEndLabel(n));
    AtConcat(code, pc, start, EmitCond(c) + (branch + (top + (body + end))));
    AtFirst(code, pc, start, 0);
    AtConcat(code, pc + 1, EmitCond(c), branch + (top + (body + end)));
    var p1 := pc + 1 + |EmitCond(c)|;
    AtConcat(code, p1, branch, top + (body + end));
    pBody := p1 + |branch|;
    AtConcat(code, pBody, top, body + end);
    AtFirst(code, pBody, top, 0);
    AtConcat(code, pBody + 1, body, end);
    pJmp := pBody + 1 + |body|;
    assert end == [Jmp(StartWhileLabel(n))] + [Define(WhileEndLabel(n))];
    AtConcat(code, pJmp, [Jmp(StartWhileLabel(n))], [Define(WhileEndLabel(n))]);
    pEnd := pJmp + 1;
    AtFirst(code, pEnd, [Define(WhileEndLabel(n))], 0);
  }

  /** A finished piece can be followed by steps that only move the program counter. */
  lemma Suffix(env: Env, code: seq<Instr>, m: State, len: nat, len': nat, o: Outcome, fuel: nat, n: nat, c: Conf, k: nat)
    requires Simulates(env, code, m, len, o, fuel, n, c)
    requires o.Done? ==> Steps(env, code, c, k) == Running(c.state.(pc := m.pc + len'))
    ensures o.Done? ==> Simulates(env, code, m, len', o, fuel, n + k, Running(c.state.(pc := m.pc + len')))
    ensures !o.Done? ==> Simulates(env, code, m, len', o, fuel, n, c)
  {
    hide Exec;
    if o.Done? {
      var m' := c.state.(pc := m.pc + len');
      Chain(env, code, Running(m), n, c, k, Running(m'));
      assert Vars(m') == Vars(c.state);
    }
  }

  /** jmp to a label, then past it. */
  lemma JumpPast(env: Env, code: seq<Instr>, m: State, l: Label, p: nat)
    requires At(code, m.pc, [Jmp(l)]) && LabelsResolve(code) && p < |code| && code[p] == Define(l)
    ensures Steps(env, code, Running(m), 2) == Running(m.(pc := p + 1))
  {
    hide Exec;
    JumpStep(env, code, m, l, p);
    var m1 := m.(pc := p);
    LabelStep(env, code, m1, l);
    Chain(env, code, Running(m), 1, Running(m1), 1, Running(m.(pc := p + 1)));
  }

  /** A branch of an IF: entered after `k` steps, left by `j` steps to the end of the IF. */
  lemma FinishBranch(env: Env, code: seq<Instr>, m: State, len: nat, k: nat, m1: State, len1: nat,
                     o: Outcome, fuel: nat, n: nat, c: Conf, j: nat)
    returns (n': nat, c': Conf)
    requires Steps(env, code, Running(m), k) == Running(m1) && SameFrame(m, m1) && m1.trace == m.trace
    requires Simulates(env, code, m1, len1, o, fuel, n, c) && m1.pc <= m.pc + len
    requires o.Done? ==> Steps(env, code, c, j) == Running(c.state.(pc := m.pc + len))
    ensures Simulates(env, code, m, len, o, fuel, n', c')
  {
    hide Exec, Steps, SameAbove, CallsAt, Vars;
    var len2 := m.pc + len - m1.pc;
    Suffix(env, code, m1, len1, len2, o, fuel, n, c, j);
    n', c' := n, c;
    if o.Done? {
      n', c' := n + j, Running(c.state.(pc := m.pc + len));
    }
    assert m1.trace == m.trace + [];
    Prefix(env, code, m, k, m1, [], len, len2, o, fuel, fuel, n', c');
    AfterNothing(o);
    n' := k + n';
  }

  lemma {:induction false} SimulateIf(env: Env, code: seq<Instr>, st: Stmt, ifs: int, whiles: int, fuel: nat, m: State)
    returns (n: nat, c: Conf)
    requires st.If? && LabelsResolve(code) && AtRest(m)
    requires At(code, m.pc, Emit(st, ifs, whiles).code)
    ensures Simulates(env, code, m, |Emit(st, ifs, whiles).code|, Run(st, Vars(m), fuel), fuel, n, c)
    decreases fuel, st, 0
  {
    hide Exec, Steps, EmitCond, EmitBranch, IfCode, SameAbove, CallsAt, Vars, At;
    var If(cond, thn, els) := st;
    var i := ifs + 1;
    var t := Emit(thn, i, whiles);
    var f := if els.Some? then Emit(els.value, t.ifs, t.whiles) else Emitted([], t.ifs, t.whiles);
    var no := if els.Some? then ElseLabel(i) else EndIfLabel(i);
    var len := |IfCode(cond, i, no, t.code, f.code)|;
    var pThn, pJmp, pElse, pEnd := IfLayout(code, m.pc, cond, i, no, t.code, f.code);
    var pNo := if els.Some? then pElse else pEnd;
    var k, m1 := RunBranch(env, code, cond, IfLabel(i), no, pThn, pNo, m);
    var v := EvalCond(cond, Vars(m));
    n, c := k, DivideError(m.trace, m.calls);
    if v.None? {
      TrapSimulates(env, code, m, len, fuel, n);
    } else {
      if v.value {
        var o := Run(thn, Vars(m1), fuel);
        n, c := Simulate(env, code, thn, i, whiles, fuel, m1);
        if o.Done? {
          JumpPast(env, code, c.state, EndIfLabel(i), pEnd);
        }
        n, c := FinishBranch(env, code, m, len, k, m1, |t.code|, o, fuel, n, c, 2);
      } else if els.Some? {
        var o := Run(els.value, Vars(m1), fuel);
        n, c := Simulate(env, code, els.value, t.ifs, t.whiles, fuel, m1);
        if o.Done? {
          LabelStep(env, code, c.state, EndIfLabel(i));
        }
        n, c := FinishBranch(env, code, m, len, k, m1, |f.code|, o, fuel, n, c, 1);
      } else {
        NothingSimulates(env, code, m, len, fuel, n, m1);
        c := Running(m1);
      }
    }
  }

  lemma {:induction false} SimulateWhile(env: Env, code: seq<Instr>, st: Stmt, ifs: int, whiles: int, fuel: nat, m: State)
    returns (n: nat, c: Conf)
    requires st.While? && LabelsResolve(code) && AtRest(m)
    requires At(code, m.pc, Emit(st, ifs, whiles).code)
    ensures Simulates(env, code, m, |Emit(st, ifs, whiles).code|, Run(st, Vars(m), fuel), fuel, n, c)
    decreases fuel, st, 0
  {
    hide Exec, Steps, EmitCond, EmitBranch, WhileCode, SameAbove, CallsAt, At;
    n, c := 0, Running(m);
    if fuel == 0 {
      NoFuelSimulates(env, code, m, |Emit(st, ifs, whiles).code|);
    } else {
      var While(cond, body) := st;
      var i := whiles + 1;
      var b := Emit(body, ifs, i);
      var len := |WhileCode(cond, i, b.code)|;
      var pBody, pJmp, pEnd := WhileLayout(code, m.pc, cond, i, b.code);
      LabelStep(env, code, m, StartWhileLabel(i));
      var m0 := m.(pc := m.pc + 1);
      assert Vars(m0) == Vars(m);
      var k, m1 := RunBranch(env, code, cond, WhileLabel(i), WhileEndLabel(i), pBody, pEnd, m0);
      Chain(env, code, Running(m), 1, Running(m0), k, Steps(env, code, Running(m0), k));
      var v := EvalCond(cond, Vars(m));
      n, c := 1 + k, DivideError(m.trace, m.calls);
      if v.None? {
        TrapSimulates(env, code, m, len, fuel, n);
      } else if !v.value {
        NothingSimulates(env, code, m, len, fuel, n, m1);
        c := Running(m1);
      } else {
        n, c := SimulateIteration(env, code, st, ifs, whiles, fuel, m, 1 + k, m1, pBody, pJmp);
      }
    }
  }

  /** From the top of the body: once through it, and back to the loop with less fuel. */
  lemma {:induction false} SimulateIteration(env: Env, code: seq<Instr>, st: Stmt, ifs: int, whiles: int, fuel: nat,
                                             m: State, k: nat, m1: State, pBody: nat, pJmp: nat)
    returns (n: nat, c: Conf)
    requires st.While? && LabelsResolve(code) && AtRest(m) && fuel > 0 && k > 0
    requires At(code, m.pc, Emit(st, ifs, whiles).code)
    requires m.pc < |code| && code[m.pc] == Define(StartWhileLabel(whiles + 1))
    requires Steps(env, code, Running(m), k) == Running(m1)
    requires SameFrame(m, m1) && Vars(m1) == Vars(m) && m1.trace == m.trace && m1.pc == pBody + 1
    requires At(code, m1.pc, Emit(st.body, ifs, whiles + 1).code)
    requires pJmp == m1.pc + |Emit(st.body, ifs, whiles + 1).code| && At(code, pJmp, [Jmp(StartWhileLabel(whiles + 1))])
    requires EvalCond(st.cond, Vars(m)) == Some(true)
    ensures Simulates(env, code, m, |Emit(st, ifs, whiles).code|, Run(st, Vars(m), fuel), fuel, n, c)
    decreases fuel, st.body, 2
  {
    hide Exec, Steps, EmitCond, EmitBranch, WhileCode, SameAbove, CallsAt, At;
    var i := whiles + 1;
    var b := Emit(st.body, ifs, i);
    var len := |Emit(st, ifs, whiles).code|;
    var o := Run(st.body, Vars(m1), fuel);
    var j, c1 := Simulate(env, code, st.body, ifs, i, fuel, m1);
    n, c := j, c1;
    assert m1.trace == m.trace + [];
    if o.Done? {
      var m2 := c1.state;
      JumpStep(env, code, m2, StartWhileLabel(i), m.pc);
      var m3 := m2.(pc := m.pc);
      assert Vars(m3) == Vars(m2);
      Chain(env, code, Running(m1), j, Running(m2), 1, Running(m3));
      Chain(env, code, Running(m), k, Running(m1), j + 1, Running(m3));
      SameFrameTrans(m, m1, m2);
      assert SameFrame(m, m3);
      n, c := SimulateWhile(env, code, st, ifs, whiles, fuel - 1, m3);
      Prefix(env, code, m, k + (j + 1), m3, o.trace, len, len, Run(st, o.store, fuel - 1), fuel, fuel - 1, n, c);
      n := k + (j + 1) + n;
    } else {
      AfterNothing(o);
      Prefix(env, code, m, k, m1, [], len, |b.code|, o, fuel, fuel, n, c);
      n := k + n;
    }
  }

  /** Every statement's code simulates the statement, under any nesting and for every
      amount of fuel. */
  lemma {:induction false} Simulate(env: Env, code: seq<Instr>, st: Stmt, ifs: int, whiles: int, fuel: nat, m: State)
    returns (n: nat, c: Conf)
    requires LabelsResolve(code) && AtRest(m)
    requires At(code, m.pc, Emit(st, ifs, whiles).code)
    ensures Simulates(env, code, m, |Emit(st, ifs, whiles).code|, Run(st, Vars(m), fuel), fuel, n, c)
    decreases fuel, st, 1
  {
    hide Exec, At, Steps;
    match st
    case Print(e) => n, c := SimulatePrint(env, code, e, fuel, m);
    case Let(x, e) => n, c := SimulateLet(env, code, x, e, fuel, m);
    case If(_, _, _) => n, c := SimulateIf(env, code, st, ifs, whiles, fuel, m);
    case While(_, _) => n, c := SimulateWhile(env, code, st, ifs, whiles, fuel, m);
    case Block(stmts) => n, c := SimulateAll(env, code, stmts, ifs, whiles, fuel, m);
  }

  lemma {:induction false} SimulateAll(env: Env, code: seq<Instr>, stmts: seq<Stmt>, ifs: int, whiles: int, fuel: nat, m: State)
    returns (n: nat, c: Conf)
    requires LabelsResolve(code) && AtRest(m)
    requires At(code, m.pc, EmitAll(stmts, ifs, whiles).code)
    ensures Simulates(env, code, m, |EmitAll(stmts, ifs, whiles).code|, RunAll(stmts, Vars(m), fuel), fuel, n, c)
    decreases fuel, stmts, 0
  {
    hide Exec, At;
    n, c := 0, Running(m);
    if stmts != [] {
      var first := Emit(stmts[0], ifs, whiles);
      var rest := EmitAll(stmts[1..], first.ifs, first.whiles);
      AtConcat(code, m.pc, first.code, rest.code);
      var o := Run(stmts[0], Vars(m), fuel);
      n, c := Simulate(env, code, stmts[0], ifs, whiles, fuel, m);
      if o.Done? {
        var k, m1 := n, c.state;
        n, c := SimulateAll(env, code, stmts[1..], first.ifs, first.whiles, fuel, m1);
        Prefix(env, code, m, k, m1, o.trace, |first.code + rest.code|, |rest.code|,
               RunAll(stmts[1..], o.store, fuel), fuel, fuel, n, c);
        n := k + n;
      }
    }
  }
}
