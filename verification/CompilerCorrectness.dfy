/** The whole compiler: folding, code generation and the frame around the program. */
module CompilerCorrectness {
  import opened Words
  import opened TeenyBasic
  import opened Machine
  import opened Folding
  import opened CodeGen
  import opened ExprSimulation
  import opened StmtSimulation

  // ----- Folding at the level of statements -----

  predicate CondTraps(c: Cond)
  {
    ConstantTrap(c.left) || ConstantTrap(c.right)
  }

  /** Some PRINT expression or condition has a constant subexpression that traps. */
  predicate FoldTraps(st: Stmt)
  {
    match st
    case Print(e) => ConstantTrap(e)
    case Let(_, _) => false
    case If(c, thn, els) => CondTraps(c) || FoldTraps(thn) || (els.Some? && FoldTraps(els.value))
    case While(c, body) => CondTraps(c) || FoldTraps(body)
    case Block(stmts) => exists i :: 0 <= i < |stmts| && FoldTraps(stmts[i])
  }

  /** Folding harms no PRINT and no condition: a PRINT is all constant or replays to itself,
      and both sides of a condition replay to themselves. */
  predicate FoldSafe(st: Stmt)
  {
    match st
    case Print(e) => Constant(e) || Stable(e)
    case Let(_, _) => true
    case If(c, thn, els) =>
      Stable(c.left) && Stable(c.right) && FoldSafe(thn) && (els.Some? ==> FoldSafe(els.value))
    case While(c, body) => Stable(c.left) && Stable(c.right) && FoldSafe(body)
    case Block(stmts) => forall i :: 0 <= i < |stmts| ==> FoldSafe(stmts[i])
  }

  /** The compiler dies of a divide error exactly when a folded constant traps. */
  lemma {:induction false} CrashIff(st: Stmt)
    ensures FoldStmt(st).None? <==> FoldTraps(st)
    decreases st, 1
  {
    match st
    case Print(e) => FoldOutcome(e);
    case Let(_, _) =>
    case If(c, thn, els) =>
      FoldOutcome(c.left);
      FoldOutcome(c.right);
      CrashIff(thn);
      if els.Some? {
        CrashIff(els.value);
      }
    case While(c, body) =>
      FoldOutcome(c.left);
      FoldOutcome(c.right);
      CrashIff(body);
    case Block(stmts) => CrashAllIff(stmts);
  }

  lemma {:induction false} CrashAllIff(stmts: seq<Stmt>)
    ensures FoldAll(stmts).None? <==> exists i :: 0 <= i < |stmts| && FoldTraps(stmts[i])
    decreases stmts, 0
  {
    if stmts != [] {
      CrashIff(stmts[0]);
      CrashAllIff(stmts[1..]);
      assert forall i :: 1 <= i < |stmts| ==> stmts[i] == stmts[1..][i - 1];
    }
  }

  lemma FoldedCondSame(c: Cond, s: Store)
    requires Stable(c.left) && Stable(c.right) && !CondTraps(c)
    ensures FoldedCond(c).Some? && EvalCond(FoldedCond(c).value, s) == EvalCond(c, s)
  {
    StableFoldKeepsMeaning(c.left, s);
    StableFoldKeepsMeaning(c.right, s);
  }

  /** A program that folding does not harm runs the same after it. */
  lemma {:induction false} FoldKeepsRuns(st: Stmt, s: Store, fuel: nat)
    requires FoldSafe(st) && FoldStmt(st).Some?
    ensures Run(FoldStmt(st).value, s, fuel) == Run(st, s, fuel)
    decreases fuel, st, 1
  {
    CrashIff(st);
    match st
    case Print(e) =>
      FoldOutcome(e);
      if Constant(e) {
        FoldConstant(e, s);
        assert Eval(FoldedExpr(e).value, s) == Eval(e, s);
      } else {
        StableFoldKeepsMeaning(e, s);
      }
    case Let(_, _) =>
    case If(c, thn, els) =>
      FoldedCondSame(c, s);
      FoldKeepsRuns(thn, s, fuel);
      if els.Some? {
        FoldKeepsRuns(els.value, s, fuel);
      }
    case While(c, body) =>
      FoldedCondSame(c, s);
      if fuel > 0 && EvalCond(c, s) == Some(true) {
        FoldKeepsRuns(body, s, fuel);
        var first := Run(body, s, fuel);
        if first.Done? {
          FoldKeepsRuns(st, first.store, fuel - 1);
        }
      }
    case Block(stmts) => FoldKeepsRunAll(stmts, s, fuel);
  }

  lemma {:induction false} FoldKeepsRunAll(stmts: seq<Stmt>, s: Store, fuel: nat)
    requires forall i :: 0 <= i < |stmts| ==> FoldSafe(stmts[i])
    requires FoldAll(stmts).Some?
    ensures RunAll(FoldAll(stmts).value, s, fuel) == RunAll(stmts, s, fuel)
    decreases fuel, stmts, 0
  {
    if stmts != [] {
      FoldKeepsRuns(stmts[0], s, fuel);
      var first := Run(stmts[0], s, fuel);
      var folded, rest := FoldAll(stmts).value, FoldAll(stmts[1..]).value;
      assert folded[0] == FoldStmt(stmts[0]).value && folded[1..] == rest;
      if first.Done? {
        FoldKeepsRunAll(stmts[1..], first.store, fuel);
      }
    }
  }

  // ----- The frame -----

  /** Called like any function: at its first instruction, with a saved %rbp that fits a word. */
  predicate Entry(m: State)
  {
    m.pc == 0 && -TWO63 <= m.rbp < TWO63
  }

  /** What the 26 variables hold before the program sets them: the words the frame covers. */
  function FrameVars(mem: Memory, rsp: int): Store
  {
    seq(NUM_VARS, i => Load(mem, rsp - 8 - 8 * (i + 1)))
  }

  /** %rsp at every call the program makes. */
  function CallRsp(m: State): int
  {
    m.rsp - 8 - 8 * NUM_VARS
  }

  /** The state behind the function header. */
  ghost function BehindHeader(env: Env, m: State): State
    requires Entry(m)
  {
    var m2 := m.(pc := 2, rsp := m.rsp - 8, rbp := m.rsp - 8, mem := m.mem[m.rsp - 8 := m.rbp]);
    m2.(pc := 3, rsp := m2.rsp - 8 * NUM_VARS, flags := env.arithmeticFlags(m2))
  }

  lemma HeaderCode(st: Stmt)
    ensures
      var code := Assemble(st);
      |code| >= 3 && code[0] == PushRbp && code[1] == MovRspRbp && code[2] == SubRsp(8 * NUM_VARS)
  {
    hide Emit;
  }

  lemma HeaderRun(env: Env, st: Stmt, m: State)
    requires Entry(m)
    ensures Steps(env, Assemble(st), Running(m), 3) == Running(BehindHeader(env, m))
  {
    hide Emit, Steps, Assemble, Vars, Load, PrintInt, Divide, JumpTo, CompareFlags, Holds, ShiftLeft, Wrap;
    HeaderCode(st);
    var code := Assemble(st);
    OneStep(env, code, m, PushRbp);
    WrapIdentity(m.rbp);
    var m1 := m.(pc := 1, rsp := m.rsp - 8, mem := m.mem[m.rsp - 8 := m.rbp]);
    OneStep(env, code, m1, MovRspRbp);
    var m2 := m1.(pc := 2, rbp := m.rsp - 8);
    OneStep(env, code, m2, SubRsp(8 * NUM_VARS));
    Chain(env, code, Running(m), 1, Running(m1), 1, Running(m2));
    Chain(env, code, Running(m), 2, Running(m2), 1, Running(BehindHeader(env, m)));
  }

  lemma HeaderSteps(env: Env, st: Stmt, m: State) returns (m': State)
    requires Entry(m)
    ensures Steps(env, Assemble(st), Running(m), 3) == Running(m')
    ensures AtRest(m') && m'.rbp == m.rsp - 8 && m'.pc == 3 && m'.trace == m.trace && m'.calls == m.calls
    ensures Vars(m') == FrameVars(m.mem, m.rsp) && Load(m'.mem, m'.rbp) == m.rbp
    ensures forall a :: a >= m.rsp ==> Load(m'.mem, a) == Load(m.mem, a)
  {
    hide Steps, Assemble;
    HeaderRun(env, st, m);
    m' := BehindHeader(env, m);
  }

  lemma FooterSteps(env: Env, code: seq<Instr>, m: State) returns (m': State)
    requires At(code, m.pc, FOOTER)
    ensures Steps(env, code, Running(m), 2) == Halted(m')
    ensures m'.rsp == m.rbp + 16 && m'.rbp == Load(m.mem, m.rbp) && m'.mem == m.mem
    ensures m'.trace == m.trace && m'.calls == m.calls
  {
    AtFirst(code, m.pc, FOOTER, 0);
    AtFirst(code, m.pc, FOOTER, 1);
    OneStep(env, code, m, Leave);
    var m1 := m.(pc := m.pc + 1, rsp := m.rbp + 8, rbp := Load(m.mem, m.rbp));
    OneStep(env, code, m1, Ret);
    m' := m1.(rsp := m1.rsp + 8);
    Chain(env, code, Running(m), 1, Running(m1), 1, Halted(m'));
  }

  /** The program returned to its caller: output `t`, variables `s`, the calling convention
      respected and everything at or above the entry %rsp as it was. */
  ghost predicate Returned(m: State, h: State, s: Store, t: seq<Int64>)
  {
    && h.trace == m.trace + t && FrameVars(h.mem, m.rsp) == s
    && h.rsp == m.rsp + 8 && h.rbp == m.rbp
    && (forall a :: a >= m.rsp ==> Load(h.mem, a) == Load(m.mem, a))
    && CallsAt(m.calls, h.calls, CallRsp(m))
  }

  ghost predicate WholeAgrees(m: State, o: Outcome, c: Conf)
  {
    match o
    case Done(s, t) => c.Halted? && Returned(m, c.state, s, t)
    case Trapped(t) => c.DivideError? && c.trace == m.trace + t && CallsAt(m.calls, c.calls, CallRsp(m))
    case Unfinished(t) => c.Running? && c.state.trace == m.trace + t && CallsAt(m.calls, c.state.calls, CallRsp(m))
  }

  /** For every amount of fuel the machine reaches a configuration that agrees with the
      source run, after at least that many steps when the run is unfinished. */
  lemma WholeProgram(env: Env, st: Stmt, m: State, fuel: nat) returns (n: nat, c: Conf)
    requires Entry(m)
    ensures Steps(env, Assemble(st), Running(m), n) == c
    ensures
      var o := Run(st, FrameVars(m.mem, m.rsp), fuel);
      WholeAgrees(m, o, c) && (o.Unfinished? ==> n >= fuel)
  {
    hide Exec, Emit;
    var code := Assemble(st);
    var body := Emit(st, 0, 0).code;
    AssembledLabels(st);
    var m1 := HeaderSteps(env, st, m);
    assert At(code, 0, HEADER + (body + FOOTER));
    AtConcat(code, 0, HEADER, body + FOOTER);
    AtConcat(code, 3, body, FOOTER);
    var k, c1 := Simulate(env, code, st, 0, 0, fuel, m1);
    Chain(env, code, Running(m), 3, Running(m1), k, c1);
    n, c := 3 + k, c1;
    if Run(st, FrameVars(m.mem, m.rsp), fuel).Done? {
      var m2 := c1.state;
      var h := FooterSteps(env, code, m2);
      Chain(env, code, Running(m), 3 + k, Running(m2), 2, Halted(h));
      n, c := 3 + k + 2, Halted(h);
      ReturnedAfter(m, m1, m2, h);
    }
  }

  lemma ReturnedAfter(m: State, m1: State, m2: State, h: State)
    requires m1.rbp == m.rsp - 8 && AtRest(m1) && SameFrame(m1, m2) && m1.calls == m.calls
    requires Load(m1.mem, m1.rbp) == m.rbp && m1.trace == m.trace
    requires forall a :: a >= m.rsp ==> Load(m1.mem, a) == Load(m.mem, a)
    requires m1.trace <= m2.trace
    requires h.rsp == m2.rbp + 16 && h.rbp == Load(m2.mem, m2.rbp) && h.mem == m2.mem
    requires h.trace == m2.trace && h.calls == m2.calls
    ensures Returned(m, h, Vars(m2), m2.trace[|m1.trace|..])
  {
    forall a | a >= m.rsp ensures Load(h.mem, a) == Load(m.mem, a) {
      assert Load(m2.mem, a) == Load(m1.mem, a);
    }
  }

  // ----- Both directions -----

  lemma FinalUnique(env: Env, code: seq<Instr>, c: Conf, i: nat, j: nat)
    requires !Steps(env, code, c, i).Running? && i <= j
    ensures Steps(env, code, c, j) == Steps(env, code, c, i)
  {
    hide Exec;
    StepsAdd(env, code, c, i, j - i);
    FinalStays(env, code, Steps(env, code, c, i), j - i);
  }

  /** However far the machine has run, it has not got stuck, and if it stopped, some amount
      of fuel gives the source the matching end. */
  lemma EndsMatch(env: Env, st: Stmt, m: State, n: nat) returns (fuel: nat)
    requires Entry(m)
    ensures
      var c, o := Steps(env, Assemble(st), Running(m), n), Run(st, FrameVars(m.mem, m.rsp), fuel);
      && !c.Stuck?
      && (!c.Running? ==> !o.Unfinished? && WholeAgrees(m, o, c))
  {
    hide Exec, Emit;
    fuel := n + 1;
    var code := Assemble(st);
    var k, c := WholeProgram(env, st, m, fuel);
    if !Steps(env, code, Running(m), n).Running? {
      if n <= k {
        FinalUnique(env, code, Running(m), n, k);
      } else {
        FinalUnique(env, code, Running(m), k, n);
      }
    }
  }

  /** The run of a program from the variables its frame will cover. */
  function RunFrom(st: Stmt, m: State, fuel: nat): Outcome
  {
    Run(st, FrameVars(m.mem, m.rsp), fuel)
  }

  ghost predicate SourceFinishes(st: Stmt, m: State, s: Store, t: seq<Int64>)
  {
    exists fuel :: RunFrom(st, m, fuel) == Done(s, t)
  }

  ghost predicate SourceTraps(st: Stmt, m: State, t: seq<Int64>)
  {
    exists fuel :: RunFrom(st, m, fuel) == Trapped(t)
  }

  ghost predicate SourceDiverges(st: Stmt, m: State)
  {
    forall fuel :: RunFrom(st, m, fuel).Unfinished?
  }

  ghost predicate HaltedAt(c: Conf, m: State, s: Store, t: seq<Int64>)
  {
    c.Halted? && Returned(m, c.state, s, t)
  }

  ghost predicate CodeFinishes(env: Env, code: seq<Instr>, m: State, s: Store, t: seq<Int64>)
  {
    exists n :: HaltedAt(Steps(env, code, Running(m), n), m, s, t)
  }

  predicate TrappedAt(c: Conf, m: State, t: seq<Int64>)
  {
    c.DivideError? && c.trace == m.trace + t
  }

  ghost predicate CodeTraps(env: Env, code: seq<Instr>, m: State, t: seq<Int64>)
  {
    exists n :: TrappedAt(Steps(env, code, Running(m), n), m, t)
  }

  ghost predicate CodeDiverges(env: Env, code: seq<Instr>, m: State)
  {
    forall n :: Steps(env, code, Running(m), n).Running?
  }

  /** The program finishes with store `s` and output `t` exactly when the machine returns so. */
  lemma FinishesIff(env: Env, st: Stmt, m: State, s: Store, t: seq<Int64>)
    requires Entry(m)
    ensures SourceFinishes(st, m, s, t) <==> CodeFinishes(env, Assemble(st), m, s, t)
  {
    hide Exec, Emit, Run;
    if SourceFinishes(st, m, s, t) {
      var fuel :| RunFrom(st, m, fuel) == Done(s, t);
      var n, c := WholeProgram(env, st, m, fuel);
      assert HaltedAt(Steps(env, Assemble(st), Running(m), n), m, s, t);
    }
    if CodeFinishes(env, Assemble(st), m, s, t) {
      var n :| HaltedAt(Steps(env, Assemble(st), Running(m), n), m, s, t);
      var fuel := EndsMatch(env, st, m, n);
      var o := RunFrom(st, m, fuel);
      var h := Steps(env, Assemble(st), Running(m), n).state;
      assert Returned(m, h, o.store, o.trace);
      assert o.trace == h.trace[|m.trace|..] == t;
    }
  }

  /** The program traps after output `t` exactly when the machine raises a divide error there. */
  lemma TrapsIff(env: Env, st: Stmt, m: State, t: seq<Int64>)
    requires Entry(m)
    ensures SourceTraps(st, m, t) <==> CodeTraps(env, Assemble(st), m, t)
  {
    hide Exec, Emit, Run;
    if SourceTraps(st, m, t) {
      var fuel :| RunFrom(st, m, fuel) == Trapped(t);
      var n, c := WholeProgram(env, st, m, fuel);
      assert TrappedAt(Steps(env, Assemble(st), Running(m), n), m, t);
    }
    if CodeTraps(env, Assemble(st), m, t) {
      var n :| TrappedAt(Steps(env, Assemble(st), Running(m), n), m, t);
      var fuel := EndsMatch(env, st, m, n);
      var o := RunFrom(st, m, fuel);
      var c := Steps(env, Assemble(st), Running(m), n);
      assert o.trace == c.trace[|m.trace|..] == t;
    }
  }

  // ----- Along the way -----

  function CallsOf(c: Conf): seq<int>
    requires !c.Stuck?
  {
    if c.DivideError? then c.calls else c.state.calls
  }

  /** What has been printed so far. */
  function TraceOf(c: Conf): seq<Int64>
    requires !c.Stuck?
  {
    if c.DivideError? then c.trace else c.state.trace
  }

  lemma StepGrows(env: Env, code: seq<Instr>, c: Conf)
    requires !c.Stuck? && !Step(env, code, c).Stuck?
    ensures CallsOf(c) <= CallsOf(Step(env, code, c))
    ensures TraceOf(c) <= TraceOf(Step(env, code, c))
  {
  }

  lemma {:induction false} StepsGrow(env: Env, code: seq<Instr>, c: Conf, n: nat)
    requires !c.Stuck? && !Steps(env, code, c, n).Stuck?
    ensures CallsOf(c) <= CallsOf(Steps(env, code, c, n))
    ensures TraceOf(c) <= TraceOf(Steps(env, code, c, n))
    decreases n
  {
    hide Exec, Step;
    if n > 0 {
      var d := Step(env, code, c);
      if d.Stuck? {
        FinalStays(env, code, d, n - 1);
        assert false;
      }
      StepGrows(env, code, c);
      StepsGrow(env, code, d, n - 1);
    }
  }

  predicate Within(c: Conf, m: State, t: seq<Int64>)
  {
    !c.Stuck? && TraceOf(c) <= m.trace + t
  }

  predicate Printed(c: Conf, m: State, t: seq<Int64>)
  {
    !c.Stuck? && TraceOf(c) == m.trace + t
  }

  /** At some moment the machine has printed exactly `t`. */
  ghost predicate Reaches(env: Env, code: seq<Instr>, m: State, t: seq<Int64>)
  {
    exists n: nat :: Printed(Steps(env, code, Running(m), n), m, t)
  }

  /** The machine prints nothing the source run does not print: after `n` steps its output is
      part of what the source prints with fuel `n`. */
  lemma OutputWithin(env: Env, st: Stmt, m: State, n: nat)
    requires Entry(m)
    ensures Within(Steps(env, Assemble(st), Running(m), n), m, RunFrom(st, m, n).trace)
  {
    hide Exec, Emit, Run;
    var code := Assemble(st);
    var c := Steps(env, code, Running(m), n);
    var _ := EndsMatch(env, st, m, n);
    var k, d := WholeProgram(env, st, m, n);
    if n <= k {
      StepsAdd(env, code, Running(m), n, k - n);
      StepsGrow(env, code, c, k - n);
    } else {
      FinalUnique(env, code, Running(m), k, n);
    }
  }

  /** And it prints all of it: whatever the source prints with some fuel, the machine has
      printed exactly that after some number of steps. */
  lemma OutputReached(env: Env, st: Stmt, m: State, fuel: nat)
    requires Entry(m)
    ensures Reaches(env, Assemble(st), m, RunFrom(st, m, fuel).trace)
  {
    hide Exec, Emit, Run;
    var n, c := WholeProgram(env, st, m, fuel);
    var t := RunFrom(st, m, fuel).trace;
    if c.Halted? {
      assert c.state.trace == m.trace + t;
    }
    assert Printed(Steps(env, Assemble(st), Running(m), n), m, t);
  }

  /** The outputs agree along the whole run, whether it ends or not. */
  ghost predicate SameOutput(env: Env, st: Stmt, code: seq<Instr>, m: State)
  {
    && (forall n: nat :: Within(Steps(env, code, Running(m), n), m, RunFrom(st, m, n).trace))
    && (forall fuel: nat :: Reaches(env, code, m, RunFrom(st, m, fuel).trace))
  }

  /** The program runs forever exactly when the machine does, and whatever the run does, the
      machine's output at each moment is part of the program's and each output of the program
      is reached by the machine. */
  lemma DivergesIff(env: Env, st: Stmt, m: State)
    requires Entry(m)
    ensures SourceDiverges(st, m) <==> CodeDiverges(env, Assemble(st), m)
    ensures SameOutput(env, st, Assemble(st), m)
  {
    hide Exec, Emit, Run, Within, Reaches;
    if SourceDiverges(st, m) {
      forall n ensures Steps(env, Assemble(st), Running(m), n).Running? {
        var fuel := EndsMatch(env, st, m, n);
        assert RunFrom(st, m, fuel).Unfinished?;
      }
    }
    if CodeDiverges(env, Assemble(st), m) {
      forall fuel ensures RunFrom(st, m, fuel).Unfinished? {
        var n, c := WholeProgram(env, st, m, fuel);
        assert Steps(env, Assemble(st), Running(m), n).Running?;
      }
    }
    forall n: nat ensures Within(Steps(env, Assemble(st), Running(m), n), m, RunFrom(st, m, n).trace) {
      OutputWithin(env, st, m, n);
    }
    forall fuel: nat ensures Reaches(env, Assemble(st), m, RunFrom(st, m, fuel).trace) {
      OutputReached(env, st, m, fuel);
    }
  }

  // ----- Comparisons without an operator -----

  /** A WHILE whose comparison has no operator never finishes in any store. */
  lemma {:induction false} MissingNeverDone(c: Cond, body: Stmt, s: Store, fuel: nat)
    requires c.op.Missing?
    ensures !Run(While(c, body), s, fuel).Done?
    decreases fuel
  {
    if fuel > 0 && EvalCond(c, s).Some? {
      var first := Run(body, s, fuel);
      if first.Done? {
        MissingNeverDone(c, body, first.store, fuel - 1);
      }
    }
  }

  /** The code of such a loop never returns: it runs forever or divides by zero. */
  lemma MissingWhileNeverReturns(env: Env, c: Cond, body: Stmt, m: State)
    requires Entry(m) && c.op.Missing?
    ensures forall s: Store, t :: !CodeFinishes(env, Assemble(While(c, body)), m, s, t)
  {
    hide Exec, Emit, Run, FrameVars, CodeFinishes;
    forall s: Store, t ensures !CodeFinishes(env, Assemble(While(c, body)), m, s, t) {
      FinishesIff(env, While(c, body), m, s, t);
      forall fuel: nat ensures RunFrom(While(c, body), m, fuel) != Done(s, t) {
        MissingNeverDone(c, body, FrameVars(m.mem, m.rsp), fuel);
      }
    }
  }

  /** The code of such an IF does what its first branch alone does, once both sides of the
      comparison have been evaluated; the ELSE branch is dead code. */
  lemma MissingIfTakesFirst(env: Env, c: Cond, thn: Stmt, els: Option<Stmt>, m: State, s: Store, t: seq<Int64>)
    requires Entry(m) && c.op.Missing?
    ensures CodeFinishes(env, Assemble(If(c, thn, els)), m, s, t) <==>
      EvalCond(c, FrameVars(m.mem, m.rsp)).Some? && CodeFinishes(env, Assemble(thn), m, s, t)
  {
    hide Exec, Emit, FrameVars, CodeFinishes;
    FinishesIff(env, If(c, thn, els), m, s, t);
    FinishesIff(env, thn, m, s, t);
    var vars := FrameVars(m.mem, m.rsp);
    forall fuel: nat
      ensures RunFrom(If(c, thn, els), m, fuel)
        == if EvalCond(c, vars).None? then Trapped([]) else RunFrom(thn, m, fuel)
    {
    }
  }

  /** After any number of steps of any run, every print_int call so far was made with %rsp
      at the bottom of the frame; so it is 16-byte aligned whenever the caller respected the
      ABI, under which %rsp + 8 is a multiple of 16 at function entry. */
  lemma CallsAligned(env: Env, st: Stmt, m: State, n: nat)
    requires Entry(m) && (m.rsp + 8) % 16 == 0
    ensures
      var c := Steps(env, Assemble(st), Running(m), n);
      && !c.Stuck? && m.calls <= CallsOf(c)
      && forall i :: |m.calls| <= i < |CallsOf(c)| ==> CallsOf(c)[i] == CallRsp(m) && CallsOf(c)[i] % 16 == 0
  {
    hide Exec, Emit, Run;
    var code := Assemble(st);
    var c := Steps(env, code, Running(m), n);
    var _ := EndsMatch(env, st, m, n);
    StepsGrow(env, code, Running(m), n);
    var k, d := WholeProgram(env, st, m, n);
    if n <= k {
      StepsAdd(env, code, Running(m), n, k - n);
      StepsGrow(env, code, c, k - n);
    } else {
      FinalUnique(env, code, Running(m), k, n);
    }
    assert CallsOf(c) <= CallsOf(d);
    assert CallsAt(m.calls, CallsOf(d), CallRsp(m));
    assert CallRsp(m) == (m.rsp + 8) - 14 * 16;
  }

  /** Compiler correctness: a program whose folding is safe is compiled (the compiler does not
      crash), and the code it emits returns, traps or diverges exactly as the program does, printing
      what the program prints all along the run, also when the run never ends. */
  lemma CompilerCorrect(env: Env, program: Stmt, m: State)
    requires Entry(m) && FoldSafe(program) && !FoldTraps(program)
    ensures FoldStmt(program).Some?
    ensures
      var code := Assemble(FoldStmt(program).value);
      && LabelsResolve(code)
      && (forall s: Store, t :: SourceFinishes(program, m, s, t) <==> CodeFinishes(env, code, m, s, t))
      && (forall t :: SourceTraps(program, m, t) <==> CodeTraps(env, code, m, t))
      && (SourceDiverges(program, m) <==> CodeDiverges(env, code, m))
      && SameOutput(env, program, code, m)
  {
    hide Exec, Emit, Run, FrameVars, Returned, Within, Reaches;
    CrashIff(program);
    var folded := FoldStmt(program).value;
    forall fuel: nat ensures RunFrom(folded, m, fuel) == RunFrom(program, m, fuel) {
      FoldKeepsRuns(program, FrameVars(m.mem, m.rsp), fuel);
    }
    AssembledLabels(folded);
    forall s: Store, t
      ensures SourceFinishes(program, m, s, t) <==> CodeFinishes(env, Assemble(folded), m, s, t)
    {
      FinishesIff(env, folded, m, s, t);
      assert SourceFinishes(program, m, s, t) <==> SourceFinishes(folded, m, s, t);
    }
    forall t
      ensures SourceTraps(program, m, t) <==> CodeTraps(env, Assemble(folded), m, t)
    {
      TrapsIff(env, folded, m, t);
      assert SourceTraps(program, m, t) <==> SourceTraps(folded, m, t);
    }
    DivergesIff(env, folded, m);
    assert SourceDiverges(program, m) <==> SourceDiverges(folded, m);
  }
}
