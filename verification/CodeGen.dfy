/** The code generator as a function from syntax to instructions. */
module CodeGen {
  import opened Words
  import opened TeenyBasic
  import opened Machine
  import opened Folding

  /** The test `value > 1 && (value & (value - 1)) == 0`. */
  predicate ShiftsInstead(v: Int64)
  {
    v > 1 && BitAnd(v, v - 1) == 0
  }

  /** What follows once the operands are in %rdi and %rcx. */
  function Operate(op: ArithOp): seq<Instr>
  {
    match op
    case Add => [AddRcxRdi]
    case Sub => [SubRcxRdi]
    case Mul => [ImulRcxRdi]
    case Div => [MovRdiRax, Cqto, IdivRcx, MovRaxRdi]
  }

  function Displacement(x: VarName): int
  {
    8 * (Index(x) + 1)
  }

  /** Both operands, left in %rdi and right in %rcx, by way of the stack. */
  function EmitOperands(left: seq<Instr>, right: seq<Instr>): seq<Instr>
  {
    left + ([PushRdi] + (right + [PushRdi, PopRcx, PopRdi]))
  }

  function EmitExpr(e: Expr): seq<Instr>
  {
    match e
    case Num(v) => [MovImmRdi(v)]
    case Var(x) => [LoadRdi(Displacement(x))]
    case Bin(op, l, r) =>
      if op == Mul && r.Num? && ShiftsInstead(r.value)
      then EmitExpr(l) + [ShlRdi(Log2(r.value))]
      else EmitOperands(EmitExpr(l), EmitExpr(r)) + Operate(op)
  }

  /** The null character is no operator the code generator knows, and it prints nothing for it. */
  function EmitCompare(op: CmpOp): seq<Instr>
  {
    if op.Missing? then [] else [CmpRcxRdi]
  }

  function EmitCond(c: Cond): seq<Instr>
  {
    EmitOperands(EmitExpr(c.left), EmitExpr(c.right)) + EmitCompare(c.op)
  }

  /** The pair of jumps after a comparison. */
  function EmitBranch(op: CmpOp, yes: Label, no: Label): seq<Instr>
  {
    match op
    case Lt => [Jcc(L, yes), Jcc(GE, no)]
    case Gt => [Jcc(G, yes), Jcc(LE, no)]
    case Eq => [Jcc(E, yes), Jcc(NE, no)]
    case Missing => []
  }

  /** Emitted code together with the two label counters afterwards. */
  datatype Emitted = Emitted(code: seq<Instr>, ifs: int, whiles: int)

  function Emit(st: Stmt, ifs: int, whiles: int): Emitted
    decreases st, 1
  {
    match st
    case Print(e) => Emitted(EmitExpr(e) + [CallPrintInt], ifs, whiles)
    case Let(x, e) => Emitted(EmitExpr(e) + [StoreRdi(Displacement(x))], ifs, whiles)
    case If(c, thn, els) =>
      var n := ifs + 1;
      var t := Emit(thn, n, whiles);
      var f := if els.Some? then Emit(els.value, t.ifs, t.whiles) else Emitted([], t.ifs, t.whiles);
      var no := if els.Some? then ElseLabel(n) else EndIfLabel(n);
      Emitted(IfCode(c, n, no, t.code, f.code), f.ifs, f.whiles)
    case While(c, body) =>
      var n := whiles + 1;
      var b := Emit(body, ifs, n);
      Emitted(WhileCode(c, n, b.code), b.ifs, b.whiles)
    case Block(stmts) => EmitAll(stmts, ifs, whiles)
  }

  function EmitAll(stmts: seq<Stmt>, ifs: int, whiles: int): Emitted
    decreases stmts, 0
  {
    if stmts == [] then Emitted([], ifs, whiles) else
    var first := Emit(stmts[0], ifs, whiles);
    var rest := EmitAll(stmts[1..], first.ifs, first.whiles);
    Emitted(first.code + rest.code, rest.ifs, rest.whiles)
  }

  function IfCode(c: Cond, n: int, no: Label, thn: seq<Instr>, els: seq<Instr>): seq<Instr>
  {
    EmitCond(c) + (EmitBranch(c.op, IfLabel(n), no) + ([Define(IfLabel(n))] + (thn
      + ([Jmp(EndIfLabel(n)), Define(ElseLabel(n))] + (els + [Define(EndIfLabel(n))])))))
  }

  function WhileCode(c: Cond, n: int, body: seq<Instr>): seq<Instr>
  {
    [Define(StartWhileLabel(n))] + (EmitCond(c) + (EmitBranch(c.op, WhileLabel(n), WhileEndLabel(n))
      + ([Define(WhileLabel(n))] + (body + [Jmp(StartWhileLabel(n)), Define(WhileEndLabel(n))]))))
  }

  /** The program after folding, statement by statement; None if the compiler crashes. */
  function FoldStmt(st: Stmt): Option<Stmt>
    decreases st, 1
  {
    match st
    case Print(e) =>
      (match FoldedExpr(e) case None => None case Some(f) => Some(Print(f)))
    case Let(x, e) => Some(st)
    case If(c, thn, els) =>
      (match (FoldedCond(c), FoldStmt(thn), if els.Some? then FoldStmt(els.value) else Some(thn))
       case (Some(c'), Some(t), Some(f)) => Some(If(c', t, if els.Some? then Some(f) else None))
       case _ => None)
    case While(c, body) =>
      (match (FoldedCond(c), FoldStmt(body))
       case (Some(c'), Some(b)) => Some(While(c', b))
       case _ => None)
    case Block(stmts) =>
      (match FoldAll(stmts) case None => None case Some(folded) => Some(Block(folded)))
  }

  function FoldAll(stmts: seq<Stmt>): Option<seq<Stmt>>
    decreases stmts, 0
  {
    if stmts == [] then Some([]) else
    match (FoldStmt(stmts[0]), FoldAll(stmts[1..]))
    case (Some(first), Some(rest)) => Some([first] + rest)
    case _ => None
  }

  const HEADER: seq<Instr> := [PushRbp, MovRspRbp, SubRsp(8 * NUM_VARS)]
  const FOOTER: seq<Instr> := [Leave, Ret]

  /** The whole assembly file for a statement. */
  function Assemble(st: Stmt): seq<Instr>
  {
    HEADER + (Emit(st, 0, 0).code + FOOTER)
  }

  // ----- Labels -----

  /** How often `code` defines the label. */
  function Defined(code: seq<Instr>, l: Label): nat
  {
    if code == [] then 0 else (if code[0] == Define(l) then 1 else 0) + Defined(code[1..], l)
  }

  predicate Targets(i: Instr, l: Label)
  {
    (i.Jmp? || i.Jcc?) && i.target == l
  }

  /** How many jumps in `code` go to the label. */
  function Jumps(code: seq<Instr>, l: Label): nat
  {
    if code == [] then 0 else (if Targets(code[0], l) then 1 else 0) + Jumps(code[1..], l)
  }

  lemma {:induction false} DefinedConcat(a: seq<Instr>, b: seq<Instr>, l: Label)
    ensures Defined(a + b, l) == Defined(a, l) + Defined(b, l)
    ensures Jumps(a + b, l) == Jumps(a, l) + Jumps(b, l)
  {
    if a == [] {
      assert a + b == b;
    } else {
      DefinedConcat(a[1..], b, l);
      assert (a + b)[1..] == a[1..] + b;
    }
  }

  lemma OneDefined(i: Instr, l: Label)
    ensures Defined([i], l) == (if i == Define(l) then 1 else 0)
    ensures Jumps([i], l) == (if Targets(i, l) then 1 else 0)
  {
    assert [i][1..] == [];
  }

  lemma TwoDefined(i: Instr, j: Instr, l: Label)
    ensures Defined([i, j], l) == (if i == Define(l) then 1 else 0) + (if j == Define(l) then 1 else 0)
    ensures Jumps([i, j], l) == (if Targets(i, l) then 1 else 0) + (if Targets(j, l) then 1 else 0)
  {
    OneDefined(j, l);
    assert [i, j][1..] == [j];
  }

  lemma {:induction false} DefinedAt(code: seq<Instr>, p: nat, l: Label)
    requires p < |code| && code[p] == Define(l)
    ensures Defined(code, l) >= 1
  {
    if p > 0 {
      DefinedAt(code[1..], p - 1, l);
    }
  }

  /** A label that is defined once is found where it stands. */
  lemma {:induction false} FindOnly(code: seq<Instr>, p: nat, l: Label)
    requires p < |code| && code[p] == Define(l) && Defined(code, l) == 1
    ensures Find(code, l) == p
  {
    if p > 0 {
      DefinedAt(code[1..], p - 1, l);
      FindOnly(code[1..], p - 1, l);
    }
  }

  lemma {:induction false} ExprStraight(e: Expr, l: Label)
    ensures Defined(EmitExpr(e), l) == 0 && Jumps(EmitExpr(e), l) == 0
  {
    if e.Bin? {
      ExprStraight(e.left, l);
      if e.op == Mul && e.right.Num? && ShiftsInstead(e.right.value) {
        DefinedConcat(EmitExpr(e.left), [ShlRdi(Log2(e.right.value))], l);
      } else {
        ExprStraight(e.right, l);
        OperandsStraight(EmitExpr(e.left), EmitExpr(e.right), l);
        DefinedConcat(EmitOperands(EmitExpr(e.left), EmitExpr(e.right)), Operate(e.op), l);
        OperateStraight(e.op, l);
      }
    }
  }

  lemma OperateStraight(op: ArithOp, l: Label)
    ensures Defined(Operate(op), l) == 0 && Jumps(Operate(op), l) == 0
  {
    hide Defined, Jumps;
    if op == Div {
      assert Operate(op) == [MovRdiRax, Cqto] + [IdivRcx, MovRaxRdi];
      DefinedConcat([MovRdiRax, Cqto], [IdivRcx, MovRaxRdi], l);
      TwoDefined(MovRdiRax, Cqto, l);
      TwoDefined(IdivRcx, MovRaxRdi, l);
    } else {
      OneDefined(Operate(op)[0], l);
    }
  }

  lemma OperandsStraight(left: seq<Instr>, right: seq<Instr>, l: Label)
    ensures Defined(EmitOperands(left, right), l) == Defined(left, l) + Defined(right, l)
    ensures Jumps(EmitOperands(left, right), l) == Jumps(left, l) + Jumps(right, l)
  {
    var tail := [PushRdi, PopRcx, PopRdi];
    assert tail == [PushRdi] + [PopRcx, PopRdi];
    DefinedConcat([PushRdi], [PopRcx, PopRdi], l);
    OneDefined(PushRdi, l);
    TwoDefined(PopRcx, PopRdi, l);
    DefinedConcat(right, tail, l);
    DefinedConcat([PushRdi], right + tail, l);
    DefinedConcat(left, [PushRdi] + (right + tail), l);
  }

  lemma CondStraight(c: Cond, l: Label)
    ensures Defined(EmitCond(c), l) == 0 && Jumps(EmitCond(c), l) == 0
  {
    ExprStraight(c.left, l);
    ExprStraight(c.right, l);
    OperandsStraight(EmitExpr(c.left), EmitExpr(c.right), l);
    DefinedConcat(EmitOperands(EmitExpr(c.left), EmitExpr(c.right)), EmitCompare(c.op), l);
  }

  lemma BranchLabels(op: CmpOp, yes: Label, no: Label, l: Label)
    ensures Defined(EmitBranch(op, yes, no), l) == 0
    ensures Jumps(EmitBranch(op, yes, no), l) > 0 ==> l == yes || l == no
  {
    if !op.Missing? {
      TwoDefined(EmitBranch(op, yes, no)[0], EmitBranch(op, yes, no)[1], l);
    }
  }

  lemma IfLabels(c: Cond, n: int, no: Label, thn: seq<Instr>, els: seq<Instr>, l: Label)
    requires no == ElseLabel(n) || no == EndIfLabel(n)
    ensures Defined(IfCode(c, n, no, thn, els), l) == Defined(thn, l) + Defined(els, l)
      + (if l == IfLabel(n) || l == ElseLabel(n) || l == EndIfLabel(n) then 1 else 0)
    ensures Jumps(IfCode(c, n, no, thn, els), l) > 0 ==>
      Jumps(thn, l) + Jumps(els, l) > 0 || l == IfLabel(n) || l == ElseLabel(n) || l == EndIfLabel(n)
  {
    hide Defined, Jumps, EmitCond, EmitBranch;
    CondStraight(c, l);
    var end := [Define(EndIfLabel(n))];
    var mid := [Jmp(EndIfLabel(n)), Define(ElseLabel(n))];
    var start := [Define(IfLabel(n))];
    var branch := EmitBranch(c.op, IfLabel(n), no);
    OneDefined(end[0], l);
    TwoDefined(mid[0], mid[1], l);
    OneDefined(start[0], l);
    BranchLabels(c.op, IfLabel(n), no, l);
    DefinedConcat(els, end, l);
    DefinedConcat(mid, els + end, l);
    DefinedConcat(thn, mid + (els + end), l);
    DefinedConcat(start, thn + (mid + (els + end)), l);
    DefinedConcat(branch, start + (thn + (mid + (els + end))), l);
    DefinedConcat(EmitCond(c), branch + (start + (thn + (mid + (els + end)))), l);
  }

  lemma WhileLabels(c: Cond, n: int, body: seq<Instr>, l: Label)
    ensures Defined(WhileCode(c, n, body), l) == Defined(body, l)
      + (if l == StartWhileLabel(n) || l == WhileLabel(n) || l == WhileEndLabel(n) then 1 else 0)
    ensures Jumps(WhileCode(c, n, body), l) > 0 ==>
      Jumps(body, l) > 0 || l == StartWhileLabel(n) || l == WhileLabel(n) || l == WhileEndLabel(n)
  {
    hide Defined, Jumps, EmitCond, EmitBranch;
    CondStraight(c, l);
    var end := [Jmp(StartWhileLabel(n)), Define(WhileEndLabel(n))];
    var top := [Define(WhileLabel(n))];
    var start := [Define(StartWhileLabel(n))];
    var branch := EmitBranch(c.op, WhileLabel(n), WhileEndLabel(n));
    TwoDefined(end[0], end[1], l);
    OneDefined(top[0], l);
    OneDefined(start[0], l);
    BranchLabels(c.op, WhileLabel(n), WhileEndLabel(n), l);
    DefinedConcat(body, end, l);
    DefinedConcat(top, body + end, l);
    DefinedConcat(branch, top + (body + end), l);
    DefinedConcat(EmitCond(c), branch + (top + (body + end)), l);
    DefinedConcat(start, EmitCond(c) + (branch + (top + (body + end))), l);
  }

  /** The labels numbered after (ifs, whiles) and up to those of `r`. */
  predicate Between(l: Label, ifs: int, whiles: int, r: Emitted)
  {
    match l
    case IfLabel(n) => ifs < n <= r.ifs
    case ElseLabel(n) => ifs < n <= r.ifs
    case EndIfLabel(n) => ifs < n <= r.ifs
    case StartWhileLabel(n) => whiles < n <= r.whiles
    case WhileLabel(n) => whiles < n <= r.whiles
    case WhileEndLabel(n) => whiles < n <= r.whiles
  }

  /** A piece of code defines exactly the labels its counters passed, each once, and jumps
      only to those. */
  predicate LabelOk(r: Emitted, ifs: int, whiles: int, l: Label)
  {
    && ifs <= r.ifs && whiles <= r.whiles
    && Defined(r.code, l) == (if Between(l, ifs, whiles, r) then 1 else 0)
    && (Jumps(r.code, l) > 0 ==> Between(l, ifs, whiles, r))
  }

  lemma IfLabelOk(c: Cond, no: Label, ifs: int, whiles: int, t: Emitted, f: Emitted, l: Label)
    requires no == ElseLabel(ifs + 1) || no == EndIfLabel(ifs + 1)
    requires LabelOk(t, ifs + 1, whiles, l) && LabelOk(f, t.ifs, t.whiles, l)
    ensures LabelOk(Emitted(IfCode(c, ifs + 1, no, t.code, f.code), f.ifs, f.whiles), ifs, whiles, l)
  {
    IfLabels(c, ifs + 1, no, t.code, f.code, l);
  }

  lemma WhileLabelOk(c: Cond, ifs: int, whiles: int, b: Emitted, l: Label)
    requires LabelOk(b, ifs, whiles + 1, l)
    ensures LabelOk(Emitted(WhileCode(c, whiles + 1, b.code), b.ifs, b.whiles), ifs, whiles, l)
  {
    WhileLabels(c, whiles + 1, b.code, l);
  }

  lemma SequenceLabelOk(first: Emitted, rest: Emitted, ifs: int, whiles: int, l: Label)
    requires LabelOk(first, ifs, whiles, l) && LabelOk(rest, first.ifs, first.whiles, l)
    ensures LabelOk(Emitted(first.code + rest.code, rest.ifs, rest.whiles), ifs, whiles, l)
  {
    DefinedConcat(first.code, rest.code, l);
  }

  lemma SimpleLabelOk(e: Expr, i: Instr, ifs: int, whiles: int, l: Label)
    requires !i.Define? && !i.Jmp? && !i.Jcc?
    ensures LabelOk(Emitted(EmitExpr(e) + [i], ifs, whiles), ifs, whiles, l)
  {
    ExprStraight(e, l);
    OneDefined(i, l);
    DefinedConcat(EmitExpr(e), [i], l);
  }

  /** The label discipline holds under any nesting of statements. */
  lemma {:induction false} EmitLabels(st: Stmt, ifs: int, whiles: int, l: Label)
    ensures LabelOk(Emit(st, ifs, whiles), ifs, whiles, l)
    decreases st, 1
  {
    match st
    case Print(e) => SimpleLabelOk(e, CallPrintInt, ifs, whiles, l);
    case Let(x, e) => SimpleLabelOk(e, StoreRdi(Displacement(x)), ifs, whiles, l);
    case If(c, thn, els) =>
      EmitLabels(thn, ifs + 1, whiles, l);
      var t := Emit(thn, ifs + 1, whiles);
      if els.Some? {
        EmitLabels(els.value, t.ifs, t.whiles, l);
        IfLabelOk(c, ElseLabel(ifs + 1), ifs, whiles, t, Emit(els.value, t.ifs, t.whiles), l);
      } else {
        IfLabelOk(c, EndIfLabel(ifs + 1), ifs, whiles, t, Emitted([], t.ifs, t.whiles), l);
      }
    case While(c, body) =>
      EmitLabels(body, ifs, whiles + 1, l);
      WhileLabelOk(c, ifs, whiles, Emit(body, ifs, whiles + 1), l);
    case Block(stmts) => EmitAllLabels(stmts, ifs, whiles, l);
  }

  lemma {:induction false} EmitAllLabels(stmts: seq<Stmt>, ifs: int, whiles: int, l: Label)
    ensures LabelOk(EmitAll(stmts, ifs, whiles), ifs, whiles, l)
    decreases stmts, 0
  {
    if stmts != [] {
      EmitLabels(stmts[0], ifs, whiles, l);
      var first := Emit(stmts[0], ifs, whiles);
      EmitAllLabels(stmts[1..], first.ifs, first.whiles, l);
      SequenceLabelOk(first, EmitAll(stmts[1..], first.ifs, first.whiles), ifs, whiles, l);
    }
  }

  ghost predicate LabelsResolve(code: seq<Instr>)
  {
    forall l :: Defined(code, l) <= 1 && (Jumps(code, l) > 0 ==> Defined(code, l) == 1)
  }

  /** In the assembly file of any program every label is defined at most once and every
      jump target is defined. */
  lemma AssembledLabels(st: Stmt)
    ensures LabelsResolve(Assemble(st))
  {
    var code := Emit(st, 0, 0).code;
    forall l
      ensures Defined(Assemble(st), l) == Defined(code, l) && Jumps(Assemble(st), l) == Jumps(code, l)
    {
      DefinedConcat(code, FOOTER, l);
      DefinedConcat(HEADER, code + FOOTER, l);
      assert HEADER == [PushRbp] + [MovRspRbp, SubRsp(8 * NUM_VARS)];
      DefinedConcat([PushRbp], [MovRspRbp, SubRsp(8 * NUM_VARS)], l);
      OneDefined(PushRbp, l);
      TwoDefined(MovRspRbp, SubRsp(8 * NUM_VARS), l);
      TwoDefined(Leave, Ret, l);
    }
    forall l
      ensures Defined(code, l) <= 1 && (Jumps(code, l) > 0 ==> Defined(code, l) == 1)
    {
      EmitLabels(st, 0, 0, l);
    }
  }
}
