/** From program text to the behaviour of the assembled code. */
module EndToEnd {
  import opened Words
  import opened TeenyBasic
  import opened Machine
  import opened CodeGen
  import opened CompilerCorrectness
  import S = Syntax
  import R = RoundTrip
  import opened ProgramRoundTrip

  // ----- The program that a parse tree stands for -----

  function LowerExpr(n: S.Node): Option<Expr>
  {
    match n
    case Num(v) => if -TWO63 <= v < TWO63 then Some(Num(v)) else None
    case Var(x) => if 'A' <= x <= 'Z' then Some(Var(x)) else None
    case Binary(op, l, r) =>
      var a, b := LowerExpr(l), LowerExpr(r);
      if a.None? || b.None? then None
      else if op == '+' then Some(Bin(Add, a.value, b.value))
      else if op == '-' then Some(Bin(Sub, a.value, b.value))
      else if op == '*' then Some(Bin(Mul, a.value, b.value))
      else if op == '/' then Some(Bin(Div, a.value, b.value))
      else None
    case _ => None
  }

  function CmpOf(op: char): CmpOp
  {
    if op == '<' then Lt else if op == '=' then Eq else if op == '>' then Gt else Missing
  }

  function LowerCond(n: S.Node): Option<Cond>
  {
    if n.Binary? && ConditionOp(n.op) && LowerExpr(n.left).Some? && LowerExpr(n.right).Some?
    then Some(Cond(CmpOf(n.op), LowerExpr(n.left).value, LowerExpr(n.right).value))
    else None
  }

  function Lower(n: S.Node): Option<Stmt>
    decreases n, 1
  {
    match n
    case Print(e) => (match LowerExpr(e) case None => None case Some(v) => Some(Stmt.Print(v)))
    case Let(x, e) =>
      if 'A' <= x <= 'Z' && LowerExpr(e).Some? then Some(Stmt.Let(x, LowerExpr(e).value)) else None
    case If(c, thn, els) =>
      var a, t := LowerCond(c), Lower(thn);
      if a.None? || t.None? then None
      else if els.None? then Some(Stmt.If(a.value, t.value, None))
      else (match Lower(els.value) case None => None case Some(u) => Some(Stmt.If(a.value, t.value, Some(u))))
    case While(c, body) =>
      var a, b := LowerCond(c), Lower(body);
      if a.None? || b.None? then None else Some(Stmt.While(a.value, b.value))
    case Sequence(ns) =>
      (match LowerAll(ns) case None => None case Some(ss) => Some(Block(ss)))
    case _ => None
  }

  function LowerAll(ns: seq<S.Node>): Option<seq<Stmt>>
    decreases ns, 0
  {
    if ns == [] then Some([])
    else
      var a, b := Lower(ns[0]), LowerAll(ns[1..]);
      if a.None? || b.None? then None else Some([a.value] + b.value)
  }

  // ----- The program that was written -----

  function BlockOf(ss: seq<Stmt>): Stmt
  {
    if |ss| == 1 then ss[0] else Block(ss)
  }

  function StmtOf(st: Statement): Stmt
    requires StatementOk(st) && !st.Comment?
    decreases st
  {
    match st
    case PrintOf(e) => Stmt.Print(e)
    case LetOf(x, e) => Stmt.Let(x, e)
    case IfOf(op, l, r, thn) => Stmt.If(Cond(CmpOf(op), l, r), BlockOf(StmtsOf(thn)), None)
    case IfElseOf(op, l, r, thn, els) => Stmt.If(Cond(CmpOf(op), l, r), BlockOf(StmtsOf(thn)), Some(BlockOf(StmtsOf(els))))
    case WhileOf(op, l, r, body) => Stmt.While(Cond(CmpOf(op), l, r), BlockOf(StmtsOf(body)))
  }

  function StmtsOf(ss: seq<Statement>): seq<Stmt>
    requires AllOk(ss)
    decreases ss
  {
    if ss == [] then []
    else if ss[0].Comment? then StmtsOf(ss[1..])
    else [StmtOf(ss[0])] + StmtsOf(ss[1..])
  }

  lemma {:induction false} ExprReadBack(e: Expr)
    ensures LowerExpr(R.Tree(e)) == Some(e)
  {
    if e.Bin? {
      ExprReadBack(e.left);
      ExprReadBack(e.right);
    }
  }

  lemma {:induction false} StatementReadBack(st: Statement)
    requires StatementOk(st) && !st.Comment?
    ensures Lower(StatementTree(st)) == Some(StmtOf(st))
    decreases st, 1
  {
    hide LowerExpr, R.Tree;
    match st {
      case PrintOf(e) => ExprReadBack(e);
      case LetOf(x, e) => ExprReadBack(e);
      case IfOf(op, l, r, thn) =>
        ExprReadBack(l);
        ExprReadBack(r);
        BlockReadBack(thn);
      case IfElseOf(op, l, r, thn, els) =>
        ExprReadBack(l);
        ExprReadBack(r);
        BlockReadBack(thn);
        BlockReadBack(els);
      case WhileOf(op, l, r, body) =>
        ExprReadBack(l);
        ExprReadBack(r);
        BlockReadBack(body);
    }
  }

  lemma {:induction false} BlockReadBack(ss: seq<Statement>)
    requires AllOk(ss)
    ensures Lower(SequenceOf(Trees(ss))) == Some(BlockOf(StmtsOf(ss)))
    decreases ss, 3
  {
    AllReadBack(ss);
    var ns := Trees(ss);
    if |ns| == 1 {
      assert LowerAll(ns[1..]) == Some([]);
      assert Lower(ns[0]).Some? && LowerAll(ns).value == [Lower(ns[0]).value];
    }
  }

  lemma {:induction false} AllReadBack(ss: seq<Statement>)
    requires AllOk(ss)
    ensures LowerAll(Trees(ss)) == Some(StmtsOf(ss)) && |Trees(ss)| == |StmtsOf(ss)|
    decreases ss, 2
  {
    if ss != [] {
      AllReadBack(ss[1..]);
      if !ss[0].Comment? {
        StatementReadBack(ss[0]);
        assert Trees(ss)[1..] == Trees(ss[1..]);
      }
    }
  }

  /** The whole compiler: the text of any program whose folding is safe is parsed, compiled without
      a crash, and the code finishes, traps or runs forever exactly as the program does and prints
      what it prints all along the run. */
  lemma TextToCode(env: Env, ss: seq<Statement>, m: State)
    requires AllOk(ss) && Entry(m)
    requires FoldSafe(BlockOf(StmtsOf(ss))) && !FoldTraps(BlockOf(StmtsOf(ss)))
    ensures
      var tree := S.Parse(ShowAll(ss));
      tree.Some? && Lower(tree.value).Some? && FoldStmt(Lower(tree.value).value).Some? &&
      var program := BlockOf(StmtsOf(ss));
      var code := Assemble(FoldStmt(Lower(tree.value).value).value);
      && LabelsResolve(code)
      && (forall s: Store, t :: SourceFinishes(program, m, s, t) <==> CodeFinishes(env, code, m, s, t))
      && (forall t :: SourceTraps(program, m, t) <==> CodeTraps(env, code, m, t))
      && (SourceDiverges(program, m) <==> CodeDiverges(env, code, m))
      && SameOutput(env, program, code, m)
  {
    hide SameOutput, S.Parse, ShowAll, Lower, FoldStmt, FoldSafe, FoldTraps, Assemble;
    ProgramReadBack(ss);
    BlockReadBack(ss);
    CompilerCorrect(env, BlockOf(StmtsOf(ss)), m);
  }

  /** A loop whose comparison has no operator. */
  function BareLoop(): Statement
  {
    WhileOf('\0', Num(1), Num(2), [PrintOf(Num(3))])
  }

  lemma WrappedDigits()
    ensures Wrapped(Num(1)) == "(1)" && Wrapped(Num(2)) == "(2)" && Wrapped(Num(3)) == "(3)"
  {
  }

  lemma ShowOne(st: Statement)
    requires !st.Comment?
    ensures ShowAll([st]) == ShowStatement(st) && Trees([st]) == [StatementTree(st)]
  {
    hide ShowStatement, StatementTree;
    assert ShowAll([]) == "" && Trees([]) == [];
    assert [st][1..] == [];
  }

  lemma PrintText()
    ensures ShowAll([PrintOf(Num(3))]) == "PRINT (3)\n"
  {
    hide Wrapped, ShowAll;
    WrappedDigits();
    ShowOne(PrintOf(Num(3)));
  }

  lemma ConditionText()
    ensures ShowCondition('\0', Num(1), Num(2)) == "(1)(2)\n"
  {
    hide Wrapped;
    WrappedDigits();
  }

  lemma BareLoopText()
    ensures ShowAll([BareLoop()]) == "WHILE (1)(2)\nPRINT (3)\nEND WHILE\n"
  {
    hide ShowAll, ShowCondition;
    PrintText();
    ConditionText();
    ShowOne(BareLoop());
    assert ShowAll([BareLoop()]) == "WHILE " + ("(1)(2)\n" + ("PRINT (3)\n" + "END WHILE\n"));
    Joined();
  }

  lemma Joined()
    ensures "WHILE " + ("(1)(2)\n" + ("PRINT (3)\n" + "END WHILE\n")) == "WHILE (1)(2)\nPRINT (3)\nEND WHILE\n"
  {
  }

  /** Its text has no comparison operator anywhere and is accepted. */
  lemma MissingOperatorText()
    ensures S.Parse("WHILE (1)(2)\nPRINT (3)\nEND WHILE\n")
      == Some(S.While(S.Binary('\0', S.Num(1), S.Num(2)), S.Print(S.Num(3))))
  {
    hide S.Parse, ShowAll, Trees;
    BareLoopText();
    ShowOne(PrintOf(Num(3)));
    ShowOne(BareLoop());
    ProgramReadBack([BareLoop()]);
  }
}
