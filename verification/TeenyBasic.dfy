/** TeenyBASIC: abstract syntax and meaning. Values are wrapping 64-bit integers,
    there are 26 variables, PRINT appends to a trace and a bad division traps. */
module TeenyBasic {
  import opened Words

  const NUM_VARS := 26

  type VarName = c: char | 'A' <= c <= 'Z' witness 'A'

  datatype ArithOp = Add | Sub | Mul | Div
  /** Missing is the operator of a comparison written without one, which the parser accepts. */
  datatype CmpOp = Lt | Eq | Gt | Missing

  datatype Expr =
    | Num(value: Int64)
    | Var(name: VarName)
    | Bin(op: ArithOp, left: Expr, right: Expr)

  datatype Cond = Cond(op: CmpOp, left: Expr, right: Expr)

  datatype Stmt =
    | Print(expr: Expr)
    | Let(name: VarName, value: Expr)
    | If(cond: Cond, thn: Stmt, els: Option<Stmt>)
    | While(cond: Cond, body: Stmt)
    | Block(stmts: seq<Stmt>)

  type Store = s: seq<Int64> | |s| == NUM_VARS witness seq(NUM_VARS, _ => 0)

  function Index(x: VarName): (i: nat)
    ensures i < NUM_VARS
  {
    x as int - 'A' as int
  }

  /** One arithmetic operation; None is the hardware's divide error. */
  function Arith(op: ArithOp, a: Int64, b: Int64): Option<Int64>
  {
    match op
    case Add => Some(Wrap(a + b))
    case Sub => Some(Wrap(a - b))
    case Mul => Some(Wrap(a * b))
    case Div =>
      if b == 0 || (a == -TWO63 && b == -1) then None
      else QuotientFits(a, b); Some(TruncDiv(a, b))
  }

  lemma QuotientFits(a: Int64, b: Int64)
    requires b != 0 && !(a == -TWO63 && b == -1)
    ensures -TWO63 <= TruncDiv(a, b) < TWO63
  {
    QuotientBound(Abs(a), Abs(b));
  }

  /** Results are the 64-bit numbers that are right modulo 2^64; subtraction undoes addition, and a
      quotient is cut off toward zero. Only a division can fail. */
  lemma ArithLaws(a: Int64, b: Int64)
    ensures Arith(Add, a, b).Some? && (Arith(Add, a, b).value - (a + b)) % TWO64 == 0
    ensures Arith(Sub, a, b).Some? && Arith(Add, Arith(Sub, a, b).value, b) == Some(a)
    ensures Arith(Mul, a, b).Some? && (Arith(Mul, a, b).value - a * b) % TWO64 == 0
    ensures Arith(Div, a, b).None? <==> b == 0 || (a == -TWO63 && b == -1)
    ensures Arith(Div, a, b).Some? ==>
      var r := a - b * Arith(Div, a, b).value;
      Abs(r) < Abs(b) && (r == 0 || (r < 0 <==> a < 0))
  {
    hide Wrap, TruncDiv;
    WrapCongruent(a + b);
    WrapCongruent(a * b);
    WrapBack(a, b);
    if Arith(Div, a, b).Some? {
      TruncDivLaw(a, b);
    }
  }

  lemma WrapCongruent(x: int)
    ensures (Wrap(x) - x) % TWO64 == 0
  {
  }

  lemma WrapBack(a: Int64, b: Int64)
    ensures Wrap(Wrap(a - b) + b) == a
  {
  }

  function Eval(e: Expr, s: Store): Option<Int64>
  {
    match e
    case Num(v) => Some(v)
    case Var(x) => Some(s[Index(x)])
    case Bin(op, l, r) =>
      match Eval(l, s)
      case None => None
      case Some(a) =>
        match Eval(r, s)
        case None => None
        case Some(b) => Arith(op, a, b)
  }

  predicate Compare(op: CmpOp, a: Int64, b: Int64)
  {
    match op
    case Lt => a < b
    case Eq => a == b
    case Gt => a > b
    case Missing => true
  }

  function EvalCond(c: Cond, s: Store): Option<bool>
  {
    match Eval(c.left, s)
    case None => None
    case Some(a) =>
      match Eval(c.right, s)
      case None => None
      case Some(b) => Some(Compare(c.op, a, b))
  }

  /** What a run has shown so far: it finished, it trapped, or it is still going. */
  datatype Outcome =
    | Done(store: Store, trace: seq<Int64>)
    | Trapped(trace: seq<Int64>)
    | Unfinished(trace: seq<Int64>)

  /** Puts the output of an earlier statement in front of a later outcome. */
  function After(trace: seq<Int64>, o: Outcome): Outcome
  {
    match o
    case Done(s, t) => Done(s, trace + t)
    case Trapped(t) => Trapped(trace + t)
    case Unfinished(t) => Unfinished(trace + t)
  }

  /** Runs a statement; `fuel` bounds how often any one loop head is reached, and a run
      that needs more is Unfinished. A program diverges when no amount of fuel suffices. */
  function Run(st: Stmt, s: Store, fuel: nat): Outcome
    decreases fuel, st, 1
  {
    match st
    case Print(e) =>
      (match Eval(e, s)
       case None => Trapped([])
       case Some(v) => Done(s, [v]))
    case Let(x, e) =>
      (match Eval(e, s)
       case None => Trapped([])
       case Some(v) => Done(s[Index(x) := v], []))
    case If(c, thn, els) =>
      (match EvalCond(c, s)
       case None => Trapped([])
       case Some(b) =>
         if b then Run(thn, s, fuel)
         else if els.Some? then Run(els.value, s, fuel)
         else Done(s, []))
    case While(c, body) =>
      if fuel == 0 then Unfinished([]) else
      (match EvalCond(c, s)
       case None => Trapped([])
       case Some(b) =>
         if !b then Done(s, []) else
         var first := Run(body, s, fuel);
         if first.Done? then After(first.trace, Run(st, first.store, fuel - 1)) else first)
    case Block(stmts) => RunAll(stmts, s, fuel)
  }

  function RunAll(stmts: seq<Stmt>, s: Store, fuel: nat): Outcome
    decreases fuel, stmts, 0
  {
    if stmts == [] then Done(s, []) else
    var first := Run(stmts[0], s, fuel);
    if first.Done? then After(first.trace, RunAll(stmts[1..], first.store, fuel)) else first
  }
}
