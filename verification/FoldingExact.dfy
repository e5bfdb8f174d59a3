/** When folding keeps the meaning of an expression or a condition, exactly: for one constant
    subexpression among variables that each occur once, whatever the operations around it. */
module FoldingExact {
  import opened Words
  import opened TeenyBasic
  import opened Folding

  function VarsOf(e: Expr): set<VarName>
  {
    match e
    case Num(_) => {}
    case Var(x) => {x}
    case Bin(_, l, r) => VarsOf(l) + VarsOf(r)
  }

  /** Every leaf is a variable, and no variable occurs twice. */
  predicate VariablesOnce(e: Expr)
  {
    match e
    case Num(_) => false
    case Var(_) => true
    case Bin(_, l, r) => VariablesOnce(l) && VariablesOnce(r) && VarsOf(l) !! VarsOf(r)
  }

  /** One constant subexpression of any size; every other leaf is a variable of its own. */
  predicate OneConstant(e: Expr)
  {
    Constant(e) ||
    (e.Bin? && VarsOf(e.left) !! VarsOf(e.right) &&
     ((OneConstant(e.left) && VariablesOnce(e.right)) || (VariablesOnce(e.left) && OneConstant(e.right))))
  }

  /** The constant is 0 but traps when it is replayed, and only products and dividends lead
      from it up to here, so that 0 is all this expression can ever be. */
  predicate ZeroOrTrap(e: Expr)
  {
    if Constant(e) then ConstValue(e) == Some(0) && Residue(e) == None
    else e.Bin? && ((e.op.Mul? && (ZeroOrTrap(e.left) || ZeroOrTrap(e.right)))
                    || (e.op.Div? && ZeroOrTrap(e.left)))
  }

  /** Such an expression is a divisor: with or without folding the division traps. */
  predicate Masked(e: Expr)
  {
    !Constant(e) && e.Bin? &&
    (Masked(e.left) || Masked(e.right) || (e.op.Div? && ZeroOrTrap(e.right)))
  }

  // ----- Variables -----

  ghost predicate AgreeOn(s: Store, t: Store, xs: set<VarName>)
  {
    forall x: VarName :: x in xs ==> s[Index(x)] == t[Index(x)]
  }

  ghost predicate AgreeOff(s: Store, t: Store, xs: set<VarName>)
  {
    forall x: VarName :: x !in xs ==> s[Index(x)] == t[Index(x)]
  }

  lemma {:induction false} EvalAgrees(e: Expr, s: Store, t: Store)
    requires AgreeOn(s, t, VarsOf(e))
    ensures Eval(e, s) == Eval(e, t)
  {
    if e.Bin? {
      EvalAgrees(e.left, s, t);
      EvalAgrees(e.right, s, t);
    }
  }

  lemma {:induction false} SetLeftmostVars(e: Expr, v: Int64)
    ensures VarsOf(SetLeftmost(e, v)) == VarsOf(e)
  {
    if e.Bin? {
      SetLeftmostVars(e.left, v);
    }
  }

  lemma {:induction false} FoldVars(e: Expr)
    requires !Fold(e).Crash?
    ensures VarsOf(Fold(e).tree) == VarsOf(e)
  {
    if e.Bin? {
      FoldVars(e.left);
      FoldVars(e.right);
      if Fold(e).Leaf? {
        SetLeftmostVars(Fold(e.left).tree, Fold(e).value);
      }
    }
  }

  lemma {:induction false} VariablesNotConstant(e: Expr)
    requires VariablesOnce(e)
    ensures !Constant(e) && NoConstantPair(e) && !ZeroOrTrap(e) && !Masked(e)
  {
    if e.Bin? {
      VariablesNotConstant(e.left);
      VariablesNotConstant(e.right);
    }
  }

  /** The right operand with which an operation returns its left one. */
  function Unit(op: ArithOp): (u: Int64)
    ensures forall a: Int64 :: Arith(op, a, u) == Some(a)
  {
    UnitWorks(op);
    if op.Mul? || op.Div? then 1 else 0
  }

  lemma UnitWorks(op: ArithOp)
    ensures forall a: Int64 :: Arith(op, a, if op.Mul? || op.Div? then 1 else 0) == Some(a)
  {
    forall a: Int64 ensures Wrap(a) == a {
      WrapIdentity(a);
    }
  }

  /** An expression of variables that occur once takes any value, by a choice of them alone. */
  lemma {:induction false} TakesAnyValue(e: Expr, s: Store, v: Int64) returns (t: Store)
    requires VariablesOnce(e)
    ensures Eval(e, t) == Some(v) && AgreeOff(s, t, VarsOf(e))
  {
    if e.Var? {
      t := s[Index(e.name) := v];
      assert forall x: VarName :: Index(x) == Index(e.name) ==> x == e.name;
    } else {
      var t1 := TakesAnyValue(e.left, s, v);
      t := TakesAnyValue(e.right, t1, Unit(e.op));
      EvalAgrees(e.left, t, t1);
    }
  }

  // ----- One operation tells two values apart -----

  function Apply(op: ArithOp, a: Option<Int64>, b: Option<Int64>): Option<Int64>
  {
    if a.None? || b.None? then None else Arith(op, a.value, b.value)
  }

  /** Two different outcomes that a division by them still tells apart. */
  predicate Apart(p: Option<Int64>, q: Option<Int64>)
  {
    p != q && !(p == None && q == Some(0)) && !(p == Some(0) && q == None)
  }

  lemma SmallQuotient(x: nat, y: nat)
    requires 0 < x <= y
    ensures x / y == if x == y then 1 else 0
  {
  }

  lemma TruncSmall(a: int, b: int)
    requires a != 0 && b != 0 && Abs(a) <= Abs(b)
    ensures TruncDiv(a, b) == if Abs(a) < Abs(b) then 0 else if a == b then 1 else -1
  {
    SmallQuotient(Abs(a), Abs(b));
  }

  /** Dividing the smaller of two divisors by both gives 1 and something else. */
  lemma QuotientsDiffer(a: Int64, b: Int64)
    requires a != b && a != 0 && b != 0 && Abs(a) <= Abs(b)
    ensures Arith(Div, a, a) == Some(1)
    ensures Arith(Div, a, b).Some? && Arith(Div, a, b) != Some(1)
  {
    hide TruncDiv;
    TruncSmall(a, a);
    TruncSmall(a, b);
  }

  lemma SelfQuotient(a: Int64)
    requires a != 0
    ensures Arith(Div, a, a) == Some(1)
  {
    hide TruncDiv;
    TruncSmall(a, a);
  }

  lemma DivideByZero(a: Int64)
    ensures Arith(Div, a, 0) == None
  {
  }

  lemma DivisorsApart(p: Option<Int64>, q: Option<Int64>) returns (d: Int64)
    requires Apart(p, q)
    ensures Apart(Apply(Div, Some(d), p), Apply(Div, Some(d), q))
  {
    hide Arith;
    if p.None? || p.value == 0 {
      d := q.value;
      SelfQuotient(d);
      DivideByZero(d);
    } else if q.None? || q.value == 0 {
      d := p.value;
      SelfQuotient(d);
      DivideByZero(d);
    } else if Abs(p.value) <= Abs(q.value) {
      d := p.value;
      QuotientsDiffer(p.value, q.value);
    } else {
      d := q.value;
      QuotientsDiffer(q.value, p.value);
    }
  }

  lemma Negated(p: Int64)
    ensures Wrap(0 - p) == if p == -TWO63 then p else -p
  {
    if p == -TWO63 {
      assert Wrap(TWO63) == -TWO63;
    } else {
      WrapIdentity(-p);
    }
  }

  lemma NegatesApart(p: Int64, q: Int64)
    requires p != q
    ensures Wrap(0 - p) != Wrap(0 - q)
    ensures p != 0 ==> Wrap(0 - p) != 0
  {
    Negated(p);
    Negated(q);
  }

  lemma LeftUnit(op: ArithOp, x: Int64)
    requires op.Add? || op.Mul?
    ensures Arith(op, if op.Mul? then 1 else 0, x) == Some(x)
  {
    WrapIdentity(x);
  }

  lemma Subtracted(x: Int64)
    ensures Arith(Sub, 0, x) == Some(Wrap(0 - x))
  {
  }

  lemma SubtrahendsApart(p: Option<Int64>, q: Option<Int64>)
    requires Apart(p, q)
    ensures Apart(Apply(Sub, Some(0), p), Apply(Sub, Some(0), q))
  {
    hide Arith, Wrap;
    if p.Some? {
      Subtracted(p.value);
    }
    if q.Some? {
      Subtracted(q.value);
    }
    if p.Some? && q.Some? {
      NegatesApart(p.value, q.value);
    } else if p.Some? {
      NegatesApart(p.value, 0);
    } else {
      NegatesApart(q.value, 0);
    }
  }

  /** Some left operand carries a difference through any operation. */
  lemma RightOperandsApart(op: ArithOp, p: Option<Int64>, q: Option<Int64>) returns (d: Int64)
    requires Apart(p, q)
    ensures Apart(Apply(op, Some(d), p), Apply(op, Some(d), q))
  {
    hide Arith;
    d := if op.Mul? then 1 else 0;
    match op
    case Div =>
      d := DivisorsApart(p, q);
    case Sub =>
      SubtrahendsApart(p, q);
    case _ =>
      if p.Some? {
        LeftUnit(op, p.value);
      }
      if q.Some? {
        LeftUnit(op, q.value);
      }
  }

  // ----- The whole context -----

  /** What `e` and its folded tree evaluate to. */
  function Outcomes(e: Expr, s: Store): (Option<Int64>, Option<Int64>)
    requires !Fold(e).Crash?
  {
    (Eval(e, s), Eval(Fold(e).tree, s))
  }

  lemma FoldedVariables(e: Expr)
    requires VariablesOnce(e)
    ensures Fold(e) == Kept(e) && !ConstantTrap(e) && Stable(e)
  {
    VariablesNotConstant(e);
    FoldWithoutPairs(e);
    NoPairIsStable(e);
  }

  /** Folding a node that is not constant folds its operands. */
  lemma NodeOutcomes(e: Expr, s: Store)
    requires e.Bin? && !Constant(e) && !ConstantTrap(e)
    ensures !Fold(e).Crash? && !Fold(e.left).Crash? && !Fold(e.right).Crash?
    ensures
      var (lp, lq), (rp, rq) := Outcomes(e.left, s), Outcomes(e.right, s);
      Outcomes(e, s) == (Apply(e.op, lp, rp), Apply(e.op, lq, rq))
  {
    FoldOutcome(e);
    FoldOutcome(e.left);
    FoldOutcome(e.right);
  }

  lemma OutcomesAgree(e: Expr, s: Store, t: Store)
    requires !Fold(e).Crash? && AgreeOn(s, t, VarsOf(e))
    ensures Outcomes(e, s) == Outcomes(e, t)
  {
    FoldVars(e);
    EvalAgrees(e, s, t);
    EvalAgrees(Fold(e).tree, s, t);
  }

  /** A folded expression that traps where the program has 0, or traps too. */
  lemma {:induction false} ZeroOutcomes(e: Expr, s: Store)
    requires OneConstant(e) && !ConstantTrap(e) && ZeroOrTrap(e)
    ensures !Fold(e).Crash? && !Stable(e)
    ensures var (p, q) := Outcomes(e, s); (p == None || p == Some(0)) && q == None
  {
    FoldOutcome(e);
    if Constant(e) {
      ConstantOutcomes(e, s);
    } else {
      NodeOutcomes(e, s);
      if ZeroOrTrap(e.left) {
        if VariablesOnce(e.left) {
          VariablesNotConstant(e.left);
          assert false;
        }
        ZeroOutcomes(e.left, s);
      } else {
        if VariablesOnce(e.right) {
          VariablesNotConstant(e.right);
          assert false;
        }
        ZeroOutcomes(e.right, s);
      }
      assert Wrap(0) == 0;
    }
  }

  lemma ConstantOutcomes(e: Expr, s: Store)
    requires Constant(e) && !ConstantTrap(e)
    ensures !Fold(e).Crash? && Outcomes(e, s) == (ConstValue(e), Residue(e))
  {
    FoldOutcome(e);
    FoldedConstantValue(e, Fold(e).value);
    ConstantValueIsItsMeaning(e, s);
    ConstantValueIsItsMeaning(Fold(e).tree, s);
  }

  /** A masked expression traps in every store, folded or not. */
  lemma {:induction false} MaskedOutcomes(e: Expr, s: Store)
    requires OneConstant(e) && !ConstantTrap(e) && Masked(e)
    ensures !Fold(e).Crash? && Outcomes(e, s) == (None, None)
  {
    NodeOutcomes(e, s);
    if Masked(e.left) {
      if VariablesOnce(e.left) {
        VariablesNotConstant(e.left);
        assert false;
      }
      MaskedOutcomes(e.left, s);
    } else {
      if VariablesOnce(e.right) {
        VariablesNotConstant(e.right);
        assert false;
      }
      if Masked(e.right) {
        MaskedOutcomes(e.right, s);
      } else {
        ZeroOutcomes(e.right, s);
      }
    }
  }

  /** The operand of `op` on the right of the constant that shows a difference. */
  lemma LeftOperandApart(op: ArithOp, p: Option<Int64>, q: Option<Int64>) returns (d: Int64)
    requires p != q && (Apart(p, q) || (p == Some(0) && q == None))
    ensures
      var pp, qq := Apply(op, p, Some(d)), Apply(op, q, Some(d));
      pp != qq && (Apart(p, q) || op.Add? || op.Sub? ==> Apart(pp, qq))
  {
    if Apart(p, q) || op.Mul? || op.Div? {
      d := Unit(op);
    } else {
      d := 1;
      assert Wrap(1) == 1 && Wrap(-1) == -1;
    }
  }

  lemma RightOperandApart(op: ArithOp, p: Option<Int64>, q: Option<Int64>) returns (d: Int64)
    requires p != q && (Apart(p, q) || (p == Some(0) && q == None && !op.Div?))
    ensures
      var pp, qq := Apply(op, Some(d), p), Apply(op, Some(d), q);
      pp != qq && (Apart(p, q) || op.Add? || op.Sub? ==> Apart(pp, qq))
  {
    if Apart(p, q) {
      d := RightOperandsApart(op, p, q);
    } else {
      d := 1;
      assert Wrap(1) == 1 && Wrap(0) == 0;
    }
  }

  /** Where neither the replay condition nor a trapping division hides the change, some
      values of the variables show it. */
  lemma {:induction false} ChangeShows(e: Expr) returns (s: Store)
    requires OneConstant(e) && !ConstantTrap(e) && !Stable(e) && !Masked(e)
    ensures !Fold(e).Crash?
    ensures var (p, q) := Outcomes(e, s); p != q && (!ZeroOrTrap(e) ==> Apart(p, q))
  {
    hide Eval, Arith;
    FoldOutcome(e);
    if Constant(e) {
      s := seq(NUM_VARS, _ => 0);
      ConstantOutcomes(e, s);
    } else if OneConstant(e.left) && VariablesOnce(e.right) {
      FoldedVariables(e.right);
      VariablesNotConstant(e.right);
      var t := ChangeShows(e.left);
      if ZeroOrTrap(e.left) {
        ZeroOutcomes(e.left, t);
      }
      var (p, q) := Outcomes(e.left, t);
      var d := LeftOperandApart(e.op, p, q);
      s := TakesAnyValue(e.right, t, d);
      OutcomesAgree(e.left, t, s);
      NodeOutcomes(e, s);
    } else {
      FoldedVariables(e.left);
      VariablesNotConstant(e.left);
      var t := ChangeShows(e.right);
      if ZeroOrTrap(e.right) {
        ZeroOutcomes(e.right, t);
      }
      var (p, q) := Outcomes(e.right, t);
      var d := RightOperandApart(e.op, p, q);
      s := TakesAnyValue(e.left, t, d);
      OutcomesAgree(e.right, t, s);
      NodeOutcomes(e, s);
    }
  }

  /** Folding keeps the meaning of an operand with one constant subexpression exactly when the
      replay condition holds or a division traps either way. */
  lemma OperandKeptIff(e: Expr)
    requires OneConstant(e) && !ConstantTrap(e)
    ensures !Fold(e).Crash?
    ensures SameMeaning(Fold(e).tree, e) <==> Stable(e) || Masked(e)
  {
    FoldOutcome(e);
    if Stable(e) || Masked(e) {
      forall s: Store ensures Eval(Fold(e).tree, s) == Eval(e, s) {
        if Stable(e) {
          StableFoldKeepsMeaning(e, s);
        } else {
          MaskedOutcomes(e, s);
        }
      }
    } else {
      var s := ChangeShows(e);
      assert Eval(Fold(e).tree, s) != Eval(e, s);
    }
  }

  /** The same for the expression of a PRINT, where a constant is always kept. */
  lemma PrintKeptIff(e: Expr)
    requires OneConstant(e) && !ConstantTrap(e)
    ensures FoldedExpr(e).Some?
    ensures SameMeaning(FoldedExpr(e).value, e) <==> Constant(e) || Stable(e) || Masked(e)
  {
    FoldOutcome(e);
    if Constant(e) {
      forall s: Store ensures Eval(FoldedExpr(e).value, s) == Eval(e, s) {
        FoldConstant(e, s);
      }
    } else {
      OperandKeptIff(e);
    }
  }

  // ----- One operation on one variable -----

  function BesideVariable(c: Expr, outer: ArithOp, x: VarName, onLeft: bool): Expr
  {
    if onLeft then Bin(outer, c, Var(x)) else Bin(outer, Var(x), c)
  }

  /** One constant operation beside a variable, on either side of any operation: folding keeps
      the meaning in every store exactly when (a op b) op b == a op b. */
  lemma PairWithVariableIff(op: ArithOp, a: Int64, b: Int64, outer: ArithOp, x: VarName, onLeft: bool)
    requires Arith(op, a, b).Some?
    ensures
      var e := BesideVariable(Bin(op, Num(a), Num(b)), outer, x, onLeft);
      var v := Arith(op, a, b).value;
      FoldedExpr(e).Some? &&
      (SameMeaning(FoldedExpr(e).value, e) <==> Arith(op, v, b) == Some(v))
  {
    hide Arith;
    var c := Bin(op, Num(a), Num(b));
    var e := BesideVariable(c, outer, x, onLeft);
    var v := Arith(op, a, b).value;
    PairResidue(op, a, b);
    if Residue(c).None? && v == 0 {
      OnlyZeroDivisorTraps(op, a, b);
      assert false;
    }
    ConstantVars(c);
    Beside(c, outer, x, onLeft);
    PrintKeptIff(e);
  }

  lemma {:induction false} ConstantVars(e: Expr)
    requires Constant(e)
    ensures VarsOf(e) == {}
  {
    if e.Bin? {
      ConstantVars(e.left);
      ConstantVars(e.right);
    }
  }

  lemma Beside(c: Expr, outer: ArithOp, x: VarName, onLeft: bool)
    requires Constant(c) && VarsOf(c) == {}
    ensures
      var e := BesideVariable(c, outer, x, onLeft);
      && OneConstant(e) && !Constant(e)
      && (ConstantTrap(e) <==> ConstantTrap(c)) && (Stable(e) <==> Stable(c))
      && (Masked(e) <==> outer.Div? && !onLeft && ZeroOrTrap(c))
  {
    hide ConstValue, Residue;
    assert VarsOf(Var(x)) == {x} && VariablesOnce(Var(x)) && Stable(Var(x)) && !ConstantTrap(Var(x));
    assert !Masked(Var(x)) && !Masked(c);
  }

  lemma PairResidue(op: ArithOp, a: Int64, b: Int64)
    requires Arith(op, a, b).Some?
    ensures
      var c := Bin(op, Num(a), Num(b));
      Constant(c) && ConstValue(c) == Arith(op, a, b) && Residue(c) == Arith(op, Arith(op, a, b).value, b)
  {
    hide Arith;
    var c := Bin(op, Num(a), Num(b));
    assert ConstValue(Num(a)) == Some(a) && ConstValue(Num(b)) == Some(b);
    assert Residue(Num(b)) == Some(b);
    assert Replay(Num(a), Arith(op, a, b).value) == Arith(op, a, b);
  }

  lemma OnlyZeroDivisorTraps(op: ArithOp, a: Int64, b: Int64)
    requires Arith(op, 0, b) == None
    ensures Arith(op, a, b) == None
  {
  }

  // ----- Conditions -----

  predicate OneConstantCond(c: Cond)
  {
    VarsOf(c.left) !! VarsOf(c.right) &&
    ((OneConstant(c.left) && VariablesOnce(c.right)) || (VariablesOnce(c.left) && OneConstant(c.right)))
  }

  ghost predicate CondKept(c: Cond)
  {
    FoldedCond(c).Some? && forall s: Store :: EvalCond(FoldedCond(c).value, s) == EvalCond(c, s)
  }

  function CompareOutcomes(op: CmpOp, a: Option<Int64>, b: Option<Int64>): Option<bool>
  {
    if a.None? || b.None? then None else Some(Compare(op, a.value, b.value))
  }

  lemma CondOutcomes(c: Cond, s: Store)
    requires !ConstantTrap(c.left) && !ConstantTrap(c.right)
    ensures FoldedCond(c).Some? && !Fold(c.left).Crash? && !Fold(c.right).Crash?
    ensures
      var (lp, lq), (rp, rq) := Outcomes(c.left, s), Outcomes(c.right, s);
      && EvalCond(c, s) == CompareOutcomes(c.op, lp, rp)
      && EvalCond(FoldedCond(c).value, s) == CompareOutcomes(c.op, lq, rq)
  {
    FoldOutcome(c.left);
    FoldOutcome(c.right);
  }

  /** Some value to compare with decides differently for two different outcomes. */
  lemma CompareApart(op: CmpOp, p: Option<Int64>, q: Option<Int64>, onLeft: bool) returns (d: Int64)
    requires p != q && !op.Missing?
    ensures onLeft ==> CompareOutcomes(op, p, Some(d)) != CompareOutcomes(op, q, Some(d))
    ensures !onLeft ==> CompareOutcomes(op, Some(d), p) != CompareOutcomes(op, Some(d), q)
  {
    if p.None? || q.None? {
      d := 0;
    } else {
      var low, high := p.value, q.value;
      if high < low {
        low, high := high, low;
      }
      d := if op.Lt? == onLeft then high else low;
    }
  }

  /** Folding keeps a comparison of an expression that has one constant with an expression of
      other variables, exactly when the replay condition holds or a division traps anyway. */
  lemma CondKeptIff(c: Cond)
    requires OneConstantCond(c) && !c.op.Missing?
    requires !ConstantTrap(c.left) && !ConstantTrap(c.right)
    ensures CondKept(c) <==> (Stable(c.left) && Stable(c.right)) || Masked(c.left) || Masked(c.right)
  {
    hide FoldedCond, EvalCond, Compare, Eval;
    if OneConstant(c.left) && VariablesOnce(c.right) {
      FoldedVariables(c.right);
      VariablesNotConstant(c.right);
      SideKeptIff(c, c.left, c.right);
    } else {
      FoldedVariables(c.left);
      VariablesNotConstant(c.left);
      SideKeptIff(c, c.right, c.left);
    }
  }

  /** `e` is the side with the constant. */
  lemma SideKeptIff(c: Cond, e: Expr, free: Expr)
    requires (c.left == e && c.right == free) || (c.left == free && c.right == e)
    requires OneConstant(e) && VariablesOnce(free) && VarsOf(e) !! VarsOf(free) && !c.op.Missing?
    requires !ConstantTrap(e) && !ConstantTrap(free)
    ensures CondKept(c) <==> Stable(e) || Masked(e)
  {
    hide FoldedCond, EvalCond, Compare, Eval;
    FoldedVariables(free);
    var zeros: Store := seq(NUM_VARS, _ => 0);
    CondOutcomes(c, zeros);
    if Stable(e) || Masked(e) {
      forall s: Store ensures EvalCond(FoldedCond(c).value, s) == EvalCond(c, s) {
        CondOutcomes(c, s);
        if Stable(e) {
          StableFoldKeepsMeaning(e, s);
        } else {
          MaskedOutcomes(e, s);
        }
      }
    } else {
      var t := ChangeShows(e);
      var (p, q) := Outcomes(e, t);
      var d := CompareApart(c.op, p, q, c.left == e);
      var s := TakesAnyValue(free, t, d);
      OutcomesAgree(e, t, s);
      CondOutcomes(c, s);
      assert EvalCond(FoldedCond(c).value, s) != EvalCond(c, s);
    }
  }

  /** A comparison of two constants is kept exactly when their replays compare the same way. */
  lemma ConstantCondKeptIff(c: Cond)
    requires Constant(c.left) && Constant(c.right) && !ConstantTrap(c.left) && !ConstantTrap(c.right)
    ensures CondKept(c) <==>
      CompareOutcomes(c.op, Residue(c.left), Residue(c.right))
      == CompareOutcomes(c.op, ConstValue(c.left), ConstValue(c.right))
  {
    hide FoldedCond, EvalCond, Compare, Eval, Residue, ConstValue;
    forall s: Store
      ensures FoldedCond(c).Some?
      ensures EvalCond(c, s) == CompareOutcomes(c.op, ConstValue(c.left), ConstValue(c.right))
      ensures EvalCond(FoldedCond(c).value, s) == CompareOutcomes(c.op, Residue(c.left), Residue(c.right))
    {
      CondOutcomes(c, s);
      ConstantOutcomes(c.left, s);
      ConstantOutcomes(c.right, s);
    }
    var zeros: Store := seq(NUM_VARS, _ => 0);
    assert FoldedCond(c).Some? && EvalCond(c, zeros) == EvalCond(c, zeros);
  }

  /** IF 1 + 2 < X with X == 4: the sum is folded to 3, the tree 3 + 2 is compiled, and the
      comparison turns from true to false. */
  lemma FoldChangesComparison(s: Store)
    requires s[Index('X')] == 4
    ensures
      var c := Cond(Lt, Bin(Add, Num(1), Num(2)), Var('X'));
      && FoldedCond(c) == Some(Cond(Lt, Bin(Add, Num(3), Num(2)), Var('X')))
      && EvalCond(c, s) == Some(true) && EvalCond(FoldedCond(c).value, s) == Some(false)
  {
    var e := Bin(Add, Num(1), Num(2));
    assert Fold(e) == Leaf(Bin(Add, Num(3), Num(2)), 3);
    assert Eval(e, s) == Some(3) && Eval(Fold(e).tree, s) == Some(5);
  }

  /** X / (0 / (2 - 1)): replaying the divisor traps, and so does dividing by its value 0. */
  lemma MaskedExample(x: VarName)
    ensures
      var e := Bin(Div, Var(x), Bin(Div, Num(0), Bin(Sub, Num(2), Num(1))));
      Masked(e) && !Stable(e)
  {
    var d := Bin(Sub, Num(2), Num(1));
    assert ConstValue(d) == Some(1) && Residue(d) == Some(0);
    var c := Bin(Div, Num(0), d);
    assert ConstValue(c) == Some(0) && Residue(c) == None;
    assert ZeroOrTrap(c);
  }
}
