/** Constant folding as the compiler performs it: the folded value is written into the
    leftmost number of the folded subtree, but only the caller's pointer is moved, so a
    parent that does not fold keeps the whole subtree. */
module Folding {
  import opened Words
  import opened TeenyBasic

  /** What folding a node leaves: `tree` is the node's subtree after the in-place writes.
      A Leaf node's pointer now refers to the leftmost number, which holds `value`; a Kept
      node's pointer is unchanged. Crash is a divide error inside the compiler. */
  datatype Folded = Crash | Kept(tree: Expr) | Leaf(tree: Expr, value: Int64)

  /** Overwrites the leftmost number (nothing happens if the leftmost leaf is a variable). */
  function SetLeftmost(e: Expr, v: Int64): Expr
  {
    match e
    case Num(_) => Num(v)
    case Var(_) => e
    case Bin(op, l, r) => Bin(op, SetLeftmost(l, v), r)
  }

  function Fold(e: Expr): Folded
  {
    match e
    case Num(v) => Leaf(e, v)
    case Var(_) => Kept(e)
    case Bin(op, l, r) =>
      var fl, fr := Fold(l), Fold(r);
      if fl.Crash? || fr.Crash? then Crash
      else if fl.Leaf? && fr.Leaf? then
        match Arith(op, fl.value, fr.value)
        case None => Crash
        case Some(v) => Leaf(Bin(op, SetLeftmost(fl.tree, v), fr.tree), v)
      else Kept(Bin(op, fl.tree, fr.tree))
  }

  /** The expression PRINT hands to the code generator; None if the compiler crashed. */
  function FoldedExpr(e: Expr): Option<Expr>
  {
    match Fold(e)
    case Crash => None
    case Kept(t) => Some(t)
    case Leaf(_, v) => Some(Num(v))
  }

  /** An operand of a comparison is compiled from the tree, never from the moved pointer. */
  function FoldedOperand(e: Expr): Option<Expr>
  {
    var f := Fold(e);
    if f.Crash? then None else Some(f.tree)
  }

  function FoldedCond(c: Cond): Option<Cond>
  {
    match (FoldedOperand(c.left), FoldedOperand(c.right))
    case (Some(l), Some(r)) => Some(Cond(c.op, l, r))
    case _ => None
  }

  predicate Constant(e: Expr)
  {
    match e
    case Num(_) => true
    case Var(_) => false
    case Bin(_, l, r) => Constant(l) && Constant(r)
  }

  /** The value of a constant expression, in any store. */
  function ConstValue(e: Expr): Option<Int64>
    requires Constant(e)
  {
    match e
    case Num(v) => Some(v)
    case Bin(op, l, r) =>
      match (ConstValue(l), ConstValue(r))
      case (Some(a), Some(b)) => Arith(op, a, b)
      case _ => None
  }

  /** Some constant subexpression traps, reached at run time or not. */
  predicate ConstantTrap(e: Expr)
  {
    if Constant(e) then ConstValue(e).None?
    else e.Bin? && (ConstantTrap(e.left) || ConstantTrap(e.right))
  }

  /** No operation has two constant operands. */
  predicate NoConstantPair(e: Expr)
  {
    match e
    case Num(_) => true
    case Var(_) => true
    case Bin(_, l, r) => !(Constant(l) && Constant(r)) && NoConstantPair(l) && NoConstantPair(r)
  }

  /** Starting from `start` in place of the leftmost number, apply the operations down the
      left spine of a constant expression, each right operand standing for `Replay` of
      itself from its own value. */
  function Replay(e: Expr, start: Int64): Option<Int64>
    requires Constant(e)
    decreases e, 0
  {
    match e
    case Num(_) => Some(start)
    case Bin(op, l, r) =>
      match (Replay(l, start), Residue(r))
      case (Some(a), Some(b)) => Arith(op, a, b)
      case _ => None
  }

  /** What a folded constant evaluates to when the code generator walks over it again. */
  function Residue(e: Expr): Option<Int64>
    requires Constant(e)
    decreases e, 1
  {
    match ConstValue(e)
    case None => None
    case Some(v) => Replay(e, v)
  }

  /** Every maximal constant subexpression gives its own value again when its operations
      are replayed from that value; for a single operation, (a op b) op b == a op b. */
  predicate Stable(e: Expr)
  {
    if Constant(e) then Residue(e) == ConstValue(e)
    else e.Bin? ==> Stable(e.left) && Stable(e.right)
  }

  /** Every constant subexpression that is not itself the left operand of a constant
      operation has its first number as its value, as in 7 * 1 or 1 + 2 - 2. */
  predicate ValueIsFirstNumber(e: Expr)
    decreases e, 1
  {
    if Constant(e) then ConstValue(e) == Some(Leftmost(e)) && RightOperandsNeutral(e)
    else e.Bin? ==> ValueIsFirstNumber(e.left) && ValueIsFirstNumber(e.right)
  }

  predicate RightOperandsNeutral(e: Expr)
    decreases e, 0
  {
    e.Bin? ==> RightOperandsNeutral(e.left) && ValueIsFirstNumber(e.right)
  }

  function Leftmost(e: Expr): Int64
    requires Constant(e)
  {
    if e.Num? then e.value else Leftmost(e.left)
  }

  lemma {:induction false} ConstantValueIsItsMeaning(e: Expr, s: Store)
    requires Constant(e)
    ensures Eval(e, s) == ConstValue(e)
  {
    if e.Bin? {
      ConstantValueIsItsMeaning(e.left, s);
      ConstantValueIsItsMeaning(e.right, s);
    }
  }

  /** Folding crashes the compiler exactly when a constant subexpression traps, and moves
      the pointer to a number exactly for a constant, to that constant's value. */
  lemma {:induction false} FoldOutcome(e: Expr)
    ensures Fold(e).Crash? <==> ConstantTrap(e)
    ensures Fold(e).Leaf? <==> Constant(e) && ConstValue(e).Some?
    ensures Fold(e).Leaf? ==> Fold(e).value == ConstValue(e).value
  {
    if e.Bin? {
      FoldOutcome(e.left);
      FoldOutcome(e.right);
    }
  }

  /** An all-constant PRINT is compiled as the one number it denotes. */
  lemma FoldConstant(e: Expr, s: Store)
    requires Constant(e) && !ConstantTrap(e)
    ensures Eval(e, s).Some? && FoldedExpr(e) == Some(Num(Eval(e, s).value))
  {
    FoldOutcome(e);
    ConstantValueIsItsMeaning(e, s);
  }

  /** Folding touches nothing in a tree without constant pairs. */
  lemma {:induction false} FoldWithoutPairs(e: Expr)
    requires NoConstantPair(e)
    ensures Fold(e) == if e.Num? then Leaf(e, e.value) else Kept(e)
  {
    if e.Bin? {
      FoldWithoutPairs(e.left);
      FoldWithoutPairs(e.right);
    }
  }

  /** The shape of a folded constant tree: still constant, leftmost number = the value. */
  lemma {:induction false} FoldedConstantShape(e: Expr)
    requires Constant(e) && Fold(e).Leaf?
    ensures Constant(Fold(e).tree) && Leftmost(Fold(e).tree) == Fold(e).value
  {
    FoldOutcome(e);
    if e.Bin? {
      FoldOutcome(e.left);
      FoldOutcome(e.right);
      FoldedConstantShape(e.left);
      FoldedConstantShape(e.right);
      SetLeftmostShape(Fold(e.left).tree, Fold(e).value);
    }
  }

  lemma {:induction false} SetLeftmostShape(e: Expr, v: Int64)
    requires Constant(e)
    ensures Constant(SetLeftmost(e, v)) && Leftmost(SetLeftmost(e, v)) == v
    ensures SetLeftmost(e, Leftmost(e)) == e
    ensures SetLeftmost(e, v) == e ==> Leftmost(e) == v
    ensures forall w: Int64 :: SetLeftmost(SetLeftmost(e, w), v) == SetLeftmost(e, v)
  {
    if e.Bin? {
      SetLeftmostShape(e.left, v);
    }
  }

  /** The tree a folded constant leaves behind has the value of the replay. */
  lemma {:induction false} FoldedConstantValue(e: Expr, v: Int64)
    requires Constant(e) && Fold(e).Leaf?
    ensures Constant(SetLeftmost(Fold(e).tree, v))
    ensures ConstValue(SetLeftmost(Fold(e).tree, v)) == Replay(e, v)
    ensures Constant(Fold(e).tree) && ConstValue(Fold(e).tree) == Residue(e)
  {
    FoldOutcome(e);
    FoldedConstantShape(e);
    var t := Fold(e).tree;
    SetLeftmostShape(t, v);
    if e.Bin? {
      FoldOutcome(e.left);
      FoldOutcome(e.right);
      FoldedConstantShape(e.left);
      var w := Fold(e).value;
      SetLeftmostShape(Fold(e.left).tree, v);
      SetLeftmostShape(Fold(e.left).tree, w);
      FoldedConstantValue(e.left, v);
      FoldedConstantValue(e.left, w);
      FoldedConstantValue(e.right, v);
    }
  }

  /** The meaning of the tree that folding leaves behind is unchanged whenever the
      replay condition holds. */
  lemma {:induction false} StableFoldKeepsMeaning(e: Expr, s: Store)
    requires Stable(e) && !ConstantTrap(e)
    ensures !Fold(e).Crash? && Eval(Fold(e).tree, s) == Eval(e, s)
  {
    FoldOutcome(e);
    if Constant(e) {
      FoldedConstantValue(e, Fold(e).value);
      ConstantValueIsItsMeaning(e, s);
      ConstantValueIsItsMeaning(Fold(e).tree, s);
    } else if e.Bin? {
      StableFoldKeepsMeaning(e.left, s);
      StableFoldKeepsMeaning(e.right, s);
      FoldOutcome(e.left);
      FoldOutcome(e.right);
    }
  }

  /** In particular, trees without constant pairs are safe to fold. */
  lemma {:induction false} NoPairIsStable(e: Expr)
    requires NoConstantPair(e)
    ensures Stable(e) && !ConstantTrap(e)
  {
    if e.Bin? {
      NoPairIsStable(e.left);
      NoPairIsStable(e.right);
    }
  }

  /** The subexpressions of `e` that the compiler folds to one number but compiles as trees:
      each keeps its meaning after folding. */
  ghost predicate ConstantsKeepMeaning(e: Expr)
  {
    if Constant(e) then !Fold(e).Crash? && forall s: Store :: Eval(Fold(e).tree, s) == Eval(e, s)
    else e.Bin? ==> ConstantsKeepMeaning(e.left) && ConstantsKeepMeaning(e.right)
  }

  /** Folding keeps every constant subexpression of an operand exactly under the replay
      condition. */
  lemma {:induction false} ConstantsKeptIffStable(e: Expr)
    requires !ConstantTrap(e)
    ensures ConstantsKeepMeaning(e) <==> Stable(e)
  {
    FoldOutcome(e);
    if Constant(e) {
      FoldedConstantValue(e, Fold(e).value);
      var s: Store := seq(NUM_VARS, _ => 0);
      ConstantValueIsItsMeaning(e, s);
      ConstantValueIsItsMeaning(Fold(e).tree, s);
      if Stable(e) {
        forall s: Store ensures Eval(Fold(e).tree, s) == Eval(e, s) {
          StableFoldKeepsMeaning(e, s);
        }
      }
    } else if e.Bin? {
      ConstantsKeptIffStable(e.left);
      ConstantsKeptIffStable(e.right);
    }
  }

  /** A folded constant tree differs from the original at most in its leftmost number
      exactly when its right operands are neutral. */
  lemma {:induction false} FoldIdentityUpToLeftmost(e: Expr)
    requires Constant(e) && !ConstantTrap(e)
    ensures Fold(e).Leaf? && Constant(Fold(e).tree)
    ensures SetLeftmost(Fold(e).tree, Leftmost(e)) == e <==> RightOperandsNeutral(e)
    decreases e, 0
  {
    FoldOutcome(e);
    FoldedConstantShape(e);
    if e.Bin? {
      FoldOutcome(e.left);
      FoldOutcome(e.right);
      FoldedConstantShape(e.left);
      SetLeftmostShape(Fold(e.left).tree, Fold(e).value);
      SetLeftmostShape(Fold(e.left).tree, Leftmost(e));
      FoldIdentityUpToLeftmost(e.left);
      FoldIdentityIff(e.right);
    }
  }

  /** Folding leaves the tree as it was exactly when the value of every constant
      subexpression it writes is already the first number there. */
  lemma {:induction false} FoldIdentityIff(e: Expr)
    requires !ConstantTrap(e)
    ensures !Fold(e).Crash?
    ensures Fold(e).tree == e <==> ValueIsFirstNumber(e)
    decreases e, 1
  {
    FoldOutcome(e);
    if Constant(e) {
      FoldedConstantShape(e);
      FoldIdentityUpToLeftmost(e);
      SetLeftmostShape(Fold(e).tree, Leftmost(e));
    } else if e.Bin? {
      FoldIdentityIff(e.left);
      FoldIdentityIff(e.right);
    }
  }

  /** PRINT (1 + 2) * X prints 5 * X: the sum is folded to 3, and the tree 3 + 2 is compiled. */
  lemma FoldChangesMeaning(s: Store)
    requires s[Index('X')] == 1
    ensures var e := Bin(Mul, Bin(Add, Num(1), Num(2)), Var('X'));
      && FoldedExpr(e) == Some(Bin(Mul, Bin(Add, Num(3), Num(2)), Var('X')))
      && Eval(e, s) == Some(3)
      && Eval(FoldedExpr(e).value, s) == Some(5)
  {
    var c := Bin(Add, Num(1), Num(2));
    assert Fold(c) == Leaf(Bin(Add, Num(3), Num(2)), 3);
    assert Eval(c, s) == Some(3) && Eval(Fold(c).tree, s) == Some(5);
  }

  ghost predicate SameMeaning(e: Expr, f: Expr)
  {
    forall s: Store :: Eval(e, s) == Eval(f, s)
  }
}
