/** The compiler as it works: it overwrites numbers in the syntax tree while folding, bumps
    its label counters and appends instructions to its output. */
module Compiler {
  import opened Words
  import opened TeenyBasic
  import opened Machine
  import opened Folding
  import opened CodeGen

  /** The mutable part of a syntax tree: the value field of a number node. */
  class NumCell {
    var value: Int64

    constructor (v: Int64)
      ensures value == v
    {
      value := v;
    }
  }

  datatype Node =
    | NumNode(cell: NumCell)
    | VarNode(name: VarName)
    | BinNode(op: ArithOp, left: Node, right: Node)

  datatype StmtNode =
    | PrintNode(expr: Node)
    | LetNode(name: VarName, value: Node)
    | IfNode(op: CmpOp, left: Node, right: Node, thn: StmtNode, els: Option<StmtNode>)
    | WhileNode(op: CmpOp, left: Node, right: Node, body: StmtNode)
    | SeqNode(stmts: seq<StmtNode>)

  function Cells(n: Node): set<NumCell>
  {
    match n
    case NumNode(c) => {c}
    case VarNode(_) => {}
    case BinNode(_, l, r) => Cells(l) + Cells(r)
  }

  /** A tree: no number node is shared. */
  ghost predicate Separate(n: Node)
  {
    n.BinNode? ==> Separate(n.left) && Separate(n.right) && Cells(n.left) !! Cells(n.right)
  }

  /** The expression a node currently stands for. */
  function View(n: Node): Expr
    reads Cells(n)
  {
    match n
    case NumNode(c) => Num(c.value)
    case VarNode(x) => Var(x)
    case BinNode(op, l, r) => Bin(op, View(l), View(r))
  }

  predicate LeftmostIs(n: Node, c: NumCell)
  {
    match n
    case NumNode(d) => c == d
    case VarNode(_) => false
    case BinNode(_, l, _) => LeftmostIs(l, c)
  }

  lemma {:induction false} LeftmostInside(n: Node, c: NumCell)
    requires LeftmostIs(n, c)
    ensures c in Cells(n)
  {
    if n.BinNode? {
      LeftmostInside(n.left, c);
    }
  }

  /** The expression a node stands for when its numbers are `vals`. */
  ghost function Denote(n: Node, vals: map<NumCell, Int64>): Expr
    requires Cells(n) <= vals.Keys
  {
    match n
    case NumNode(c) => Num(vals[c])
    case VarNode(x) => Var(x)
    case BinNode(op, l, r) => Bin(op, Denote(l, vals), Denote(r, vals))
  }

  lemma {:induction false} ViewIsDenote(n: Node, vals: map<NumCell, Int64>)
    requires Cells(n) <= vals.Keys && forall d :: d in Cells(n) ==> d.value == vals[d]
    ensures View(n) == Denote(n, vals)
  {
    if n.BinNode? {
      ViewIsDenote(n.left, vals);
      ViewIsDenote(n.right, vals);
    }
  }

  /** Writing the leftmost number of a tree whose numbers were `vals`. */
  lemma {:induction false} WriteLeftmost(n: Node, c: NumCell, vals: map<NumCell, Int64>)
    requires Separate(n) && LeftmostIs(n, c) && Cells(n) <= vals.Keys
    requires forall d :: d in Cells(n) && d != c ==> d.value == vals[d]
    ensures View(n) == SetLeftmost(Denote(n, vals), c.value)
  {
    if n.BinNode? {
      LeftmostInside(n.left, c);
      WriteLeftmost(n.left, c, vals);
      ViewIsDenote(n.right, vals);
    }
  }

  lemma {:induction false} CellsAllocated(n: Node)
    ensures forall d :: d in Cells(n) ==> allocated(d)
  {
    if n.BinNode? {
      CellsAllocated(n.left);
      CellsAllocated(n.right);
    }
  }

  lemma LeafCases(n: Node)
    ensures n.NumNode? ==> LeftmostIs(n, n.cell)
    ensures n.BinNode? ==> forall c :: LeftmostIs(n, c) <==> LeftmostIs(n.left, c)
  {
  }

  lemma FoldCases(e: Expr)
    ensures e.Num? ==> Fold(e) == Leaf(e, e.value)
    ensures e.Var? ==> Fold(e) == Kept(e)
    ensures e.Bin? ==>
      var fl, fr := Fold(e.left), Fold(e.right);
      if fl.Crash? || fr.Crash? then Fold(e) == Crash
      else if fl.Kept? || fr.Kept? then Fold(e) == Kept(Bin(e.op, fl.tree, fr.tree))
      else
        var v := Arith(e.op, fl.value, fr.value);
        if v.None? then Fold(e) == Crash
        else Fold(e) == Leaf(Bin(e.op, SetLeftmost(fl.tree, v.value), fr.tree), v.value)
  {
  }

  /** The operation on two numbers, stored into the left one, which is the leftmost of `tree`. */
  method StoreResult(op: ArithOp, ghost tree: Node, left: NumCell, right: NumCell) returns (crash: bool)
    requires Separate(tree) && LeftmostIs(tree, left) && left in Cells(tree)
    modifies left
    ensures crash == old(Arith(op, left.value, right.value)).None?
    ensures !crash ==>
      && left.value == old(Arith(op, left.value, right.value)).value
      && View(tree) == SetLeftmost(old(View(tree)), left.value)
  {
    var v := Arith(op, left.value, right.value);
    crash := v.None?;
    if !crash {
      ghost var vals := map c | c in Cells(tree) :: c.value;
      ViewIsDenote(tree, vals);
      CellsAllocated(tree);
      left.value := v.value;
      WriteLeftmost(tree, left, vals);
    }
  }

  /** compute_folds: `result` is what the caller's pointer refers to afterwards. */
  method ComputeFolds(n: Node) returns (crash: bool, result: Node)
    requires Separate(n)
    modifies Cells(n)
    ensures crash == old(Fold(View(n))).Crash?
    ensures !crash ==> View(n) == old(Fold(View(n))).tree
    ensures !crash && old(Fold(View(n))).Kept? ==> result == n
    ensures !crash && old(Fold(View(n))).Leaf? ==>
      && result.NumNode? && LeftmostIs(n, result.cell)
      && result.cell.value == old(Fold(View(n))).value
    decreases n
  {
    hide Arith, Fold, SetLeftmost, LeftmostIs;
    ghost var e := View(n);
    FoldCases(e);
    LeafCases(n);
    crash, result := false, n;
    if n.BinNode? {
      LeafCases(n.left);
      LeafCases(n.right);
      FoldCases(e.left);
      FoldCases(e.right);
      var left, right := n.left, n.right;
      CellsAllocated(n);
      ghost var before := map c | c in Cells(n) :: c.value;
      ViewIsDenote(n.right, before);
      if left.BinNode? {
        crash, left := ComputeFolds(left);
        if crash { return; }
      }
      ViewIsDenote(n.right, before);
      ghost var half := map c | c in Cells(n) :: c.value;
      ViewIsDenote(n.left, half);
      if right.BinNode? {
        crash, right := ComputeFolds(right);
        if crash { return; }
      }
      ViewIsDenote(n.left, half);
      ghost var after := map c | c in Cells(n) :: c.value;
      ViewIsDenote(n.right, after);
      if left.NumNode? && right.NumNode? {
        LeftmostInside(n.left, left.cell);
        LeftmostInside(n.right, right.cell);
        crash := StoreResult(n.op, n.left, left.cell, right.cell);
        if crash { return; }
        ViewIsDenote(n.right, after);
        result := left;
      }
    }
  }

  // ----- Statements -----

  function StmtCells(st: StmtNode): set<NumCell>
    decreases st, 1
  {
    match st
    case PrintNode(e) => Cells(e)
    case LetNode(_, e) => Cells(e)
    case IfNode(_, l, r, thn, els) =>
      Cells(l) + Cells(r) + StmtCells(thn) + (if els.Some? then StmtCells(els.value) else {})
    case WhileNode(_, l, r, body) => Cells(l) + Cells(r) + StmtCells(body)
    case SeqNode(stmts) => AllCells(stmts)
  }

  function AllCells(stmts: seq<StmtNode>): set<NumCell>
    decreases stmts, 0
  {
    if stmts == [] then {} else StmtCells(stmts[0]) + AllCells(stmts[1..])
  }

  ghost predicate StmtSeparate(st: StmtNode)
    decreases st, 1
  {
    match st
    case PrintNode(e) => Separate(e)
    case LetNode(_, e) => Separate(e)
    case IfNode(_, l, r, thn, els) =>
      && Separate(l) && Separate(r) && Cells(l) !! Cells(r) && StmtSeparate(thn)
      && Cells(l) + Cells(r) !! StmtCells(thn)
      && (els.Some? ==>
            StmtSeparate(els.value) && Cells(l) + Cells(r) + StmtCells(thn) !! StmtCells(els.value))
    case WhileNode(_, l, r, body) =>
      && Separate(l) && Separate(r) && Cells(l) !! Cells(r) && StmtSeparate(body)
      && Cells(l) + Cells(r) !! StmtCells(body)
    case SeqNode(stmts) => AllSeparate(stmts)
  }

  ghost predicate AllSeparate(stmts: seq<StmtNode>)
    decreases stmts, 0
  {
    stmts != [] ==>
      && StmtSeparate(stmts[0]) && AllSeparate(stmts[1..])
      && StmtCells(stmts[0]) !! AllCells(stmts[1..])
  }

  /** The statement a node currently stands for. */
  function StmtView(st: StmtNode): Stmt
    reads StmtCells(st)
    decreases st, 1
  {
    match st
    case PrintNode(e) => Print(View(e))
    case LetNode(x, e) => Let(x, View(e))
    case IfNode(op, l, r, thn, els) =>
      If(Cond(op, View(l), View(r)), StmtView(thn), if els.Some? then Some(StmtView(els.value)) else None)
    case WhileNode(op, l, r, body) => While(Cond(op, View(l), View(r)), StmtView(body))
    case SeqNode(stmts) => Block(AllView(stmts))
  }

  function AllView(stmts: seq<StmtNode>): (views: seq<Stmt>)
    reads AllCells(stmts)
    ensures |views| == |stmts|
    decreases stmts, 0
  {
    if stmts == [] then [] else [StmtView(stmts[0])] + AllView(stmts[1..])
  }

  lemma {:induction false} StmtCellsAllocated(st: StmtNode)
    ensures forall d :: d in StmtCells(st) ==> allocated(d)
    decreases st, 1
  {
    match st
    case PrintNode(e) => CellsAllocated(e);
    case LetNode(_, e) => CellsAllocated(e);
    case IfNode(_, l, r, thn, els) =>
      CellsAllocated(l);
      CellsAllocated(r);
      StmtCellsAllocated(thn);
      if els.Some? { StmtCellsAllocated(els.value); }
    case WhileNode(_, l, r, body) =>
      CellsAllocated(l);
      CellsAllocated(r);
      StmtCellsAllocated(body);
    case SeqNode(stmts) => AllCellsAllocated(stmts);
  }

  lemma {:induction false} AllCellsAllocated(stmts: seq<StmtNode>)
    ensures forall d :: d in AllCells(stmts) ==> allocated(d)
    decreases stmts, 0
  {
    if stmts != [] {
      StmtCellsAllocated(stmts[0]);
      AllCellsAllocated(stmts[1..]);
    }
  }

  /** Folding a comparison: it never folds itself, so its operands' trees are what remains. */
  method FoldOperands(l: Node, r: Node) returns (crash: bool)
    requires Separate(l) && Separate(r) && Cells(l) !! Cells(r)
    modifies Cells(l) + Cells(r)
    ensures crash == (old(FoldedOperand(View(l))).None? || old(FoldedOperand(View(r))).None?)
    ensures !crash ==>
      View(l) == old(FoldedOperand(View(l))).value && View(r) == old(FoldedOperand(View(r))).value
  {
    hide Fold;
    var moved;
    CellsAllocated(l);
    CellsAllocated(r);
    ghost var before := map c | c in Cells(r) :: c.value;
    ViewIsDenote(r, before);
    crash, moved := ComputeFolds(l);
    if !crash {
      ViewIsDenote(r, before);
      ghost var half := map c | c in Cells(l) :: c.value;
      ViewIsDenote(l, half);
      crash, moved := ComputeFolds(r);
      ViewIsDenote(l, half);
    }
  }

  function NodeSize(n: Node): (size: nat)
    ensures size >= 1
  {
    if n.BinNode? then 1 + NodeSize(n.left) + NodeSize(n.right) else 1
  }

  function Head(c: Cond, yes: Label, no: Label): seq<Instr>
  {
    EmitCond(c) + (EmitBranch(c.op, yes, no) + [Define(yes)])
  }

  lemma IfAssembled(out: seq<Instr>, c: Cond, n: int, no: Label, thn: seq<Instr>, els: seq<Instr>)
    ensures (((out + Head(c, IfLabel(n), no) + thn) + [Jmp(EndIfLabel(n))]) + [Define(ElseLabel(n))]) + els + [Define(EndIfLabel(n))]
      == out + IfCode(c, n, no, thn, els)
  {
    hide EmitCond, EmitBranch;
  }

  lemma WhileAssembled(out: seq<Instr>, c: Cond, n: int, body: seq<Instr>)
    ensures out + [Define(StartWhileLabel(n))] + Head(c, WhileLabel(n), WhileEndLabel(n)) + body
        + [Jmp(StartWhileLabel(n))] + [Define(WhileEndLabel(n))]
      == out + WhileCode(c, n, body)
  {
    hide EmitCond, EmitBranch;
  }

  lemma FoldIf(view: Stmt)
    requires view.If?
    ensures FoldStmt(view).Some? <==>
      FoldedCond(view.cond).Some? && FoldStmt(view.thn).Some? && (view.els.Some? ==> FoldStmt(view.els.value).Some?)
  {
    hide FoldedCond;
  }

  lemma EmitIf(view: Stmt, ifs: int, whiles: int)
    requires view.If?
    ensures FoldStmt(view).Some? ==>
      FoldedCond(view.cond).Some? && FoldStmt(view.thn).Some? && (view.els.Some? ==> FoldStmt(view.els.value).Some?) &&
      var t := Emit(FoldStmt(view.thn).value, ifs + 1, whiles);
      var f := if view.els.Some? then Emit(FoldStmt(view.els.value).value, t.ifs, t.whiles) else Emitted([], t.ifs, t.whiles);
      var no := if view.els.Some? then ElseLabel(ifs + 1) else EndIfLabel(ifs + 1);
      Emit(FoldStmt(view).value, ifs, whiles)
        == Emitted(IfCode(FoldedCond(view.cond).value, ifs + 1, no, t.code, f.code), f.ifs, f.whiles)
  {
    hide FoldedCond, IfCode;
  }

  class CodeWriter {
    var output: seq<Instr>
    var ifLocal: int
    var whileLocal: int

    constructor ()
      ensures output == [] && ifLocal == 0 && whileLocal == 0
    {
      output, ifLocal, whileLocal := [], 0, 0;
    }

    method Write(i: Instr)
      modifies this`output
      ensures output == old(output) + [i]
    {
      output := output + [i];
    }

    /** check_power_two: compiles `left` and shifts, if `right` is a power of two above one. */
    method CheckPowerTwo(left: Node, right: NumCell) returns (power: bool)
      modifies this`output
      ensures power == ShiftsInstead(right.value)
      ensures output == old(output)
        + if power then EmitExpr(old(View(left))) + [ShlRdi(Log2(right.value))] else []
      decreases NodeSize(left) + 1, 0
    {
      power := right.value > 1 && BitAnd(right.value, right.value - 1) == 0;
      if power {
        ghost var e := View(left);
        CompileExpr(left);
        Write(ShlRdi(Log2(right.value)));
        assert output == old(output) + (EmitExpr(e) + [ShlRdi(Log2(right.value))]);
      }
    }

    method CompileOperands(left: Node, right: Node)
      modifies this`output
      ensures output == old(output) + EmitOperands(EmitExpr(old(View(left))), EmitExpr(old(View(right))))
      decreases NodeSize(left) + NodeSize(right), 1
    {
      ghost var l, r := EmitExpr(View(left)), EmitExpr(View(right));
      CellsAllocated(right);
      CompileExpr(left);
      Write(PushRdi);
      assert View(right) == old(View(right));
      CompileExpr(right);
      Write(PushRdi);
      Write(PopRcx);
      Write(PopRdi);
      assert output == old(output) + (l + ([PushRdi] + (r + [PushRdi, PopRcx, PopRdi])));
    }

    /** compile_ast on NUM, VAR and arithmetic nodes. */
    method CompileExpr(n: Node)
      modifies this`output
      ensures output == old(output) + EmitExpr(old(View(n)))
      decreases NodeSize(n), 0
    {
      match n
      case NumNode(c) => Write(MovImmRdi(c.value));
      case VarNode(x) => Write(LoadRdi(Displacement(x)));
      case BinNode(op, left, right) =>
        var power := false;
        CellsAllocated(left);
        CellsAllocated(right);
        ghost var operands := EmitOperands(EmitExpr(View(left)), EmitExpr(View(right)));
        if right.NumNode? && op == Mul {
          power := CheckPowerTwo(left, right.cell);
        }
        if !power {
          assert output == old(output);
          assert View(left) == old(View(left)) && View(right) == old(View(right));
          CompileOperands(left, right);
          WriteOperation(op);
          assert output == old(output) + (operands + Operate(op));
        }
    }

    method WriteOperation(op: ArithOp)
      modifies this`output
      ensures output == old(output) + Operate(op)
    {
      match op
      case Add => Write(AddRcxRdi);
      case Sub => Write(SubRcxRdi);
      case Mul => Write(ImulRcxRdi);
      case Div =>
        Write(MovRdiRax);
        Write(Cqto);
        Write(IdivRcx);
        Write(MovRaxRdi);
    }

    method CompileCond(op: CmpOp, left: Node, right: Node, ghost c: Cond)
      requires c == Cond(op, View(left), View(right))
      modifies this`output
      ensures output == old(output) + EmitCond(c)
    {
      CompileOperands(left, right);
      if !op.Missing? {
        Write(CmpRcxRdi);
      }
      assert output == old(output) + (EmitOperands(EmitExpr(c.left), EmitExpr(c.right)) + EmitCompare(op));
    }

    method CompileBranch(op: CmpOp, yes: Label, no: Label)
      modifies this`output
      ensures output == old(output) + EmitBranch(op, yes, no)
    {
      match op
      case Lt =>
        Write(Jcc(L, yes));
        Write(Jcc(GE, no));
      case Gt =>
        Write(Jcc(G, yes));
        Write(Jcc(LE, no));
      case Eq =>
        Write(Jcc(E, yes));
        Write(Jcc(NE, no));
      case Missing =>
    }

    /** A condition's code, its two jumps and the label of the first. */
    method CompileHead(op: CmpOp, left: Node, right: Node, yes: Label, no: Label, ghost c: Cond)
      requires c == Cond(op, View(left), View(right))
      modifies this`output
      ensures output == old(output) + Head(c, yes, no)
    {
      CompileCond(op, left, right, c);
      CompileBranch(op, yes, no);
      Write(Define(yes));
      assert output == old(output) + (EmitCond(c) + (EmitBranch(op, yes, no) + [Define(yes)]));
    }

    /** What compiling `view` should have done to the writer, if the compiler survived. */
    twostate predicate Wrote(view: Stmt, ok: bool)
      reads this
    {
      var folded := FoldStmt(view);
      && ok == folded.Some?
      && (ok ==>
            var r := Emit(folded.value, old(ifLocal), old(whileLocal));
            output == old(output) + r.code && ifLocal == r.ifs && whileLocal == r.whiles)
    }

    /** compile_ast on statements; false stands for the compiler's own divide error. */
    method CompileStmt(st: StmtNode) returns (ok: bool)
      requires StmtSeparate(st)
      modifies this, StmtCells(st)
      ensures Wrote(old(StmtView(st)), ok)
      decreases st, 1
    {
      match st
      case PrintNode(e) => ok := CompilePrint(e);
      case LetNode(x, e) =>
        CompileExpr(e);
        Write(StoreRdi(Displacement(x)));
        assert output == old(output) + (EmitExpr(old(View(e))) + [StoreRdi(Displacement(x))]);
        ok := true;
      case IfNode(op, l, r, thn, els) => ok := CompileIf(st);
      case WhileNode(op, l, r, body) => ok := CompileWhile(st);
      case SeqNode(stmts) => ok := CompileAll(stmts);
    }

    method CompilePrint(e: Node) returns (ok: bool)
      requires Separate(e)
      modifies this`output, Cells(e)
      ensures Wrote(Print(old(View(e))), ok)
    {
      hide Fold;
      ghost var view := View(e);
      var crash, expression := false, e;
      FoldCases(view);
      if e.BinNode? {
        crash, expression := ComputeFolds(e);
      }
      ok := !crash;
      if ok {
        assert View(expression) == FoldedExpr(view).value;
        CompileExpr(expression);
        Write(CallPrintInt);
        assert output == old(output) + (EmitExpr(FoldedExpr(view).value) + [CallPrintInt]);
      }
    }

    method CompileIf(st: StmtNode) returns (ok: bool)
      requires st.IfNode? && StmtSeparate(st)
      modifies this, StmtCells(st)
      ensures Wrote(old(StmtView(st)), ok)
      decreases st, 0
    {
      hide Fold, Head, IfCode, Separate, Cells, FoldedOperand, EmitExpr, EmitCond, EmitBranch, FoldStmt, Emit;
      var IfNode(op, l, r, thn, els) := st;
      ghost var view := StmtView(st);
      FoldIf(view);
      EmitIf(view, ifLocal, whileLocal);
      StmtCellsAllocated(st);
      ifLocal := ifLocal + 1;
      var curLocal := ifLocal;
      var crash := FoldOperands(l, r);
      if crash { return false; }
      assert StmtView(thn) == view.thn && (els.Some? ==> StmtView(els.value) == view.els.value);
      ghost var c := FoldedCond(view.cond).value;
      var no := if els.Some? then ElseLabel(curLocal) else EndIfLabel(curLocal);
      CompileHead(op, l, r, IfLabel(curLocal), no, c);
      assert StmtView(thn) == view.thn && (els.Some? ==> StmtView(els.value) == view.els.value);
      ok := CompileStmt(thn);
      if !ok { return; }
      ghost var t := Emit(FoldStmt(view.thn).value, curLocal, old(whileLocal));
      assert els.Some? ==> StmtView(els.value) == view.els.value;
      Write(Jmp(EndIfLabel(curLocal)));
      Write(Define(ElseLabel(curLocal)));
      assert els.Some? ==> StmtView(els.value) == view.els.value;
      ghost var mid := output;
      ghost var f := Emitted([], t.ifs, t.whiles);
      ok := CompileElse(els, view.els);
      if !ok { return; }
      if els.Some? {
        f := Emit(FoldStmt(view.els.value).value, t.ifs, t.whiles);
      }
      assert output == mid + f.code;
      Write(Define(EndIfLabel(curLocal)));
      IfAssembled(old(output), c, curLocal, no, t.code, f.code);
    }

    method CompileElse(els: Option<StmtNode>, ghost view: Option<Stmt>) returns (ok: bool)
      requires els.Some? == view.Some?
      requires els.Some? ==> StmtSeparate(els.value) && StmtView(els.value) == view.value
      modifies this, if els.Some? then StmtCells(els.value) else {}
      ensures if els.Some? then Wrote(view.value, ok)
        else ok && output == old(output) && ifLocal == old(ifLocal) && whileLocal == old(whileLocal)
      decreases els, 0
    {
      ok := true;
      if els.Some? {
        ok := CompileStmt(els.value);
      }
    }

    method CompileWhile(st: StmtNode) returns (ok: bool)
      requires st.WhileNode? && StmtSeparate(st)
      modifies this, StmtCells(st)
      ensures Wrote(old(StmtView(st)), ok)
      decreases st, 0
    {
      hide Fold, Head, WhileCode;
      var WhileNode(op, l, r, body) := st;
      ghost var view := StmtView(st);
      StmtCellsAllocated(st);
      whileLocal := whileLocal + 1;
      var curLocal := whileLocal;
      var crash := FoldOperands(l, r);
      if crash { return false; }
      assert StmtView(body) == view.body;
      ghost var c := FoldedCond(view.cond).value;
      Write(Define(StartWhileLabel(curLocal)));
      assert c == Cond(op, View(l), View(r));
      CompileHead(op, l, r, WhileLabel(curLocal), WhileEndLabel(curLocal), c);
      assert StmtView(body) == view.body;
      ok := CompileStmt(body);
      if !ok { return; }
      ghost var b := Emit(FoldStmt(view.body).value, old(ifLocal), curLocal);
      Write(Jmp(StartWhileLabel(curLocal)));
      Write(Define(WhileEndLabel(curLocal)));
      WhileAssembled(old(output), c, curLocal, b.code);
    }

    /** The whole file: header, the program, footer. */
    method CompileFile(st: StmtNode) returns (ok: bool)
      requires StmtSeparate(st) && output == [] && ifLocal == 0 && whileLocal == 0
      modifies this, StmtCells(st)
      ensures ok == old(FoldStmt(StmtView(st))).Some?
      ensures ok ==> output == Assemble(old(FoldStmt(StmtView(st))).value)
    {
      hide FoldStmt, Emit;
      StmtCellsAllocated(st);
      ghost var view := StmtView(st);
      Write(PushRbp);
      Write(MovRspRbp);
      Write(SubRsp(8 * NUM_VARS));
      assert output == HEADER && StmtView(st) == view;
      ok := CompileStmt(st);
      if ok {
        Write(Leave);
        Write(Ret);
        assert output == HEADER + (Emit(FoldStmt(view).value, 0, 0).code + FOOTER);
      }
    }

    method CompileAll(stmts: seq<StmtNode>) returns (ok: bool)
      requires AllSeparate(stmts)
      modifies this, AllCells(stmts)
      ensures Wrote(Block(old(AllView(stmts))), ok)
      decreases stmts, 0
    {
      hide FoldStmt, Emit, StmtView, StmtCells, StmtSeparate, FoldAll, EmitAll, Progress;
      ghost var views := AllView(stmts);
      ghost var start := Emitted(output, ifLocal, whileLocal);
      ok := true;
      ProgressStart(views, start);
      assert stmts[0..] == stmts && views[0..] == views;
      for i := 0 to |stmts|
        invariant ok
        invariant AllSeparate(stmts[i..]) && AllCells(stmts[i..]) <= AllCells(stmts)
        invariant AllView(stmts[i..]) == views[i..]
        invariant Progress(views, start, i, Emitted(output, ifLocal, whileLocal))
      {
        AllCellsAllocated(stmts[i..]);
        assert stmts[i..][0] == stmts[i] && stmts[i..][1..] == stmts[i + 1..];
        assert views[i..][0] == views[i] && views[i..][1..] == views[i + 1..];
        ProgressStep(views, start, i, Emitted(output, ifLocal, whileLocal));
        ok := CompileStmt(stmts[i]);
        if !ok { return; }
        assert AllView(stmts[i + 1..]) == views[i + 1..];
      }
      ProgressEnd(views, start, Emitted(output, ifLocal, whileLocal));
    }
  }

  /** The first `i` statements of a block are compiled: what is left, compiled from `now`,
      completes what the block compiled from `start` should be. */
  ghost predicate Progress(views: seq<Stmt>, start: Emitted, i: nat, now: Emitted)
    requires i <= |views|
  {
    && FoldAll(views).Some? == FoldAll(views[i..]).Some?
    && (FoldAll(views).Some? ==>
          var whole := EmitAll(FoldAll(views).value, start.ifs, start.whiles);
          var rest := EmitAll(FoldAll(views[i..]).value, now.ifs, now.whiles);
          && now.code + rest.code == start.code + whole.code
          && rest.ifs == whole.ifs && rest.whiles == whole.whiles)
  }

  lemma ProgressStart(views: seq<Stmt>, start: Emitted)
    ensures Progress(views, start, 0, start)
  {
    assert views[0..] == views;
  }

  lemma ProgressStep(views: seq<Stmt>, start: Emitted, i: nat, now: Emitted)
    requires i < |views| && Progress(views, start, i, now)
    ensures FoldStmt(views[i]).None? ==> FoldStmt(Block(views)).None?
    ensures FoldStmt(views[i]).Some? ==>
      var r := Emit(FoldStmt(views[i]).value, now.ifs, now.whiles);
      Progress(views, start, i + 1, Emitted(now.code + r.code, r.ifs, r.whiles))
  {
    var rest := views[i..];
    assert rest[0] == views[i] && rest[1..] == views[i + 1..];
    if FoldAll(rest).Some? {
      var r := Emit(FoldStmt(views[i]).value, now.ifs, now.whiles);
      var folded := FoldAll(rest).value;
      assert folded[0] == FoldStmt(views[i]).value && folded[1..] == FoldAll(rest[1..]).value;
      var later := EmitAll(folded[1..], r.ifs, r.whiles);
      assert (now.code + r.code) + later.code == now.code + (r.code + later.code);
    }
  }

  lemma ProgressEnd(views: seq<Stmt>, start: Emitted, now: Emitted)
    requires Progress(views, start, |views|, now)
    ensures FoldStmt(Block(views)).Some?
    ensures
      var r := Emit(FoldStmt(Block(views)).value, start.ifs, start.whiles);
      now == Emitted(start.code + r.code, r.ifs, r.whiles)
  {
    assert views[|views|..] == [];
    assert now.code + [] == now.code;
  }
}
