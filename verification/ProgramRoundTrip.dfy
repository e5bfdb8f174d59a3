/** Reading back whole programs: what any program is written as parses to that program. */
module ProgramRoundTrip {
  import opened Words
  import opened Characters
  import opened Syntax
  import opened RoundTrip

  /** A comment is a line of its own wherever a statement may stand. */
  datatype Statement =
    | Comment(text: string)
    | PrintOf(value: Expr)
    | LetOf(name: char, value: Expr)
    | IfOf(op: char, left: Expr, right: Expr, thn: seq<Statement>)
    | IfElseOf(op: char, left: Expr, right: Expr, thn: seq<Statement>, els: seq<Statement>)
    | WhileOf(op: char, left: Expr, right: Expr, body: seq<Statement>)

  /** A comparison operator, or the null character for a comparison without one. */
  predicate ConditionOp(op: char)
  {
    IsComparisonOp(op) || op == '\0'
  }

  predicate StatementOk(st: Statement)
  {
    match st
    case Comment(t) => '\n' !in t
    case PrintOf(_) => true
    case LetOf(x, _) => IsVariable(x)
    case IfOf(op, _, _, thn) => ConditionOp(op) && AllOk(thn)
    case IfElseOf(op, _, _, thn, els) => ConditionOp(op) && AllOk(thn) && AllOk(els)
    case WhileOf(op, _, _, body) => ConditionOp(op) && AllOk(body)
  }

  predicate AllOk(ss: seq<Statement>)
  {
    forall i :: 0 <= i < |ss| ==> StatementOk(ss[i])
  }

  // ----- Trees and texts -----

  /** A sequence of one statement is that statement. */
  function SequenceOf(nodes: seq<Node>): Node
  {
    if |nodes| == 1 then nodes[0] else Sequence(nodes)
  }

  function StatementTree(st: Statement): Node
    requires !st.Comment?
  {
    match st
    case PrintOf(e) => Print(Tree(e))
    case LetOf(x, e) => Let(x, Tree(e))
    case IfOf(op, l, r, thn) => If(Binary(op, Tree(l), Tree(r)), SequenceOf(Trees(thn)), None)
    case IfElseOf(op, l, r, thn, els) =>
      If(Binary(op, Tree(l), Tree(r)), SequenceOf(Trees(thn)), Some(SequenceOf(Trees(els))))
    case WhileOf(op, l, r, body) => While(Binary(op, Tree(l), Tree(r)), SequenceOf(Trees(body)))
  }

  /** Comments leave no trace. */
  function Trees(ss: seq<Statement>): seq<Node>
  {
    if ss == [] then []
    else if ss[0].Comment? then Trees(ss[1..])
    else [StatementTree(ss[0])] + Trees(ss[1..])
  }

  function Wrapped(e: Expr): string
  {
    "(" + Show(e) + ")"
  }

  function ShowOperator(op: char): string
  {
    if op == '\0' then "" else [op]
  }

  function ShowCondition(op: char, l: Expr, r: Expr): string
  {
    Wrapped(l) + (ShowOperator(op) + (Wrapped(r) + "\n"))
  }

  function ShowStatement(st: Statement): string
  {
    match st
    case Comment(t) => "#" + (t + "\n")
    case PrintOf(e) => "PRINT " + (Wrapped(e) + "\n")
    case LetOf(x, e) => "LET " + ([x] + ("=" + (Wrapped(e) + "\n")))
    case IfOf(op, l, r, thn) => "IF " + (ShowCondition(op, l, r) + (ShowAll(thn) + "END IF\n"))
    case IfElseOf(op, l, r, thn, els) =>
      "IF " + (ShowCondition(op, l, r) + (ShowAll(thn) + ("ELSE\n" + (ShowAll(els) + "END IF\n"))))
    case WhileOf(op, l, r, body) => "WHILE " + (ShowCondition(op, l, r) + (ShowAll(body) + "END WHILE\n"))
  }

  function ShowAll(ss: seq<Statement>): string
  {
    if ss == [] then "" else ShowStatement(ss[0]) + ShowAll(ss[1..])
  }

  // ----- Positions between statements -----

  /** The text ends at p, or a keyword starts there. */
  predicate Keyword(s: string, p: nat)
  {
    p == |s| || (p < |s| && IsVariable(s[p]))
  }

  /** The same, or a comment starts there. */
  predicate Boundary(s: string, p: nat)
  {
    Keyword(s, p) || (p < |s| && s[p] == '#')
  }

  lemma TryBoundary(s: string, p: nat, k: Kind)
    requires Boundary(s, p) && k != Variable && k != CommentStart
    ensures Try(s, p, k) == ('\0', p)
  {
  }

  /** A newline before a boundary is skipped. */
  lemma TryNewline(s: string, p: nat, k: Kind)
    requires Has(s, p, "\n") && Boundary(s, p + 1) && k != Variable && k != CommentStart
    ensures Try(s, p, k) == ('\0', p + 1)
  {
    HasChar(s, p, '\n');
    assert SkipSpaces(s, p) == SkipSpaces(s, p + 1) == p + 1;
  }

  lemma CommentsKeyword(s: string, p: nat)
    requires Keyword(s, p)
    ensures SkipComments(s, p) == p
  {
    assert Try(s, p, CommentStart) == ('\0', p);
  }

  lemma {:induction false} LineSkipped(s: string, p: nat, t: string)
    requires Has(s, p, t + "\n") && '\n' !in t
    ensures SkipLine(s, p) == p + |t| + 1
    decreases |t|
  {
    assert s[p..p + |t| + 1] == t + "\n";
    if t == [] {
      assert s[p] == (t + "\n")[0];
    } else {
      assert s[p] == (t + "\n")[0] == t[0];
      assert t + "\n" == [t[0]] + (t[1..] + "\n");
      HasSplit(s, p, [t[0]], t[1..] + "\n");
      LineSkipped(s, p + 1, t[1..]);
    }
  }

  /** A comment line makes no difference to the statement, or the end, that follows it. */
  lemma CommentSkipped(s: string, p: nat, t: string)
    requires Has(s, p, ShowStatement(Comment(t))) && '\n' !in t
    ensures var q := p + |ShowStatement(Comment(t))|;
      p < q <= |s| && StatementAt(s, p) == StatementAt(s, q)
  {
    hide Token, LetAt, IfAt, WhileAt, ExprAt, SkipLine;
    HasSplit(s, p, "#", t + "\n");
    HasChar(s, p, '#');
    TryHit(s, p, CommentStart);
    LineSkipped(s, p + 1, t);
    var q := p + |ShowStatement(Comment(t))|;
    assert SkipComments(s, p) == SkipComments(s, SkipLine(s, p + 1)) == SkipComments(s, q);
  }

  /** A word followed by a space or a newline is a token, and the separator is taken with it. */
  lemma {:induction false} WordRun(s: string, p: nat, t: string, k: nat)
    requires p + k < |s| && IsSpace(s[p + k]) && 0 < |t| + k <= MAX_KEYWORD_LENGTH
    requires forall i :: p <= i < p + k ==> IsVariable(s[i])
    requires t != [] || k > 0
    ensures Token(s, p, t) == (Some(CString(t + s[p..p + k])), p + k + 1)
    decreases k
  {
    if k == 0 {
      assert t + s[p..p + k] == t;
    } else {
      WordRun(s, p + 1, t + [s[p]], k - 1);
      assert t + [s[p]] + s[p + 1..p + k] == t + s[p..p + k];
    }
  }

  lemma WordAt(s: string, p: nat, word: string, c: char)
    requires Has(s, p, word + [c]) && IsSpace(c) && 0 < |word| <= 10 && forall i :: 0 <= i < |word| ==> IsVariable(word[i])
    ensures Token(s, p, []) == (Some(word), p + |word| + 1)
  {
    hide CString;
    HasSplit(s, p, word, [c]);
    HasChar(s, p + |word|, c);
    forall i | p <= i < p + |word| ensures s[i] == word[i - p] {
      assert s[p..p + |word|][i - p] == s[i];
    }
    WordRun(s, p, [], |word|);
    assert [] + s[p..p + |word|] == word;
    assert CString(word) == word;
  }

  // ----- Expressions -----

  /** An expression in parentheses is a factor, whatever follows. */
  lemma WrappedFactor(s: string, p: nat, e: Expr)
    requires Has(s, p, Wrapped(e))
    ensures FactorAt(s, p) == (Some(Tree(e)), p + |Wrapped(e)|)
  {
    hide Try, Show, Tree, TermRest, NumAt;
    var q := p + 1 + |Show(e)|;
    assert Wrapped(e) == "(" + (Show(e) + ")");
    HasSplit(s, p, "(", Show(e) + ")");
    HasChar(s, p, '(');
    HasSplit(s, p + 1, Show(e), ")");
    HasChar(s, q, ')');
    TryHit(s, p, OpenParen);
    assert ExprAt(s, p + 1) == (Some(Tree(e)), q) by { InsideWrapped(s, p + 1, e); }
    TryHit(s, q, CloseParen);
    hide ExprAt;
  }

  lemma InsideWrapped(s: string, p: nat, e: Expr)
    requires Has(s, p, Show(e)) && p + |Show(e)| < |s| && s[p + |Show(e)|] == ')'
    ensures ExprAt(s, p) == (Some(Tree(e)), p + |Show(e)|)
  {
    hide Try, Show, Tree, FactorAt;
    var q := p + |Show(e)|;
    FactorRoundTrip(s, p, e);
    TryStop(s, q, FactorOp);
    TryStop(s, q, TermOp);
    assert TermAt(s, p) == TermRest(s, q, Some(Tree(e))) == (Some(Tree(e)), q);
    assert ExprRest(s, q, Some(Tree(e))) == (Some(Tree(e)), q);
  }

  /** Where neither kind of operator follows, the expression ends. */
  lemma WrappedExpr(s: string, p: nat, e: Expr, q: nat)
    requires Has(s, p, Wrapped(e)) && p + |Wrapped(e)| <= q <= |s|
    requires Try(s, p + |Wrapped(e)|, FactorOp) == ('\0', q) && Try(s, q, TermOp) == ('\0', q)
    ensures ExprAt(s, p) == (Some(Tree(e)), q)
  {
    hide Try, FactorAt, Wrapped, Tree;
    WrappedFactor(s, p, e);
    assert TermAt(s, p) == TermRest(s, p + |Wrapped(e)|, Some(Tree(e))) == (Some(Tree(e)), q);
    assert ExprRest(s, q, Some(Tree(e))) == (Some(Tree(e)), q);
  }

  /** An expression at the end of a line. */
  lemma LastExpr(s: string, p: nat, e: Expr)
    requires Has(s, p, Wrapped(e) + "\n") && Boundary(s, p + |Wrapped(e)| + 1)
    ensures ExprAt(s, p) == (Some(Tree(e)), p + |Wrapped(e)| + 1)
  {
    hide Try, ExprAt, Wrapped, Tree;
    var q := p + |Wrapped(e)|;
    HasSplit(s, p, Wrapped(e), "\n");
    TryNewline(s, q, FactorOp);
    TryBoundary(s, q + 1, TermOp);
    WrappedExpr(s, p, e, q + 1);
  }

  lemma HasFits(s: string, p: nat, t: string)
    requires Has(s, p, t)
    ensures p + |t| <= |s|
  {
  }

  lemma ConditionRoundTrip(s: string, p: nat, op: char, l: Expr, r: Expr)
    requires ConditionOp(op) && Has(s, p, ShowCondition(op, l, r)) && Boundary(s, p + |ShowCondition(op, l, r)|)
    ensures ComparisonAt(s, p) == (Some(Binary(op, Tree(l), Tree(r))), p + |ShowCondition(op, l, r)|)
  {
    hide Try, ExprAt, Wrapped, Tree, Has;
    HasFits(s, p, ShowCondition(op, l, r));
    var q := p + |Wrapped(l)|;
    var q' := q + |ShowOperator(op)|;
    HasSplit(s, p, Wrapped(l), ShowOperator(op) + (Wrapped(r) + "\n"));
    HasSplit(s, q, ShowOperator(op), Wrapped(r) + "\n");
    if op == '\0' {
      WrappedStart(s, q, r);
    } else {
      HasChar(s, q, op);
    }
    TryStop(s, q, FactorOp);
    TryStop(s, q, TermOp);
    TryStop(s, q, ComparisonOp);
    WrappedExpr(s, p, l, q);
    LastExpr(s, q', r);
  }

  lemma WrappedStart(s: string, p: nat, e: Expr)
    requires Has(s, p, Wrapped(e) + "\n")
    ensures p < |s| && s[p] == '('
  {
    assert Wrapped(e) + "\n" == "(" + (Show(e) + ")\n");
    HasSplit(s, p, "(", Show(e) + ")\n");
    HasChar(s, p, '(');
  }

  /** A comparison is accepted without an operator exactly when both its expressions are there
      and the next character after the first that is no space is none of the operators. */
  lemma MissingOperatorIff(s: string, p: nat)
    requires p <= |s|
    ensures
      var (l, q) := ExprAt(s, p);
      var next := SkipSpaces(s, q);
      var node := ComparisonAt(s, p).0;
      && (node.Some? && node.value.Binary? && node.value.op == '\0' <==>
           && l.Some? && (next == |s| || !IsComparisonOp(s[next]))
           && ExprAt(s, Try(s, q, ComparisonOp).1).0.Some?)
      && (node.Some? ==> node.value.Binary? && ConditionOp(node.value.op))
  {
    hide ExprAt;
  }

  // ----- Statements -----

  /** Where a sequence ends: at the end of the text, or in front of ELSE, END IF or END WHILE. */
  predicate Ends(s: string, p: nat)
  {
    p == |s| || Has(s, p, "ELSE\n") || Has(s, p, "END IF\n") || Has(s, p, "END WHILE\n")
  }

  lemma EndBoundary(s: string, p: nat)
    requires Ends(s, p)
    ensures Keyword(s, p) && Boundary(s, p)
  {
    if p < |s| {
      if Has(s, p, "ELSE\n") {
        HasSplit(s, p, "E", "LSE\n");
      } else if Has(s, p, "END IF\n") {
        HasSplit(s, p, "E", "ND IF\n");
      } else {
        HasSplit(s, p, "E", "ND WHILE\n");
      }
      HasChar(s, p, 'E');
    }
  }

  lemma EndTokens(s: string, p: nat, word: string)
    requires word == "IF" || word == "WHILE"
    requires Has(s, p, "END " + word + "\n")
    ensures Token(s, p, []) == (Some("END"), p + 4)
    ensures Token(s, p + 4, []) == (Some(word), p + 5 + |word|)
  {
    assert "END " + word + "\n" == "END" + [' '] + (word + ['\n']);
    HasSplit(s, p, "END" + [' '], word + ['\n']);
    WordAt(s, p, "END", ' ');
    WordAt(s, p + 4, word, '\n');
  }

  /** The end of a sequence is noticed, and the position restored. */
  lemma EndOfSequence(s: string, p: nat)
    requires Ends(s, p)
    ensures StatementAt(s, p) == Parsed(None, true, p)
  {
    hide Token, SkipComments, LetAt, IfAt, WhileAt, ExprAt;
    EndBoundary(s, p);
    CommentsKeyword(s, p);
    if p == |s| {
      NoToken(s);
    } else if Has(s, p, "ELSE\n") {
      assert "ELSE\n" == "ELSE" + ['\n'];
      WordAt(s, p, "ELSE", '\n');
    } else if Has(s, p, "END IF\n") {
      EndTokens(s, p, "IF");
    } else {
      EndTokens(s, p, "WHILE");
    }
  }

  lemma NoToken(s: string)
    ensures Token(s, |s|, []) == (None, |s|)
  {
  }

  /** Every statement starts with a keyword. */
  lemma StartsWithKeyword(s: string, p: nat, st: Statement)
    requires Has(s, p, ShowStatement(st))
    ensures Boundary(s, p) && |ShowStatement(st)| > 0 && p + |ShowStatement(st)| <= |s|
    ensures !st.Comment? ==> Keyword(s, p)
  {
    hide ShowAll, ShowCondition, Wrapped;
    var t := ShowStatement(st);
    assert |t| > 0 && (if st.Comment? then t[0] == '#' else IsVariable(t[0]));
    assert s[p..p + |t|][0] == s[p];
  }

  lemma PrintRoundTrip(s: string, p: nat, e: Expr)
    requires Has(s, p, ShowStatement(PrintOf(e))) && Boundary(s, p + |ShowStatement(PrintOf(e))|)
    ensures StatementAt(s, p) == Parsed(Some(Print(Tree(e))), false, p + |ShowStatement(PrintOf(e))|)
  {
    hide Token, SkipComments, ExprAt, Wrapped, Tree;
    StartsWithKeyword(s, p, PrintOf(e));
    CommentsKeyword(s, p);
    HasSplit(s, p, "PRINT ", Wrapped(e) + "\n");
    assert "PRINT " == "PRINT" + [' '];
    WordAt(s, p, "PRINT", ' ');
    LastExpr(s, p + 6, e);
  }

  lemma LetRoundTrip(s: string, p: nat, x: char, e: Expr)
    requires IsVariable(x) && Has(s, p, ShowStatement(LetOf(x, e))) && Boundary(s, p + |ShowStatement(LetOf(x, e))|)
    ensures StatementAt(s, p) == Parsed(Some(Let(x, Tree(e))), false, p + |ShowStatement(LetOf(x, e))|)
  {
    hide Token, SkipComments, ExprAt, Wrapped, Tree;
    StartsWithKeyword(s, p, LetOf(x, e));
    CommentsKeyword(s, p);
    HasSplit(s, p, "LET ", [x] + ("=" + (Wrapped(e) + "\n")));
    assert "LET " == "LET" + [' '];
    WordAt(s, p, "LET", ' ');
    HasSplit(s, p + 4, [x], "=" + (Wrapped(e) + "\n"));
    HasChar(s, p + 4, x);
    HasSplit(s, p + 5, "=", Wrapped(e) + "\n");
    HasChar(s, p + 5, '=');
    LastExpr(s, p + 6, e);
  }

  lemma {:induction false} StatementRoundTrip(s: string, p: nat, st: Statement)
    requires !st.Comment? && StatementOk(st) && Has(s, p, ShowStatement(st)) && Boundary(s, p + |ShowStatement(st)|)
    ensures StatementAt(s, p) == Parsed(Some(StatementTree(st)), false, p + |ShowStatement(st)|)
    decreases st, 1
  {
    match st {
      case PrintOf(e) => PrintRoundTrip(s, p, e);
      case LetOf(x, e) => LetRoundTrip(s, p, x, e);
      case IfOf(_, _, _, _) => IfRoundTrip(s, p, st);
      case IfElseOf(_, _, _, _, _) => IfElseRoundTrip(s, p, st);
      case WhileOf(_, _, _, _) => WhileRoundTrip(s, p, st);
    }
  }

  lemma KeywordStatement(s: string, p: nat, word: string)
    requires Has(s, p, word + [' ']) && (word == "IF" || word == "WHILE")
    ensures StatementAt(s, p) == if word == "IF" then IfAt(s, p + 3) else WhileAt(s, p + 6)
  {
    hide Token, SkipComments, IfAt, WhileAt, LetAt, ExprAt;
    WordAt(s, p, word, ' ');
    assert s[p..p + |word| + 1][0] == s[p];
    CommentsKeyword(s, p);
  }

  lemma EndHere(s: string, p: nat)
    requires Has(s, p, "ELSE\n") || Has(s, p, "END IF\n") || Has(s, p, "END WHILE\n")
    ensures Ends(s, p)
  {
  }

  /** The sequence between two parts of a statement. */
  lemma {:induction false} InnerSequence(s: string, p: nat, ss: seq<Statement>)
    requires AllOk(ss) && Has(s, p, ShowAll(ss)) && Ends(s, p + |ShowAll(ss)|)
    ensures SequenceAt(s, p) == (Some(SequenceOf(Trees(ss))), p + |ShowAll(ss)|)
    ensures Boundary(s, p)
    decreases ss, 3
  {
    hide SequenceRest, Trees, ShowAll;
    SequenceRoundTrip(s, p, ss, []);
    assert [] + Trees(ss) == Trees(ss);
  }

  lemma {:induction false} IfRoundTrip(s: string, p: nat, st: Statement)
    requires st.IfOf? && StatementOk(st) && Has(s, p, ShowStatement(st))
    ensures StatementAt(s, p) == Parsed(Some(StatementTree(st)), false, p + |ShowStatement(st)|)
    decreases st, 0
  {
    hide Token, ComparisonAt, SequenceAt, StatementAt, ShowCondition, Tree, ShowAll, Trees, SequenceOf, Boundary, Ends, Has;
    var IfOf(op, l, r, thn) := st;
    var c, t := ShowCondition(op, l, r), ShowAll(thn);
    var q1 := p + 3 + |c|;
    var q2 := q1 + |t|;
    HasSplit(s, p, "IF ", c + (t + "END IF\n"));
    HasSplit(s, p + 3, c, t + "END IF\n");
    HasSplit(s, q1, t, "END IF\n");
    assert "IF " == "IF" + [' '];
    KeywordStatement(s, p, "IF");
    EndHere(s, q2);
    InnerSequence(s, q1, thn);
    ConditionRoundTrip(s, p + 3, op, l, r);
    assert "END IF\n" == "END " + "IF" + "\n";
    EndTokens(s, q2, "IF");
  }

  lemma {:induction false} IfElseRoundTrip(s: string, p: nat, st: Statement)
    requires st.IfElseOf? && StatementOk(st) && Has(s, p, ShowStatement(st))
    ensures StatementAt(s, p) == Parsed(Some(StatementTree(st)), false, p + |ShowStatement(st)|)
    decreases st, 0
  {
    hide Token, ComparisonAt, SequenceAt, StatementAt, ShowCondition, Tree, ShowAll, Trees, SequenceOf, Boundary, Ends, Has;
    var IfElseOf(op, l, r, thn, els) := st;
    var c, t, u := ShowCondition(op, l, r), ShowAll(thn), ShowAll(els);
    var q1 := p + 3 + |c|;
    var q2 := q1 + |t|;
    var q3 := q2 + 5;
    var q4 := q3 + |u|;
    HasSplit(s, p, "IF ", c + (t + ("ELSE\n" + (u + "END IF\n"))));
    HasSplit(s, p + 3, c, t + ("ELSE\n" + (u + "END IF\n")));
    HasSplit(s, q1, t, "ELSE\n" + (u + "END IF\n"));
    HasSplit(s, q2, "ELSE\n", u + "END IF\n");
    HasSplit(s, q3, u, "END IF\n");
    assert "IF " == "IF" + [' '];
    KeywordStatement(s, p, "IF");
    EndHere(s, q2);
    EndHere(s, q4);
    InnerSequence(s, q1, thn);
    InnerSequence(s, q3, els);
    ConditionRoundTrip(s, p + 3, op, l, r);
    assert "ELSE\n" == "ELSE" + ['\n'];
    WordAt(s, q2, "ELSE", '\n');
    assert "END IF\n" == "END " + "IF" + "\n";
    EndTokens(s, q4, "IF");
  }

  lemma {:induction false} WhileRoundTrip(s: string, p: nat, st: Statement)
    requires st.WhileOf? && StatementOk(st) && Has(s, p, ShowStatement(st))
    ensures StatementAt(s, p) == Parsed(Some(StatementTree(st)), false, p + |ShowStatement(st)|)
    decreases st, 0
  {
    hide Token, ComparisonAt, SequenceAt, StatementAt, ShowCondition, Tree, ShowAll, Trees, SequenceOf, Boundary, Ends, Has;
    var WhileOf(op, l, r, body) := st;
    var c, t := ShowCondition(op, l, r), ShowAll(body);
    var q1 := p + 6 + |c|;
    var q2 := q1 + |t|;
    HasSplit(s, p, "WHILE ", c + (t + "END WHILE\n"));
    HasSplit(s, p + 6, c, t + "END WHILE\n");
    HasSplit(s, q1, t, "END WHILE\n");
    assert "WHILE " == "WHILE" + [' '];
    KeywordStatement(s, p, "WHILE");
    EndHere(s, q2);
    InnerSequence(s, q1, body);
    ConditionRoundTrip(s, p + 6, op, l, r);
    assert "END WHILE\n" == "END " + "WHILE" + "\n";
    EndTokens(s, q2, "WHILE");
  }

  lemma {:induction false} SequenceRoundTrip(s: string, p: nat, ss: seq<Statement>, done: seq<Node>)
    requires AllOk(ss) && Has(s, p, ShowAll(ss)) && Ends(s, p + |ShowAll(ss)|)
    ensures SequenceRest(s, p, done) == (Some(SequenceOf(done + Trees(ss))), p + |ShowAll(ss)|)
    ensures Boundary(s, p)
    decreases ss, 2
  {
    hide StatementAt, ShowStatement, StatementTree, Boundary, Ends, SequenceRest, ShowAll, Trees, Has, StatementOk, SequenceOf;
    Unfolded(ss);
    if ss == [] {
      EndBoundary(s, p);
      EndOfSequence(s, p);
      SequenceEnds(s, p, done);
      assert done + Trees(ss) == done;
    } else {
      var st, rest := ss[0], ss[1..];
      HasSplit(s, p, ShowStatement(st), ShowAll(rest));
      var q := p + |ShowStatement(st)|;
      StartsWithKeyword(s, p, st);
      if st.Comment? {
        NoNewline(ss);
        SequenceRoundTrip(s, q, rest, done);
        CommentSkipped(s, p, st.text);
        SequenceSame(s, p, done, q);
      } else {
        SequenceRoundTrip(s, q, rest, done + [StatementTree(st)]);
        StatementRoundTrip(s, p, st);
        SequenceStep(s, p, done, StatementTree(st), q);
        assert done + [StatementTree(st)] + Trees(rest) == done + Trees(ss);
      }
    }
  }

  lemma Unfolded(ss: seq<Statement>)
    ensures ss == [] ==> ShowAll(ss) == "" && Trees(ss) == []
    ensures ss != [] ==> ShowAll(ss) == ShowStatement(ss[0]) + ShowAll(ss[1..])
    ensures ss != [] && ss[0].Comment? ==> Trees(ss) == Trees(ss[1..])
    ensures ss != [] && !ss[0].Comment? ==> Trees(ss) == [StatementTree(ss[0])] + Trees(ss[1..])
  {
    hide ShowStatement, StatementTree;
  }

  lemma SequenceEnds(s: string, p: nat, done: seq<Node>)
    requires p <= |s| && StatementAt(s, p) == Parsed(None, true, p)
    ensures SequenceRest(s, p, done) == (Some(SequenceOf(done)), p)
  {
    hide StatementAt;
  }

  lemma NoNewline(ss: seq<Statement>)
    requires AllOk(ss) && ss != [] && ss[0].Comment?
    ensures '\n' !in ss[0].text
  {
  }

  lemma SequenceSame(s: string, p: nat, done: seq<Node>, q: nat)
    requires p <= q <= |s| && StatementAt(s, p) == StatementAt(s, q)
    ensures SequenceRest(s, p, done) == SequenceRest(s, q, done)
  {
    hide StatementAt;
  }

  lemma SequenceStep(s: string, p: nat, done: seq<Node>, n: Node, q: nat)
    requires p < q <= |s| && StatementAt(s, p) == Parsed(Some(n), false, q)
    ensures SequenceRest(s, p, done) == SequenceRest(s, q, done + [n])
  {
    hide StatementAt;
  }

  /** Parsing the text of any program gives back the program. */
  lemma ProgramReadBack(ss: seq<Statement>)
    requires AllOk(ss)
    ensures Parse(ShowAll(ss)) == Some(SequenceOf(Trees(ss)))
  {
    hide SequenceAt, Trees, SequenceOf;
    var s := ShowAll(ss);
    assert s[0..|s|] == s;
    InnerSequence(s, 0, ss);
  }

  // ----- Comments -----

  /** The program without its comments, inside statements too. */
  function Bare(ss: seq<Statement>): seq<Statement>
    decreases ss, 0
  {
    if ss == [] then []
    else if ss[0].Comment? then Bare(ss[1..])
    else [BareStatement(ss[0])] + Bare(ss[1..])
  }

  function BareStatement(st: Statement): (r: Statement)
    requires !st.Comment?
    ensures !r.Comment?
    decreases st, 1
  {
    match st
    case IfOf(op, l, r, thn) => IfOf(op, l, r, Bare(thn))
    case IfElseOf(op, l, r, thn, els) => IfElseOf(op, l, r, Bare(thn), Bare(els))
    case WhileOf(op, l, r, body) => WhileOf(op, l, r, Bare(body))
    case _ => st
  }

  lemma {:induction false} BareTrees(ss: seq<Statement>)
    requires AllOk(ss)
    ensures AllOk(Bare(ss)) && Trees(Bare(ss)) == Trees(ss)
    decreases ss, 0
  {
    if ss != [] {
      BareTrees(ss[1..]);
      if !ss[0].Comment? {
        BareTree(ss[0]);
        assert Bare(ss)[1..] == Bare(ss[1..]);
      }
    }
  }

  lemma {:induction false} BareTree(st: Statement)
    requires StatementOk(st) && !st.Comment?
    ensures StatementOk(BareStatement(st)) && StatementTree(BareStatement(st)) == StatementTree(st)
    decreases st, 1
  {
    match st {
      case IfOf(_, _, _, thn) => BareTrees(thn);
      case IfElseOf(_, _, _, thn, els) =>
        BareTrees(thn);
        BareTrees(els);
      case WhileOf(_, _, _, body) => BareTrees(body);
      case _ =>
    }
  }

  /** Comment lines before any statement, at the end of any sequence and at the end of the text make
      no difference to the tree. */
  lemma CommentsIgnored(ss: seq<Statement>)
    requires AllOk(ss)
    ensures Parse(ShowAll(ss)) == Parse(ShowAll(Bare(ss)))
  {
    hide Parse, Trees, ShowAll, Bare;
    BareTrees(ss);
    ProgramReadBack(ss);
    ProgramReadBack(Bare(ss));
  }
}
