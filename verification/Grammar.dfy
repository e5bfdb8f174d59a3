/** Which texts the parser accepts: a grammar over stretches of the text, stated without the parser's
    positions and trials, and the proof that every accepted text and its tree obey it. Every item may
    have spaces around it. Two rules accept more than the language has: see `ElsePart` and `Rest`. */
module Grammar {
  import opened Words
  import opened Characters
  import opened Syntax

  // ----- Words and symbols -----

  /** Spaces; null characters are passed over, too. */
  predicate Gap(s: string, p: nat, q: nat)
  {
    p <= q <= |s| && forall i :: p <= i < q ==> IsSpace(s[i]) || s[i] == '\0'
  }

  predicate Char(s: string, a: nat, q: nat, c: char)
  {
    a < q <= |s| && s[a] == c && Gap(s, a + 1, q)
  }

  ghost predicate Symbol(s: string, p: nat, q: nat, c: char)
  {
    exists a: nat :: Gap(s, p, a) && Char(s, a, q, c)
  }

  /** Only the first character of a word may be an operator. */
  predicate WordChars(s: string, a: nat, e: nat)
  {
    a < e <= |s| && !IsSpace(s[a]) && forall i :: a < i < e ==> !IsSpace(s[i]) && !IsOperator(s[i])
  }

  /** A word ends at a space, an operator or the end of the text. */
  predicate WordEnd(s: string, e: nat, q: nat)
  {
    && Gap(s, e, q) && (e == |s| || IsSpace(s[e]) || IsOperator(s[e]))
  }

  ghost predicate Word(s: string, p: nat, q: nat, t: string)
  {
    exists a: nat, e: nat ::
      Gap(s, p, a) && WordChars(s, a, e) && WordEnd(s, e, q) && e - a <= 100 && t == CString(s[a..e])
  }

  /** The first 101 characters of a word that is too long. */
  ghost predicate Overlong(s: string, p: nat, q: nat)
  {
    exists a: nat :: Gap(s, p, a) && WordChars(s, a, q) && q - a == 101
  }

  // ----- Expressions -----

  ghost predicate Factor(s: string, p: nat, q: nat, n: Node)
    decreases q - p, 0
  {
    || (n.Num? && exists t :: Word(s, p, q, t) && Strtol(t) == Some(n.value))
    || (n.Var? && IsVariable(n.name) && Symbol(s, p, q, n.name))
    || (exists a, b :: p < a < b < q && Symbol(s, p, a, '(') && Expression(s, a, b, n) && Symbol(s, b, q, ')'))
  }

  ghost predicate Term(s: string, p: nat, q: nat, n: Node)
    decreases q - p, 1
  {
    || Factor(s, p, q, n)
    || (n.Binary? && IsFactorOp(n.op)
        && exists a, b :: p < a < b < q && Term(s, p, a, n.left) && Symbol(s, a, b, n.op) && Factor(s, b, q, n.right))
  }

  ghost predicate Expression(s: string, p: nat, q: nat, n: Node)
    decreases q - p, 2
  {
    || Term(s, p, q, n)
    || (n.Binary? && IsTermOp(n.op)
        && exists a, b :: p < a < b < q && Expression(s, p, a, n.left) && Symbol(s, a, b, n.op) && Term(s, b, q, n.right))
  }

  /** The operator may be missing. */
  ghost predicate Comparison(s: string, p: nat, q: nat, n: Node)
  {
    n.Binary? &&
    exists a, b :: p < a <= b < q
      && Expression(s, p, a, n.left) && Expression(s, b, q, n.right)
      && if n.op == '\0' then Gap(s, a, b) else IsComparisonOp(n.op) && Symbol(s, a, b, n.op)
  }

  // ----- Statements -----

  /** From # to the end of the line. */
  predicate CommentLine(s: string, a: nat, q: nat)
  {
    && a < q <= |s| && s[a] == '#' && (forall i :: a < i < q - 1 ==> s[i] != '\n')
    && (q == |s| || (a + 1 < q && s[q - 1] == '\n'))
  }

  ghost predicate Comments(s: string, p: nat, q: nat)
    decreases q - p
  {
    || Gap(s, p, q)
    || (exists a, b :: p <= a < b <= q && Gap(s, p, a) && CommentLine(s, a, b) && Comments(s, b, q))
  }

  ghost predicate Statement(s: string, p: nat, q: nat, n: Node)
    decreases q - p, 3
  {
    exists a :: p <= a <= q && Comments(s, p, a) && Bare(s, a, q, n)
  }

  ghost predicate Bare(s: string, p: nat, q: nat, n: Node)
    decreases q - p, 2
  {
    match n
    case Print(e) => exists a :: p < a < q && Word(s, p, a, "PRINT") && Expression(s, a, q, e)
    case Let(x, e) =>
      && IsVariable(x)
      && exists a, b, c :: p < a < b < c < q
          && Word(s, p, a, "LET") && Symbol(s, a, b, x) && Symbol(s, b, c, '=') && Expression(s, c, q, e)
    case If(cond, thn, els) =>
      exists a, b, c, d :: p < a < b <= c <= d < q
        && Word(s, p, a, "IF") && Comparison(s, a, b, cond) && Body(s, b, c, thn)
        && ElsePart(s, c, d, els) && Ending(s, d, q, "IF")
    case While(cond, body) =>
      exists a, b, c :: p < a < b <= c < q
        && Word(s, p, a, "WHILE") && Comparison(s, a, b, cond) && Body(s, b, c, body) && Ending(s, c, q, "WHILE")
    case _ => false
  }

  ghost predicate Ending(s: string, p: nat, q: nat, w: string)
  {
    exists a :: p < a < q && Word(s, p, a, "END") && Word(s, a, q, w)
  }

  /** After ELSE, text that is no sequence of statements may be dropped. */
  ghost predicate ElsePart(s: string, p: nat, q: nat, els: Option<Node>)
    decreases q - p, 6
  {
    if els.Some? then exists a :: p < a <= q && Word(s, p, a, "ELSE") && Body(s, a, q, els.value)
    else p == q || exists a :: p < a <= q && Word(s, p, a, "ELSE")
  }

  /** A sequence of one statement is that statement. */
  ghost predicate Body(s: string, p: nat, q: nat, n: Node)
    decreases q - p, 5
  {
    exists ns, a :: p <= a <= q && Statements(s, p, a, ns) && Rest(s, a, q)
      && n == if |ns| == 1 then ns[0] else Sequence(ns)
  }

  ghost predicate Statements(s: string, p: nat, q: nat, ns: seq<Node>)
    decreases q - p, 4, ns
  {
    if ns == [] then p == q
    else
      var first, last := ns[..|ns| - 1], ns[|ns| - 1];
      exists a :: p <= a <= q && Statements(s, p, a, first) && Statement(s, a, q, last)
  }

  /** Comments before the end, or the start of a word that is too long. */
  ghost predicate Rest(s: string, p: nat, q: nat)
  {
    exists a: nat :: Comments(s, p, a) && (Gap(s, a, q) || Overlong(s, a, q))
  }

  /** Nothing but spaces up to the end, or up to a null character. */
  ghost predicate Ended(s: string, p: nat)
  {
    exists a: nat :: Gap(s, p, a) && (a == |s| || s[a] == '\0')
  }

  ghost predicate Program(s: string, n: Node)
  {
    exists q: nat :: Body(s, 0, q, n) && Ended(s, q)
  }

  // ----- What is read is a word or a symbol -----

  lemma {:induction false} SpacesSkipped(s: string, p: nat)
    requires p <= |s|
    ensures Gap(s, p, SkipSpaces(s, p))
    decreases |s| - p
  {
    if p < |s| && IsSpace(s[p]) {
      SpacesSkipped(s, p + 1);
    }
  }

  lemma NextRead(s: string, p: nat)
    requires p <= |s|
    ensures var (c, q) := Next(s, p);
      && Gap(s, p, if c == '\0' then q else q - 1)
      && (c != '\0' ==> Symbol(s, p, q, c))
      && (c == '\0' ==> Ended(s, p))
  {
    hide IsSpace;
    SpacesSkipped(s, p);
    var q := SkipSpaces(s, p);
    if q < |s| {
      assert Char(s, q, q + 1, s[q]);
    }
  }

  lemma TryRead(s: string, p: nat, k: Kind)
    requires p <= |s|
    ensures var (c, q) := Try(s, p, k);
      if c == '\0' then Gap(s, p, q) else Is(k, c) && Symbol(s, p, q, c)
  {
    hide Gap, Symbol, Ended, Next, Is;
    NextRead(s, p);
  }

  lemma WordDone(s: string, from: nat, a: nat, e: nat, q: nat)
    requires Gap(s, from, a) && WordChars(s, a, e) && e - a <= 100
    requires e == q == |s| || (e == q < |s| && IsOperator(s[e])) || (e < |s| && q == e + 1 && IsSpace(s[e]))
    ensures Word(s, from, q, CString(s[a..e]))
  {
    hide IsSpace, IsOperator, CString;
    assert WordEnd(s, e, q);
  }

  lemma OverlongDone(s: string, from: nat, a: nat, q: nat)
    requires Gap(s, from, a) && WordChars(s, a, q) && q - a == 101
    ensures Overlong(s, from, q)
  {
  }

  lemma SpaceAfter(s: string, from: nat, p: nat)
    requires Gap(s, from, p) && p < |s| && IsSpace(s[p])
    ensures Gap(s, from, p + 1)
  {
  }

  lemma CharAfter(s: string, a: nat, p: nat)
    requires a <= p < |s| && !IsSpace(s[p]) && (a < p ==> WordChars(s, a, p) && !IsOperator(s[p]))
    ensures WordChars(s, a, p + 1)
  {
  }

  lemma OneMore(s: string, a: nat, p: nat)
    requires a <= p < |s|
    ensures s[a..p + 1] == s[a..p] + [s[p]]
  {
  }

  lemma {:induction false} TokenFrom(s: string, from: nat, a: nat, p: nat)
    requires a <= p <= |s| && Gap(s, from, a) && p - a <= 101 && (a < p ==> WordChars(s, a, p))
    ensures var (t, q) := Token(s, p, s[a..p]);
      if t.Some? then Word(s, from, q, t.value) else (Gap(s, from, q) && q == |s|) || Overlong(s, from, q)
    decreases |s| - p
  {
    hide IsSpace, IsOperator, Gap, WordChars, WordEnd, Word, Overlong, CString;
    var t := s[a..p];
    if |t| > MAX_KEYWORD_LENGTH {
      OverlongDone(s, from, a, p);
    } else if p == |s| {
      if a < p {
        WordDone(s, from, a, p, p);
      }
    } else if IsOperator(s[p]) && t != [] {
      WordDone(s, from, a, p, p);
    } else if IsSpace(s[p]) {
      if t == [] {
        assert s[p + 1..p + 1] == t;
        SpaceAfter(s, from, p);
        TokenFrom(s, from, p + 1, p + 1);
      } else {
        WordDone(s, from, a, p, p + 1);
      }
    } else {
      OneMore(s, a, p);
      CharAfter(s, a, p);
      TokenFrom(s, from, a, p + 1);
    }
  }

  lemma TokenRead(s: string, p: nat)
    requires p <= |s|
    ensures var (t, q) := Token(s, p, []);
      if t.Some? then p < q && Word(s, p, q, t.value) else (Gap(s, p, q) && q == |s|) || Overlong(s, p, q)
  {
    hide Token, Word, Overlong;
    assert s[p..p] == [];
    TokenFrom(s, p, p, p);
  }

  // ----- Spaces after an item -----

  lemma GapJoin(s: string, p: nat, q: nat, r: nat)
    requires Gap(s, p, q) && Gap(s, q, r)
    ensures Gap(s, p, r)
  {
  }

  lemma SymbolLonger(s: string, p: nat, q: nat, c: char, r: nat)
    requires Symbol(s, p, q, c) && Gap(s, q, r)
    ensures Symbol(s, p, r, c)
  {
    var a: nat :| Gap(s, p, a) && Char(s, a, q, c);
    GapJoin(s, a + 1, q, r);
    assert Char(s, a, r, c);
  }

  lemma WordLonger(s: string, p: nat, q: nat, t: string, r: nat)
    requires Word(s, p, q, t) && Gap(s, q, r)
    ensures Word(s, p, r, t)
  {
    hide IsSpace, IsOperator, CString;
    var a: nat, e: nat :|
      Gap(s, p, a) && WordChars(s, a, e) && WordEnd(s, e, q) && e - a <= 100 && t == CString(s[a..e]);
    GapJoin(s, e, q, r);
    assert WordEnd(s, e, r);
  }

  lemma SymbolFrom(s: string, o: nat, p: nat, q: nat, c: char)
    requires Gap(s, o, p) && Symbol(s, p, q, c)
    ensures Symbol(s, o, q, c)
  {
    var a: nat :| Gap(s, p, a) && Char(s, a, q, c);
    GapJoin(s, o, p, a);
  }

  lemma WordFrom(s: string, o: nat, p: nat, q: nat, t: string)
    requires Gap(s, o, p) && Word(s, p, q, t)
    ensures Word(s, o, q, t)
  {
    hide IsSpace, IsOperator, CString;
    var a: nat, e: nat :|
      Gap(s, p, a) && WordChars(s, a, e) && WordEnd(s, e, q) && e - a <= 100 && t == CString(s[a..e]);
    GapJoin(s, o, p, a);
  }

  lemma WordSize(s: string, p: nat, q: nat, t: string)
    requires Word(s, p, q, t)
    ensures p < q <= |s|
  {
  }

  lemma SymbolSize(s: string, p: nat, q: nat, c: char)
    requires Symbol(s, p, q, c)
    ensures p < q <= |s|
  {
  }

  lemma FactorLonger(s: string, p: nat, q: nat, n: Node, r: nat)
    requires Factor(s, p, q, n) && Gap(s, q, r)
    ensures p < q && Factor(s, p, r, n)
  {
    hide Gap, Word, Symbol, Expression, Strtol;
    GapSize(s, q, r);
    if n.Num? && exists t :: Word(s, p, q, t) && Strtol(t) == Some(n.value) {
      var t :| Word(s, p, q, t) && Strtol(t) == Some(n.value);
      WordSize(s, p, q, t);
      WordLonger(s, p, q, t, r);
    } else if n.Var? && IsVariable(n.name) && Symbol(s, p, q, n.name) {
      SymbolSize(s, p, q, n.name);
      SymbolLonger(s, p, q, n.name, r);
    } else {
      var a, b :| p < a < b < q && Symbol(s, p, a, '(') && Expression(s, a, b, n) && Symbol(s, b, q, ')');
      SymbolLonger(s, b, q, ')', r);
    }
  }

  lemma GapSize(s: string, p: nat, q: nat)
    requires Gap(s, p, q)
    ensures p <= q <= |s|
  {
  }

  lemma TermLonger(s: string, p: nat, q: nat, n: Node, r: nat)
    requires Term(s, p, q, n) && Gap(s, q, r)
    ensures p < q && Term(s, p, r, n)
  {
    hide Gap, Symbol, Factor;
    GapSize(s, q, r);
    if Factor(s, p, q, n) {
      FactorLonger(s, p, q, n, r);
    } else {
      var a, b :| p < a < b < q && Term(s, p, a, n.left) && Symbol(s, a, b, n.op) && Factor(s, b, q, n.right);
      FactorLonger(s, b, q, n.right, r);
    }
  }

  lemma ExpressionLonger(s: string, p: nat, q: nat, n: Node, r: nat)
    requires Expression(s, p, q, n) && Gap(s, q, r)
    ensures p < q && Expression(s, p, r, n)
  {
    hide Gap, Symbol, Term;
    GapSize(s, q, r);
    if Term(s, p, q, n) {
      TermLonger(s, p, q, n, r);
    } else {
      var a, b :| p < a < b < q && Expression(s, p, a, n.left) && Symbol(s, a, b, n.op) && Term(s, b, q, n.right);
      TermLonger(s, b, q, n.right, r);
    }
  }

  // ----- What is read as an expression is one -----

  lemma NumRead(s: string, p: nat)
    requires p <= |s|
    ensures var (n, q) := NumAt(s, p);
      n.Some? ==> n.value.Num? && exists t :: Word(s, p, q, t) && Strtol(t) == Some(n.value.value)
  {
    hide Token, Word, Overlong, Gap, Strtol;
    TokenRead(s, p);
  }

  lemma {:induction false} FactorRead(s: string, p: nat)
    requires p <= |s|
    ensures var (n, q) := FactorAt(s, p); n.Some? ==> Factor(s, p, q, n.value)
    decreases |s| - p, 1
  {
    hide Try, Gap, Word, Symbol, NumAt, Strtol, ExprAt, Expression;
    var (open, q) := Try(s, p, OpenParen);
    TryRead(s, p, OpenParen);
    if open != '\0' {
      ExpressionRead(s, q);
      var (e, q') := ExprAt(s, q);
      TryRead(s, q', CloseParen);
      SymbolSize(s, p, q, '(');
      if FactorAt(s, p).0.Some? {
        ExpressionSize(s, q, q', e.value);
        SymbolSize(s, q', FactorAt(s, p).1, ')');
      }
    } else {
      var (v, q') := Try(s, q, Variable);
      TryRead(s, q, Variable);
      if v != '\0' {
        SymbolFrom(s, p, q, q', v);
      } else {
        GapJoin(s, p, q, q');
        NumRead(s, q');
        if NumAt(s, q').0.Some? {
          var t :| Word(s, q', NumAt(s, q').1, t) && Strtol(t) == Some(NumAt(s, q').0.value.value);
          WordFrom(s, p, q', NumAt(s, q').1, t);
        }
      }
    }
  }

  lemma GapHere(s: string, p: nat)
    requires p <= |s|
    ensures Gap(s, p, p)
  {
  }

  lemma ExpressionSize(s: string, p: nat, q: nat, n: Node)
    requires Expression(s, p, q, n) && q <= |s|
    ensures p < q
  {
    hide Gap, Expression;
    GapHere(s, q);
    ExpressionLonger(s, p, q, n, q);
  }

  lemma TermSize(s: string, p: nat, q: nat, n: Node)
    requires Term(s, p, q, n) && q <= |s|
    ensures p < q
  {
    hide Gap, Term;
    GapHere(s, q);
    TermLonger(s, p, q, n, q);
  }

  lemma FactorSize(s: string, p: nat, q: nat, n: Node)
    requires Factor(s, p, q, n) && q <= |s|
    ensures p < q
  {
    hide Gap, Factor;
    GapHere(s, q);
    FactorLonger(s, p, q, n, q);
  }

  lemma {:induction false} TermRead(s: string, p: nat)
    requires p <= |s|
    ensures var (n, q) := TermAt(s, p); n.Some? ==> Term(s, p, q, n.value)
    decreases |s| - p, 2
  {
    hide FactorAt, TermRest, Factor;
    FactorRead(s, p);
    var (l, q) := FactorAt(s, p);
    TermRestRead(s, p, q, l);
  }

  lemma {:induction false} TermRestRead(s: string, from: nat, p: nat, l: Option<Node>)
    requires from <= p <= |s| && (l.Some? ==> Term(s, from, p, l.value))
    ensures var (n, q) := TermRest(s, p, l); n.Some? ==> Term(s, from, q, n.value)
    decreases |s| - p, 0
  {
    hide Try, Gap, Symbol, FactorAt, Factor, Term;
    var (op, q) := Try(s, p, FactorOp);
    TryRead(s, p, FactorOp);
    if op == '\0' {
      if l.Some? {
        TermLonger(s, from, p, l.value, q);
      }
    } else {
      FactorRead(s, q);
      var (f, q') := FactorAt(s, q);
      if l.Some? && f.Some? {
        TermJoin(s, from, p, q, q', op, l.value, f.value);
      }
      TermRestRead(s, from, q', MakeBinary(op, l, f));
    }
  }

  lemma TermJoin(s: string, p: nat, a: nat, b: nat, q: nat, op: char, l: Node, r: Node)
    requires q <= |s| && a <= |s| && Term(s, p, a, l) && IsFactorOp(op) && Symbol(s, a, b, op) && Factor(s, b, q, r)
    ensures Term(s, p, q, Binary(op, l, r))
  {
    hide Symbol, Factor;
    TermSize(s, p, a, l);
    SymbolSize(s, a, b, op);
    FactorSize(s, b, q, r);
  }

  lemma {:induction false} ExpressionRead(s: string, p: nat)
    requires p <= |s|
    ensures var (n, q) := ExprAt(s, p); n.Some? ==> Expression(s, p, q, n.value)
    decreases |s| - p, 3
  {
    hide TermAt, ExprRest, Term;
    TermRead(s, p);
    var (l, q) := TermAt(s, p);
    ExpressionRestRead(s, p, q, l);
  }

  lemma {:induction false} ExpressionRestRead(s: string, from: nat, p: nat, l: Option<Node>)
    requires from <= p <= |s| && (l.Some? ==> Expression(s, from, p, l.value))
    ensures var (n, q) := ExprRest(s, p, l); n.Some? ==> Expression(s, from, q, n.value)
    decreases |s| - p, 0
  {
    hide Try, Gap, Symbol, TermAt, Term, Expression;
    var (op, q) := Try(s, p, TermOp);
    TryRead(s, p, TermOp);
    if op == '\0' {
      if l.Some? {
        ExpressionLonger(s, from, p, l.value, q);
      }
    } else {
      TermRead(s, q);
      var (t, q') := TermAt(s, q);
      if l.Some? && t.Some? {
        ExpressionJoin(s, from, p, q, q', op, l.value, t.value);
      }
      ExpressionRestRead(s, from, q', MakeBinary(op, l, t));
    }
  }

  lemma ExpressionJoin(s: string, p: nat, a: nat, b: nat, q: nat, op: char, l: Node, r: Node)
    requires q <= |s| && a <= |s| && Expression(s, p, a, l) && IsTermOp(op) && Symbol(s, a, b, op) && Term(s, b, q, r)
    ensures Expression(s, p, q, Binary(op, l, r))
  {
    hide Symbol, Term;
    ExpressionSize(s, p, a, l);
    SymbolSize(s, a, b, op);
    TermSize(s, b, q, r);
  }

  lemma ComparisonRead(s: string, p: nat)
    requires p <= |s|
    ensures var (n, q) := ComparisonAt(s, p); n.Some? ==> p < q && Comparison(s, p, q, n.value)
  {
    hide Try, Gap, Symbol, ExprAt, Expression;
    var (l, q) := ExprAt(s, p);
    var (op, q') := Try(s, q, ComparisonOp);
    var (e, q'') := ExprAt(s, q');
    ExpressionRead(s, p);
    TryRead(s, q, ComparisonOp);
    ExpressionRead(s, q');
    if l.Some? && e.Some? {
      ExpressionSize(s, p, q, l.value);
      ExpressionSize(s, q', q'', e.value);
    }
  }

  // ----- What is read as a statement is one -----

  lemma LineRead(s: string, p: nat, a: nat)
    requires Gap(s, p, a) && a < |s| && s[a] == '#'
    ensures CommentLine(s, a, SkipLine(s, a + 1))
  {
    hide SkipLine;
  }

  lemma {:induction false} CommentsRead(s: string, p: nat)
    requires p <= |s|
    ensures Comments(s, p, SkipComments(s, p))
    decreases |s| - p
  {
    hide SkipLine, Gap, Next;
    var (c, q) := Try(s, p, CommentStart);
    TryRead(s, p, CommentStart);
    if c != '\0' {
      HashRead(s, p);
      LineRead(s, p, q - 1);
      CommentsRead(s, SkipLine(s, q));
    }
  }

  lemma HashRead(s: string, p: nat)
    requires p <= |s| && Try(s, p, CommentStart).0 != '\0'
    ensures var q := Try(s, p, CommentStart).1; Gap(s, p, q - 1) && s[q - 1] == '#'
  {
    SpacesSkipped(s, p);
    hide Gap, IsSpace, SkipSpaces;
  }

  lemma LetRead(s: string, p: nat, from: nat)
    requires from < p <= |s| && Word(s, from, p, "LET")
    ensures var r := LetAt(s, p); r.node.Some? ==> Bare(s, from, r.pos, r.node.value)
  {
    hide Next, Word, Symbol, Gap, Ended, ExprAt, Expression;
    var (v, q) := Next(s, p);
    NextRead(s, p);
    if IsVariable(v) {
      var (c, q') := Next(s, q);
      NextRead(s, q);
      if c == '=' {
        ExpressionRead(s, q');
        var (e, q'') := ExprAt(s, q');
        if e.Some? {
          ExpressionSize(s, q', q'', e.value);
        }
      }
    }
  }

  lemma PrintRead(s: string, p: nat, from: nat)
    requires from < p <= |s| && Word(s, from, p, "PRINT")
    ensures var (e, q) := ExprAt(s, p); e.Some? ==> Bare(s, from, q, Print(e.value))
  {
    hide Word, ExprAt, Expression;
    ExpressionRead(s, p);
    var (e, q) := ExprAt(s, p);
    if e.Some? {
      ExpressionSize(s, p, q, e.value);
    }
  }

  lemma EndIfRead(s: string, c: Option<Node>, thn: Option<Node>, els: Option<Node>, t: Option<string>,
                  from: nat, a: nat, b: nat, d: nat, e: nat, p: nat)
    requires from < a <= b <= d <= e <= p <= |s| && Word(s, from, a, "IF")
    requires c.Some? ==> a < b && Comparison(s, a, b, c.value)
    requires thn.Some? ==> Body(s, b, d, thn.value)
    requires ElsePart(s, d, e, els)
    requires t.Some? ==> e < p && Word(s, e, p, t.value)
    ensures var r := EndIf(s, c, thn, els, t, p); r.node.Some? ==> Bare(s, from, r.pos, r.node.value)
  {
    hide Token, Word, Comparison, Body, ElsePart, Gap, Overlong;
    TokenRead(s, p);
    var (u, q) := Token(s, p, []);
    if t == Some("END") && u == Some("IF") {
      assert Ending(s, e, q, "IF");
    }
  }

  lemma {:induction false} IfRead(s: string, p: nat, from: nat)
    requires from < p <= |s| && Word(s, from, p, "IF")
    ensures var r := IfAt(s, p); r.node.Some? ==> Bare(s, from, r.pos, r.node.value)
    decreases |s| - p, 8
  {
    hide Token, Word, Comparison, ComparisonAt, Body, SequenceAt, Gap, Overlong, Bare, EndIf, ElsePart;
    var (c, q) := ComparisonAt(s, p);
    ComparisonRead(s, p);
    var (thn, q1) := SequenceAt(s, q);
    BodyRead(s, q);
    var (t, q2) := Token(s, q1, []);
    TokenRead(s, q1);
    if t == Some("ELSE") {
      var (els, q3) := SequenceAt(s, q2);
      BodyRead(s, q2);
      ElseRead(s, q1, q2, q3, els);
      var (t', q4) := Token(s, q3, []);
      TokenRead(s, q3);
      EndIfRead(s, c, thn, els, t', from, p, q, q1, q3, q4);
    } else {
      NoElse(s, q1);
      EndIfRead(s, c, thn, None, t, from, p, q, q1, q1, q2);
    }
  }

  lemma ElseRead(s: string, p: nat, a: nat, q: nat, els: Option<Node>)
    requires p < a <= q && Word(s, p, a, "ELSE") && (els.Some? ==> Body(s, a, q, els.value))
    ensures ElsePart(s, p, q, els)
  {
    hide Word, Body;
  }

  lemma NoElse(s: string, p: nat)
    ensures ElsePart(s, p, p, None)
  {
  }

  lemma {:induction false} WhileRead(s: string, p: nat, from: nat)
    requires from < p <= |s| && Word(s, from, p, "WHILE")
    ensures var r := WhileAt(s, p); r.node.Some? ==> Bare(s, from, r.pos, r.node.value)
    decreases |s| - p, 8
  {
    hide Token, Word, Comparison, ComparisonAt, Body, SequenceAt, Gap, Overlong;
    var (c, q) := ComparisonAt(s, p);
    ComparisonRead(s, p);
    var (body, q1) := SequenceAt(s, q);
    BodyRead(s, q);
    var (t, q2) := Token(s, q1, []);
    TokenRead(s, q1);
    var (u, q3) := Token(s, q2, []);
    TokenRead(s, q2);
    if t == Some("END") && u == Some("WHILE") {
      assert Ending(s, q1, q3, "WHILE");
    }
  }

  lemma {:induction false} StatementRead(s: string, p: nat)
    requires p <= |s|
    ensures var r := StatementAt(s, p);
      && (r.node.Some? ==> Statement(s, p, r.pos, r.node.value))
      && (r.end ==> Rest(s, p, r.pos))
    decreases |s| - p, 5
  {
    hide SkipComments, Comments, Token, Word, Gap, Overlong, ExprAt, LetAt, IfAt, WhileAt, Bare;
    var start := SkipComments(s, p);
    CommentsRead(s, p);
    GapHere(s, start);
    var (t, q) := Token(s, start, []);
    TokenRead(s, start);
    if t == Some("PRINT") {
      PrintRead(s, q, start);
    } else if t == Some("LET") {
      LetRead(s, q, start);
    } else if t == Some("IF") {
      IfRead(s, q, start);
    } else if t == Some("WHILE") {
      WhileRead(s, q, start);
    }
  }

  lemma {:induction false} BodyRead(s: string, p: nat)
    requires p <= |s|
    ensures var (n, q) := SequenceAt(s, p); n.Some? ==> Body(s, p, q, n.value)
    decreases |s| - p, 7
  {
    assert Statements(s, p, p, []);
    BodyRestRead(s, p, p, []);
  }

  lemma {:induction false} BodyRestRead(s: string, from: nat, p: nat, done: seq<Node>)
    requires from <= p <= |s| && Statements(s, from, p, done)
    ensures var (n, q) := SequenceRest(s, p, done); n.Some? ==> Body(s, from, q, n.value)
    decreases |s| - p, 6
  {
    hide StatementAt, Statement, Statements, Rest;
    StatementRead(s, p);
    var r := StatementAt(s, p);
    if r.end {
      BodyDone(s, from, p, r.pos, done);
    } else if r.node.Some? {
      StatementsStep(s, from, p, r.pos, done, r.node.value);
      BodyRestRead(s, from, r.pos, done + [r.node.value]);
    }
  }

  lemma BodyDone(s: string, p: nat, a: nat, q: nat, ns: seq<Node>)
    requires p <= a <= q && Statements(s, p, a, ns) && Rest(s, a, q)
    ensures Body(s, p, q, if |ns| == 1 then ns[0] else Sequence(ns))
  {
    hide Statements, Rest;
  }

  lemma StatementsStep(s: string, p: nat, a: nat, q: nat, ns: seq<Node>, n: Node)
    requires p <= a <= q && Statements(s, p, a, ns) && Statement(s, a, q, n)
    ensures Statements(s, p, q, ns + [n])
  {
    hide Statement;
    assert (ns + [n])[..|ns|] == ns;
  }

  /** Every text that is accepted, and the tree that is read from it, obey the grammar. */
  lemma AcceptedIsGrammatical(s: string)
    requires Parse(s).Some?
    ensures Program(s, Parse(s).value)
  {
    hide Body, SequenceAt, Next, Ended, Symbol, Gap;
    BodyRead(s, 0);
    NextRead(s, SequenceAt(s, 0).1);
  }
}
