/** Reading back what expressions are written as: parentheses, precedence and nesting. */
module RoundTrip {
  import opened Words
  import opened Characters
  import TeenyBasic
  import Numbers
  import StandardNumbers
  import opened Syntax

  type Expr = TeenyBasic.Expr

  function OpChar(op: TeenyBasic.ArithOp): char
  {
    match op
    case Add => '+'
    case Sub => '-'
    case Mul => '*'
    case Div => '/'
  }

  /** The parse tree of an expression. */
  function Tree(e: Expr): Node
  {
    match e
    case Num(n) => Num(n)
    case Var(x) => Var(x)
    case Bin(op, l, r) => Binary(OpChar(op), Tree(l), Tree(r))
  }

  function ShowNum(n: int): string
  {
    if n < 0 then "-" + Numbers.Written(-n, 10, false) else Numbers.Written(n, 10, false)
  }

  /** The fully parenthesised text of an expression. */
  function Show(e: Expr): string
  {
    match e
    case Num(n) => ShowNum(n)
    case Var(x) => [x]
    case Bin(op, l, r) => "(" + Show(l) + [OpChar(op)] + Show(r) + ")"
  }

  /** The text `t` stands at position p. */
  predicate Has(s: string, p: nat, t: string)
  {
    p + |t| <= |s| && s[p..p + |t|] == t
  }

  /** At position p a token ends: at the end of the text or at an operator. */
  predicate Stops(s: string, p: nat)
  {
    p == |s| || (p < |s| && IsOperator(s[p]))
  }

  lemma HasSplit(s: string, p: nat, t: string, u: string)
    requires Has(s, p, t + u)
    ensures Has(s, p, t) && Has(s, p + |t|, u)
  {
    assert s[p..p + |t|] == (t + u)[..|t|];
    assert s[p + |t|..p + |t| + |u|] == (t + u)[|t|..];
  }

  lemma HasChar(s: string, p: nat, c: char)
    requires Has(s, p, [c])
    ensures p < |s| && s[p] == c
  {
    assert s[p..p + 1][0] == s[p];
  }

  // ----- Numbers -----

  lemma {:induction false} WrittenDecimal(v: nat)
    ensures var t := Numbers.Written(v, 10, false);
      && (forall i :: 0 <= i < |t| ==> '0' <= t[i] <= '9')
      && t != [] && Digits(t, 10) == Some(v) && (t[0] == '0' <==> v == 0) && (v == 0 ==> t == "0")
  {
    var t := Numbers.Written(v, 10, false);
    if v >= 10 {
      WrittenDecimal(v / 10);
      assert t[..|t| - 1] == Numbers.Written(v / 10, 10, false);
    } else {
      assert t == [(48 + v) as char] && t[..0] == [] && DigitsValue(t[..0], 10) == 0;
      assert DigitsValue(t, 10) == DigitsValue(t[..0], 10) * 10 + v;
    }
  }

  lemma {:induction false} WrittenLength(v: nat, k: nat)
    requires k > 0 && v < Numbers.Power(10, k)
    ensures |Numbers.Written(v, 10, false)| <= k
  {
    if v >= 10 {
      WrittenLength(v / 10, k - 1);
    }
  }

  lemma NumLength(v: nat)
    requires v <= TWO63
    ensures |Numbers.Written(v, 10, false)| <= 20
  {
    assert Numbers.Power(10, 10) == 1_0000_000000;
    assert Numbers.Power(10, 20) == 1_0000_000000 * 1_0000_000000;
    WrittenLength(v, 20);
  }

  /** A single 0 is read in base 8. */
  lemma ZeroOctal()
    ensures Digits("0", 8) == Some(0)
  {
    assert "0"[..0] == [];
  }

  lemma StrtolDecimal(v: nat, negative: bool)
    requires if negative then 0 < v <= TWO63 else v < TWO63
    ensures var t := Numbers.Written(v, 10, false);
      Strtol(if negative then "-" + t else t) == Some(if negative then -(v as int) else v as int)
  {
    WrittenDecimal(v);
    var t := Numbers.Written(v, 10, false);
    hide Digits;
    if negative {
      assert ("-" + t)[1..] == t;
    } else if v == 0 {
      ZeroOctal();
    }
  }

  /** An integer constant of C, decimal, octal or hexadecimal, with or without a sign, is read as
      its value when that is in range. */
  lemma ConstantRead(sign: string, u: string)
    requires (sign == "" || sign == "+" || sign == "-") && StandardNumbers.Subject(u, 0)
    ensures
      var v: int := StandardNumbers.SubjectValue(u, 0);
      var x := if sign == "-" then -v else v;
      Strtol(sign + u) == if -TWO63 <= x < TWO63 then Some(x) else None
  {
    hide AreDigits, DigitsValue;
    var t := sign + u;
    NoDigits(u);
    if sign == "" {
      assert t == u;
    } else {
      assert t[1..] == u;
    }
  }

  lemma NoDigits(u: string)
    ensures |u| > 1 && (u[1] == 'x' || u[1] == 'X') ==> !AreDigits(u, 8) && !AreDigits(u, 10)
    ensures AreDigits(u, 8) || AreDigits(u, 10) ==> u != [] && u[0] != '-' && u[0] != '+'
  {
  }

  /** And nothing else is read, save the empty string. */
  lemma OnlyConstantsRead(t: string)
    requires Strtol(t).Some? && t != []
    ensures StandardNumbers.Subject(if t[0] == '-' || t[0] == '+' then t[1..] else t, 0)
  {
    hide DigitValue, DigitsValue;
  }

  lemma NumText(n: Int64)
    ensures var t := ShowNum(n);
      && 0 < |t| <= 21 && Strtol(t) == Some(n) && (t[0] == '-' || '0' <= t[0] <= '9')
      && (forall i :: 0 < i < |t| ==> '0' <= t[i] <= '9')
  {
    hide Strtol, Digits;
    var m: int := n;
    var v: nat := if m < 0 then -m else m;
    WrittenDecimal(v);
    NumLength(v);
    StrtolDecimal(v, m < 0);
  }

  /** A run of characters that are no separators becomes a token. */
  lemma {:induction false} TokenRun(s: string, p: nat, t: string, k: nat)
    requires p + k <= |s| && Stops(s, p + k) && 0 < |t| && |t| + k <= MAX_KEYWORD_LENGTH
    requires forall i :: p <= i < p + k ==> !IsSpace(s[i]) && !IsOperator(s[i])
    ensures Token(s, p, t) == (Some(CString(t + s[p..p + k])), p + k)
    decreases k
  {
    if k == 0 {
      assert t + s[p..p + k] == t;
    } else {
      TokenRun(s, p + 1, t + [s[p]], k - 1);
      assert t + [s[p]] + s[p + 1..p + k] == t + s[p..p + k];
    }
  }

  /** A text without separators, except perhaps an operator as its first character, is a token. */
  lemma TokenAt(s: string, p: nat, t: string)
    requires Has(s, p, t) && Stops(s, p + |t|) && 0 < |t| <= MAX_KEYWORD_LENGTH && !IsSpace(t[0])
    requires forall i :: 0 < i < |t| ==> !IsSpace(t[i]) && !IsOperator(t[i])
    requires forall i :: 0 <= i < |t| ==> t[i] != '\0'
    ensures Token(s, p, []) == (Some(t), p + |t|)
  {
    hide CString;
    forall i | p <= i < p + |t| ensures s[i] == t[i - p] {
      assert s[p..p + |t|][i - p] == s[i];
    }
    TokenRun(s, p + 1, [s[p]], |t| - 1);
    assert [s[p]] + s[p + 1..p + |t|] == t;
    assert [] + [s[p]] == [s[p]];
    assert CString(t) == t;
  }

  lemma NumRoundTrip(s: string, p: nat, n: Int64)
    requires Has(s, p, ShowNum(n)) && Stops(s, p + |ShowNum(n)|)
    ensures NumAt(s, p) == (Some(Num(n)), p + |ShowNum(n)|)
  {
    hide Token, Strtol, ShowNum;
    NumText(n);
    TokenAt(s, p, ShowNum(n));
  }

  // ----- Expressions -----

  lemma TryHit(s: string, p: nat, k: Kind)
    requires p < |s| && !IsSpace(s[p]) && s[p] != '\0' && Is(k, s[p])
    ensures Try(s, p, k) == (s[p], p + 1)
  {
  }

  lemma TryMiss(s: string, p: nat, k: Kind)
    requires p <= |s| && (p < |s| ==> !IsSpace(s[p]) && s[p] != '\0' && !Is(k, s[p]))
    ensures Try(s, p, k) == ('\0', p)
  {
  }

  /** Where a token ends, no space is skipped, and only an operator of the wanted kind is taken. */
  lemma TryStop(s: string, p: nat, k: Kind)
    requires Stops(s, p)
    ensures Try(s, p, k) == if p < |s| && Is(k, s[p]) then (s[p], p + 1) else ('\0', p)
  {
    if p < |s| && Is(k, s[p]) {
      TryHit(s, p, k);
    } else {
      TryMiss(s, p, k);
    }
  }

  lemma ShowStart(e: Expr)
    ensures |Show(e)| > 0
    ensures e.Num? ==> Show(e)[0] == '-' || '0' <= Show(e)[0] <= '9'
    ensures e.Var? ==> IsVariable(Show(e)[0])
    ensures e.Bin? ==> Show(e)[0] == '('
  {
    if e.Num? {
      NumText(e.value);
    }
  }

  /** A factor is read back wherever it stands. */
  lemma {:induction false} FactorRoundTrip(s: string, p: nat, e: Expr)
    requires Has(s, p, Show(e)) && Stops(s, p + |Show(e)|)
    ensures FactorAt(s, p) == (Some(Tree(e)), p + |Show(e)|)
    decreases e, 1
  {
    hide Token, Strtol, ShowNum, NumAt, Try;
    ShowStart(e);
    assert s[p] == Show(e)[0] by { assert s[p..p + |Show(e)|][0] == s[p]; }
    match e {
      case Num(n) =>
        TryMiss(s, p, OpenParen);
        TryMiss(s, p, Variable);
        NumRoundTrip(s, p, n);
      case Var(x) =>
        TryMiss(s, p, OpenParen);
        TryHit(s, p, Variable);
      case Bin(op, l, r) =>
        TryHit(s, p, OpenParen);
        Inside(s, p, e);
        TryHit(s, p + |Show(e)| - 1, CloseParen);
    }
  }

  /** Between the parentheses there is the expression. */
  lemma {:induction false} Inside(s: string, p: nat, e: Expr)
    requires e.Bin? && Has(s, p, Show(e)) && Stops(s, p + |Show(e)|)
    ensures s[p + |Show(e)| - 1] == ')'
    ensures ExprAt(s, p + 1) == (Some(Tree(e)), p + |Show(e)| - 1)
    decreases e, 0
  {
    hide Token, Strtol, ShowNum, NumAt, Try, FactorAt;
    var l, r, op := e.left, e.right, OpChar(e.op);
    var p1 := p + 1;
    var p2 := p1 + |Show(l)|;
    var p3 := p2 + 1;
    var p4 := p3 + |Show(r)|;
    Pieces(s, p, e);
    FactorRoundTrip(s, p1, l);
    FactorRoundTrip(s, p3, r);
    TryStop(s, p2, FactorOp);
    TryStop(s, p2, TermOp);
    TryStop(s, p4, FactorOp);
    TryStop(s, p4, TermOp);
    if IsFactorOp(op) {
      assert TermRest(s, p4, Some(Tree(e))) == (Some(Tree(e)), p4);
      assert TermRest(s, p2, Some(Tree(l))) == TermRest(s, p4, Some(Tree(e)));
      assert TermAt(s, p1) == (Some(Tree(e)), p4);
      assert ExprRest(s, p4, Some(Tree(e))) == (Some(Tree(e)), p4);
    } else {
      assert TermRest(s, p2, Some(Tree(l))) == (Some(Tree(l)), p2);
      assert TermAt(s, p1) == (Some(Tree(l)), p2);
      assert TermRest(s, p4, Some(Tree(r))) == (Some(Tree(r)), p4);
      assert TermAt(s, p3) == (Some(Tree(r)), p4);
      assert ExprRest(s, p4, Some(Tree(e))) == (Some(Tree(e)), p4);
    }
  }

  lemma ShowBinary(e: Expr)
    requires e.Bin?
    ensures Show(e) == "(" + (Show(e.left) + ([OpChar(e.op)] + (Show(e.right) + ")")))
  {
  }

  lemma OpStops(op: TeenyBasic.ArithOp)
    ensures IsOperator(OpChar(op)) && IsOperator(')')
  {
  }

  lemma Pieces(s: string, p: nat, e: Expr)
    requires e.Bin? && Has(s, p, Show(e))
    ensures var p2 := p + 1 + |Show(e.left)|;
      var p4 := p2 + 1 + |Show(e.right)|;
      && Has(s, p + 1, Show(e.left)) && Has(s, p2 + 1, Show(e.right)) && p4 + 1 == p + |Show(e)|
      && p4 < |s| && s[p2] == OpChar(e.op) && s[p4] == ')' && Stops(s, p2) && Stops(s, p4)
  {
    hide Show, Has, OpChar, IsOperator;
    var l, r, op := Show(e.left), Show(e.right), [OpChar(e.op)];
    ShowBinary(e);
    OpStops(e.op);
    HasSplit(s, p, "(", l + (op + (r + ")")));
    HasSplit(s, p + 1, l, op + (r + ")"));
    HasSplit(s, p + 1 + |l|, op, r + ")");
    HasSplit(s, p + 2 + |l|, r, ")");
    HasChar(s, p + 1 + |l|, OpChar(e.op));
    HasChar(s, p + 2 + |l| + |r|, ')');
  }

  /** Parsing the fully parenthesised text of an expression gives the expression. */
  lemma ParenthesisedRoundTrip(e: Expr)
    ensures ExprAt(Show(e), 0) == (Some(Tree(e)), |Show(e)|)
  {
    hide Token, Strtol, ShowNum, NumAt, Try, FactorAt;
    var s := Show(e);
    assert s[0..|s|] == s;
    FactorRoundTrip(s, 0, e);
    TryStop(s, |s|, FactorOp);
    TryStop(s, |s|, TermOp);
    assert TermAt(s, 0) == TermRest(s, |s|, Some(Tree(e))) == (Some(Tree(e)), |s|);
    assert ExprRest(s, |s|, Some(Tree(e))) == (Some(Tree(e)), |s|);
  }

  // ----- Chains without parentheses -----

  /** Factors joined by `*` and `/`, and such products joined by `+` and `-`. */
  datatype Product = Product(first: Expr, rest: seq<(char, Expr)>)
  datatype Sum = Sum(first: Product, rest: seq<(char, Product)>)

  predicate ProductOk(c: Product)
  {
    forall i :: 0 <= i < |c.rest| ==> IsFactorOp(c.rest[i].0)
  }

  predicate SumOk(c: Sum)
  {
    ProductOk(c.first) && forall i :: 0 <= i < |c.rest| ==> IsTermOp(c.rest[i].0) && ProductOk(c.rest[i].1)
  }

  function ShowFactors(rest: seq<(char, Expr)>): string
  {
    if rest == [] then "" else [rest[0].0] + Show(rest[0].1) + ShowFactors(rest[1..])
  }

  function ShowProduct(c: Product): string
  {
    Show(c.first) + ShowFactors(c.rest)
  }

  function ShowProducts(rest: seq<(char, Product)>): string
  {
    if rest == [] then "" else [rest[0].0] + ShowProduct(rest[0].1) + ShowProducts(rest[1..])
  }

  function ShowSum(c: Sum): string
  {
    ShowProduct(c.first) + ShowProducts(c.rest)
  }

  /** Trees that nest to the left. */
  function NestFactors(l: Node, rest: seq<(char, Expr)>): Node
    decreases |rest|
  {
    if rest == [] then l else NestFactors(Binary(rest[0].0, l, Tree(rest[0].1)), rest[1..])
  }

  function ProductTree(c: Product): Node
  {
    NestFactors(Tree(c.first), c.rest)
  }

  function NestProducts(l: Node, rest: seq<(char, Product)>): Node
    decreases |rest|
  {
    if rest == [] then l else NestProducts(Binary(rest[0].0, l, ProductTree(rest[0].1)), rest[1..])
  }

  function SumTree(c: Sum): Node
  {
    NestProducts(ProductTree(c.first), c.rest)
  }

  lemma {:induction false} FactorsNest(s: string, p: nat, l: Node, rest: seq<(char, Expr)>)
    requires Has(s, p, ShowFactors(rest)) && forall i :: 0 <= i < |rest| ==> IsFactorOp(rest[i].0)
    requires var q := p + |ShowFactors(rest)|; Stops(s, q) && (q < |s| ==> !IsFactorOp(s[q]))
    ensures TermRest(s, p, Some(l)) == (Some(NestFactors(l, rest)), p + |ShowFactors(rest)|)
    ensures Stops(s, p)
    decreases |rest|
  {
    hide Token, Strtol, ShowNum, NumAt, Try, FactorAt, Show, Tree;
    if rest == [] {
      TryStop(s, p, FactorOp);
    } else {
      var (op, e) := rest[0];
      assert ShowFactors(rest) == [op] + (Show(e) + ShowFactors(rest[1..]));
      HasSplit(s, p, [op], Show(e) + ShowFactors(rest[1..]));
      HasChar(s, p, op);
      HasSplit(s, p + 1, Show(e), ShowFactors(rest[1..]));
      TryStop(s, p, FactorOp);
      FactorsNest(s, p + 1 + |Show(e)|, Binary(op, l, Tree(e)), rest[1..]);
      FactorRoundTrip(s, p + 1, e);
    }
  }

  lemma ProductNests(s: string, p: nat, c: Product)
    requires ProductOk(c) && Has(s, p, ShowProduct(c))
    requires var q := p + |ShowProduct(c)|; Stops(s, q) && (q < |s| ==> !IsFactorOp(s[q]))
    ensures TermAt(s, p) == (Some(ProductTree(c)), p + |ShowProduct(c)|)
  {
    hide Token, Strtol, ShowNum, NumAt, Try, FactorAt, Show, Tree, TermRest, ShowFactors;
    HasSplit(s, p, Show(c.first), ShowFactors(c.rest));
    FactorsNest(s, p + |Show(c.first)|, Tree(c.first), c.rest);
    FactorRoundTrip(s, p, c.first);
  }

  lemma {:induction false} ProductsNest(s: string, p: nat, l: Node, rest: seq<(char, Product)>)
    requires Has(s, p, ShowProducts(rest)) && forall i :: 0 <= i < |rest| ==> IsTermOp(rest[i].0) && ProductOk(rest[i].1)
    requires var q := p + |ShowProducts(rest)|; Stops(s, q) && (q < |s| ==> !IsFactorOp(s[q]) && !IsTermOp(s[q]))
    ensures ExprRest(s, p, Some(l)) == (Some(NestProducts(l, rest)), p + |ShowProducts(rest)|)
    ensures Stops(s, p) && (p < |s| ==> !IsFactorOp(s[p]))
    decreases |rest|
  {
    hide Try, TermAt, ShowProduct, ProductTree;
    if rest == [] {
      TryStop(s, p, TermOp);
    } else {
      var (op, c) := rest[0];
      assert ShowProducts(rest) == [op] + (ShowProduct(c) + ShowProducts(rest[1..]));
      HasSplit(s, p, [op], ShowProduct(c) + ShowProducts(rest[1..]));
      HasChar(s, p, op);
      HasSplit(s, p + 1, ShowProduct(c), ShowProducts(rest[1..]));
      TryStop(s, p, TermOp);
      ProductsNest(s, p + 1 + |ShowProduct(c)|, Binary(op, l, ProductTree(c)), rest[1..]);
      ProductNests(s, p + 1, c);
    }
  }

  /** Operators of equal precedence nest to the left, and `*` and `/` bind tighter. */
  lemma SumNests(c: Sum)
    requires SumOk(c)
    ensures ExprAt(ShowSum(c), 0) == (Some(SumTree(c)), |ShowSum(c)|)
  {
    hide Try, TermAt, ShowProduct, ProductTree, ExprRest, ShowProducts;
    var s := ShowSum(c);
    assert s[0..|s|] == s;
    HasSplit(s, 0, ShowProduct(c.first), ShowProducts(c.rest));
    ProductsNest(s, |ShowProduct(c.first)|, ProductTree(c.first), c.rest);
    ProductNests(s, 0, c.first);
  }
}
