/** The TeenyBASIC grammar: which tree, and which position, the parser gets from a text. */
module Syntax {
  import opened Words
  import opened Characters

  const MAX_KEYWORD_LENGTH: nat := 100

  datatype Node =
    | Num(value: int)
    | Var(name: char)
    | Binary(op: char, left: Node, right: Node)
    | Sequence(stmts: seq<Node>)
    | Print(expr: Node)
    | Let(name: char, expr: Node)
    | If(cond: Node, thn: Node, els: Option<Node>)
    | While(cond: Node, body: Node)

  // ----- Characters and tokens -----

  predicate IsVariable(c: char)
  {
    'A' <= c <= 'Z'
  }

  predicate IsFactorOp(c: char)
  {
    c == '*' || c == '/'
  }

  predicate IsTermOp(c: char)
  {
    c == '+' || c == '-'
  }

  predicate IsComparisonOp(c: char)
  {
    c == '<' || c == '=' || c == '>'
  }

  predicate IsOperator(c: char)
  {
    c == '(' || c == ')' || IsFactorOp(c) || IsTermOp(c) || IsComparisonOp(c)
  }

  /** The kinds of character that the parser looks for. */
  datatype Kind = OpenParen | CloseParen | Variable | FactorOp | TermOp | ComparisonOp | CommentStart

  predicate Is(k: Kind, c: char)
  {
    match k
    case OpenParen => c == '('
    case CloseParen => c == ')'
    case Variable => IsVariable(c)
    case FactorOp => IsFactorOp(c)
    case TermOp => IsTermOp(c)
    case ComparisonOp => IsComparisonOp(c)
    case CommentStart => c == '#'
  }

  /** The characters of each kind, and those that separate words. */
  lemma CharacterClasses(c: char)
    ensures IsSpace(c) <==> c as int == 0x20 || 0x09 <= c as int <= 0x0D
    ensures IsOperator(c) <==> c in "()*/+-<=>"
    ensures Is(Variable, c) <==> 0x41 <= c as int <= 0x5A
    ensures Is(OpenParen, c) <==> c in "("
    ensures Is(CloseParen, c) <==> c in ")"
    ensures Is(FactorOp, c) <==> c in "*/"
    ensures Is(TermOp, c) <==> c in "+-"
    ensures Is(ComparisonOp, c) <==> c in "<=>"
    ensures Is(CommentStart, c) <==> c in "#"
  {
  }

  function SkipSpaces(s: string, p: nat): (q: nat)
    requires p <= |s|
    ensures p <= q <= |s| && (q < |s| ==> !IsSpace(s[q]))
    decreases |s| - p
  {
    if p < |s| && IsSpace(s[p]) then SkipSpaces(s, p + 1) else p
  }

  /** The next character that is no space, or the null character at the end. */
  function Next(s: string, p: nat): (r: (char, nat))
    requires p <= |s|
    ensures p <= r.1 <= |s| && (r.0 != '\0' ==> p < r.1)
  {
    var q := SkipSpaces(s, p);
    if q == |s| then ('\0', q) else (s[q], q + 1)
  }

  /** The same, but a character of another kind is put back. */
  function Try(s: string, p: nat, k: Kind): (r: (char, nat))
    requires p <= |s|
    ensures p <= r.1 <= |s| && (r.0 != '\0' ==> p < r.1 && Is(k, r.0))
  {
    var (c, q) := Next(s, p);
    if c != '\0' && !Is(k, c) then ('\0', q - 1) else (c, q)
  }

  /** A C string ends at its first null character. */
  function CString(t: string): (r: string)
    ensures (forall i :: 0 <= i < |t| ==> t[i] != '\0') ==> r == t
  {
    if t == [] || t[0] == '\0' then [] else [t[0]] + CString(t[1..])
  }

  /** A token from position p on, after the characters `t` were read: it ends at a space, which is
      taken, at an operator, which is not, or at the end. */
  function Token(s: string, p: nat, t: string): (r: (Option<string>, nat))
    requires p <= |s|
    ensures p <= r.1 <= |s| && (r.0.Some? && t == [] ==> p < r.1)
    decreases |s| - p
  {
    if |t| > MAX_KEYWORD_LENGTH then (None, p)
    else if p == |s| then (if t == [] then None else Some(CString(t)), p)
    else if IsOperator(s[p]) && t != [] then (Some(CString(t)), p)
    else if IsSpace(s[p]) then (if t == [] then Token(s, p + 1, t) else (Some(CString(t)), p + 1))
    else Token(s, p + 1, t + [s[p]])
  }

  /** Behind the next newline, or the end of the text. */
  function SkipLine(s: string, p: nat): (q: nat)
    requires p <= |s|
    ensures p <= q <= |s| && (forall i :: p <= i < q - 1 ==> s[i] != '\n')
    ensures q == |s| || (p < q && s[q - 1] == '\n')
    decreases |s| - p
  {
    if p == |s| then p else if s[p] == '\n' then p + 1 else SkipLine(s, p + 1)
  }

  function SkipComments(s: string, p: nat): (q: nat)
    requires p <= |s|
    ensures p <= q <= |s|
    decreases |s| - p
  {
    var (c, q) := Try(s, p, CommentStart);
    if c == '\0' then q else SkipComments(s, SkipLine(s, q))
  }

  // ----- Numbers -----

  /** The number that a digit string stands for, if it is one. */
  function Digits(t: string, base: nat): Option<nat>
  {
    if AreDigits(t, base) then Some(DigitsValue(t, base)) else None
  }

  /** The C library's reading of a whole token as a long, in decimal, octal or hexadecimal. An
      empty string is read as 0, up to its end. */
  function Strtol(t: string): Option<int>
  {
    if t == [] then Some(0) else
    var negative := t != [] && t[0] == '-';
    var u := if t != [] && (t[0] == '-' || t[0] == '+') then t[1..] else t;
    var v := if |u| > 2 && u[0] == '0' && (u[1] == 'x' || u[1] == 'X') then Digits(u[2..], 16)
             else if u != [] && u[0] == '0' then Digits(u, 8)
             else Digits(u, 10);
    match v
    case None => None
    case Some(n) =>
      var m: int := n;
      var x := if negative then -m else m;
      if -TWO63 <= x < TWO63 then Some(x) else None
  }

  // ----- Expressions -----

  function MakeBinary(op: char, l: Option<Node>, r: Option<Node>): Option<Node>
  {
    if l.Some? && r.Some? then Some(Binary(op, l.value, r.value)) else None
  }

  function NumAt(s: string, p: nat): (r: (Option<Node>, nat))
    requires p <= |s|
    ensures p <= r.1 <= |s|
  {
    var (t, q) := Token(s, p, []);
    if t.None? then (None, q) else
    match Strtol(t.value)
    case None => (None, q)
    case Some(v) => (Some(Num(v)), q)
  }

  function FactorAt(s: string, p: nat): (r: (Option<Node>, nat))
    requires p <= |s|
    ensures p <= r.1 <= |s|
    decreases |s| - p, 1
  {
    var (open, q) := Try(s, p, OpenParen);
    if open != '\0' then
      var (e, q') := ExprAt(s, q);
      var (close, q'') := Try(s, q', CloseParen);
      (if close == '\0' then None else e, q'')
    else
      var (v, q') := Try(s, q, Variable);
      if v != '\0' then (Some(Var(v)), q') else NumAt(s, q')
  }

  function TermAt(s: string, p: nat): (r: (Option<Node>, nat))
    requires p <= |s|
    ensures p <= r.1 <= |s|
    decreases |s| - p, 2
  {
    var (l, q) := FactorAt(s, p);
    TermRest(s, q, l)
  }

  function TermRest(s: string, p: nat, l: Option<Node>): (r: (Option<Node>, nat))
    requires p <= |s|
    ensures p <= r.1 <= |s|
    decreases |s| - p, 0
  {
    var (op, q) := Try(s, p, FactorOp);
    if op == '\0' then (l, q)
    else
      var (f, q') := FactorAt(s, q);
      TermRest(s, q', MakeBinary(op, l, f))
  }

  function ExprAt(s: string, p: nat): (r: (Option<Node>, nat))
    requires p <= |s|
    ensures p <= r.1 <= |s|
    decreases |s| - p, 3
  {
    var (l, q) := TermAt(s, p);
    ExprRest(s, q, l)
  }

  function ExprRest(s: string, p: nat, l: Option<Node>): (r: (Option<Node>, nat))
    requires p <= |s|
    ensures p <= r.1 <= |s|
    decreases |s| - p, 0
  {
    var (op, q) := Try(s, p, TermOp);
    if op == '\0' then (l, q)
    else
      var (t, q') := TermAt(s, q);
      ExprRest(s, q', MakeBinary(op, l, t))
  }

  /** Without a comparison operator the node gets the null character as its operator. */
  function ComparisonAt(s: string, p: nat): (r: (Option<Node>, nat))
    requires p <= |s|
    ensures p <= r.1 <= |s|
  {
    var (l, q) := ExprAt(s, p);
    var (op, q') := Try(s, q, ComparisonOp);
    var (e, q'') := ExprAt(s, q');
    (MakeBinary(op, l, e), q'')
  }

  // ----- Statements -----

  /** A statement, or the end of a sequence; `end` is set at the end of the text and in front of
      ELSE, END IF and END WHILE. */
  datatype Parsed = Parsed(node: Option<Node>, end: bool, pos: nat)

  function StatementAt(s: string, p: nat): (r: Parsed)
    requires p <= |s|
    ensures p <= r.pos <= |s| && (r.node.Some? ==> p < r.pos && !r.end)
    decreases |s| - p, 5
  {
    var start := SkipComments(s, p);
    var (t, q) := Token(s, start, []);
    if t.None? then Parsed(None, true, q)
    else if t.value == "ELSE" then Parsed(None, true, start)
    else if t.value == "END" then
      var (u, q') := Token(s, q, []);
      if u == Some("IF") || u == Some("WHILE") then Parsed(None, true, start) else Parsed(None, false, q')
    else if t.value == "PRINT" then
      var (e, q') := ExprAt(s, q);
      Parsed(if e.Some? then Some(Print(e.value)) else None, false, q')
    else if t.value == "LET" then LetAt(s, q)
    else if t.value == "IF" then IfAt(s, q)
    else if t.value == "WHILE" then WhileAt(s, q)
    else Parsed(None, false, q)
  }

  function LetAt(s: string, p: nat): (r: Parsed)
    requires p <= |s|
    ensures p <= r.pos <= |s| && !r.end
  {
    var (v, q) := Next(s, p);
    if !IsVariable(v) then Parsed(None, false, q)
    else
      var (c, q') := Next(s, q);
      if c != '=' then Parsed(None, false, q')
      else
        var (e, q'') := ExprAt(s, q');
        Parsed(if e.Some? then Some(Let(v, e.value)) else None, false, q'')
  }

  function IfAt(s: string, p: nat): (r: Parsed)
    requires p <= |s|
    ensures p <= r.pos <= |s| && !r.end
    decreases |s| - p, 8
  {
    var (c, q) := ComparisonAt(s, p);
    var (thn, q1) := SequenceAt(s, q);
    var (t, q2) := Token(s, q1, []);
    if t == Some("ELSE") then
      var (els, q3) := SequenceAt(s, q2);
      var (t', q4) := Token(s, q3, []);
      EndIf(s, c, thn, els, t', q4)
    else EndIf(s, c, thn, None, t, q2)
  }

  function EndIf(s: string, c: Option<Node>, thn: Option<Node>, els: Option<Node>, t: Option<string>, p: nat): (r: Parsed)
    requires p <= |s|
    ensures p <= r.pos <= |s| && !r.end
  {
    if t != Some("END") then Parsed(None, false, p)
    else
      var (u, q) := Token(s, p, []);
      Parsed(if u == Some("IF") && c.Some? && thn.Some? then Some(If(c.value, thn.value, els)) else None, false, q)
  }

  function WhileAt(s: string, p: nat): (r: Parsed)
    requires p <= |s|
    ensures p <= r.pos <= |s| && !r.end
    decreases |s| - p, 8
  {
    var (c, q) := ComparisonAt(s, p);
    var (body, q1) := SequenceAt(s, q);
    var (t, q2) := Token(s, q1, []);
    if t != Some("END") then Parsed(None, false, q2)
    else
      var (u, q3) := Token(s, q2, []);
      Parsed(if u == Some("WHILE") && c.Some? && body.Some? then Some(While(c.value, body.value)) else None, false, q3)
  }

  function SequenceAt(s: string, p: nat): (r: (Option<Node>, nat))
    requires p <= |s|
    ensures p <= r.1 <= |s|
    decreases |s| - p, 7
  {
    SequenceRest(s, p, [])
  }

  function SequenceRest(s: string, p: nat, done: seq<Node>): (r: (Option<Node>, nat))
    requires p <= |s|
    ensures p <= r.1 <= |s|
    decreases |s| - p, 6
  {
    var r := StatementAt(s, p);
    if r.end then (Some(if |done| == 1 then done[0] else Sequence(done)), r.pos)
    else if r.node.None? then (None, r.pos)
    else SequenceRest(s, r.pos, done + [r.node.value])
  }

  /** The whole text. */
  function Parse(s: string): Option<Node>
  {
    var (n, p) := SequenceAt(s, 0);
    if Next(s, p).0 == '\0' then n else None
  }
}
