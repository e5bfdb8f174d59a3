/** The recursive-descent parser. It reads characters from a stream, and puts characters back or
    restores an earlier position; all loops and recursions end on every text. */
module Parser {
  import opened Words
  import opened Characters
  import opened Syntax

  class Reader {
    const text: string
    var pos: nat

    ghost predicate Valid()
      reads this
    {
      pos <= |text|
    }

    constructor (text: string)
      ensures Valid() && this.text == text && pos == 0
    {
      this.text, pos := text, 0;
    }

    // ----- Characters and tokens -----

    method Advance() returns (c: char)
      requires Valid()
      modifies this`pos
      ensures Valid() && (c, pos) == Next(text, old(pos))
    {
      while pos < |text|
        invariant pos <= |text| && SkipSpaces(text, pos) == SkipSpaces(text, old(pos))
        decreases |text| - pos
      {
        c := text[pos];
        pos := pos + 1;
        if !IsSpace(c) {
          return c;
        }
      }
      return '\0';
    }

    method TryAdvance(k: Kind) returns (c: char)
      requires Valid()
      modifies this`pos
      ensures Valid() && (c, pos) == Try(text, old(pos), k)
    {
      c := Advance();
      if c != '\0' && !Is(k, c) {
        pos := pos - 1;
        return '\0';
      }
    }

    method AdvanceUntilSeparator() returns (token: Option<string>)
      requires Valid()
      modifies this`pos
      ensures Valid() && (token, pos) == Token(text, old(pos), [])
    {
      var result := "";
      while true
        invariant Valid() && Token(text, pos, result) == Token(text, old(pos), [])
        decreases |text| - pos
      {
        if |result| > MAX_KEYWORD_LENGTH {
          return None;
        }
        if pos == |text| {
          return if result == [] then None else Some(CString(result));
        }
        var c := text[pos];
        pos := pos + 1;
        if IsOperator(c) && result != [] {
          pos := pos - 1;
          return Some(CString(result));
        }
        if IsSpace(c) {
          if result != [] {
            return Some(CString(result));
          }
        } else {
          result := result + [c];
        }
      }
    }

    method AtEnd() returns (end: bool)
      requires Valid()
      modifies this`pos
      ensures Valid() && (end <==> Next(text, old(pos)).0 == '\0')
    {
      var c := Advance();
      if c != '\0' {
        pos := pos - 1;
        return false;
      }
      return true;
    }

    method SkipToNextLine()
      requires Valid()
      modifies this`pos
      ensures Valid() && pos == SkipLine(text, old(pos))
    {
      while pos < |text|
        invariant Valid() && SkipLine(text, pos) == SkipLine(text, old(pos))
        decreases |text| - pos
      {
        pos := pos + 1;
        if text[pos - 1] == '\n' {
          return;
        }
      }
    }

    // ----- Expressions -----

    method ParseNum() returns (n: Option<Node>)
      requires Valid()
      modifies this`pos
      ensures Valid() && (n, pos) == NumAt(text, old(pos))
    {
      hide Token;
      var t := AdvanceUntilSeparator();
      if t.None? {
        return None;
      }
      var v := Strtol(t.value);
      if v.None? {
        return None;
      }
      return Some(Num(v.value));
    }

    method ParseFactor() returns (n: Option<Node>)
      requires Valid()
      modifies this`pos
      ensures Valid() && (n, pos) == FactorAt(text, old(pos))
      decreases |text| - pos, 1
    {
      hide Try, NumAt;
      var c := TryAdvance(OpenParen);
      if c != '\0' {
        n := ParseExpression();
        c := TryAdvance(CloseParen);
        if c == '\0' {
          return None;
        }
        return n;
      }
      var v := TryAdvance(Variable);
      if v != '\0' {
        return Some(Var(v));
      }
      n := ParseNum();
    }

    method ParseTerm() returns (n: Option<Node>)
      requires Valid()
      modifies this`pos
      ensures Valid() && (n, pos) == TermAt(text, old(pos))
      decreases |text| - pos, 2
    {
      hide Try, FactorAt;
      n := ParseFactor();
      while true
        invariant old(pos) <= pos <= |text| && TermRest(text, pos, n) == TermAt(text, old(pos))
        decreases |text| - pos
      {
        ghost var p := pos;
        var op := TryAdvance(FactorOp);
        if op == '\0' {
          return n;
        }
        var f := ParseFactor();
        n := MakeBinary(op, n, f);
      }
    }

    method ParseExpression() returns (n: Option<Node>)
      requires Valid()
      modifies this`pos
      ensures Valid() && (n, pos) == ExprAt(text, old(pos))
      decreases |text| - pos, 3
    {
      hide Try, TermAt;
      n := ParseTerm();
      while true
        invariant old(pos) <= pos <= |text| && ExprRest(text, pos, n) == ExprAt(text, old(pos))
        decreases |text| - pos
      {
        var op := TryAdvance(TermOp);
        if op == '\0' {
          return n;
        }
        var t := ParseTerm();
        n := MakeBinary(op, n, t);
      }
    }

    method ParseComparison() returns (n: Option<Node>)
      requires Valid()
      modifies this`pos
      ensures Valid() && (n, pos) == ComparisonAt(text, old(pos))
    {
      hide Try, ExprAt;
      var l := ParseExpression();
      var op := TryAdvance(ComparisonOp);
      var r := ParseExpression();
      n := MakeBinary(op, l, r);
    }

    // ----- Statements -----

    method SkipAllComments()
      requires Valid()
      modifies this`pos
      ensures Valid() && pos == SkipComments(text, old(pos))
    {
      hide Try, SkipLine;
      while true
        invariant Valid() && SkipComments(text, pos) == SkipComments(text, old(pos))
        decreases |text| - pos
      {
        var c := TryAdvance(CommentStart);
        if c == '\0' {
          return;
        }
        SkipToNextLine();
      }
    }

    method ParseStatement() returns (n: Option<Node>, end: bool)
      requires Valid()
      modifies this`pos
      ensures Valid() && Parsed(n, end, pos) == StatementAt(text, old(pos))
      decreases |text| - pos, 5
    {
      hide SkipComments, Token, ExprAt, LetAt, IfAt, WhileAt;
      SkipAllComments();
      var start := pos;
      var next := AdvanceUntilSeparator();
      if next.None? {
        return None, true;
      }
      if next.value == "ELSE" {
        pos := start;
        return None, true;
      }
      if next.value == "END" {
        next := AdvanceUntilSeparator();
        if next != Some("IF") && next != Some("WHILE") {
          return None, false;
        }
        pos := start;
        return None, true;
      }
      end := false;
      if next.value == "PRINT" {
        var e := ParseExpression();
        n := if e.Some? then Some(Print(e.value)) else None;
      } else if next.value == "LET" {
        n := ParseLet();
      } else if next.value == "IF" {
        n := ParseIf();
      } else if next.value == "WHILE" {
        n := ParseWhile();
      } else {
        n := None;
      }
    }

    method ParseLet() returns (n: Option<Node>)
      requires Valid()
      modifies this`pos
      ensures Valid() && Parsed(n, false, pos) == LetAt(text, old(pos))
    {
      hide Next, ExprAt;
      var v := Advance();
      if !IsVariable(v) {
        return None;
      }
      var c := Advance();
      if c != '=' {
        return None;
      }
      var e := ParseExpression();
      return if e.Some? then Some(Let(v, e.value)) else None;
    }

    method ParseIf() returns (n: Option<Node>)
      requires Valid()
      modifies this`pos
      ensures Valid() && Parsed(n, false, pos) == IfAt(text, old(pos))
      decreases |text| - pos, 8
    {
      hide Token, ComparisonAt, SequenceAt;
      var c := ParseComparison();
      var thn := ParseSequence();
      var next := AdvanceUntilSeparator();
      var els := None;
      if next == Some("ELSE") {
        els := ParseSequence();
        next := AdvanceUntilSeparator();
      }
      if next != Some("END") {
        return None;
      }
      next := AdvanceUntilSeparator();
      if next != Some("IF") {
        return None;
      }
      return if c.Some? && thn.Some? then Some(If(c.value, thn.value, els)) else None;
    }

    method ParseWhile() returns (n: Option<Node>)
      requires Valid()
      modifies this`pos
      ensures Valid() && Parsed(n, false, pos) == WhileAt(text, old(pos))
      decreases |text| - pos, 8
    {
      hide Token, ComparisonAt, SequenceAt;
      var c := ParseComparison();
      var body := ParseSequence();
      var next := AdvanceUntilSeparator();
      if next != Some("END") {
        return None;
      }
      next := AdvanceUntilSeparator();
      if next != Some("WHILE") {
        return None;
      }
      return if c.Some? && body.Some? then Some(While(c.value, body.value)) else None;
    }

    method ParseSequence() returns (n: Option<Node>)
      requires Valid()
      modifies this`pos
      ensures Valid() && (n, pos) == SequenceAt(text, old(pos))
      decreases |text| - pos, 7
    {
      hide StatementAt;
      var stmts: seq<Node> := [];
      while true
        invariant old(pos) <= pos <= |text| && SequenceRest(text, pos, stmts) == SequenceAt(text, old(pos))
        decreases |text| - pos
      {
        var next, end := ParseStatement();
        if end {
          return Some(if |stmts| == 1 then stmts[0] else Sequence(stmts));
        }
        if next.None? {
          return None;
        }
        stmts := stmts + [next.value];
      }
    }
  }

  /** Parse a whole program. */
  method ParseProgram(text: string) returns (n: Option<Node>)
    ensures n == Parse(text)
  {
    var reader := new Reader(text);
    n := reader.ParseSequence();
    var end := reader.AtEnd();
    if !end {
      n := None;
    }
  }
}
