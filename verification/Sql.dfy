// The lexer and the parser, each moving a position.
module Sql {
  import opened Sequences
  import opened SqlModel

  function Prepend(ts: seq<Token>, r: Parsed<seq<Token>>): Parsed<seq<Token>> {
    match r
    case Ok(rest) => Ok(ts + rest)
    case Err(e) => Err(e)
  }

  lemma PrependOne(ts: seq<Token>, t: Token, r: Parsed<seq<Token>>)
    ensures Prepend(ts, Cons(t, r)) == Prepend(ts + [t], r)
  {
    if r.Ok? {
      assert ts + ([t] + r.value) == ts + [t] + r.value;
    }
  }

  class Lexer {
    const input: string
    var pos: nat

    constructor (input: string)
      ensures this.input == input && pos == 0
    {
      this.input, pos := input, 0;
    }

    /** Move over the characters that satisfy p. */
    method Skip(p: char -> bool)
      requires pos <= |input|
      modifies this
      ensures pos == old(pos) + Span(input[old(pos)..], p) <= |input|
    {
      while pos < |input| && p(input[pos])
        invariant old(pos) <= pos <= |input|
        invariant Span(input[old(pos)..], p) == pos - old(pos) + Span(input[pos..], p)
      {
        assert input[pos..][1..] == input[pos + 1..];
        pos := pos + 1;
      }
    }

    /** All tokens of the input; it ends on every input. */
    method Tokenize() returns (r: Parsed<seq<Token>>)
      requires pos == 0
      modifies this
      ensures r == Lex(input)
    {
      hide Span, WordToken, StartsNumber, Lex;
      var tokens: seq<Token> := [];
      LexNone();
      assert input[pos..] == input;
      PrependNone(Lex(input));
      while pos < |input|
        invariant pos <= |input| && Lex(input) == Prepend(tokens, Lex(input[pos..]))
        decreases |input| - pos
      {
        ghost var s := input[pos..];
        var ch := input[pos];
        LexStep(s);
        if IsSpace(ch) {
          pos := pos + 1;
          assert input[pos..] == s[1..];
        } else if ch == '-' && pos + 1 < |input| && input[pos + 1] == '-' {
          Skip(InLine);
          assert input[pos..] == s[Span(s, InLine)..];
        } else {
          var t;
          if IsQuote(ch) {
            t := Quoted();
          } else {
            t := WordOrSign();
          }
          if t.Err? {
            return Err(t.error);
          }
          PrependOne(tokens, t.value, Lex(input[pos..]));
          tokens := tokens + [t.value];
        }
      }
      assert input[pos..] == "";
      PrependAll(tokens);
      return Ok(tokens);
    }

    /** A literal in quotes; whatever stands behind the next quote of its kind is not part of it. */
    method Quoted() returns (r: Parsed<Token>)
      requires pos < |input| && IsQuote(input[pos])
      modifies this
      ensures old(pos) <= pos <= |input| && (r.Ok? ==> old(pos) < pos)
      ensures r.Ok? ==> Lex(input[old(pos)..]) == Cons(r.value, Lex(input[pos..]))
      ensures r.Err? ==> Lex(input[old(pos)..]) == Err(r.error)
    {
      hide Span, WordToken, Lex, StartsNumber, StartsWord, StartsOperator;
      ghost var s := input[pos..];
      LexStep(s);
      var start, ch := pos, input[pos];
      pos := pos + 1;
      assert input[pos..] == s[1..];
      Skip(if ch == '\'' then NotSingle else NotDouble);
      if pos >= |input| {
        return Err(UnclosedString);
      }
      r := Ok(Token(String, input[start + 1..pos]));
      assert input[start + 1..pos] == s[1..pos - start];
      pos := pos + 1;
      assert input[pos..] == s[pos - start..];
    }

    /** A number, a word, an operator or a punctuation mark. */
    method WordOrSign() returns (r: Parsed<Token>)
      requires pos < |input| && Plain(input[pos..])
      modifies this
      ensures old(pos) <= pos <= |input| && (r.Ok? ==> old(pos) < pos)
      ensures r.Ok? ==> Lex(input[old(pos)..]) == Cons(r.value, Lex(input[pos..]))
      ensures r.Err? ==> Lex(input[old(pos)..]) == Err(r.error)
    {
      hide Span, WordToken, Lex, IsPunctuation, StartsOperator;
      LexStep(input[pos..]);
      var start, ch := pos, input[pos];
      if IsDigit(ch) || (ch == '.' && pos + 1 < |input| && IsDigit(input[pos + 1])) {
        Skip(InNumber);
        Slices(input, start, pos);
        return Ok(Token(Number, input[start..pos]));
      }
      if StartsWord(ch) {
        Skip(InWord);
        Slices(input, start, pos);
        return Ok(WordToken(input[start..pos]));
      }
      r := Sign();
    }

    /** An operator or a punctuation mark. */
    method Sign() returns (r: Parsed<Token>)
      requires pos < |input| && Plain(input[pos..]) && !StartsNumber(input[pos..]) && !StartsWord(input[pos])
      modifies this
      ensures old(pos) <= pos <= |input| && (r.Ok? ==> old(pos) < pos)
      ensures r.Ok? ==> Lex(input[old(pos)..]) == Cons(r.value, Lex(input[pos..]))
      ensures r.Err? ==> Lex(input[old(pos)..]) == Err(r.error)
    {
      hide Span, WordToken, Lex, StartsNumber, StartsWord;
      LexStep(input[pos..]);
      var start, ch := pos, input[pos];
      if StartsOperator(ch) {
        var op := [ch];
        if pos + 1 < |input| && input[pos + 1] == '=' {
          op := op + "=";
          pos := pos + 1;
        }
        pos := pos + 1;
        Slices(input, start, pos);
        assert op == input[start..pos];
        return Ok(Token(Operator, op));
      }
      if IsPunctuation(ch) {
        pos := pos + 1;
        Slices(input, start, pos);
        assert [ch] == input[start..pos];
        return Ok(Token(Punctuation, [ch]));
      }
      return Err(UnexpectedChar);
    }
  }

  lemma Slices(s: string, start: nat, end: nat)
    requires start <= end <= |s|
    ensures s[start..end] == s[start..][..end - start] && s[end..] == s[start..][end - start..]
  {
  }

  lemma LexNone()
    ensures Lex("") == Ok([])
  {
  }

  lemma PrependNone(r: Parsed<seq<Token>>)
    ensures Prepend([], r) == r
  {
    if r.Ok? {
      assert [] + r.value == r.value;
    }
  }

  lemma PrependAll(ts: seq<Token>)
    ensures Prepend(ts, Ok([])) == Ok(ts)
  {
    assert ts + [] == ts;
  }

  /** One step of the lexer, case by case. */
  lemma LexStep(s: string)
    requires s != ""
    ensures IsSpace(s[0]) ==> Lex(s) == Lex(s[1..])
    ensures s[0] == '-' && |s| > 1 && s[1] == '-' ==> Span(s, InLine) > 0 && Lex(s) == Lex(s[Span(s, InLine)..])
    ensures IsQuote(s[0]) ==>
              var n := Span(s[1..], if s[0] == '\'' then NotSingle else NotDouble);
              Lex(s) == if n == |s| - 1 then Err(UnclosedString) else Cons(Token(String, s[1..n + 1]), Lex(s[n + 2..]))
    ensures Plain(s) ==>
              if StartsNumber(s) then Span(s, InNumber) > 0 &&
                Lex(s) == Cons(Token(Number, s[..Span(s, InNumber)]), Lex(s[Span(s, InNumber)..]))
              else if StartsWord(s[0]) then Span(s, InWord) > 0 &&
                Lex(s) == Cons(WordToken(s[..Span(s, InWord)]), Lex(s[Span(s, InWord)..]))
              else if StartsOperator(s[0]) then
                var n := if |s| > 1 && s[1] == '=' then 2 else 1; Lex(s) == Cons(Token(Operator, s[..n]), Lex(s[n..]))
              else if IsPunctuation(s[0]) then Lex(s) == Cons(Token(Punctuation, s[..1]), Lex(s[1..]))
              else Lex(s) == Err(UnexpectedChar)
  {
    hide WordToken;
  }

  class Parser {
    const tokens: seq<Token>
    var pos: nat

    constructor (tokens: seq<Token>)
      ensures this.tokens == tokens && pos == 0
    {
      this.tokens, pos := tokens, 0;
    }

    function Current(): Token
      reads this
    {
      if pos >= |tokens| then Token(EOF, "") else tokens[pos]
    }

    method ReadExpression() returns (r: Parsed<Expression>)
      modifies this
      ensures r == ParseExpression(tokens, old(pos)) && (r.Ok? ==> pos == old(pos) + 1)
    {
      var tok := Current();
      match tok.Type
      case Number => pos := pos + 1; return Ok(Literal(tok.Value));
      case String => pos := pos + 1; return Ok(Literal(tok.Value));
      case Ident => pos := pos + 1; return Ok(Identifier(tok.Value));
      case _ => return Err(Expected("expression"));
    }

    method ReadCondition() returns (r: Parsed<BinaryOp>)
      modifies this
      ensures r == ParseCondition(tokens, old(pos))
    {
      var left := ReadExpression();
      if left.Err? {
        return Err(left.error);
      }
      if Current().Type != Operator && Current().Value != "LIKE" {
        return Err(Expected("operator"));
      }
      var op := Current().Value;
      pos := pos + 1;
      var right := ReadExpression();
      if right.Err? {
        return Err(right.error);
      }
      return Ok(BinaryOp(left.value, op, right.value));
    }

    method ReadDelete() returns (r: Parsed<Statement>)
      modifies this
      ensures r == ParseDelete(tokens, old(pos))
    {
      pos := pos + 1;
      if Current().Value != "FROM" {
        return Err(Expected("FROM"));
      }
      pos := pos + 1;
      if Current().Type != Ident {
        return Err(Expected("table"));
      }
      var table := Current().Value;
      pos := pos + 1;
      if Current().Value != "WHERE" {
        return Ok(DeleteStatement(table, None));
      }
      pos := pos + 1;
      var cond := ReadCondition();
      if cond.Err? {
        return Err(cond.error);
      }
      return Ok(DeleteStatement(table, Some(cond.value)));
    }

    method ReadCreateIndex() returns (r: Parsed<Statement>)
      modifies this
      ensures r == ParseCreateIndex(tokens, old(pos))
    {
      pos := pos + 1;
      if Current().Type != Ident { return Err(Expected("index")); }
      var name := Current().Value;
      pos := pos + 1;
      if Current().Value != "ON" { return Err(Expected("ON")); }
      pos := pos + 1;
      if Current().Type != Ident { return Err(Expected("table")); }
      var table := Current().Value;
      pos := pos + 1;
      if Current().Value != "(" { return Err(Expected("(")); }
      pos := pos + 1;
      if Current().Type != Ident { return Err(Expected("column")); }
      var column := Current().Value;
      pos := pos + 1;
      if Current().Value != ")" { return Err(Expected(")")); }
      pos := pos + 1;
      return Ok(CreateIndexStatement(name, table, column));
    }

    method ReadCommand() returns (r: Parsed<Statement>)
      requires pos == 0
      modifies this
      ensures r == ParseTokens(tokens)
    {
      if tokens == [] {
        return Err(EmptyQuery);
      }
      if Current().Type != Keyword {
        return Err(NotACommand);
      }
      if Current().Value == "DELETE" {
        r := ReadDelete();
        return;
      }
      if Current().Value == "CREATE" {
        pos := pos + 1;
        if Current().Value == "INDEX" {
          r := ReadCreateIndex();
          return;
        }
      }
      return Err(UnknownCommand);
    }
  }

  /** Parse a text into a statement. */
  method ParseText(input: string) returns (r: Parsed<Statement>)
    ensures r == Parse(input)
  {
    hide Lex, ParseTokens;
    var lexer := new Lexer(input);
    var tokens := lexer.Tokenize();
    if tokens.Err? {
      return Err(tokens.error);
    }
    var parser := new Parser(tokens.value);
    r := parser.ReadCommand();
  }
}
