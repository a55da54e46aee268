// The SQL lexer and parser as functions, and the printing of statements.
module SqlModel {
  import opened Sequences

  datatype SqlError =
    UnclosedString | UnexpectedChar | EmptyQuery | NotACommand | UnknownCommand | Expected(what: string)
  datatype Parsed<+T> = Ok(value: T) | Err(error: SqlError)

  datatype TokenType = EOF | Keyword | Ident | Number | String | Operator | Punctuation
  datatype Token = Token(Type: TokenType, Value: string)

  // ----- characters -----

  predicate IsSpace(c: char) { c == ' ' || c == '\t' || c == '\n' || c == '\r' }
  predicate IsQuote(c: char) { c == '\'' || c == '"' }
  predicate IsDigit(c: char) { '0' <= c <= '9' }
  predicate IsLetter(c: char) { 'a' <= c <= 'z' || 'A' <= c <= 'Z' }
  predicate InNumber(c: char) { IsDigit(c) || c == '.' }
  predicate StartsWord(c: char) { IsLetter(c) || c == '_' || c == '*' }
  predicate InWord(c: char) { IsLetter(c) || IsDigit(c) || c == '_' || c == '.' || c == '*' }
  predicate StartsOperator(c: char) { c == '=' || c == '>' || c == '<' || c == '!' }
  predicate IsPunctuation(c: char) { c == '(' || c == ')' || c == ',' || c == ';' }
  predicate InLine(c: char) { c != '\n' }
  predicate NotSingle(c: char) { c != '\'' }
  predicate NotDouble(c: char) { c != '"' }

  function Upper(c: char): char {
    if 'a' <= c <= 'z' then c - 'a' + 'A' else c
  }

  function ToUpper(s: string): (r: string)
    ensures |r| == |s| && forall i :: 0 <= i < |s| ==> r[i] == Upper(s[i])
  {
    seq(|s|, i requires 0 <= i < |s| => Upper(s[i]))
  }

  /** How many characters at the front satisfy p. */
  function Span(s: string, p: char -> bool): (n: nat)
    ensures n <= |s| && (forall i :: 0 <= i < n ==> p(s[i])) && (n < |s| ==> !p(s[n]))
  {
    if s == "" || !p(s[0]) then 0 else 1 + Span(s[1..], p)
  }

  // ----- the lexer -----

  /** The reserved words, in upper case. */
  predicate IsKeyword(w: string) {
    w == "SELECT" || w == "FROM" || w == "WHERE" || w == "INSERT" || w == "INTO" || w == "VALUES" || w == "CREATE" ||
    w == "TABLE" || w == "DROP" || w == "INDEX" || w == "ON" || w == "INT" || w == "TEXT" || w == "FLOAT" ||
    w == "BOOL" || w == "AND" || w == "OR" || w == "NOT" || w == "NULL" || w == "PRIMARY" || w == "KEY" ||
    w == "UNIQUE" || w == "DEFAULT" || w == "CHECK" || w == "REFERENCES" || w == "UPDATE" || w == "SET" ||
    w == "DELETE" || w == "JOIN" || w == "INNER" || w == "LEFT" || w == "RIGHT" || w == "ORDER" || w == "BY" ||
    w == "ASC" || w == "DESC" || w == "LIMIT" || w == "OFFSET" || w == "COUNT" || w == "SUM" || w == "AVG" ||
    w == "MIN" || w == "MAX" || w == "IF" || w == "EXISTS" || w == "AUTOINCREMENT" || w == "LIKE"
  }

  predicate IsTruth(word: string) {
    ToUpper(word) == "TRUE" || ToUpper(word) == "FALSE" || ToUpper(word) == "NULL"
  }

  function WordToken(word: string): Token {
    if IsTruth(word) then Token(String, word)
    else if '.' !in word && IsKeyword(ToUpper(word)) then Token(Keyword, ToUpper(word))
    else if word == "*" then Token(Operator, "*")
    else Token(Ident, word)
  }

  /** A text that begins with no space, comment or quote. */
  predicate Plain(s: string) {
    s != "" && !IsSpace(s[0]) && !(s[0] == '-' && |s| > 1 && s[1] == '-') && !IsQuote(s[0])
  }

  predicate StartsNumber(s: string) {
    s != "" && (IsDigit(s[0]) || (s[0] == '.' && |s| > 1 && IsDigit(s[1])))
  }

  function Cons(t: Token, rest: Parsed<seq<Token>>): Parsed<seq<Token>> {
    match rest
    case Ok(ts) => Ok([t] + ts)
    case Err(e) => Err(e)
  }

  /** The tokens of a text. */
  function Lex(s: string): Parsed<seq<Token>>
    decreases |s|
  {
    if s == "" then Ok([])
    else
      var ch := s[0];
      if IsSpace(ch) then Lex(s[1..])
      else if ch == '-' && |s| > 1 && s[1] == '-' then
        assert Span(s, InLine) > 0;
        Lex(s[Span(s, InLine)..])
      else if IsQuote(ch) then
        var n := Span(s[1..], if ch == '\'' then NotSingle else NotDouble);
        if n == |s| - 1 then Err(UnclosedString) else Cons(Token(String, s[1..n + 1]), Lex(s[n + 2..]))
      else if StartsNumber(s) then
        assert Span(s, InNumber) > 0;
        Cons(Token(Number, s[..Span(s, InNumber)]), Lex(s[Span(s, InNumber)..]))
      else if StartsWord(ch) then
        assert Span(s, InWord) > 0;
        Cons(WordToken(s[..Span(s, InWord)]), Lex(s[Span(s, InWord)..]))
      else if StartsOperator(ch) then
        var n := if |s| > 1 && s[1] == '=' then 2 else 1;
        Cons(Token(Operator, s[..n]), Lex(s[n..]))
      else if IsPunctuation(ch) then Cons(Token(Punctuation, s[..1]), Lex(s[1..]))
      else Err(UnexpectedChar)
  }

  // ----- the parser -----

  datatype Expression = Literal(Value: string) | Identifier(Name: string)
  datatype BinaryOp = BinaryOp(Left: Expression, Operator: string, Right: Expression)
  datatype Statement =
    | DeleteStatement(Table: string, Condition: Option<BinaryOp>)
    | CreateIndexStatement(IndexName: string, Table: string, Column: string)

  function TokenAt(ts: seq<Token>, i: nat): Token {
    if i < |ts| then ts[i] else Token(EOF, "")
  }

  function ParseExpression(ts: seq<Token>, i: nat): Parsed<Expression> {
    var tok := TokenAt(ts, i);
    match tok.Type
    case Number => Ok(Literal(tok.Value))
    case String => Ok(Literal(tok.Value))
    case Ident => Ok(Identifier(tok.Value))
    case _ => Err(Expected("expression"))
  }

  function ParseCondition(ts: seq<Token>, i: nat): Parsed<BinaryOp> {
    match ParseExpression(ts, i)
    case Err(e) => Err(e)
    case Ok(left) =>
      var op := TokenAt(ts, i + 1);
      if op.Type != Operator && op.Value != "LIKE" then Err(Expected("operator"))
      else
        match ParseExpression(ts, i + 2)
        case Err(e) => Err(e)
        case Ok(right) => Ok(BinaryOp(left, op.Value, right))
  }

  /** DELETE FROM table [WHERE condition]; what comes behind is ignored. */
  function ParseDelete(ts: seq<Token>, i: nat): Parsed<Statement> {
    if TokenAt(ts, i + 1).Value != "FROM" then Err(Expected("FROM"))
    else if TokenAt(ts, i + 2).Type != Ident then Err(Expected("table"))
    else if TokenAt(ts, i + 3).Value != "WHERE" then Ok(DeleteStatement(TokenAt(ts, i + 2).Value, None))
    else
      match ParseCondition(ts, i + 4)
      case Err(e) => Err(e)
      case Ok(cond) => Ok(DeleteStatement(TokenAt(ts, i + 2).Value, Some(cond)))
  }

  /** INDEX name ON table (column) */
  function ParseCreateIndex(ts: seq<Token>, i: nat): Parsed<Statement> {
    if TokenAt(ts, i + 1).Type != Ident then Err(Expected("index"))
    else if TokenAt(ts, i + 2).Value != "ON" then Err(Expected("ON"))
    else if TokenAt(ts, i + 3).Type != Ident then Err(Expected("table"))
    else if TokenAt(ts, i + 4).Value != "(" then Err(Expected("("))
    else if TokenAt(ts, i + 5).Type != Ident then Err(Expected("column"))
    else if TokenAt(ts, i + 6).Value != ")" then Err(Expected(")"))
    else Ok(CreateIndexStatement(TokenAt(ts, i + 1).Value, TokenAt(ts, i + 3).Value, TokenAt(ts, i + 5).Value))
  }

  /** The commands covered here; any other is unknown. */
  function ParseTokens(ts: seq<Token>): Parsed<Statement> {
    if ts == [] then Err(EmptyQuery)
    else if ts[0].Type != Keyword then Err(NotACommand)
    else if ts[0].Value == "DELETE" then ParseDelete(ts, 0)
    else if ts[0].Value == "CREATE" && TokenAt(ts, 1).Value == "INDEX" then ParseCreateIndex(ts, 1)
    else Err(UnknownCommand)
  }

  function Parse(s: string): Parsed<Statement> {
    match Lex(s)
    case Err(e) => Err(e)
    case Ok(ts) => ParseTokens(ts)
  }

  // ----- printing -----

  function ExprString(e: Expression): string {
    match e
    case Literal(v) => v
    case Identifier(n) => n
  }

  function OpString(b: BinaryOp): string {
    ExprString(b.Left) + " " + b.Operator + " " + ExprString(b.Right)
  }

  function Print(s: Statement): string {
    match s
    case DeleteStatement(t, None) => "DELETE FROM " + t
    case DeleteStatement(t, Some(c)) => "DELETE FROM " + t + " WHERE " + OpString(c)
    case CreateIndexStatement(n, t, c) => "CREATE INDEX " + n + " ON " + t + " (" + c + ")"
  }
}
