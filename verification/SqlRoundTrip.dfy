// Printing a statement and parsing it again.
module SqlRoundTrip {
  import opened Sequences
  import opened SqlModel

  predicate IsWord(w: string) {
    w != "" && StartsWord(w[0]) && forall i :: 0 <= i < |w| ==> InWord(w[i])
  }

  /** A word that is no keyword, no truth value or NULL, and not the star. */
  predicate IsName(w: string) {
    IsWord(w) && WordToken(w) == Token(Ident, w)
  }

  predicate IsNumber(v: string) {
    StartsNumber(v) && forall i :: 0 <= i < |v| ==> InNumber(v[i])
  }

  predicate IsSign(op: string) {
    1 <= |op| <= 2 && StartsOperator(op[0]) && (|op| == 2 ==> op[1] == '=')
  }

  predicate IsOperator(op: string) {
    IsSign(op) || op == "*" || op == "LIKE"
  }

  /** An expression whose text is a single token of its kind. */
  predicate CleanExpression(e: Expression) {
    match e
    case Identifier(n) => IsName(n)
    case Literal(v) => IsNumber(v) || (IsWord(v) && IsTruth(v))
  }

  predicate CleanCondition(b: BinaryOp) {
    CleanExpression(b.Left) && IsOperator(b.Operator) && CleanExpression(b.Right)
  }

  predicate Clean(s: Statement) {
    match s
    case DeleteStatement(t, None) => IsName(t)
    case DeleteStatement(t, Some(c)) => IsName(t) && CleanCondition(c)
    case CreateIndexStatement(n, t, c) => IsName(n) && IsName(t) && IsName(c)
  }

  // ----- one token, and the rest -----

  predicate Ends(rest: string, p: char -> bool) {
    rest == "" || !p(rest[0])
  }

  lemma {:induction false} SpanOver(w: string, rest: string, p: char -> bool)
    requires (forall i :: 0 <= i < |w| ==> p(w[i])) && Ends(rest, p)
    ensures Span(w + rest, p) == |w|
  {
    if w == "" {
      assert w + rest == rest;
    } else {
      assert (w + rest)[1..] == w[1..] + rest;
      SpanOver(w[1..], rest, p);
    }
  }

  lemma LexWord(w: string, rest: string)
    requires IsWord(w) && Ends(rest, InWord)
    ensures Lex(w + rest) == Cons(WordToken(w), Lex(rest))
  {
    hide WordToken, Span;
    SpanOver(w, rest, InWord);
    var s := w + rest;
    assert s[0] == w[0] && !IsSpace(s[0]) && !IsQuote(s[0]) && s[0] != '-' && !StartsNumber(s);
    assert s[..|w|] == w && s[|w|..] == rest;
  }

  lemma LexNumber(v: string, rest: string)
    requires IsNumber(v) && Ends(rest, InNumber)
    ensures Lex(v + rest) == Cons(Token(Number, v), Lex(rest))
  {
    hide WordToken, Span;
    SpanOver(v, rest, InNumber);
    var s := v + rest;
    assert s[0] == v[0] && (|v| > 1 ==> s[1] == v[1]) && StartsNumber(s);
    assert !IsSpace(s[0]) && !IsQuote(s[0]) && s[0] != '-';
    assert s[..|v|] == v && s[|v|..] == rest;
  }

  predicate IsEquals(c: char) { c == '=' }

  lemma LexSign(op: string, rest: string)
    requires IsSign(op) && Ends(rest, IsEquals)
    ensures Lex(op + rest) == Cons(Token(Operator, op), Lex(rest))
  {
    hide WordToken, Span;
    var s := op + rest;
    assert s[0] == op[0] && (|op| == 2 ==> s[1] == '=');
    assert s[..|op|] == op && s[|op|..] == rest;
  }

  lemma LexSpace(rest: string)
    ensures Lex(" " + rest) == Lex(rest)
  {
    hide WordToken, Span;
    assert (" " + rest)[1..] == rest;
  }

  lemma LexPunctuation(c: char, rest: string)
    requires IsPunctuation(c)
    ensures Lex([c] + rest) == Cons(Token(Punctuation, [c]), Lex(rest))
  {
    hide WordToken, Span;
    assert ([c] + rest)[1..] == rest && ([c] + rest)[..1] == [c];
  }

  // ----- a token with a space behind it -----

  lemma LexWordSpace(w: string, rest: string)
    requires IsWord(w)
    ensures Lex(w + " " + rest) == Cons(WordToken(w), Lex(rest))
  {
    hide Lex, WordToken;
    assert w + " " + rest == w + (" " + rest);
    LexWord(w, " " + rest);
    LexSpace(rest);
  }

  /** The token of a clean expression. */
  function ExpressionToken(e: Expression): Token {
    match e
    case Identifier(n) => Token(Ident, n)
    case Literal(v) => if IsNumber(v) then Token(Number, v) else Token(String, v)
  }

  lemma LexExpression(e: Expression, rest: string)
    requires CleanExpression(e) && Ends(rest, InWord)
    ensures Lex(ExprString(e) + rest) == Cons(ExpressionToken(e), Lex(rest))
  {
    hide Lex;
    match e
    case Identifier(n) => LexWord(n, rest);
    case Literal(v) =>
      if IsNumber(v) {
        LexNumber(v, rest);
      } else {
        LexWord(v, rest);
      }
  }

  function OperatorToken(op: string): Token {
    if op == "LIKE" then Token(Keyword, op) else Token(Operator, op)
  }

  // ----- words in any case -----

  /** The word in upper or lower case, letter by letter. */
  predicate Cased(w: string, upper: string) {
    && |w| == |upper|
    && forall i :: 0 <= i < |w| ==> w[i] == upper[i] || ('A' <= upper[i] <= 'Z' && w[i] as int == upper[i] as int + 32)
  }

  predicate Capitals(w: string) {
    w != "" && forall i :: 0 <= i < |w| ==> 'A' <= w[i] <= 'Z'
  }

  lemma KeywordsAreCapitals(w: string)
    requires IsKeyword(w)
    ensures Capitals(w)
  {
  }

  lemma CasedIsUpper(w: string, upper: string)
    requires Capitals(upper)
    ensures Cased(w, upper) <==> ToUpper(w) == upper
    ensures Cased(w, upper) ==> IsWord(w) && '.' !in w
  {
    if ToUpper(w) == upper {
      assert forall i :: 0 <= i < |w| ==> Upper(w[i]) == upper[i];
    }
  }

  /** A word is the token of a keyword exactly if it spells the keyword, in any case; NULL is read as a literal. */
  lemma KeywordInAnyCase(w: string, kw: string)
    ensures WordToken(w) == Token(Keyword, kw) <==> IsKeyword(kw) && kw != "NULL" && Cased(w, kw)
  {
    hide IsKeyword, Cased;
    assert Capitals("TRUE") && Capitals("FALSE") && Capitals("NULL");
    TruthIsNoKeyword();
    if IsKeyword(kw) {
      KeywordsAreCapitals(kw);
      CasedIsUpper(w, kw);
    }
    if WordToken(w) == Token(Keyword, kw) {
      assert IsKeyword(ToUpper(w)) && kw == ToUpper(w);
    }
  }

  lemma TruthIsNoKeyword()
    ensures !IsKeyword("TRUE") && !IsKeyword("FALSE")
  {
  }

  /** TRUE, FALSE and NULL in any case are literals, as they stand. */
  lemma TruthInAnyCase(w: string)
    ensures Cased(w, "TRUE") || Cased(w, "FALSE") || Cased(w, "NULL") <==> IsTruth(w)
    ensures IsTruth(w) ==> IsWord(w) && WordToken(w) == Token(String, w)
  {
    hide Cased, IsWord;
    CasedIsUpper(w, "TRUE");
    CasedIsUpper(w, "FALSE");
    CasedIsUpper(w, "NULL");
  }

  /** The text of an operator: LIKE in any case. */
  predicate OperatorText(text: string, op: string) {
    if op == "LIKE" then Cased(text, op) else text == op
  }

  lemma LexOperator(op: string, text: string, rest: string)
    requires IsOperator(op) && OperatorText(text, op)
    ensures Lex(text + " " + rest) == Cons(OperatorToken(op), Lex(rest))
  {
    hide Lex, WordToken, Cased;
    if IsSign(op) {
      assert op + " " + rest == op + (" " + rest);
      LexSign(op, " " + rest);
      LexSpace(rest);
    } else if op == "LIKE" {
      Keywords();
      LexKeyword(text, op, rest);
    } else {
      StarToken();
      LexWordSpace(op, rest);
    }
  }

  lemma Keywords()
    ensures IsKeyword("DELETE") && IsKeyword("FROM") && IsKeyword("WHERE") && IsKeyword("CREATE")
    ensures IsKeyword("INDEX") && IsKeyword("ON") && IsKeyword("LIKE")
  {
  }

  /** A keyword in any case, and a space. */
  lemma LexKeyword(w: string, kw: string, rest: string)
    requires IsKeyword(kw) && kw != "NULL" && Cased(w, kw)
    ensures Lex(w + " " + rest) == Cons(Token(Keyword, kw), Lex(rest))
  {
    hide Lex, WordToken, Cased, IsKeyword, IsWord;
    KeywordsAreCapitals(kw);
    CasedIsUpper(w, kw);
    KeywordInAnyCase(w, kw);
    LexWordSpace(w, rest);
  }

  lemma CasedSelf(w: string)
    ensures Cased(w, w)
  {
  }

  lemma StarToken()
    ensures WordToken("*") == Token(Operator, "*")
  {
    assert ToUpper("*") == "*";
    assert !IsKeyword("*");
  }

  lemma LexCondition(b: BinaryOp, op: string)
    requires CleanCondition(b) && OperatorText(op, b.Operator)
    ensures Lex(ExprString(b.Left) + " " + op + " " + ExprString(b.Right)) ==
            Ok([ExpressionToken(b.Left), OperatorToken(b.Operator), ExpressionToken(b.Right)])
  {
    hide Lex, CleanExpression, IsOperator, ExpressionToken, OperatorToken, ExprString, OperatorText;
    var right := ExprString(b.Right);
    assert right == right + "";
    LexExpression(b.Right, "");
    LexNothing();
    LexOperator(b.Operator, op, right);
    var rest := op + " " + right;
    assert ExprString(b.Left) + " " + op + " " + right == ExprString(b.Left) + (" " + rest);
    LexExpression(b.Left, " " + rest);
    LexSpace(rest);
    ThreeTokens(ExpressionToken(b.Left), OperatorToken(b.Operator), ExpressionToken(b.Right));
  }

  lemma ThreeTokens(a: Token, b: Token, c: Token)
    ensures Cons(a, Cons(b, Cons(c, Ok([])))) == Ok([a, b, c])
  {
    assert [a] + ([b] + ([c] + [])) == [a, b, c];
  }

  lemma LexNothing()
    ensures Lex("") == Ok([])
  {
  }

  // ----- whole statements -----

  lemma LexDelete(delete: string, from: string, t: string, rest: string)
    requires Cased(delete, "DELETE") && Cased(from, "FROM") && IsName(t) && Ends(rest, InWord)
    ensures Lex(delete + " " + from + " " + t + rest) ==
            Cons(Token(Keyword, "DELETE"), Cons(Token(Keyword, "FROM"), Cons(Token(Ident, t), Lex(rest))))
  {
    hide Lex, WordToken, Cased, IsKeyword;
    Keywords();
    LexWord(t, rest);
    LexKeyword(from, "FROM", t + rest);
    LexKeyword(delete, "DELETE", from + " " + (t + rest));
    assert delete + " " + from + " " + t + rest == delete + " " + (from + " " + (t + rest));
  }

  lemma LexWhere(where: string, b: BinaryOp, op: string)
    requires Cased(where, "WHERE") && CleanCondition(b) && OperatorText(op, b.Operator)
    ensures Lex(" " + where + " " + (ExprString(b.Left) + " " + op + " " + ExprString(b.Right))) ==
            Ok([Token(Keyword, "WHERE"), ExpressionToken(b.Left), OperatorToken(b.Operator), ExpressionToken(b.Right)])
  {
    hide Lex, WordToken, CleanCondition, ExpressionToken, OperatorToken, OperatorText, Cased, IsKeyword, ExprString;
    Keywords();
    LexCondition(b, op);
    var cond := ExprString(b.Left) + " " + op + " " + ExprString(b.Right);
    LexKeyword(where, "WHERE", cond);
    LexSpace(where + " " + cond);
    assert " " + where + " " + cond == " " + (where + " " + cond);
    var ts := [ExpressionToken(b.Left), OperatorToken(b.Operator), ExpressionToken(b.Right)];
    assert [Token(Keyword, "WHERE")] + ts == [Token(Keyword, "WHERE"), ts[0], ts[1], ts[2]];
  }

  lemma LexParenthesis(c: string)
    requires IsName(c)
    ensures Lex("(" + (c + ")")) == Ok([Token(Punctuation, "("), Token(Ident, c), Token(Punctuation, ")")])
  {
    hide Lex, WordToken;
    LexNothing();
    LexPunctuation(')', "");
    assert [')'] + "" == ")";
    LexWord(c, ")");
    LexPunctuation('(', c + ")");
    assert ['('] + (c + ")") == "(" + (c + ")");
    ThreeTokens(Token(Punctuation, "("), Token(Ident, c), Token(Punctuation, ")"));
  }

  lemma LexOnTable(on: string, t: string, c: string)
    requires Cased(on, "ON") && IsName(t) && IsName(c)
    ensures Lex(on + " " + (t + " " + ("(" + (c + ")")))) ==
            Ok([Token(Keyword, "ON"), Token(Ident, t), Token(Punctuation, "("), Token(Ident, c),
                Token(Punctuation, ")")])
  {
    hide Lex, WordToken, Cased, IsKeyword;
    Keywords();
    LexParenthesis(c);
    var rest := "(" + (c + ")");
    LexWordSpace(t, rest);
    LexKeyword(on, "ON", t + " " + rest);
    var ts := Lex(rest).value;
    assert [Token(Keyword, "ON")] + ([Token(Ident, t)] + ts) ==
           [Token(Keyword, "ON"), Token(Ident, t), ts[0], ts[1], ts[2]];
  }

  lemma LexIndexOn(create: string, index: string, n: string, rest: string)
    requires Cased(create, "CREATE") && Cased(index, "INDEX") && IsName(n) && Lex(rest).Ok?
    ensures Lex(create + " " + (index + " " + (n + " " + rest))) ==
            Ok([Token(Keyword, "CREATE"), Token(Keyword, "INDEX"), Token(Ident, n)] + Lex(rest).value)
  {
    hide Lex, WordToken, Cased, IsKeyword;
    Keywords();
    var ts := Lex(rest).value;
    LexWordSpace(n, rest);
    LexKeyword(index, "INDEX", n + " " + rest);
    LexKeyword(create, "CREATE", index + " " + (n + " " + rest));
    assert [Token(Keyword, "CREATE")] + ([Token(Keyword, "INDEX")] + ([Token(Ident, n)] + ts)) ==
           [Token(Keyword, "CREATE"), Token(Keyword, "INDEX"), Token(Ident, n)] + ts;
  }

  lemma LexCreateIndex(create: string, index: string, n: string, on: string, t: string, c: string)
    requires Cased(create, "CREATE") && Cased(index, "INDEX") && Cased(on, "ON") && IsName(n) && IsName(t) && IsName(c)
    ensures Lex(create + " " + index + " " + n + " " + on + " " + t + " (" + c + ")") ==
            Ok([Token(Keyword, "CREATE"), Token(Keyword, "INDEX"), Token(Ident, n), Token(Keyword, "ON"),
                Token(Ident, t), Token(Punctuation, "("), Token(Ident, c), Token(Punctuation, ")")])
  {
    hide Lex, IsName, Cased;
    LexOnTable(on, t, c);
    var rest := on + " " + (t + " " + ("(" + (c + ")")));
    LexIndexOn(create, index, n, rest);
    assert create + " " + index + " " + n + " " + on + " " + t + " (" + c + ")" ==
           create + " " + (index + " " + (n + " " + rest));
    var ts := Lex(rest).value;
    assert [Token(Keyword, "CREATE"), Token(Keyword, "INDEX"), Token(Ident, n)] + ts ==
           [Token(Keyword, "CREATE"), Token(Keyword, "INDEX"), Token(Ident, n), ts[0], ts[1], ts[2], ts[3], ts[4]];
  }

  lemma ParsesCondition(b: BinaryOp, ts: seq<Token>, i: nat)
    requires CleanCondition(b) && i + 3 <= |ts|
    requires ts[i..i + 3] == [ExpressionToken(b.Left), OperatorToken(b.Operator), ExpressionToken(b.Right)]
    ensures ParseCondition(ts, i) == Ok(b)
  {
    hide IsNumber, IsWord, IsTruth, IsName, IsOperator;
    assert ts[i] == ts[i..i + 3][0] && ts[i + 1] == ts[i..i + 3][1] && ts[i + 2] == ts[i..i + 3][2];
  }

  lemma DeleteInAnyCase(delete: string, from: string, t: string)
    requires Cased(delete, "DELETE") && Cased(from, "FROM") && IsName(t)
    ensures Parse(delete + " " + from + " " + t) == Ok(DeleteStatement(t, None))
  {
    hide Lex, IsName, Cased;
    LexDelete(delete, from, t, "");
    LexNothing();
    assert delete + " " + from + " " + t == delete + " " + from + " " + t + "";
  }

  lemma DeleteWhereInAnyCase(delete: string, from: string, t: string, where: string, c: BinaryOp, op: string)
    requires Cased(delete, "DELETE") && Cased(from, "FROM") && Cased(where, "WHERE") && OperatorText(op, c.Operator)
    requires IsName(t) && CleanCondition(c)
    ensures Parse(delete + " " + from + " " + t + (" " + where + " " + (ExprString(c.Left) + " " + op + " " +
                  ExprString(c.Right)))) == Ok(DeleteStatement(t, Some(c)))
  {
    hide Lex, IsName, Cased, CleanCondition, ExpressionToken, OperatorToken, ParseCondition, OperatorText, ExprString;
    var rest := " " + where + " " + (ExprString(c.Left) + " " + op + " " + ExprString(c.Right));
    LexDelete(delete, from, t, rest);
    LexWhere(where, c, op);
    var ts := Lex(delete + " " + from + " " + t + rest).value;
    assert ts[4..4 + 3] == [ExpressionToken(c.Left), OperatorToken(c.Operator), ExpressionToken(c.Right)];
    ParsesCondition(c, ts, 4);
  }

  /** A text of the statement with each of its keywords in any case. */
  ghost predicate Spelled(text: string, s: Statement) {
    match s
    case DeleteStatement(t, None) =>
      exists d, f :: Cased(d, "DELETE") && Cased(f, "FROM") && text == d + " " + f + " " + t
    case DeleteStatement(t, Some(c)) =>
      exists d, f, w, op :: Cased(d, "DELETE") && Cased(f, "FROM") && Cased(w, "WHERE") &&
        OperatorText(op, c.Operator) &&
        text == d + " " + f + " " + t + (" " + w + " " + (ExprString(c.Left) + " " + op + " " + ExprString(c.Right)))
    case CreateIndexStatement(n, t, c) =>
      exists r, i, o :: Cased(r, "CREATE") && Cased(i, "INDEX") && Cased(o, "ON") &&
        text == r + " " + i + " " + n + " " + o + " " + t + " (" + c + ")"
  }

  /**
   Every text of a statement with proper names, literals and operators parses to it, in whatever case its keywords are.
   */
  lemma AnyCaseParses(text: string, s: Statement)
    requires Clean(s) && Spelled(text, s)
    ensures Parse(text) == Ok(s)
  {
    hide Lex, IsName, CleanCondition, Cased, OperatorText, ExprString;
    match s
    case DeleteStatement(t, None) =>
      var d, f :| Cased(d, "DELETE") && Cased(f, "FROM") && text == d + " " + f + " " + t;
      DeleteInAnyCase(d, f, t);
    case DeleteStatement(t, Some(c)) =>
      var d, f, w, op :| Cased(d, "DELETE") && Cased(f, "FROM") && Cased(w, "WHERE") && OperatorText(op, c.Operator) &&
        text == d + " " + f + " " + t + (" " + w + " " + (ExprString(c.Left) + " " + op + " " + ExprString(c.Right)));
      DeleteWhereInAnyCase(d, f, t, w, c, op);
    case CreateIndexStatement(n, t, c) =>
      var r, i, o :| Cased(r, "CREATE") && Cased(i, "INDEX") && Cased(o, "ON") &&
        text == r + " " + i + " " + n + " " + o + " " + t + " (" + c + ")";
      LexCreateIndex(r, i, n, o, t, c);
  }

  lemma PrintIsSpelled(s: Statement)
    ensures Spelled(Print(s), s)
  {
    CasedSelf("DELETE");
    CasedSelf("FROM");
    match s
    case DeleteStatement(t, None) =>
      assert Print(s) == "DELETE" + " " + "FROM" + " " + t;
    case DeleteStatement(t, Some(c)) =>
      CasedSelf("WHERE");
      CasedSelf(c.Operator);
      assert OperatorText(c.Operator, c.Operator);
      assert Print(s) == "DELETE" + " " + "FROM" + " " + t + (" " + "WHERE" + " " + OpString(c));
    case CreateIndexStatement(n, t, c) =>
      CasedSelf("CREATE");
      CasedSelf("INDEX");
      CasedSelf("ON");
      assert Print(s) == "CREATE" + " " + "INDEX" + " " + n + " " + "ON" + " " + t + " (" + c + ")";
  }

  /** The printed text of a statement with proper names, literals and operators parses to the statement. */
  lemma PrintParses(s: Statement)
    requires Clean(s)
    ensures Parse(Print(s)) == Ok(s)
  {
    hide Clean, Spelled, Parse, Print;
    PrintIsSpelled(s);
    AnyCaseParses(Print(s), s);
  }

  // ----- what the parser returns prints back -----

  predicate NoQuotes(s: string) {
    forall i :: 0 <= i < |s| ==> !IsQuote(s[i])
  }

  /** What a token can be; without quotes in the text, a string is a truth value or NULL. */
  predicate TokenOk(t: Token, quotes: bool) {
    match t.Type
    case EOF => false
    case Keyword => IsKeyword(t.Value)
    case Ident => IsName(t.Value)
    case Number => IsNumber(t.Value)
    case String => quotes || (IsWord(t.Value) && IsTruth(t.Value))
    case Operator => IsSign(t.Value) || t.Value == "*"
    case Punctuation => |t.Value| == 1
  }

  lemma WordTokenOk(w: string, quotes: bool)
    requires IsWord(w)
    ensures TokenOk(WordToken(w), quotes)
  {
    hide IsKeyword;
  }

  /** How many characters the first token takes, if it is not quoted. */
  function FirstLength(s: string): nat
    requires s != ""
  {
    if StartsNumber(s) then Span(s, InNumber) else if StartsWord(s[0]) then Span(s, InWord)
    else if StartsOperator(s[0]) && |s| > 1 && s[1] == '=' then 2 else 1
  }

  lemma {:induction false} LexOk(s: string, quotes: bool)
    requires (quotes || NoQuotes(s)) && Lex(s).Ok?
    ensures forall i :: 0 <= i < |Lex(s).value| ==> TokenOk(Lex(s).value[i], quotes)
    decreases |s|
  {
    hide WordToken, IsKeyword, IsWord, IsNumber, IsSign, FirstLength, Span, StartsNumber;
    if s != "" {
      if IsSpace(s[0]) {
        LexOk(s[1..], quotes);
      } else if s[0] == '-' && |s| > 1 && s[1] == '-' {
        assert Span(s, InLine) > 0;
        LexOk(s[Span(s, InLine)..], quotes);
      } else if IsQuote(s[0]) {
        var n := Span(s[1..], if s[0] == '\'' then NotSingle else NotDouble);
        LexOk(s[n + 2..], quotes);
      } else {
        var t := FirstTokenOk(s, quotes);
        LexOk(s[FirstLength(s)..], quotes);
      }
    }
  }

  /** t is the first token of s, not quoted. */
  ghost predicate FirstIs(s: string, t: Token, quotes: bool)
    requires s != ""
  {
    0 < FirstLength(s) <= |s| && TokenOk(t, quotes) && |t.Value| == FirstLength(s) &&
      Lex(s) == Cons(t, Lex(s[FirstLength(s)..]))
  }

  lemma FirstTokenOk(s: string, quotes: bool) returns (t: Token)
    requires Plain(s) && Lex(s).Ok?
    ensures FirstIs(s, t, quotes)
  {
    hide Lex, FirstIs;
    if StartsNumber(s) {
      t := FirstNumber(s, quotes);
    } else if StartsWord(s[0]) {
      t := FirstWord(s, quotes);
    } else {
      t := FirstSymbol(s, quotes);
    }
  }

  lemma FirstNumber(s: string, quotes: bool) returns (t: Token)
    requires Plain(s) && StartsNumber(s)
    ensures FirstIs(s, t, quotes)
  {
    hide WordToken, IsWord;
    var n := Span(s, InNumber);
    assert n > 0 && StartsNumber(s[..n]) by {
      assert InNumber(s[0]) && (|s| > 1 && IsDigit(s[1]) ==> InNumber(s[1]));
    }
    t := Token(Number, s[..n]);
  }

  lemma FirstWord(s: string, quotes: bool) returns (t: Token)
    requires Plain(s) && !StartsNumber(s) && StartsWord(s[0])
    ensures FirstIs(s, t, quotes)
  {
    hide WordToken, IsWord, TokenOk;
    var n := Span(s, InWord);
    assert InWord(s[0]);
    WordStart(s, n);
    WordTokenOk(s[..n], quotes);
    WordLength(s[..n]);
    t := WordToken(s[..n]);
  }

  lemma FirstSymbol(s: string, quotes: bool) returns (t: Token)
    requires Plain(s) && !StartsNumber(s) && !StartsWord(s[0]) && Lex(s).Ok?
    ensures FirstIs(s, t, quotes)
  {
    hide WordToken, IsWord, IsNumber, IsTruth, IsKeyword, Span;
    if StartsOperator(s[0]) {
      t := Token(Operator, s[..FirstLength(s)]);
    } else {
      t := Token(Punctuation, s[..1]);
    }
  }

  lemma WordStart(s: string, n: nat)
    requires s != "" && StartsWord(s[0]) && n == Span(s, InWord)
    ensures 0 < n && IsWord(s[..n])
  {
    assert InWord(s[0]);
  }

  lemma WordLength(w: string)
    ensures |WordToken(w).Value| == |w|
  {
    hide IsKeyword, IsTruth;
  }

  ghost predicate TokensOk(ts: seq<Token>, quotes: bool) {
    forall i :: 0 <= i < |ts| ==> TokenOk(ts[i], quotes)
  }

  lemma ExpressionClean(ts: seq<Token>, i: nat)
    requires TokensOk(ts, false) && ParseExpression(ts, i).Ok?
    ensures CleanExpression(ParseExpression(ts, i).value)
  {
    hide IsName, IsNumber, IsWord, IsTruth, IsKeyword, IsSign;
    assert i < |ts| && TokenOk(ts[i], false);
  }

  lemma OperatorClean(ts: seq<Token>, i: nat, quotes: bool)
    requires TokensOk(ts, quotes) && ParseCondition(ts, i).Ok?
    ensures IsOperator(ParseCondition(ts, i).value.Operator)
  {
    hide ParseExpression, IsName, IsNumber, IsWord, IsTruth, IsKeyword, IsSign;
    assert i + 1 < |ts| ==> TokenOk(ts[i + 1], quotes);
  }

  lemma ConditionClean(ts: seq<Token>, i: nat)
    requires TokensOk(ts, false) && ParseCondition(ts, i).Ok?
    ensures CleanCondition(ParseCondition(ts, i).value)
  {
    hide ParseExpression, CleanExpression, IsOperator, TokensOk;
    ExpressionClean(ts, i);
    ExpressionClean(ts, i + 2);
    OperatorClean(ts, i, false);
  }

  lemma NameToken(ts: seq<Token>, i: nat, quotes: bool)
    requires TokensOk(ts, quotes) && TokenAt(ts, i).Type == Ident
    ensures IsName(TokenAt(ts, i).Value)
  {
    hide IsName;
    assert i < |ts| && TokenOk(ts[i], quotes);
  }

  /** The names in a parsed statement are names. */
  predicate NamesOk(s: Statement) {
    match s
    case DeleteStatement(t, _) => IsName(t)
    case CreateIndexStatement(n, t, c) => IsName(n) && IsName(t) && IsName(c)
  }

  lemma StatementNames(ts: seq<Token>, quotes: bool)
    requires TokensOk(ts, quotes) && ParseTokens(ts).Ok?
    ensures NamesOk(ParseTokens(ts).value)
  {
    hide ParseCondition, IsName, TokensOk, TokenAt;
    forall i: nat | TokenAt(ts, i).Type == Ident ensures IsName(TokenAt(ts, i).Value) {
      NameToken(ts, i, quotes);
    }
  }

  lemma StatementClean(ts: seq<Token>)
    requires TokensOk(ts, false) && ParseTokens(ts).Ok?
    ensures Clean(ParseTokens(ts).value)
  {
    hide ParseCondition, CleanCondition, IsName, TokensOk, TokenAt;
    StatementNames(ts, false);
    if ParseCondition(ts, 4).Ok? {
      ConditionClean(ts, 4);
    }
  }

  /** Every statement parsed from a text without quotes prints to a text that parses to it again. */
  lemma ParsedPrintsBack(text: string)
    requires NoQuotes(text) && Parse(text).Ok?
    ensures Clean(Parse(text).value)
    ensures Parse(Print(Parse(text).value)) == Parse(text)
  {
    hide Lex, ParseTokens, Clean, Print;
    LexOk(text, false);
    StatementClean(Lex(text).value);
    PrintParses(Parse(text).value);
  }

  // ----- quoted literals do not come back -----

  /** Where the first token is: n characters from k on; a quoted one has two more than its value. */
  ghost predicate TokenFrom(s: string, k: nat, n: nat) {
    && Lex(s).Ok? && Lex(s).value != [] && k + n <= |s| && n > 0 && !IsSpace(s[k])
    && var v := Lex(s).value[0].Value;
       && Lex(s[k + n..]) == Ok(Lex(s).value[1..])
       && (IsQuote(s[k]) ==> n == |v| + 2 && s[k] !in v)
       && (!IsQuote(s[k]) ==> n == |v| && TokenOk(Lex(s).value[0], false))
  }

  lemma {:induction false} FirstToken(s: string) returns (k: nat, n: nat)
    requires Lex(s).Ok? && Lex(s).value != []
    ensures TokenFrom(s, k, n)
    decreases |s|
  {
    hide WordToken, TokenOk, Span, FirstLength, StartsNumber, TokenFrom;
    k := 0;
    if IsSpace(s[0]) {
      k, n := FirstToken(s[1..]);
      k := FurtherOn(s, 1, k, n);
    } else if s[0] == '-' && |s| > 1 && s[1] == '-' {
      assert Span(s, InLine) > 0;
      k, n := FirstToken(s[Span(s, InLine)..]);
      k := FurtherOn(s, Span(s, InLine), k, n);
    } else if IsQuote(s[0]) {
      n := QuotedLength(s);
    } else {
      n := UnquotedLength(s);
    }
  }

  lemma FurtherOn(s: string, m: nat, k0: nat, n: nat) returns (k: nat)
    requires m <= |s| && Lex(s) == Lex(s[m..]) && TokenFrom(s[m..], k0, n)
    ensures TokenFrom(s, k, n)
  {
    hide Lex, TokenOk;
    k := k0 + m;
    assert s[m..][k0 + n..] == s[k + n..];
  }

  lemma UnquotedLength(s: string) returns (n: nat)
    requires Plain(s) && Lex(s).Ok?
    ensures TokenFrom(s, 0, n)
  {
    hide Lex, TokenOk, FirstLength;
    var t := FirstTokenOk(s, false);
    n := FirstLength(s);
    assert ([t] + Lex(s[n..]).value)[1..] == Lex(s[n..]).value;
  }

  lemma QuotedLength(s: string) returns (n: nat)
    requires s != "" && IsQuote(s[0]) && Lex(s).Ok?
    ensures TokenFrom(s, 0, n)
  {
    hide WordToken, StartsNumber;
    var m := Span(s[1..], if s[0] == '\'' then NotSingle else NotDouble);
    n := m + 2;
    var v := s[1..m + 1];
    assert forall i :: 0 <= i < |v| ==> v[i] == s[1..][i];
    assert s[0] !in v;
    assert ([Token(String, v)] + Lex(s[m + 2..]).value)[1..] == Lex(s[m + 2..]).value;
  }

  /** In the printed text of a condition there is no room for the quotes of a quoted token. */
  lemma NoRoomForQuotes(l: string, op: string, r: string)
    requires var s := l + " " + op + " " + r;
             Lex(s).Ok? && |Lex(s).value| >= 3 &&
             Lex(s).value[0].Value == l && Lex(s).value[1].Value == op && Lex(s).value[2].Value == r
    ensures var ts := Lex(l + " " + op + " " + r).value;
            TokenOk(ts[0], false) && TokenOk(ts[1], false) && TokenOk(ts[2], false)
  {
    hide Lex, TokenOk;
    var s := l + " " + op + " " + r;
    var ts := Lex(s).value;
    var k0, n0 := FirstToken(s);
    var s1 := s[k0 + n0..];
    var k1, n1 := FirstToken(s1);
    var s2 := s1[k1 + n1..];
    assert ts[1..][1..] == ts[2..];
    var k2, n2 := FirstToken(s2);
    assert s[|l|] == ' ';
    assert k1 == 0 ==> s1[0] == s[k0 + n0];
    assert l != "" ==> s[0] == l[0] && l[0] in l;
  }

  lemma ConditionBack(c: BinaryOp)
    requires Lex(OpString(c)).Ok? && ParseCondition(Lex(OpString(c)).value, 0) == Ok(c)
    ensures CleanCondition(c)
  {
    hide Lex, TokenOk;
    var ts := Lex(OpString(c)).value;
    NoRoomForQuotes(ExprString(c.Left), c.Operator, ExprString(c.Right));
    assert TokensOk(ts[..3], false);
    assert ParseCondition(ts[..3], 0) == Ok(c);
    ConditionClean(ts[..3], 0);
  }

  /**
   A statement comes back from its printed text exactly if it is clean: proper names, and no literal that needs quotes.
   */
  lemma PrintParsesIffClean(s: Statement)
    ensures Parse(Print(s)) == Ok(s) <==> Clean(s)
  {
    hide Lex, ParseCondition, CleanCondition, OpString, IsName, WordToken;
    if Parse(Print(s)) == Ok(s) {
      LexOk(Print(s), true);
      StatementNames(Lex(Print(s)).value, true);
      if s.DeleteStatement? && s.Condition.Some? {
        DeleteBack(s.Table, s.Condition.value);
      }
    }
    if Clean(s) {
      PrintParses(s);
    }
  }

  lemma SpacedWhere(op: string)
    ensures " WHERE " + op == " " + ("WHERE " + op) && "WHERE " + op == "WHERE" + " " + op
  {
    assert " WHERE " == " " + "WHERE " && "WHERE " == "WHERE" + " ";
  }

  lemma PrintedParts(t: string, c: BinaryOp)
    ensures Print(DeleteStatement(t, Some(c))) == "DELETE" + " " + "FROM" + " " + t + (" WHERE " + OpString(c))
  {
    hide OpString;
    assert "DELETE FROM " == "DELETE" + " " + "FROM" + " ";
  }

  lemma LexPrinted(t: string, c: BinaryOp)
    requires IsName(t) && Lex(Print(DeleteStatement(t, Some(c)))).Ok?
    ensures Lex(OpString(c)).Ok?
    ensures Lex(Print(DeleteStatement(t, Some(c)))) ==
            Ok([Token(Keyword, "DELETE"), Token(Keyword, "FROM"), Token(Ident, t), Token(Keyword, "WHERE")] +
               Lex(OpString(c)).value)
  {
    hide Cased, Lex, OpString, IsName, WordToken, IsKeyword, Cons, Print;
    var op := OpString(c);
    Keywords();
    CasedSelf("DELETE");
    CasedSelf("FROM");
    CasedSelf("WHERE");
    LexDelete("DELETE", "FROM", t, " WHERE " + op);
    PrintedParts(t, c);
    LexKeyword("WHERE", "WHERE", op);
    LexSpace("WHERE " + op);
    SpacedWhere(op);
    ConsFour(Token(Keyword, "DELETE"), Token(Keyword, "FROM"), Token(Ident, t), Token(Keyword, "WHERE"), Lex(op));
  }

  lemma ConsFour(a: Token, b: Token, c: Token, d: Token, rest: Parsed<seq<Token>>)
    ensures var r := Cons(a, Cons(b, Cons(c, Cons(d, rest))));
            && (r.Ok? <==> rest.Ok?) && (r.Ok? ==> r.value == [a, b, c, d] + rest.value)
  {
    match rest
    case Err(_) =>
    case Ok(ts) => assert [a] + ([b] + ([c] + ([d] + ts))) == [a, b, c, d] + ts;
  }

  lemma DeleteBack(t: string, c: BinaryOp)
    requires IsName(t) && Parse(Print(DeleteStatement(t, Some(c)))) == Ok(DeleteStatement(t, Some(c)))
    ensures CleanCondition(c)
  {
    hide Cased, Lex, CleanCondition, OpString, IsName, WordToken, ParseExpression, IsKeyword, Print;
    var s := DeleteStatement(t, Some(c));
    LexPrinted(t, c);
    var ts, us := Lex(Print(s)).value, Lex(OpString(c)).value;
    assert forall i: nat :: TokenAt(ts, i + 4) == TokenAt(us, i);
    SameExpression(ts, us, 0);
    SameExpression(ts, us, 2);
    assert ParseCondition(us, 0) == Ok(c);
    ConditionBack(c);
  }

  lemma SameExpression(ts: seq<Token>, us: seq<Token>, i: nat)
    requires TokenAt(ts, i + 4) == TokenAt(us, i)
    ensures ParseExpression(ts, i + 4) == ParseExpression(us, i)
  {
  }

  /** A literal that reads as a name comes back as an identifier. */
  lemma NameComesBackAsIdentifier(t: string, column: string, v: string)
    requires IsName(t) && IsName(column) && IsName(v)
    ensures Parse(Print(DeleteStatement(t, Some(BinaryOp(Identifier(column), "=", Literal(v)))))) ==
            Ok(DeleteStatement(t, Some(BinaryOp(Identifier(column), "=", Identifier(v)))))
  {
    hide Parse, IsName;
    PrintParses(DeleteStatement(t, Some(BinaryOp(Identifier(column), "=", Identifier(v)))));
  }
}
