// What the lexer makes of single characters, and which token lists are statements.
module SqlGrammar {
  import opened Sequences
  import opened SqlModel
  import opened Sql
  import opened SqlRoundTrip

  // ----- reserved words -----

  const STATEMENT_WORDS: set<string> := {
    "SELECT", "INSERT", "INTO", "VALUES", "UPDATE", "SET", "DELETE", "CREATE", "DROP", "TABLE", "INDEX", "ON", "IF",
    "EXISTS"}

  const CLAUSE_WORDS: set<string> := {
    "FROM", "WHERE", "JOIN", "INNER", "LEFT", "RIGHT", "ORDER", "BY", "ASC", "DESC", "LIMIT", "OFFSET"}

  const OPERATOR_WORDS: set<string> := {"AND", "OR", "NOT", "LIKE", "COUNT", "SUM", "AVG", "MIN", "MAX"}

  const COLUMN_WORDS: set<string> := {
    "INT", "TEXT", "FLOAT", "BOOL", "PRIMARY", "KEY", "UNIQUE", "DEFAULT", "CHECK", "REFERENCES", "AUTOINCREMENT",
    "NULL", "TRUE", "FALSE"}

  /** The words that name nothing, in any letter case. */
  const RESERVED: set<string> := STATEMENT_WORDS + CLAUSE_WORDS + OPERATOR_WORDS + COLUMN_WORDS

  lemma StatementWords(w: string)
    requires w in STATEMENT_WORDS
    ensures IsKeyword(w)
  {
  }

  lemma ClauseWords(w: string)
    requires w in CLAUSE_WORDS
    ensures IsKeyword(w)
  {
  }

  lemma OperatorWords(w: string)
    requires w in OPERATOR_WORDS
    ensures IsKeyword(w)
  {
  }

  lemma ColumnWords(w: string)
    requires w in COLUMN_WORDS
    ensures IsKeyword(w) || w == "TRUE" || w == "FALSE" || w == "NULL"
  {
  }

  lemma KeywordIsReserved(w: string)
    requires IsKeyword(w)
    ensures w in STATEMENT_WORDS || w in CLAUSE_WORDS || w in OPERATOR_WORDS || w in COLUMN_WORDS
  {
  }

  lemma TruthIsReserved()
    ensures "TRUE" in COLUMN_WORDS && "FALSE" in COLUMN_WORDS && "NULL" in COLUMN_WORDS
  {
  }

  lemma ReservedIff(w: string)
    ensures w in RESERVED <==> IsKeyword(w) || w == "TRUE" || w == "FALSE" || w == "NULL"
  {
    hide IsKeyword, STATEMENT_WORDS, CLAUSE_WORDS, OPERATOR_WORDS, COLUMN_WORDS;
    TruthIsReserved();
    if w in STATEMENT_WORDS {
      StatementWords(w);
    } else if w in CLAUSE_WORDS {
      ClauseWords(w);
    } else if w in OPERATOR_WORDS {
      OperatorWords(w);
    } else if w in COLUMN_WORDS {
      ColumnWords(w);
    }
    if IsKeyword(w) {
      KeywordIsReserved(w);
    }
  }

  lemma ReservedAreCapitals(w: string)
    requires w in RESERVED
    ensures Capitals(w)
  {
    hide Capitals;
    ReservedIff(w);
    assert Capitals("TRUE") && Capitals("FALSE") && Capitals("NULL") by { TruthIsCapital(); }
    if IsKeyword(w) {
      KeywordsAreCapitals(w);
    }
  }

  lemma TruthIsCapital()
    ensures Capitals("TRUE") && Capitals("FALSE") && Capitals("NULL")
  {
  }

  lemma NoDotInCapitals(w: string, upper: string)
    requires Capitals(upper) && Cased(w, upper)
    ensures '.' !in w && '*' !in w
  {
  }

  lemma SomeReserved(w: string)
    ensures (exists kw :: kw in RESERVED && Cased(w, kw)) <==> ToUpper(w) in RESERVED
  {
    hide Cased, Capitals, RESERVED;
    forall kw | kw in RESERVED ensures Cased(w, kw) <==> ToUpper(w) == kw {
      ReservedAreCapitals(kw);
      CasedIsUpper(w, kw);
    }
  }

  /** The words that are read as names: all but the star and the reserved words, in whatever letter case. */
  lemma NamesAre(w: string)
    requires IsWord(w)
    ensures WordToken(w) == Token(Ident, w) <==> w != "*" && forall kw :: kw in RESERVED ==> !Cased(w, kw)
  {
    hide IsKeyword, Cased, IsWord, Capitals;
    ReservedIff(ToUpper(w));
    SomeReserved(w);
    if exists kw :: kw in RESERVED && Cased(w, kw) {
      var kw :| kw in RESERVED && Cased(w, kw);
      ReservedAreCapitals(kw);
      NoDotInCapitals(w, kw);
    }
  }

  // ----- characters by their codes -----

  /** The character alone: a space, a quote that is not closed, a digit, a letter or underscore, the star, a sign. */
  function Alone(c: char): Parsed<seq<Token>> {
    var n := c as int;
    if n == 9 || n == 10 || n == 13 || n == 32 then Ok([])
    else if n == 34 || n == 39 then Err(UnclosedString)
    else if 48 <= n <= 57 then Ok([Token(Number, [c])])
    else if 65 <= n <= 90 || 97 <= n <= 122 || n == 95 then Ok([Token(Ident, [c])])
    else if n == 42 || n == 33 || 60 <= n <= 62 then Ok([Token(Operator, [c])])
    else if n == 40 || n == 41 || n == 44 || n == 59 then Ok([Token(Punctuation, [c])])
    else Err(UnexpectedChar)
  }

  lemma LexAlone(c: char)
    ensures Lex([c]) == Alone(c)
  {
    hide Lex, WordToken;
    LexNothing();
    assert [c] + "" == [c];
    forall t: Token ensures Cons(t, Ok([])) == Ok([t]) {
      ConsNothing(t);
    }
    if IsDigit(c) {
      LexNumber([c], "");
    } else if StartsWord(c) {
      LexWord([c], "");
      ShortWord(c);
    } else if StartsOperator(c) {
      LexSign([c], "");
    } else if IsPunctuation(c) {
      LexPunctuation(c, "");
    } else {
      NoToken(c);
    }
  }

  lemma ConsNothing(t: Token)
    ensures Cons(t, Ok([])) == Ok([t])
  {
    assert [t] + [] == [t];
  }

  lemma NoToken(c: char)
    requires !IsDigit(c) && !StartsWord(c) && !StartsOperator(c) && !IsPunctuation(c)
    ensures Lex([c]) == if IsSpace(c) then Ok([]) else if IsQuote(c) then Err(UnclosedString) else Err(UnexpectedChar)
  {
    hide WordToken, Span, Lex;
    LexNothing();
    LexStep([c]);
    assert [c][1..] == "";
  }

  /** No keyword has one letter. */
  lemma ShortWord(c: char)
    requires StartsWord(c)
    ensures WordToken([c]) == Token(if c == '*' then Operator else Ident, [c])
  {
    if c != '*' {
      assert |ToUpper([c])| == 1;
      OneLetter(ToUpper([c]));
    } else {
      StarToken();
    }
  }

  lemma OneLetter(w: string)
    requires |w| == 1
    ensures !IsKeyword(w)
  {
  }

  /** A character that goes on a word: letters, digits, underscore, dot and star. */
  predicate GoesOn(c: char) {
    var n := c as int;
    65 <= n <= 90 || 97 <= n <= 122 || 48 <= n <= 57 || n == 95 || n == 46 || n == 42
  }

  /** A character behind a letter belongs to its word or begins another token. */
  lemma LexBehindLetter(a: char, c: char)
    requires 65 <= a as int <= 90 || 97 <= a as int <= 122
    ensures Lex([a, c]) == if GoesOn(c) then Ok([WordToken([a, c])]) else Cons(Token(Ident, [a]), Alone(c))
  {
    hide WordToken, Lex;
    LexNothing();
    ConsNothing(WordToken([a, c]));
    if GoesOn(c) {
      assert IsWord([a, c]) && [a, c] + "" == [a, c];
      LexWord([a, c], "");
    } else {
      assert IsWord([a]) && [a] + [c] == [a, c];
      LexWord([a], [c]);
      LexAlone(c);
      ShortWord(a);
    }
  }

  /** A character behind a digit belongs to its number if it is a digit or a dot. */
  lemma LexBehindDigit(d: char, c: char)
    requires 48 <= d as int <= 57
    ensures Lex([d, c]) == if 48 <= c as int <= 57 || c as int == 46 then Ok([Token(Number, [d, c])])
                           else Cons(Token(Number, [d]), Alone(c))
  {
    hide Lex;
    LexNothing();
    ConsNothing(Token(Number, [d, c]));
    if IsDigit(c) || c == '.' {
      assert IsNumber([d, c]) && [d, c] + "" == [d, c];
      LexNumber([d, c], "");
    } else {
      assert IsNumber([d]) && [d] + [c] == [d, c];
      LexNumber([d], [c]);
      LexAlone(c);
    }
  }

  /** A dot begins a number if a digit stands behind it, and nothing else. */
  lemma LexBehindDot(c: char)
    ensures Lex(['.', c]) == if 48 <= c as int <= 57 then Ok([Token(Number, ['.', c])]) else Err(UnexpectedChar)
  {
    hide Lex;
    LexNothing();
    ConsNothing(Token(Number, ['.', c]));
    if IsDigit(c) {
      assert IsNumber(['.', c]) && ['.', c] + "" == ['.', c];
      LexNumber(['.', c], "");
    } else {
      LexStep(['.', c]);
    }
  }

  /** A character behind an operator belongs to it if it is an equals sign. */
  lemma LexBehindOperator(o: char, c: char)
    requires o as int == 33 || 60 <= o as int <= 62
    ensures Lex([o, c]) == if c as int ==
            61 then Ok([Token(Operator, [o, c])]) else Cons(Token(Operator, [o]), Alone(c))
  {
    hide Lex;
    LexNothing();
    ConsNothing(Token(Operator, [o, c]));
    if c == '=' {
      assert [o, c] + "" == [o, c] && IsSign([o, c]);
      LexSign([o, c], "");
    } else {
      assert [o] + [c] == [o, c] && IsSign([o]);
      LexSign([o], [c]);
      LexAlone(c);
    }
  }

  /** Whatever stands behind two dashes is skipped up to the end of the line. */
  lemma LexComment(text: string, rest: string)
    requires '\n' !in text && (rest == "" || rest[0] == '\n')
    ensures Lex("--" + text + rest) == Lex(rest)
  {
    hide WordToken;
    var s := "--" + text;
    SpanOver(s, rest, InLine);
    assert (s + rest)[0] == '-' && (s + rest)[1] == '-' && (s + rest)[|s|..] == rest;
  }

  /** Whatever stands between two quotes of one kind, without one between them, is a literal as it stands. */
  lemma LexQuoted(quote: char, text: string, rest: string)
    requires quote as int == 39 || quote as int == 34
    requires quote !in text
    ensures Lex([quote] + text + [quote] + rest) == Cons(Token(String, text), Lex(rest))
  {
    hide WordToken;
    var s := [quote] + text + [quote] + rest;
    var not := if quote == '\'' then NotSingle else NotDouble;
    assert s[1..] == text + ([quote] + rest);
    SpanOver(text, [quote] + rest, not);
    assert s[1..|text| + 1] == text && s[|text| + 2..] == rest;
  }

  // ----- token lists -----

  predicate IsExpression(t: Token, e: Expression) {
    match e
    case Literal(v) => (t.Type == Number || t.Type == String) && t.Value == v
    case Identifier(n) => t == Token(Ident, n)
  }

  /** The tokens begin with those of the statement; keywords and signs count by their texts alone, but for the first. */
  predicate BeginsAs(ts: seq<Token>, s: Statement) {
    match s
    case DeleteStatement(t, None) =>
      && |ts| >= 3 && ts[0] == Token(Keyword, "DELETE") && ts[1].Value == "FROM" && ts[2] == Token(Ident, t)
      && (|ts| == 3 || ts[3].Value != "WHERE")
    case DeleteStatement(t, Some(c)) =>
      && |ts| >= 7 && ts[0] == Token(Keyword, "DELETE") && ts[1].Value == "FROM" && ts[2] == Token(Ident, t)
      && ts[3].Value == "WHERE" && IsExpression(ts[4], c.Left) && IsExpression(ts[6], c.Right)
      && ts[5].Value == c.Operator && (ts[5].Type == Operator || ts[5].Value == "LIKE")
    case CreateIndexStatement(n, t, c) =>
      && |ts| >= 8 && ts[0] == Token(Keyword, "CREATE") && ts[1].Value == "INDEX" && ts[2] == Token(Ident, n)
      && ts[3].Value == "ON" && ts[4] == Token(Ident, t)
      && ts[5].Value == "(" && ts[6] == Token(Ident, c) && ts[7].Value == ")"
  }

  lemma ParsesExpression(ts: seq<Token>, i: nat, e: Expression)
    ensures ParseExpression(ts, i) == Ok(e) <==> i < |ts| && IsExpression(ts[i], e)
  {
  }

  /** A token list parses to a statement exactly if it begins with the tokens of the statement. */
  lemma ParsesIffBegins(ts: seq<Token>, s: Statement)
    ensures ParseTokens(ts) == Ok(s) <==> BeginsAs(ts, s)
  {
    hide ParseExpression, IsExpression;
    if s.DeleteStatement? && s.Condition.Some? {
      ParsesExpression(ts, 4, s.Condition.value.Left);
      ParsesExpression(ts, 6, s.Condition.value.Right);
    }
  }

  /** So a text parses to a statement exactly if it has tokens, and they begin with those of the statement. */
  lemma TextParsesIff(text: string, s: Statement)
    ensures Parse(text) == Ok(s) <==> Lex(text).Ok? && BeginsAs(Lex(text).value, s)
  {
    hide Lex, ParseTokens, BeginsAs;
    if Lex(text).Ok? {
      ParsesIffBegins(Lex(text).value, s);
    }
  }
}
