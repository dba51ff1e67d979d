/** The LALR parser of the `$filter` grammar, driven token by token as the generated tables drive
    it, with the semantic actions run at the moment the parser reduces.

    No precedence is declared, so and, or, eq and ne share one level and every shift/reduce
    conflict is resolved as a shift: an expression is a primary optionally followed by an
    operator and a further expression, and chains group to the right. Every reduction is taken
    only on a lookahead in FOLLOW(expression) = { end, `)`, and, or, eq, ne }, the lookahead set
    the merged LALR states share; any other lookahead is a syntax error at that token. A chain is
    reduced as soon as `)` or the end is seen, so its actions run before a misplaced `)` or a
    premature end is reported. */
module FilterParse {
  import opened Results
  import opened FilterLex
  import opened FilterYacc

  /** The error the parser's error hook raises for an offending token. */
  function SyntaxErrorAt(t: Token): FilterError
  {
    GenericSyntaxError(t.end, t.value)
  }

  /** Every token other than a string carries the text of its rule, as every token the scanner
      emits does; in particular every FIELD token names a field of the table. */
  predicate RuleTokens(toks: seq<Token>)
  {
    forall k :: 0 <= k < |toks| ==> RuleTokenAt(toks, k)
  }

  predicate RuleTokenAt(toks: seq<Token>, k: nat)
    requires k < |toks|
  {
    toks[k].kind != STRING ==> IsRule(LexemeOf(toks[k]))
  }

  /** A syntax error names a token of the input: its end position and its value. */
  predicate FromInput(toks: seq<Token>, err: FilterError)
  {
    err.GenericSyntaxError? ==> exists k :: 0 <= k < |toks| && SyntaxErrorAt(toks[k]) == err
  }

  /** The tokens, other than the end, on which a reduction to an expression is taken. */
  predicate InFollow(k: TokenKind)
  {
    k == RPAREN || k == AND || k == OR || k == EQ || k == NE
  }

  /** The lookahead check made before a reduction whose next token is at q. */
  function Lookahead(toks: seq<Token>, q: nat): (r: Result<nat, FilterError>)
    requires q <= |toks|
    ensures r.Ok? <==> q == |toks| || InFollow(toks[q].kind)
    ensures r.Ok? ==> r.value == q
    ensures r.Err? ==> q < |toks| && r.error == SyntaxErrorAt(toks[q])
  {
    if q == |toks| || InFollow(toks[q].kind) then Ok(q) else Err(SyntaxErrorAt(toks[q]))
  }

  /** A shift of the one token kind the parser accepts at pos. */
  function Expect(toks: seq<Token>, pos: nat, kind: TokenKind): (r: Result<Token, FilterError>)
    requires pos <= |toks|
    ensures r.Ok? <==> pos < |toks| && toks[pos].kind == kind
    ensures r.Ok? ==> r.value == toks[pos]
    ensures r.Err? && pos == |toks| ==> r.error == UnexpectedEnd
    ensures r.Err? && pos < |toks| ==> r.error == SyntaxErrorAt(toks[pos])
  {
    if pos == |toks| then Err(UnexpectedEnd)
    else if toks[pos].kind != kind then Err(SyntaxErrorAt(toks[pos]))
    else Ok(toks[pos])
  }

  /** A reduced expression: the tree the parser walked, the value its actions computed, and the
      position of the token after it. */
  datatype Parsed = Parsed(tree: Expr, value: Operand, next: nat)

  /** The tokens from pos on begin with the lexemes ls. */
  predicate Matches(toks: seq<Token>, pos: nat, ls: seq<Lexeme>)
  {
    && pos + |ls| <= |toks|
    && forall k :: 0 <= k < |ls| ==> MatchAt(toks, pos, ls, k)
  }

  /** The token at pos + k carries the lexeme ls[k]. */
  predicate MatchAt(toks: seq<Token>, pos: nat, ls: seq<Lexeme>, k: nat)
    requires pos + k < |toks| && k < |ls|
  {
    LexemeOf(toks[pos + k]) == ls[k]
  }

  /** p was read from the tokens at pos: its tree is one the grammar builds, the tokens it spans
      spell that tree, and its value is what the tree's actions compute. */
  predicate ParsedFrom(toks: seq<Token>, pos: nat, p: Parsed)
  {
    && WellFormed(p.tree)
    && p.next == pos + |Unparse(p.tree)|
    && Matches(toks, pos, Unparse(p.tree))
    && Lower(p.tree) == Ok(p.value)
  }

  lemma MatchesConcat(toks: seq<Token>, pos: nat, a: seq<Lexeme>, b: seq<Lexeme>)
    ensures Matches(toks, pos, a + b) <==> Matches(toks, pos, a) && Matches(toks, pos + |a|, b)
  {
    if Matches(toks, pos, a) && Matches(toks, pos + |a|, b) {
      forall k | 0 <= k < |a + b|
        ensures MatchAt(toks, pos, a + b, k)
      {
        if k >= |a| {
          var j := k - |a|;
          assert MatchAt(toks, pos + |a|, b, j);
          assert toks[pos + k] == toks[pos + |a| + j];
          assert (a + b)[k] == b[j];
        } else {
          assert MatchAt(toks, pos, a, k);
          assert (a + b)[k] == a[k];
        }
      }
    }
    if Matches(toks, pos, a + b) {
      forall k | 0 <= k < |a|
        ensures MatchAt(toks, pos, a, k)
      {
        assert MatchAt(toks, pos, a + b, k);
        assert (a + b)[k] == a[k];
      }
      var p2 := pos + |a|;
      forall k | 0 <= k < |b|
        ensures MatchAt(toks, p2, b, k)
      {
        var j := |a| + k;
        assert MatchAt(toks, pos, a + b, j);
        assert toks[pos + j] == toks[p2 + k];
        assert (a + b)[j] == b[k];
      }
    }
  }

  lemma MatchesOne(toks: seq<Token>, pos: nat, l: Lexeme)
    requires pos < |toks|
    ensures Matches(toks, pos, [l]) <==> LexemeOf(toks[pos]) == l
  {
    if Matches(toks, pos, [l]) {
      assert MatchAt(toks, pos, [l], 0);
      assert toks[pos + 0] == toks[pos];
    }
    if LexemeOf(toks[pos]) == l {
      forall k | 0 <= k < 1
        ensures MatchAt(toks, pos, [l], k)
      {
        assert toks[pos + k] == toks[pos];
      }
    }
  }

  /** A token other than a string carries its rule's text. */
  lemma RuleToken(toks: seq<Token>, k: nat)
    requires RuleTokens(toks) && k < |toks| && toks[k].kind != STRING
    ensures IsRule(LexemeOf(toks[k]))
  {
    assert RuleTokenAt(toks, k);
  }

  /** A primary of one token at pos, with its tree and value: reduced once the lookahead allows
      it. */
  function Leaf(toks: seq<Token>, pos: nat, tree: Expr, value: Operand): (r: Result<Parsed, FilterError>)
    requires pos < |toks|
    ensures r.Ok? <==> pos + 1 == |toks| || InFollow(toks[pos + 1].kind)
    ensures r.Ok? ==> r.value == Parsed(tree, value, pos + 1)
    ensures r.Err? ==> r.error == SyntaxErrorAt(toks[pos + 1])
  {
    var q :- Lookahead(toks, pos + 1);
    Ok(Parsed(tree, value, q))
  }

  /** `tolower ( FIELD )` at pos: a case-insensitive reference to the field's column. */
  function ParseToLower(toks: seq<Token>, pos: nat): (r: Result<Parsed, FilterError>)
    requires pos < |toks| && RuleTokens(toks)
    ensures r.Ok? ==> r.value.next == pos + 4 <= |toks| && r.value.tree.ToLower?
    ensures r.Ok? ==> r.value.next == |toks| || InFollow(toks[r.value.next].kind)
  {
    var lp :- Expect(toks, pos + 1, LPAREN);
    var f :- Expect(toks, pos + 2, FIELD);
    var rp :- Expect(toks, pos + 3, RPAREN);
    var q :- Lookahead(toks, pos + 4);
    RuleToken(toks, pos + 2);
    Ok(Parsed(ToLower(f.value), FieldRef(FieldMapping[f.value], true), q))
  }

  /** `substringof ( STRING , expression )` at pos: the expression is parsed in full, the closing
      parenthesis and the lookahead are checked, and only then does the action run. */
  function ParseSubstringOf(toks: seq<Token>, pos: nat): (r: Result<Parsed, FilterError>)
    requires pos < |toks| && RuleTokens(toks)
    ensures r.Ok? ==> pos + 5 < r.value.next <= |toks| && r.value.tree.SubstringOf?
    ensures r.Ok? ==> r.value.next == |toks| || InFollow(toks[r.value.next].kind)
    decreases |toks| - pos, 0
  {
    var lp :- Expect(toks, pos + 1, LPAREN);
    var s :- Expect(toks, pos + 2, STRING);
    var comma :- Expect(toks, pos + 3, COMMA);
    var arg :- ParseExpr(toks, pos + 4);
    var rp :- Expect(toks, arg.next, RPAREN);
    var q :- Lookahead(toks, arg.next + 1);
    var v :- SubstringOfAction(s.value, arg.value);
    Ok(Parsed(SubstringOf(s.value, arg.tree), v, q))
  }

  /** `( expression )` at pos: transparent, the inner value is passed up unchanged. */
  function ParseParen(toks: seq<Token>, pos: nat): (r: Result<Parsed, FilterError>)
    requires pos < |toks| && RuleTokens(toks)
    ensures r.Ok? ==> pos + 2 < r.value.next <= |toks| && r.value.tree.Paren?
    ensures r.Ok? ==> r.value.next == |toks| || InFollow(toks[r.value.next].kind)
    decreases |toks| - pos, 0
  {
    var inner :- ParseExpr(toks, pos + 1);
    var rp :- Expect(toks, inner.next, RPAREN);
    var q :- Lookahead(toks, inner.next + 1);
    Ok(Parsed(Paren(inner.tree), inner.value, q))
  }

  /** A primary expression at pos: a field, a string, null, IsLatestVersion, `tolower(F)`,
      `substringof(S, E)` or a parenthesised expression. Its action runs once the lookahead after
      it is seen to allow the reduction; any other token there is a syntax error. */
  function ParsePrimary(toks: seq<Token>, pos: nat): (r: Result<Parsed, FilterError>)
    requires pos <= |toks| && RuleTokens(toks)
    ensures r.Ok? ==> pos < r.value.next <= |toks| && !r.value.tree.Binary?
    ensures r.Ok? ==> r.value.next == |toks| || InFollow(toks[r.value.next].kind)
    decreases |toks| - pos, 1
  {
    if pos == |toks| then Err(UnexpectedEnd)
    else
      var t := toks[pos];
      match t.kind
      case FIELD =>
        RuleToken(toks, pos);
        Leaf(toks, pos, Field(t.value), FieldRef(FieldMapping[t.value], false))
      case STRING => Leaf(toks, pos, Str(t.value), Lit(t.value))
      case NULL => Leaf(toks, pos, Null, NullMarker)
      case ISLATESTVERSION => Leaf(toks, pos, IsLatestVersion, Pred(IsLatest))
      case TOLOWER => ParseToLower(toks, pos)
      case SUBSTRINGOF => ParseSubstringOf(toks, pos)
      case LPAREN => ParseParen(toks, pos)
      case _ => Err(SyntaxErrorAt(t))
  }

  /** An expression at pos: a primary, then, while an operator follows, that operator and the
      expression after it; the chain is reduced from the right once `)` or the end is seen. */
  function ParseExpr(toks: seq<Token>, pos: nat): (r: Result<Parsed, FilterError>)
    requires pos <= |toks| && RuleTokens(toks)
    ensures r.Ok? ==> pos < r.value.next <= |toks|
    ensures r.Ok? ==> r.value.next == |toks| || toks[r.value.next].kind == RPAREN
    decreases |toks| - pos, 2
  {
    var a :- ParsePrimary(toks, pos);
    ParseRest(toks, a)
  }

  /** What follows a primary: the chain it starts when an operator follows, or the primary
      alone. */
  function ParseRest(toks: seq<Token>, a: Parsed): (r: Result<Parsed, FilterError>)
    requires a.next <= |toks| && RuleTokens(toks)
    requires a.next == |toks| || InFollow(toks[a.next].kind)
    ensures r.Ok? ==> a.next <= r.value.next <= |toks|
    ensures r.Ok? ==> r.value.next == |toks| || toks[r.value.next].kind == RPAREN
    decreases |toks| - a.next, 3
  {
    if a.next < |toks| && KindOp(toks[a.next].kind).Some? then
      Chain(a, KindOp(toks[a.next].kind).value, ParseExpr(toks, a.next + 1))
    else
      Ok(a)
  }

  /** The whole token sequence as one expression; a `)` left over is a syntax error. */
  function ParseTree(toks: seq<Token>): (r: Result<Parsed, FilterError>)
    requires RuleTokens(toks)
    ensures r.Ok? ==> r.value.next == |toks|
  {
    var e :- ParseExpr(toks, 0);
    if e.next == |toks| then Ok(e) else Err(SyntaxErrorAt(toks[e.next]))
  }

  lemma MatchesFour(toks: seq<Token>, pos: nat, l0: Lexeme, l1: Lexeme, l2: Lexeme, l3: Lexeme)
    requires pos + 4 <= |toks|
    requires LexemeOf(toks[pos]) == l0 && LexemeOf(toks[pos + 1]) == l1
    requires LexemeOf(toks[pos + 2]) == l2 && LexemeOf(toks[pos + 3]) == l3
    ensures Matches(toks, pos, [l0, l1, l2, l3])
  {
    forall k | 0 <= k < 4
      ensures MatchAt(toks, pos, [l0, l1, l2, l3], k)
    {
      if k == 0 { assert toks[pos + k] == toks[pos]; }
    }
  }

  /** The tokens from pos spell a, then the tree x, then b. */
  lemma MatchesAround(toks: seq<Token>, pos: nat, a: seq<Lexeme>, x: seq<Lexeme>, b: seq<Lexeme>)
    requires Matches(toks, pos, a) && Matches(toks, pos + |a|, x) && Matches(toks, pos + |a| + |x|, b)
    ensures Matches(toks, pos, a + x + b)
  {
    MatchesConcat(toks, pos, a, x);
    MatchesConcat(toks, pos, a + x, b);
  }

  lemma ParseToLowerSound(toks: seq<Token>, pos: nat)
    requires pos < |toks| && RuleTokens(toks) && toks[pos].kind == TOLOWER
    requires ParseToLower(toks, pos).Ok?
    ensures ParsedFrom(toks, pos, ParseToLower(toks, pos).value)
  {
    RuleToken(toks, pos);
    RuleToken(toks, pos + 1);
    RuleToken(toks, pos + 2);
    RuleToken(toks, pos + 3);
    MatchesFour(toks, pos, Lexeme(TOLOWER, "tolower"), Lexeme(LPAREN, "("),
      Lexeme(FIELD, toks[pos + 2].value), Lexeme(RPAREN, ")"));
  }

  /** A parenthesised expression read from the tokens is read from them with its parentheses. */
  lemma ParenFrom(toks: seq<Token>, pos: nat, inner: Parsed)
    requires ParsedFrom(toks, pos + 1, inner) && inner.next < |toks|
    requires LexemeOf(toks[pos]) == Lexeme(LPAREN, "(") && LexemeOf(toks[inner.next]) == Lexeme(RPAREN, ")")
    ensures ParsedFrom(toks, pos, Parsed(Paren(inner.tree), inner.value, inner.next + 1))
  {
    MatchesOne(toks, pos, Lexeme(LPAREN, "("));
    MatchesOne(toks, inner.next, Lexeme(RPAREN, ")"));
    MatchesAround(toks, pos, [Lexeme(LPAREN, "(")], Unparse(inner.tree), [Lexeme(RPAREN, ")")]);
  }

  /** `substringof(S, E)` read from the tokens, with E read from them after the comma. */
  lemma SubstringOfFrom(toks: seq<Token>, pos: nat, sub: string, arg: Parsed, v: Operand)
    requires ParsedFrom(toks, pos + 4, arg) && arg.next < |toks|
    requires LexemeOf(toks[pos]) == Lexeme(SUBSTRINGOF, "substringof")
    requires LexemeOf(toks[pos + 1]) == Lexeme(LPAREN, "(")
    requires LexemeOf(toks[pos + 2]) == Lexeme(STRING, sub)
    requires LexemeOf(toks[pos + 3]) == Lexeme(COMMA, ",")
    requires LexemeOf(toks[arg.next]) == Lexeme(RPAREN, ")")
    requires SubstringOfAction(sub, arg.value) == Ok(v)
    ensures ParsedFrom(toks, pos, Parsed(SubstringOf(sub, arg.tree), v, arg.next + 1))
  {
    var a := [Lexeme(SUBSTRINGOF, "substringof"), Lexeme(LPAREN, "("), Lexeme(STRING, sub), Lexeme(COMMA, ",")];
    MatchesFour(toks, pos, a[0], a[1], a[2], a[3]);
    MatchesOne(toks, arg.next, Lexeme(RPAREN, ")"));
    MatchesAround(toks, pos, a, Unparse(arg.tree), [Lexeme(RPAREN, ")")]);
  }

  /** A primary, an operator and an expression read from the tokens in turn make a chain read
      from them, whose value is the operator's action on the two values. */
  lemma BinaryFrom(toks: seq<Token>, pos: nat, a: Parsed, op: BinOp, b: Parsed, v: Operand)
    requires ParsedFrom(toks, pos, a) && !a.tree.Binary? && a.next < |toks|
    requires LexemeOf(toks[a.next]) == OpLexeme(op) && ParsedFrom(toks, a.next + 1, b)
    requires OpAction(a.value, op, b.value) == Ok(v)
    ensures ParsedFrom(toks, pos, Parsed(Binary(a.tree, op, b.tree), v, b.next))
  {
    MatchesOne(toks, a.next, OpLexeme(op));
    MatchesAround(toks, pos, Unparse(a.tree), [OpLexeme(op)], Unparse(b.tree));
  }

  lemma {:induction false} ParseSubstringOfSound(toks: seq<Token>, pos: nat)
    requires pos < |toks| && RuleTokens(toks) && toks[pos].kind == SUBSTRINGOF
    requires ParseSubstringOf(toks, pos).Ok?
    ensures ParsedFrom(toks, pos, ParseSubstringOf(toks, pos).value)
    decreases |toks| - pos, 0
  {
    var arg := ParseExpr(toks, pos + 4).value;
    var sub := toks[pos + 2].value;
    var v := SubstringOfAction(sub, arg.value).value;
    assert ParseSubstringOf(toks, pos).value == Parsed(SubstringOf(sub, arg.tree), v, arg.next + 1);
    ParseExprSound(toks, pos + 4);
    RuleToken(toks, pos);
    RuleToken(toks, pos + 1);
    RuleToken(toks, pos + 3);
    RuleToken(toks, arg.next);
    SubstringOfFrom(toks, pos, sub, arg, v);
  }

  lemma {:induction false} ParseParenSound(toks: seq<Token>, pos: nat)
    requires pos < |toks| && RuleTokens(toks) && toks[pos].kind == LPAREN
    requires ParseParen(toks, pos).Ok?
    ensures ParsedFrom(toks, pos, ParseParen(toks, pos).value)
    decreases |toks| - pos, 0
  {
    var inner := ParseExpr(toks, pos + 1).value;
    assert ParseParen(toks, pos).value == Parsed(Paren(inner.tree), inner.value, inner.next + 1);
    ParseExprSound(toks, pos + 1);
    RuleToken(toks, pos);
    RuleToken(toks, inner.next);
    ParenFrom(toks, pos, inner);
  }

  /** A primary the parser reduces was read from the tokens: its tree is one the grammar builds,
      it spells the tokens the primary spans, and its value is the outcome of the tree's
      actions. */
  lemma {:induction false} ParsePrimarySound(toks: seq<Token>, pos: nat)
    requires pos <= |toks| && RuleTokens(toks) && ParsePrimary(toks, pos).Ok?
    ensures ParsedFrom(toks, pos, ParsePrimary(toks, pos).value)
    decreases |toks| - pos, 1
  {
    var t := toks[pos];
    match t.kind {
      case FIELD =>
        RuleToken(toks, pos);
        MatchesOne(toks, pos, Lexeme(FIELD, t.value));
      case STRING =>
        MatchesOne(toks, pos, Lexeme(STRING, t.value));
      case NULL =>
        RuleToken(toks, pos);
        MatchesOne(toks, pos, Lexeme(NULL, "null"));
      case ISLATESTVERSION =>
        RuleToken(toks, pos);
        MatchesOne(toks, pos, Lexeme(ISLATESTVERSION, "IsLatestVersion"));
      case TOLOWER => ParseToLowerSound(toks, pos);
      case SUBSTRINGOF => ParseSubstringOfSound(toks, pos);
      case LPAREN => ParseParenSound(toks, pos);
    }
  }

  /** An expression the parser reduces was read from the tokens. */
  lemma {:induction false} ParseExprSound(toks: seq<Token>, pos: nat)
    requires pos <= |toks| && RuleTokens(toks) && ParseExpr(toks, pos).Ok?
    ensures ParsedFrom(toks, pos, ParseExpr(toks, pos).value)
    decreases |toks| - pos, 2
  {
    ParseExprCases(toks, pos);
    var a := ParsePrimary(toks, pos).value;
    ParsePrimarySound(toks, pos);
    if a.next < |toks| && KindOp(toks[a.next].kind).Some? {
      var op := KindOp(toks[a.next].kind).value;
      ParseChain(toks, pos, a, op);
      var b := ParseExpr(toks, a.next + 1).value;
      ParseExprSound(toks, a.next + 1);
      var v := OpAction(a.value, op, b.value).value;
      RuleToken(toks, a.next);
      BinaryFrom(toks, pos, a, op, b, v);
    }
  }

  /** An expression begins with a primary, and is that primary when no operator follows it. */
  lemma ParseExprCases(toks: seq<Token>, pos: nat)
    requires pos <= |toks| && RuleTokens(toks) && ParseExpr(toks, pos).Ok?
    ensures ParsePrimary(toks, pos).Ok?
    ensures var a := ParsePrimary(toks, pos).value;
      !(a.next < |toks| && KindOp(toks[a.next].kind).Some?) ==> ParseExpr(toks, pos) == Ok(a)
  {
  }

  /** What the parser yields for a tree spelled by the tokens up to q: the tree with the value
      of its actions, or the error of the first action that fails. */
  function Outcome(e: Expr, q: nat): Result<Parsed, FilterError>
    requires FieldsMapped(e)
  {
    match Lower(e)
    case Ok(v) => Ok(Parsed(e, v, q))
    case Err(x) => Err(x)
  }

  /** The outcome of a tree is its value when its actions succeed and their error otherwise. */
  lemma OutcomeCases(e: Expr, q: nat)
    requires FieldsMapped(e)
    ensures Lower(e).Ok? ==> Outcome(e, q) == Ok(Parsed(e, Lower(e).value, q))
    ensures Lower(e).Err? ==> Outcome(e, q) == Err(Lower(e).error)
  {
  }

  lemma MatchesAt(toks: seq<Token>, pos: nat, ls: seq<Lexeme>, k: nat)
    requires Matches(toks, pos, ls) && k < |ls|
    ensures LexemeOf(toks[pos + k]) == ls[k]
  {
    assert MatchAt(toks, pos, ls, k);
  }

  /** The reverse of MatchesAround: tokens spelling a, x and b in turn spell each of them. */
  lemma MatchesSplit(toks: seq<Token>, pos: nat, a: seq<Lexeme>, x: seq<Lexeme>, b: seq<Lexeme>)
    requires Matches(toks, pos, a + x + b)
    ensures Matches(toks, pos, a) && Matches(toks, pos + |a|, x) && Matches(toks, pos + |a| + |x|, b)
  {
    MatchesConcat(toks, pos, a + x, b);
    MatchesConcat(toks, pos, a, x);
  }

  /** Tokens spelling four lexemes hold them in turn. */
  lemma MatchesHead(toks: seq<Token>, pos: nat, ls: seq<Lexeme>)
    requires |ls| == 4 && Matches(toks, pos, ls)
    ensures LexemeOf(toks[pos]) == ls[0] && LexemeOf(toks[pos + 1]) == ls[1]
    ensures LexemeOf(toks[pos + 2]) == ls[2] && LexemeOf(toks[pos + 3]) == ls[3]
  {
    assert MatchAt(toks, pos, ls, 0) && MatchAt(toks, pos, ls, 1);
    assert MatchAt(toks, pos, ls, 2) && MatchAt(toks, pos, ls, 3);
    assert toks[pos + 0] == toks[pos];
  }

  lemma ToLowerComplete(toks: seq<Token>, pos: nat, n: string, q: nat)
    requires RuleTokens(toks) && n in FieldMapping
    requires q == pos + 4 && Matches(toks, pos, Unparse(ToLower(n)))
    requires q == |toks| || InFollow(toks[q].kind)
    ensures pos < |toks| && toks[pos].kind == TOLOWER && ParseToLower(toks, pos) == Outcome(ToLower(n), q)
  {
    MatchesHead(toks, pos, Unparse(ToLower(n)));
  }

  /** The reduction of `substringof(S, E)` once E has been parsed and `)` and the lookahead
      checked. */
  function SubstringClose(sub: string, ra: Result<Parsed, FilterError>): Result<Parsed, FilterError>
  {
    match ra
    case Err(x) => Err(x)
    case Ok(arg) =>
      match SubstringOfAction(sub, arg.value)
      case Ok(v) => Ok(Parsed(SubstringOf(sub, arg.tree), v, arg.next + 1))
      case Err(x) => Err(x)
  }

  /** The parser reduces `substringof(S, E)` with the outcome of E when the tokens around E are
      those the production expects. */
  lemma ParseSubstringOfStep(toks: seq<Token>, pos: nat, ra: Result<Parsed, FilterError>)
    requires pos + 4 <= |toks| && RuleTokens(toks) && toks[pos].kind == SUBSTRINGOF
    requires toks[pos + 1].kind == LPAREN && toks[pos + 2].kind == STRING && toks[pos + 3].kind == COMMA
    requires ra == ParseExpr(toks, pos + 4)
    requires ra.Ok? ==> ra.value.next < |toks| && toks[ra.value.next].kind == RPAREN
    requires ra.Ok? ==> ra.value.next + 1 == |toks| || InFollow(toks[ra.value.next + 1].kind)
    ensures ParseSubstringOf(toks, pos) == SubstringClose(toks[pos + 2].value, ra)
  {
  }

  /** The actions of `substringof(S, E)` run as the parser runs them when it reduces it. */
  lemma OutcomeSubstringOf(sub: string, a: Expr, qa: nat)
    requires FieldsMapped(a)
    ensures Outcome(SubstringOf(sub, a), qa + 1) == SubstringClose(sub, Outcome(a, qa))
  {
  }

  /** What the tokens spelling `substringof(S, E)` say about its parts. */
  lemma SubstringOfParts(toks: seq<Token>, pos: nat, sub: string, a: Expr, qa: nat)
    requires qa == pos + 4 + |Unparse(a)| && Matches(toks, pos, Unparse(SubstringOf(sub, a)))
    ensures Matches(toks, pos + 4, Unparse(a))
    ensures qa < |toks| && toks[pos].kind == SUBSTRINGOF && toks[pos + 1].kind == LPAREN
    ensures toks[pos + 2].kind == STRING && toks[pos + 2].value == sub && toks[pos + 3].kind == COMMA
    ensures toks[qa].kind == RPAREN
  {
    var head := [Lexeme(SUBSTRINGOF, "substringof"), Lexeme(LPAREN, "("), Lexeme(STRING, sub), Lexeme(COMMA, ",")];
    assert Unparse(SubstringOf(sub, a)) == head + Unparse(a) + [Lexeme(RPAREN, ")")];
    MatchesSplit(toks, pos, head, Unparse(a), [Lexeme(RPAREN, ")")]);
    SubstringOfHead(toks, pos, sub, head);
    MatchesAt(toks, qa, [Lexeme(RPAREN, ")")], 0);
    assert toks[qa + 0] == toks[qa];
  }

  lemma SubstringOfHead(toks: seq<Token>, pos: nat, sub: string, head: seq<Lexeme>)
    requires head == [Lexeme(SUBSTRINGOF, "substringof"), Lexeme(LPAREN, "("), Lexeme(STRING, sub), Lexeme(COMMA, ",")]
    requires Matches(toks, pos, head)
    ensures toks[pos].kind == SUBSTRINGOF && toks[pos + 1].kind == LPAREN
    ensures toks[pos + 2].kind == STRING && toks[pos + 2].value == sub && toks[pos + 3].kind == COMMA
  {
    MatchesHead(toks, pos, head);
  }

  lemma {:induction false} SubstringOfComplete(toks: seq<Token>, pos: nat, sub: string, a: Expr, qa: nat, q: nat)
    requires RuleTokens(toks) && WellFormed(a) && Matches(toks, pos + 4, Unparse(a))
    requires qa == pos + 4 + |Unparse(a)| && qa < |toks| && q == qa + 1
    requires toks[pos].kind == SUBSTRINGOF && toks[pos + 1].kind == LPAREN
    requires toks[pos + 2].kind == STRING && toks[pos + 2].value == sub && toks[pos + 3].kind == COMMA
    requires toks[qa].kind == RPAREN && (q == |toks| || InFollow(toks[q].kind))
    ensures ParseSubstringOf(toks, pos) == Outcome(SubstringOf(sub, a), q)
    decreases |toks| - pos, 0
  {
    ParseExprComplete(toks, pos + 4, a, qa);
    OutcomeCases(a, qa);
    ParseSubstringOfStep(toks, pos, Outcome(a, qa));
    OutcomeSubstringOf(sub, a, qa);
  }

  /** The reduction of `( E )` once E has been parsed and `)` and the lookahead checked. */
  function ParenClose(ri: Result<Parsed, FilterError>): Result<Parsed, FilterError>
  {
    match ri
    case Err(x) => Err(x)
    case Ok(inner) => Ok(Parsed(Paren(inner.tree), inner.value, inner.next + 1))
  }

  lemma ParseParenStep(toks: seq<Token>, pos: nat, ri: Result<Parsed, FilterError>)
    requires pos < |toks| && RuleTokens(toks) && toks[pos].kind == LPAREN
    requires ri == ParseExpr(toks, pos + 1)
    requires ri.Ok? ==> ri.value.next < |toks| && toks[ri.value.next].kind == RPAREN
    requires ri.Ok? ==> ri.value.next + 1 == |toks| || InFollow(toks[ri.value.next + 1].kind)
    ensures ParseParen(toks, pos) == ParenClose(ri)
  {
  }

  lemma OutcomeParen(x: Expr, qx: nat)
    requires FieldsMapped(x)
    ensures Outcome(Paren(x), qx + 1) == ParenClose(Outcome(x, qx))
  {
  }

  /** What the tokens spelling `( E )` say about its parts. */
  lemma ParenParts(toks: seq<Token>, pos: nat, x: Expr, qx: nat)
    requires qx == pos + 1 + |Unparse(x)| && Matches(toks, pos, Unparse(Paren(x)))
    ensures Matches(toks, pos + 1, Unparse(x))
    ensures qx < |toks| && toks[pos].kind == LPAREN && toks[qx].kind == RPAREN
  {
    MatchesSplit(toks, pos, [Lexeme(LPAREN, "(")], Unparse(x), [Lexeme(RPAREN, ")")]);
    MatchesAt(toks, pos, [Lexeme(LPAREN, "(")], 0);
    assert toks[pos + 0] == toks[pos];
    MatchesAt(toks, qx, [Lexeme(RPAREN, ")")], 0);
    assert toks[qx + 0] == toks[qx];
  }

  lemma {:induction false} ParenComplete(toks: seq<Token>, pos: nat, x: Expr, qx: nat, q: nat)
    requires RuleTokens(toks) && WellFormed(x) && Matches(toks, pos + 1, Unparse(x))
    requires qx == pos + 1 + |Unparse(x)| && qx < |toks| && q == qx + 1
    requires toks[pos].kind == LPAREN && toks[qx].kind == RPAREN
    requires q == |toks| || InFollow(toks[q].kind)
    ensures ParseParen(toks, pos) == Outcome(Paren(x), q)
    decreases |toks| - pos, 0
  {
    ParseExprComplete(toks, pos + 1, x, qx);
    OutcomeCases(x, qx);
    ParseParenStep(toks, pos, Outcome(x, qx));
    OutcomeParen(x, qx);
  }

  lemma LeafComplete(toks: seq<Token>, pos: nat, e: Expr, q: nat)
    requires e.Field? || e.Null? || e.Str? || e.IsLatestVersion?
    requires RuleTokens(toks) && WellFormed(e)
    requires q == pos + 1 && Matches(toks, pos, Unparse(e))
    requires q == |toks| || InFollow(toks[q].kind)
    ensures ParsePrimary(toks, pos) == Outcome(e, q)
  {
    MatchesAt(toks, pos, Unparse(e), 0);
    assert toks[pos + 0] == toks[pos];
  }

  /** Every primary the grammar builds, spelled by the tokens at pos and followed by a token on
      which it may be reduced, is parsed to that tree with the value of its actions, or to the
      error of the first action that fails. */
  lemma {:induction false} ParsePrimaryComplete(toks: seq<Token>, pos: nat, e: Expr, q: nat)
    requires RuleTokens(toks) && WellFormed(e) && !e.Binary?
    requires q == pos + |Unparse(e)| && Matches(toks, pos, Unparse(e))
    requires q == |toks| || InFollow(toks[q].kind)
    ensures ParsePrimary(toks, pos) == Outcome(e, q)
    decreases |toks| - pos, 1
  {
    match e {
      case ToLower(n) =>
        ToLowerComplete(toks, pos, n, q);
        PrimaryDispatch(toks, pos);
      case SubstringOf(sub, a) =>
        var qa := pos + 4 + |Unparse(a)|;
        SubstringOfParts(toks, pos, sub, a, qa);
        SubstringOfComplete(toks, pos, sub, a, qa, q);
        PrimaryDispatch(toks, pos);
      case Paren(x) =>
        var qx := pos + 1 + |Unparse(x)|;
        ParenParts(toks, pos, x, qx);
        ParenComplete(toks, pos, x, qx, q);
        PrimaryDispatch(toks, pos);
      case Field(_) | Null | Str(_) | IsLatestVersion => LeafComplete(toks, pos, e, q);
    }
  }

  /** A primary opening with tolower, substringof or `(` is parsed by that production. */
  lemma PrimaryDispatch(toks: seq<Token>, pos: nat)
    requires pos < |toks| && RuleTokens(toks)
    ensures toks[pos].kind == TOLOWER ==> ParsePrimary(toks, pos) == ParseToLower(toks, pos)
    ensures toks[pos].kind == SUBSTRINGOF ==> ParsePrimary(toks, pos) == ParseSubstringOf(toks, pos)
    ensures toks[pos].kind == LPAREN ==> ParsePrimary(toks, pos) == ParseParen(toks, pos)
  {
  }

  /** The reduction of a chain: a primary a, the operator op and the outcome of the expression
      after it. */
  function Chain(a: Parsed, op: BinOp, rb: Result<Parsed, FilterError>): Result<Parsed, FilterError>
  {
    match rb
    case Err(x) => Err(x)
    case Ok(b) =>
      match OpAction(a.value, op, b.value)
      case Ok(v) => Ok(Parsed(Binary(a.tree, op, b.tree), v, b.next))
      case Err(x) => Err(x)
  }

  /** The parser reduces a chain with the outcome of the expression after the operator. */
  lemma ParseChain(toks: seq<Token>, pos: nat, a: Parsed, op: BinOp)
    requires pos <= |toks| && RuleTokens(toks) && ParsePrimary(toks, pos) == Ok(a)
    requires a.next < |toks| && KindOp(toks[a.next].kind) == Some(op)
    ensures ParseExpr(toks, pos) == Chain(a, op, ParseExpr(toks, a.next + 1))
  {
  }

  /** A primary that fails fails the expression it begins. */
  lemma ParsePrimaryErr(toks: seq<Token>, pos: nat)
    requires pos <= |toks| && RuleTokens(toks) && ParsePrimary(toks, pos).Err?
    ensures ParseExpr(toks, pos) == Err(ParsePrimary(toks, pos).error)
  {
  }

  /** A left operand whose actions fail fails the chain. */
  lemma OutcomeLeftErr(l: Expr, op: BinOp, r: Expr, q: nat)
    requires FieldsMapped(l) && FieldsMapped(r) && Lower(l).Err?
    ensures Outcome(Binary(l, op, r), q) == Err(Lower(l).error)
  {
  }

  /** The actions of a chain run as the parser runs them when it reduces it. */
  lemma OutcomeChain(l: Expr, op: BinOp, r: Expr, a: Parsed, q: nat)
    requires FieldsMapped(l) && FieldsMapped(r) && Outcome(l, a.next) == Ok(a)
    ensures Outcome(Binary(l, op, r), q) == Chain(a, op, Outcome(r, q))
  {
  }

  /** What the tokens spelling a chain say about its parts. */
  lemma BinaryParts(toks: seq<Token>, pos: nat, l: Expr, op: BinOp, r: Expr, ql: nat)
    requires ql == pos + |Unparse(l)| && Matches(toks, pos, Unparse(Binary(l, op, r)))
    ensures Matches(toks, pos, Unparse(l)) && Matches(toks, ql + 1, Unparse(r))
    ensures ql < |toks| && KindOp(toks[ql].kind) == Some(op)
  {
    MatchesSplit(toks, pos, Unparse(l), [OpLexeme(op)], Unparse(r));
    MatchesAt(toks, ql, [OpLexeme(op)], 0);
    assert toks[ql + 0] == toks[ql];
  }

  /** A chain whose left primary parses to its outcome and whose right side parses to its
      outcome parses to the chain's outcome. */
  lemma ChainComplete(toks: seq<Token>, pos: nat, l: Expr, op: BinOp, r: Expr, a: Parsed, q: nat)
    requires pos <= |toks| && RuleTokens(toks) && FieldsMapped(l) && FieldsMapped(r)
    requires ParsePrimary(toks, pos) == Ok(a) && Outcome(l, a.next) == Ok(a)
    requires a.next < |toks| && KindOp(toks[a.next].kind) == Some(op)
    requires ParseExpr(toks, a.next + 1) == Outcome(r, q)
    ensures ParseExpr(toks, pos) == Outcome(Binary(l, op, r), q)
  {
    ParseChain(toks, pos, a, op);
    OutcomeChain(l, op, r, a, q);
  }

  lemma {:induction false} BinaryComplete(toks: seq<Token>, pos: nat, l: Expr, op: BinOp, r: Expr, ql: nat, q: nat)
    requires RuleTokens(toks) && WellFormed(l) && !l.Binary? && WellFormed(r)
    requires ql == pos + |Unparse(l)| && Matches(toks, pos, Unparse(l))
    requires ql < |toks| && KindOp(toks[ql].kind) == Some(op)
    requires q == ql + 1 + |Unparse(r)| && Matches(toks, ql + 1, Unparse(r))
    requires q == |toks| || toks[q].kind == RPAREN
    ensures ParseExpr(toks, pos) == Outcome(Binary(l, op, r), q)
    decreases |toks| - pos, 2
  {
    ParsePrimaryComplete(toks, pos, l, ql);
    OutcomeCases(l, ql);
    if Lower(l).Ok? {
      ParseExprComplete(toks, ql + 1, r, q);
      ChainComplete(toks, pos, l, op, r, Parsed(l, Lower(l).value, ql), q);
    } else {
      ParsePrimaryErr(toks, pos);
      OutcomeLeftErr(l, op, r, q);
    }
  }

  /** Every tree the grammar builds, spelled by the tokens at pos and followed by `)` or the end,
      is parsed to that tree with the value of its actions, or to the error of the first action
      that fails. */
  lemma {:induction false} ParseExprComplete(toks: seq<Token>, pos: nat, e: Expr, q: nat)
    requires RuleTokens(toks) && WellFormed(e)
    requires q == pos + |Unparse(e)| && Matches(toks, pos, Unparse(e))
    requires q == |toks| || toks[q].kind == RPAREN
    ensures ParseExpr(toks, pos) == Outcome(e, q)
    decreases |toks| - pos, 3
  {
    if e.Binary? {
      var ql := pos + |Unparse(e.left)|;
      BinaryParts(toks, pos, e.left, e.op, e.right, ql);
      BinaryComplete(toks, pos, e.left, e.op, e.right, ql, q);
    } else {
      ParsePrimaryComplete(toks, pos, e, q);
    }
  }

  /** The syntax error a failed `tolower(F)` reports names a token of the input. */
  lemma ParseToLowerErrFrom(toks: seq<Token>, pos: nat)
    requires pos < |toks| && RuleTokens(toks) && ParseToLower(toks, pos).Err?
    ensures FromInput(toks, ParseToLower(toks, pos).error)
  {
  }

  lemma {:induction false} ParseSubstringOfErrFrom(toks: seq<Token>, pos: nat)
    requires pos < |toks| && RuleTokens(toks) && ParseSubstringOf(toks, pos).Err?
    ensures FromInput(toks, ParseSubstringOf(toks, pos).error)
    decreases |toks| - pos, 0
  {
    if pos + 4 <= |toks| && ParseExpr(toks, pos + 4).Err? {
      ParseExprErrFrom(toks, pos + 4);
    }
  }

  lemma {:induction false} ParseParenErrFrom(toks: seq<Token>, pos: nat)
    requires pos < |toks| && RuleTokens(toks) && ParseParen(toks, pos).Err?
    ensures FromInput(toks, ParseParen(toks, pos).error)
    decreases |toks| - pos, 0
  {
    if ParseExpr(toks, pos + 1).Err? {
      ParseExprErrFrom(toks, pos + 1);
    }
  }

  /** The syntax error a failed primary reports names a token of the input. */
  lemma {:induction false} ParsePrimaryErrFrom(toks: seq<Token>, pos: nat)
    requires pos <= |toks| && RuleTokens(toks) && ParsePrimary(toks, pos).Err?
    ensures FromInput(toks, ParsePrimary(toks, pos).error)
    decreases |toks| - pos, 1
  {
    if pos < |toks| {
      match toks[pos].kind {
        case TOLOWER => ParseToLowerErrFrom(toks, pos);
        case SUBSTRINGOF => ParseSubstringOfErrFrom(toks, pos);
        case LPAREN => ParseParenErrFrom(toks, pos);
        case _ =>
      }
    }
  }

  /** The syntax error a failed expression reports names a token of the input. */
  lemma {:induction false} ParseExprErrFrom(toks: seq<Token>, pos: nat)
    requires pos <= |toks| && RuleTokens(toks) && ParseExpr(toks, pos).Err?
    ensures FromInput(toks, ParseExpr(toks, pos).error)
    decreases |toks| - pos, 2
  {
    if ParsePrimary(toks, pos).Err? {
      ParsePrimaryErr(toks, pos);
      ParsePrimaryErrFrom(toks, pos);
    } else {
      var a := ParsePrimary(toks, pos).value;
      if a.next < |toks| && KindOp(toks[a.next].kind).Some? {
        ParseChain(toks, pos, a, KindOp(toks[a.next].kind).value);
        if ParseExpr(toks, a.next + 1).Err? {
          ParseExprErrFrom(toks, a.next + 1);
        }
      }
    }
  }

  /** A filter the parser accepts is read from the whole token sequence: the tree it returns
      spells every token, and its value is the outcome of the tree's actions. */
  lemma ParseTreeSound(toks: seq<Token>)
    requires RuleTokens(toks) && ParseTree(toks).Ok?
    ensures ParsedFrom(toks, 0, ParseTree(toks).value)
    ensures |Unparse(ParseTree(toks).value.tree)| == |toks|
  {
    ParseExprSound(toks, 0);
  }

  /** Every tree the grammar builds, spelled by the whole token sequence, is parsed to that
      tree with the value of its actions, or to the error of the first action that fails. */
  lemma ParseTreeComplete(toks: seq<Token>, e: Expr)
    requires RuleTokens(toks) && WellFormed(e)
    requires |Unparse(e)| == |toks| && Matches(toks, 0, Unparse(e))
    ensures ParseTree(toks) == Outcome(e, |toks|)
  {
    ParseExprComplete(toks, 0, e, |toks|);
    OutcomeCases(e, |toks|);
  }

  /** The syntax error a failed parse reports names a token of the input. */
  lemma ParseTreeErrFrom(toks: seq<Token>)
    requires RuleTokens(toks) && ParseTree(toks).Err?
    ensures FromInput(toks, ParseTree(toks).error)
  {
    if ParseExpr(toks, 0).Err? {
      ParseExprErrFrom(toks, 0);
    }
  }
}
