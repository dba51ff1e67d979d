/** A `$filter` text from end to end: scanned, parsed with the actions run as the parser
    reduces, and taken as a predicate on packages. */
module Filter {
  import opened Results
  import opened FilterLex
  import opened FilterYacc
  import opened FilterParse

  /** Every token the scanner emits carries the text of its rule unless it is a string, which is
      what the parser's field lookups rely on. */
  lemma LexRuleTokens(s: string)
    ensures RuleTokens(Lex(s))
  {
    var toks := Lex(s);
    forall k | 0 <= k < |toks|
      ensures RuleTokenAt(toks, k)
    {
      assert ScannedFrom(s, toks[k]);
    }
  }

  /** The lexemes of a token sequence are the lexemes of its tokens, one for one. */
  lemma {:induction false} LexemesAt(toks: seq<Token>, k: nat)
    requires k < |toks|
    ensures |Lexemes(toks)| == |toks| && Lexemes(toks)[k] == LexemeOf(toks[k])
    decreases k
  {
    if k > 0 {
      LexemesAt(toks[1..], k - 1);
      assert toks[1..][k - 1] == toks[k];
    } else {
      LexemesLength(toks);
    }
  }

  lemma {:induction false} LexemesLength(toks: seq<Token>)
    ensures |Lexemes(toks)| == |toks|
    decreases |toks|
  {
    if toks != [] {
      LexemesLength(toks[1..]);
    }
  }

  /** Tokens spell ls from the start to the end exactly when their lexemes are ls. */
  lemma MatchesLexemes(toks: seq<Token>, ls: seq<Lexeme>)
    ensures Matches(toks, 0, ls) && |ls| == |toks| <==> Lexemes(toks) == ls
  {
    LexemesLength(toks);
    if Lexemes(toks) == ls {
      forall k | 0 <= k < |ls|
        ensures MatchAt(toks, 0, ls, k)
      {
        LexemesAt(toks, k);
      }
    }
    if Matches(toks, 0, ls) && |ls| == |toks| {
      forall k | 0 <= k < |ls|
        ensures Lexemes(toks)[k] == ls[k]
      {
        assert MatchAt(toks, 0, ls, k);
        LexemesAt(toks, k);
      }
    }
  }

  /** Parse a filter text: the tokens the scanner reads from it, parsed as one expression. What
      the parser accepts is a tree of the grammar spelling exactly the text's lexemes, carrying
      the value of that tree's actions. */
  function ParseText(s: string): (r: Result<Parsed, FilterError>)
    ensures r.Ok? ==> WellFormed(r.value.tree) && Lexemes(Lex(s)) == Unparse(r.value.tree)
    ensures r.Ok? ==> Lower(r.value.tree) == Ok(r.value.value)
    ensures r.Err? ==> FromInput(Lex(s), r.error)
  {
    LexRuleTokens(s);
    var r := ParseTree(Lex(s));
    if r.Ok? then
      ParseTreeSound(Lex(s));
      MatchesLexemes(Lex(s), Unparse(r.value.tree));
      r
    else
      ParseTreeErrFrom(Lex(s));
      r
  }

  /** What the parser hands back for a filter text: the condition its value stands for, or the
      string itself when the whole text reduces to a string literal. */
  datatype ParseValue = QueryValue(p: Predicate) | StringValue(s: string)

  /** The value a filter text parses to, or the error that stops it. */
  function ParseFilter(s: string): (r: Result<ParseValue, FilterError>)
    ensures r.Ok? <==> ParseText(s).Ok?
    ensures r.Err? ==> r.error == ParseText(s).error
    ensures r.Ok? && r.value.QueryValue? ==>
      ColumnsMapped(r.value.p) && AsQuery(ParseText(s).value.value) == Some(r.value.p)
    ensures r.Ok? ==> (r.value.StringValue? <==> ParseText(s).value.value.Lit?)
    ensures r.Ok? && r.value.StringValue? ==> ParseText(s).value.value == Lit(r.value.s)
  {
    var p :- ParseText(s);
    match p.value
    case Lit(v) => Ok(StringValue(v))
    case _ => Ok(QueryValue(AsQuery(p.value).value))
  }

  /** A string value the scanner reads back between quotes. */
  predicate Quotable(v: string)
  {
    Spellable(Lexeme(STRING, v))
  }

  /** The predicates a filter text can express: mapped columns, string values the scanner
      reads back, and no equality with the text null, which reads as a null test. */
  predicate Printable(p: Predicate)
  {
    match p
    case IsLatest => true
    case NullCond => true
    case FieldNone(col, _) => IsColumn(col)
    case IsNull(col, _, _) => IsColumn(col)
    case ContainsNull(col, _, _) => IsColumn(col)
    case Contains(col, sub, _) => IsColumn(col) && Quotable(sub)
    case Equals(col, val, _) => IsColumn(col) && Quotable(val) && val != "null"
    case And(l, r) => Printable(l) && Printable(r)
    case Or(l, r) => Printable(l) && Printable(r)
  }

  /** A field, lower-cased when the comparison ignores case. */
  function FieldExpr(col: string, ci: bool): (e: Expr)
    requires IsColumn(col)
    ensures WellFormed(e) && (e.Field? || e.ToLower?) && Lower(e) == Ok(FieldRef(col, ci))
  {
    if ci then ToLower(FieldName(col)) else Field(FieldName(col))
  }

  /** Two trees joined by an operator, each in parentheses. */
  function Chained(l: Expr, op: BinOp, r: Expr): (e: Expr)
    requires WellFormed(l) && WellFormed(r)
    ensures FieldsMapped(e)
    ensures RightGrouped(e)
  {
    Binary(Paren(l), op, Paren(r))
  }

  /** A filter tree for a predicate, fully parenthesised. */
  function Print(p: Predicate): (e: Expr)
    requires Printable(p)
    ensures FieldsMapped(e)
    ensures RightGrouped(e)
  {
    match p
    case IsLatest => IsLatestVersion
    case NullCond => Null
    case FieldNone(col, ci) => FieldExpr(col, ci)
    case IsNull(col, isNull, ci) => Binary(FieldExpr(col, ci), if isNull then OpEq else OpNe, Null)
    case ContainsNull(col, isNull, ci) =>
      Binary(SubstringOf("", FieldExpr(col, ci)), if isNull then OpEq else OpNe, Null)
    case Contains(col, sub, ci) => SubstringOf(sub, FieldExpr(col, ci))
    case Equals(col, val, ci) => Binary(FieldExpr(col, ci), OpEq, Str(val))
    case And(l, r) => Chained(Print(l), OpAnd, Print(r))
    case Or(l, r) => Chained(Print(l), OpOr, Print(r))
  }

  /** The actions of a printed tree build the predicate it was printed from. */
  lemma {:induction false} PrintLowers(p: Predicate)
    requires Printable(p)
    ensures Lower(Print(p)).Ok? && AsQuery(Lower(Print(p)).value) == Some(p)
  {
    match p {
      case And(l, r) =>
        PrintLowers(l);
        PrintLowers(r);
        ChainedLowers(Print(l), OpAnd, Print(r), l, r);
      case Or(l, r) =>
        PrintLowers(l);
        PrintLowers(r);
        ChainedLowers(Print(l), OpOr, Print(r), l, r);
      case _ =>
        LeafLowers(p);
    }
  }

  lemma LeafLowers(p: Predicate)
    requires Printable(p) && !p.And? && !p.Or?
    ensures Lower(Print(p)).Ok? && AsQuery(Lower(Print(p)).value) == Some(p)
  {
    match p {
      case IsLatest =>
      case NullCond =>
      case FieldNone(col, ci) =>
        assert Lower(Print(p)) == Ok(FieldRef(col, ci));
      case IsNull(col, isNull, ci) => NullTestLowers(col, isNull, ci);
      case ContainsNull(col, isNull, ci) => ContainsNullLowers(col, isNull, ci);
      case Contains(col, sub, ci) =>
        assert Lower(Print(p)) == SubstringOfAction(sub, FieldRef(col, ci));
      case Equals(col, val, ci) =>
        assert Lower(Str(val)) == Ok(Lit(val));
        assert Lower(Print(p)) == OpAction(FieldRef(col, ci), OpEq, Lit(val));
    }
  }

  /** A field compared with null lowers to the null test on its column. */
  lemma NullTestLowers(col: string, isNull: bool, ci: bool)
    requires IsColumn(col)
    ensures Lower(Print(IsNull(col, isNull, ci))) == Ok(Pred(IsNull(col, isNull, ci)))
  {
    var op := if isNull then OpEq else OpNe;
    var f := FieldExpr(col, ci);
    assert Print(IsNull(col, isNull, ci)) == Binary(f, op, Null);
    assert Lower(Null) == Ok(NullMarker);
    assert Lower(Binary(f, op, Null)) == OpAction(FieldRef(col, ci), op, NullMarker);
  }

  /** A containment compared with null lowers to the null test on its key. */
  lemma ContainsNullLowers(col: string, isNull: bool, ci: bool)
    requires IsColumn(col)
    ensures Lower(Print(ContainsNull(col, isNull, ci))) == Ok(Pred(ContainsNull(col, isNull, ci)))
  {
    var op := if isNull then OpEq else OpNe;
    var c := SubstringOf("", FieldExpr(col, ci));
    assert Print(ContainsNull(col, isNull, ci)) == Binary(c, op, Null);
    EmptyContainsLowers(col, ci);
    assert Lower(Binary(c, op, Null)) == OpAction(Pred(Contains(col, "", ci)), op, NullMarker);
    assert KeyOf(Pred(Contains(col, "", ci))) == Containment(col, ci) && IsNullOperand(NullMarker);
  }

  lemma EmptyContainsLowers(col: string, ci: bool)
    requires IsColumn(col)
    ensures Lower(SubstringOf("", FieldExpr(col, ci))) == Ok(Pred(Contains(col, "", ci)))
  {
    assert Lower(SubstringOf("", FieldExpr(col, ci))) == SubstringOfAction("", FieldRef(col, ci));
  }

  lemma ChainedLowers(l: Expr, op: BinOp, r: Expr, pl: Predicate, pr: Predicate)
    requires WellFormed(l) && WellFormed(r) && (op == OpAnd || op == OpOr)
    requires Lower(l).Ok? && AsQuery(Lower(l).value) == Some(pl)
    requires Lower(r).Ok? && AsQuery(Lower(r).value) == Some(pr)
    ensures Lower(Chained(l, op, r)) == Ok(Pred(if op == OpAnd then And(pl, pr) else Or(pl, pr)))
  {
  }

  /** Every lexeme of a printed tree is read back by the scanner. */
  lemma {:induction false} PrintSpellable(p: Predicate)
    requires Printable(p)
    ensures AllSpellable(Unparse(Print(p)))
  {
    match p {
      case And(l, r) =>
        PrintSpellable(l);
        PrintSpellable(r);
        ChainedSpellable(Print(l), OpAnd, Print(r));
      case Or(l, r) =>
        PrintSpellable(l);
        PrintSpellable(r);
        ChainedSpellable(Print(l), OpOr, Print(r));
      case _ =>
        LeafSpellable(p);
    }
  }

  lemma LeafSpellable(p: Predicate)
    requires Printable(p) && !p.And? && !p.Or?
    ensures AllSpellable(Unparse(Print(p)))
  {
    match p {
      case IsLatest =>
        assert Spellable(Unparse(Print(p))[0]);
      case NullCond =>
        assert Spellable(Unparse(Print(p))[0]);
      case FieldNone(col, ci) =>
        FieldSpellable(col, ci);
      case IsNull(col, isNull, ci) =>
        FieldSpellable(col, ci);
        NullTestSpellable(FieldExpr(col, ci), if isNull then OpEq else OpNe);
      case ContainsNull(col, isNull, ci) =>
        EmptyQuotable();
        ContainsSpellable("", FieldExpr(col, ci), col, ci);
        NullTestSpellable(SubstringOf("", FieldExpr(col, ci)), if isNull then OpEq else OpNe);
      case Contains(col, sub, ci) =>
        ContainsSpellable(sub, FieldExpr(col, ci), col, ci);
      case Equals(col, val, ci) =>
        EqualsSpellable(FieldExpr(col, ci), val, col, ci);
    }
  }

  lemma ContainsSpellable(sub: string, f: Expr, col: string, ci: bool)
    requires IsColumn(col) && f == FieldExpr(col, ci) && Quotable(sub)
    ensures AllSpellable(Unparse(SubstringOf(sub, f)))
  {
    var ls := Unparse(SubstringOf(sub, f));
    FieldSpellable(col, ci);
    assert ls == [Lexeme(SUBSTRINGOF, "substringof"), Lexeme(LPAREN, "("), Lexeme(STRING, sub),
      Lexeme(COMMA, ",")] + Unparse(f) + [Lexeme(RPAREN, ")")];
    forall k | 0 <= k < |ls| ensures Spellable(ls[k]) {
      if 4 <= k < |ls| - 1 {
        assert ls[k] == Unparse(f)[k - 4];
      }
    }
  }

  lemma EqualsSpellable(f: Expr, val: string, col: string, ci: bool)
    requires IsColumn(col) && f == FieldExpr(col, ci) && Quotable(val)
    ensures AllSpellable(Unparse(Binary(f, OpEq, Str(val))))
  {
    var ls := Unparse(Binary(f, OpEq, Str(val)));
    FieldSpellable(col, ci);
    assert OpLexeme(OpEq) == Lexeme(EQ, "eq");
    assert Unparse(Str(val)) == [Lexeme(STRING, val)];
    assert ls == Unparse(f) + [Lexeme(EQ, "eq")] + [Lexeme(STRING, val)];
    forall k | 0 <= k < |ls| ensures Spellable(ls[k]) {
      if k < |Unparse(f)| {
        assert ls[k] == Unparse(f)[k];
      }
    }
  }

  /** The empty string reads back from between two quotes. */
  lemma EmptyQuotable()
    ensures Quotable("")
  {
    assert ScanString([Quote], 0) == Some(0);
  }

  lemma NullTestSpellable(f: Expr, op: BinOp)
    requires AllSpellable(Unparse(f))
    ensures AllSpellable(Unparse(Binary(f, op, Null)))
  {
    var ls := Unparse(Binary(f, op, Null));
    assert Unparse(Null) == [Lexeme(NULL, "null")];
    assert ls == Unparse(f) + [OpLexeme(op)] + [Lexeme(NULL, "null")];
    forall k | 0 <= k < |ls| ensures Spellable(ls[k]) {
      if k < |Unparse(f)| {
        assert ls[k] == Unparse(f)[k];
      }
    }
  }

  lemma FieldSpellable(col: string, ci: bool)
    requires IsColumn(col)
    ensures AllSpellable(Unparse(FieldExpr(col, ci)))
  {
    var ls := Unparse(FieldExpr(col, ci));
    if ci {
      assert Spellable(ls[0]) && Spellable(ls[1]) && Spellable(ls[2]) && Spellable(ls[3]);
    } else {
      assert Spellable(ls[0]);
    }
  }

  lemma ChainedSpellable(l: Expr, op: BinOp, r: Expr)
    requires WellFormed(l) && WellFormed(r)
    requires AllSpellable(Unparse(l)) && AllSpellable(Unparse(r))
    ensures AllSpellable(Unparse(Chained(l, op, r)))
  {
    var ls := Unparse(Chained(l, op, r));
    var a := Unparse(Paren(l));
    assert a == [Lexeme(LPAREN, "(")] + Unparse(l) + [Lexeme(RPAREN, ")")];
    assert Unparse(Paren(r)) == [Lexeme(LPAREN, "(")] + Unparse(r) + [Lexeme(RPAREN, ")")];
    assert ls == a + [OpLexeme(op)] + Unparse(Paren(r));
    forall k | 0 <= k < |ls|
      ensures Spellable(ls[k])
    {
      if k == 0 || k == |a| - 1 || k == |a| || k == |a| + 1 || k == |ls| - 1 {
      } else if k < |a| {
        assert ls[k] == Unparse(l)[k - 1];
      } else {
        assert ls[k] == Unparse(r)[k - |a| - 2];
      }
    }
  }

  /** Any tree of the grammar spelled out with any spacing is parsed as itself: the parser
      answers with the tree's value, or with the error its actions raise. */
  lemma ParseSpelled(e: Expr, gaps: seq<nat>)
    requires WellFormed(e) && |gaps| == |Unparse(e)| && AllSpellable(Unparse(e))
    ensures ParseText(Spell(Unparse(e), gaps)) == Outcome(e, |Unparse(e)|)
  {
    var s := Spell(Unparse(e), gaps);
    LexSpelled(Unparse(e), gaps);
    MatchesLexemes(Lex(s), Unparse(e));
    LexRuleTokens(s);
    ParseTreeComplete(Lex(s), e);
  }

  /** A filter text for a predicate: its printed tree spelled out, with gaps[k] spaces after
      the k-th lexeme. */
  function FilterText(p: Predicate, gaps: seq<nat>): string
    requires Printable(p) && |gaps| == |Unparse(Print(p))|
  {
    Spell(Unparse(Print(p)), gaps)
  }

  /** Printing is the inverse of parsing: every expressible predicate, spelled out with any
      spacing, is read back as itself. */
  lemma ParseFilterText(p: Predicate, gaps: seq<nat>)
    requires Printable(p) && |gaps| == |Unparse(Print(p))|
    ensures ParseFilter(FilterText(p, gaps)) == Ok(QueryValue(p))
  {
    var e := Print(p);
    var s := FilterText(p, gaps);
    PrintSpellable(p);
    LexSpelled(Unparse(e), gaps);
    MatchesLexemes(Lex(s), Unparse(e));
    LexRuleTokens(s);
    PrintLowers(p);
    ParseTreeComplete(Lex(s), e);
    OutcomeCases(e, |Lex(s)|);
  }
}
