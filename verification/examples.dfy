/** Filters and requests the feed's own tests pin down, worked through the model. */
module Examples {
  import opened Results
  import opened FilterLex
  import opened FilterYacc
  import opened FilterParse
  import opened Filter
  import opened Written
  import Views
  import Upload
  import PyStr

  /** `substringof('S',F)` on a bare field is a case-sensitive containment test. */
  lemma SubstringOfField(sub: string, field: string)
    requires field in FieldMapping && Quotable(sub)
    ensures Text(SubstringOf(sub, Field(field))) == "substringof('" + sub + "'," + field + ")"
    ensures ParseFilter(Text(SubstringOf(sub, Field(field)))) == Ok(QueryValue(Contains(FieldMapping[field], sub, false)))
  {
    var e := SubstringOf(sub, Field(field));
    ParseWritten(e);
    OutcomeCases(e, |Unparse(e)|);
  }

  lemma SubstringOfWithoutLower()
    ensures ParseFilter("substringof('cat',Id)") == Ok(QueryValue(Contains("nuget_id", "cat", false)))
  {
    PlainQuotable("cat");
    SubstringOfField("cat", "Id");
    SubstringOfCatText();
  }

  lemma SubstringOfCatText()
    ensures "substringof('" + "cat" + "'," + "Id" + ")" == "substringof('cat',Id)"
  {
  }

  /** A field compared with a field is refused. */
  lemma FieldComparedWithField(left: string, op: BinOp, right: string)
    requires left in FieldMapping && right in FieldMapping && (op == OpEq || op == OpNe)
    ensures Text(Binary(Field(left), op, Field(right))) == left + " " + OpLexeme(op).value + " " + right
    ensures ParseFilter(Text(Binary(Field(left), op, Field(right)))) == Err(InvalidTypeForEq)
  {
    var e := Binary(Field(left), op, Field(right));
    assert Lower(e) == Err(InvalidTypeForEq);
    ParseWritten(e);
    OutcomeCases(e, |Unparse(e)|);
  }

  lemma FieldEqualsField()
    ensures ParseFilter("Id eq Description") == Err(InvalidTypeForEq)
  {
    FieldComparedWithField("Id", OpEq, "Description");
    IdEqDescriptionText();
  }

  lemma IdEqDescriptionText()
    ensures "Id" + " " + OpLexeme(OpEq).value + " " + "Description" == "Id eq Description"
  {
  }

  /** A bare field stands for the condition that its column is None, and combines like any
      other condition: `Id and IsLatestVersion` is a filter. */
  lemma FieldAndLatest(field: string)
    requires field in FieldMapping
    ensures ParseFilter(Text(Binary(Field(field), OpAnd, IsLatestVersion)))
      == Ok(QueryValue(And(FieldNone(FieldMapping[field], false), IsLatest)))
  {
    var e := Binary(Field(field), OpAnd, IsLatestVersion);
    FieldAndLatestLowers(field);
    ParseWritten(e);
    OutcomeCases(e, |Unparse(e)|);
  }

  lemma FieldAndLatestLowers(field: string)
    requires field in FieldMapping
    ensures WellFormed(Binary(Field(field), OpAnd, IsLatestVersion))
    ensures Closed(Binary(Field(field), OpAnd, IsLatestVersion))
    ensures Lower(Binary(Field(field), OpAnd, IsLatestVersion))
      == Ok(Pred(And(FieldNone(FieldMapping[field], false), IsLatest)))
  {
  }

  /** Its usual text is the field name followed by ` and IsLatestVersion`. */
  lemma FieldAndLatestText(field: string)
    ensures Text(Binary(Field(field), OpAnd, IsLatestVersion)) == field + " and IsLatestVersion"
  {
    assert OpLexeme(OpAnd).value == "and";
    assert Text(IsLatestVersion) == "IsLatestVersion";
    assert " " + "and" + " " + "IsLatestVersion" == " and IsLatestVersion";
  }

  /** A filter that is a field alone, or the null keyword alone, is that one condition. */
  lemma LoneLeaves(field: string)
    requires field in FieldMapping
    ensures ParseFilter(field) == Ok(QueryValue(FieldNone(FieldMapping[field], false)))
    ensures ParseFilter("null") == Ok(QueryValue(NullCond))
  {
    ParseWritten(Field(field));
    OutcomeCases(Field(field), 1);
    ParseWritten(Null);
    OutcomeCases(Null, 1);
  }

  /** A filter that is a string alone parses to the string itself. */
  lemma LoneString(v: string)
    requires Quotable(v)
    ensures ParseFilter("'" + v + "'") == Ok(StringValue(v))
  {
    ParseWritten(Str(v));
    OutcomeCases(Str(v), 1);
  }

  /** A string on the right of and/or fails the action's assertion. */
  lemma StringOnRight(v: string, op: BinOp)
    requires Quotable(v) && (op == OpAnd || op == OpOr)
    ensures ParseFilter(Text(Binary(IsLatestVersion, op, Str(v)))) == Err(AssertionError)
  {
    var e := Binary(IsLatestVersion, op, Str(v));
    assert WellFormed(Str(v)) && Closed(Str(v)) && Lower(Str(v)) == Ok(Lit(v));
    assert WellFormed(e) && Closed(e);
    assert Lower(e) == Err(AssertionError);
    ParseWritten(e);
    OutcomeCases(e, |Unparse(e)|);
  }

  /** A string on the left of and/or, with a condition on the right, fails Python's `&` and
      `|`. */
  lemma StringOnLeft(v: string, op: BinOp)
    requires Quotable(v) && (op == OpAnd || op == OpOr)
    ensures ParseFilter(Text(Binary(Str(v), op, IsLatestVersion))) == Err(TypeError)
  {
    var e := Binary(Str(v), op, IsLatestVersion);
    assert WellFormed(Str(v)) && Closed(Str(v)) && Lower(Str(v)) == Ok(Lit(v));
    assert WellFormed(e) && Closed(e);
    assert Lower(e) == Err(TypeError);
    ParseWritten(e);
    OutcomeCases(e, |Unparse(e)|);
  }

  /** A string has no condition whose key eq could read. */
  lemma StringCompared(v: string)
    requires Quotable(v)
    ensures ParseFilter(Text(Binary(Str(v), OpEq, Null))) == Err(AttributeError)
  {
    var e := Binary(Str(v), OpEq, Null);
    assert WellFormed(Str(v)) && Closed(Str(v)) && Lower(Str(v)) == Ok(Lit(v));
    assert WellFormed(e) && Closed(e);
    assert Lower(e) == Err(AttributeError);
    ParseWritten(e);
    OutcomeCases(e, |Unparse(e)|);
  }

  /** Nor one whose key substringof could read. */
  lemma SubstringOfString(sub: string, v: string)
    requires Quotable(v) && Quotable(sub)
    ensures ParseFilter(Text(SubstringOf(sub, Str(v)))) == Err(AttributeError)
  {
    var e := SubstringOf(sub, Str(v));
    assert WellFormed(Str(v)) && Closed(Str(v)) && Lower(Str(v)) == Ok(Lit(v));
    assert WellFormed(e) && Closed(e);
    assert Lower(e) == Err(AttributeError);
    ParseWritten(e);
    OutcomeCases(e, |Unparse(e)|);
  }

  /** eq reads the key of its left operand's condition, so an equality compared again is an
      equality on the same column with the new value: `(Id eq 'x') eq 'y'` is `Id eq 'y'`. */
  lemma EqualityCompared(field: string, x: string, y: string)
    requires field in FieldMapping && Quotable(x) && Quotable(y) && x != "null" && y != "null"
    ensures ParseFilter(Text(Binary(Paren(Binary(Field(field), OpEq, Str(x))), OpEq, Str(y))))
      == Ok(QueryValue(Equals(FieldMapping[field], y, false)))
  {
    var e := Binary(Paren(Binary(Field(field), OpEq, Str(x))), OpEq, Str(y));
    EqualityComparedLowers(field, x, y);
    ParseWritten(e);
    OutcomeCases(e, |Unparse(e)|);
  }

  lemma EqualityComparedLowers(field: string, x: string, y: string)
    requires field in FieldMapping && Quotable(x) && Quotable(y) && x != "null" && y != "null"
    ensures WellFormed(Binary(Paren(Binary(Field(field), OpEq, Str(x))), OpEq, Str(y)))
    ensures Closed(Binary(Paren(Binary(Field(field), OpEq, Str(x))), OpEq, Str(y)))
    ensures FieldsMapped(Binary(Paren(Binary(Field(field), OpEq, Str(x))), OpEq, Str(y)))
    ensures Lower(Binary(Paren(Binary(Field(field), OpEq, Str(x))), OpEq, Str(y)))
      == Ok(Pred(Equals(FieldMapping[field], y, false)))
  {
    assert WellFormed(Str(x)) && Closed(Str(x)) && WellFormed(Str(y)) && Closed(Str(y));
    var inner := Binary(Field(field), OpEq, Str(x));
    assert WellFormed(inner) && Closed(inner);
    assert Lower(inner) == Ok(Pred(Equals(FieldMapping[field], x, false)));
    assert Lower(Paren(inner)) == Ok(Pred(Equals(FieldMapping[field], x, false)));
    assert Lower(Str(y)) == Ok(Lit(y));
  }

  /** eq against null reads the key of a containment too: `substringof(S,F) eq null` tests the
      containment's key for null. */
  lemma ContainmentComparedWithNull(field: string, sub: string)
    requires field in FieldMapping && Quotable(sub)
    ensures ParseFilter(Text(Binary(SubstringOf(sub, Field(field)), OpEq, Null)))
      == Ok(QueryValue(ContainsNull(FieldMapping[field], true, false)))
  {
    var e := Binary(SubstringOf(sub, Field(field)), OpEq, Null);
    ContainmentComparedWithNullLowers(field, sub);
    ParseWritten(e);
    OutcomeCases(e, |Unparse(e)|);
  }

  lemma ContainmentComparedWithNullLowers(field: string, sub: string)
    requires field in FieldMapping && Quotable(sub)
    ensures WellFormed(Binary(SubstringOf(sub, Field(field)), OpEq, Null))
    ensures Closed(Binary(SubstringOf(sub, Field(field)), OpEq, Null))
    ensures Lower(Binary(SubstringOf(sub, Field(field)), OpEq, Null))
      == Ok(Pred(ContainsNull(FieldMapping[field], true, false)))
  {
    var c := SubstringOf(sub, Field(field));
    assert WellFormed(c) && Closed(c);
    assert Lower(c) == Ok(Pred(Contains(FieldMapping[field], sub, false)));
    assert KeyOf(Pred(Contains(FieldMapping[field], sub, false))) == Containment(FieldMapping[field], false);
  }

  /** The search the Chocolatey client sends for one field: `(F ne null) and
      substringof(S,tolower(F))`. */
  function Search(field: string, sub: string): Expr
  {
    Binary(Paren(Binary(Field(field), OpNe, Null)), OpAnd, SubstringOf(sub, ToLower(field)))
  }

  /** A column that is set and contains sub, ignoring case. */
  function Found(col: string, sub: string): Predicate
  {
    And(IsNull(col, false, false), Contains(col, sub, true))
  }

  lemma SearchLowers(field: string, sub: string)
    requires field in FieldMapping && Quotable(sub)
    ensures WellFormed(Search(field, sub)) && Closed(Search(field, sub))
    ensures Lower(Search(field, sub)) == Ok(Pred(Found(FieldMapping[field], sub)))
  {
    var col := FieldMapping[field];
    assert Lower(Field(field)) == Ok(FieldRef(col, false));
    assert Lower(Paren(Binary(Field(field), OpNe, Null))) == Ok(Pred(IsNull(col, false, false)));
    assert Lower(ToLower(field)) == Ok(FieldRef(col, true));
    assert Lower(SubstringOf(sub, ToLower(field))) == Ok(Pred(Contains(col, sub, true)));
  }

  /** Three searches or-ed together and restricted to the latest versions. */
  function LatestOf(a: Expr, b: Expr, c: Expr): Expr
  {
    Binary(Paren(Binary(Paren(Binary(Paren(a), OpOr, Paren(b))), OpOr, Paren(c))), OpAnd, IsLatestVersion)
  }

  lemma ChainedClosed(l: Expr, op: BinOp, r: Expr)
    requires WellFormed(l) && WellFormed(r) && Closed(l) && Closed(r)
    ensures Closed(Chained(l, op, r))
  {
  }

  lemma LatestLowers(x: Expr, p: Predicate)
    requires FieldsMapped(x) && RightGrouped(x) && Closed(x) && Lower(x) == Ok(Pred(p))
    ensures FieldsMapped(Binary(Paren(x), OpAnd, IsLatestVersion))
    ensures RightGrouped(Binary(Paren(x), OpAnd, IsLatestVersion))
    ensures Closed(Binary(Paren(x), OpAnd, IsLatestVersion))
    ensures Lower(Binary(Paren(x), OpAnd, IsLatestVersion)) == Ok(Pred(And(p, IsLatest)))
  {
    assert Lower(Paren(x)) == Ok(Pred(p));
  }

  lemma LatestOfParses(a: Expr, b: Expr, c: Expr, pa: Predicate, pb: Predicate, pc: Predicate)
    requires WellFormed(a) && WellFormed(b) && WellFormed(c) && Closed(a) && Closed(b) && Closed(c)
    requires Lower(a) == Ok(Pred(pa)) && Lower(b) == Ok(Pred(pb)) && Lower(c) == Ok(Pred(pc))
    ensures ParseFilter(Text(LatestOf(a, b, c))) == Ok(QueryValue(And(Or(Or(pa, pb), pc), IsLatest)))
  {
    var y := Chained(a, OpOr, b);
    ChainedLowers(a, OpOr, b, pa, pb);
    ChainedClosed(a, OpOr, b);
    var x := Chained(y, OpOr, c);
    ChainedLowers(y, OpOr, c, Or(pa, pb), pc);
    ChainedClosed(y, OpOr, c);
    LatestLowers(x, Or(Or(pa, pb), pc));
    var e := Binary(Paren(x), OpAnd, IsLatestVersion);
    assert LatestOf(a, b, c) == e;
    ParseWritten(e);
    OutcomeCases(e, |Unparse(e)|);
  }

  /** The default search filter of the Chocolatey client for `cat`, whose usual text is
      `((((Id ne null) and substringof('cat',tolower(Id))) or ((Description ne null) and
      substringof('cat',tolower(Description)))) or ((Tags ne null) and
      substringof(' cat ',tolower(Tags)))) and IsLatestVersion`. It selects the latest versions
      whose id, description or tags contain the term, ignoring case. */
  lemma ChocolateySearch()
    ensures ParseFilter(Text(LatestOf(Search("Id", "cat"), Search("Description", "cat"), Search("Tags", " cat "))))
      == Ok(QueryValue(And(Or(Or(Found("nuget_id", "cat"), Found("description", "cat")), Found("tags__name", " cat ")), IsLatest)))
  {
    PlainQuotable("cat");
    PlainQuotable(" cat ");
    SearchLowers("Id", "cat");
    SearchLowers("Description", "cat");
    SearchLowers("Tags", " cat ");
    LatestOfParses(Search("Id", "cat"), Search("Description", "cat"), Search("Tags", " cat "),
      Found("nuget_id", "cat"), Found("description", "cat"), Found("tags__name", " cat "));
  }

  /** A backslash-quote pair does not close a string and stays in its value. */
  lemma EscapedQuoteKept()
    ensures Lexemes(Lex("'a\\'b'")) == [Lexeme(STRING, "a\\'b")]
  {
    var l := Lexeme(STRING, "a\\'b");
    var w := l.value + [Quote];
    assert w[0] == 'a' && w[1] == Backslash && w[2] == Quote && w[3] == 'b' && w[4] == Quote && |w| == 5;
    assert ScanString(w, 3) == Some(4);
    assert ScanString(w, 1) == Some(4);
    assert ScanString(w, 0) == Some(4);
    assert Spell([l], [0]) == "'a\\'b'";
    LexSpelled([l], [0]);
  }

  /** A backslash escapes only the quote right after it: in `'a\\'b'` the second backslash
      escapes the quote, which stays in the value, and the last quote closes the string. */
  lemma DoubleBackslash()
    ensures Lexemes(Lex("'a\\\\'b'")) == [Lexeme(STRING, "a\\\\'b")]
  {
    var l := Lexeme(STRING, "a\\\\'b");
    var w := l.value + [Quote];
    assert w[0] == 'a' && w[1] == Backslash && w[2] == Backslash && w[3] == Quote && w[4] == 'b';
    assert w[5] == Quote && |w| == 6;
    assert ScanString(w, 4) == Some(5);
    assert ScanString(w, 2) == Some(5);
    assert ScanString(w, 1) == Some(5);
    assert ScanString(w, 0) == Some(5);
    assert Spell([l], [0]) == "'a\\\\'b'";
    LexSpelled([l], [0]);
  }

  /** A string never closed yields nothing. */
  lemma OpenStringDropped()
    ensures Lex("'abc") == []
  {
    var s := "'abc";
    assert s[1] != Quote && s[2] != Quote && s[3] != Quote;
    UnterminatedString(s, 0);
  }

  /** The tokens of `(tolower(Id) eq somename) and IsLatestVersion`: the scanner drops the
      bare word, so `eq` is followed by `)`. */
  function BareWordTokens(): seq<Token>
  {
    [Token(LPAREN, "(", 1), Token(TOLOWER, "tolower", 8), Token(LPAREN, "(", 9),
      Token(FIELD, "Id", 11), Token(RPAREN, ")", 12), Token(EQ, "eq", 15), Token(RPAREN, ")", 25),
      Token(AND, "and", 29), Token(ISLATESTVERSION, "IsLatestVersion", 45)]
  }

  lemma BareWordRuleTokens()
    ensures RuleTokens(BareWordTokens())
  {
    var toks := BareWordTokens();
    forall k | 0 <= k < |toks| ensures RuleTokenAt(toks, k) {
    }
  }

  /** The parser reports the `)` after `eq`, with the position after it. */
  lemma BareWordAfterEq()
    ensures RuleTokens(BareWordTokens())
    ensures ParseTree(BareWordTokens()) == Err(GenericSyntaxError(25, ")"))
  {
    var toks := BareWordTokens();
    BareWordRuleTokens();
    var err := Err(GenericSyntaxError(25, ")"));
    assert ParsePrimary(toks, 1) == Ok(Parsed(ToLower("Id"), FieldRef("nuget_id", true), 5));
    assert ParseExpr(toks, 6) == err by {
      assert ParsePrimary(toks, 6) == err;
    }
    assert ParseExpr(toks, 1) == err;
    assert ParseExpr(toks, 0) == err by {
      assert ParseParen(toks, 0) == err;
      assert ParsePrimary(toks, 0) == err;
    }
  }

  /** The lookup the NuGet client sends for the latest version of one package:
      `(tolower(F) eq 'V') and IsLatestVersion`. */
  function LatestNamed(field: string, v: string): Expr
  {
    Binary(Paren(Binary(ToLower(field), OpEq, Str(v))), OpAnd, IsLatestVersion)
  }

  lemma LatestNamedText(field: string, v: string)
    ensures Text(LatestNamed(field, v)) == "(tolower(" + field + ") eq '" + v + "') and IsLatestVersion"
  {
    var x := Binary(ToLower(field), OpEq, Str(v));
    var t := "tolower(" + field + ")" + " " + "eq" + " " + ("'" + v + "'");
    assert Text(x) == t by {
      assert OpLexeme(OpEq).value == "eq";
    }
    assert Text(LatestNamed(field, v)) == "(" + t + ")" + " " + "and" + " " + "IsLatestVersion" by {
      assert OpLexeme(OpAnd).value == "and";
    }
    LatestNamedEq(field, v);
    LatestNamedWrap("tolower(" + field + ") eq '" + v + "'");
    LatestNamedWrap2(field, v);
  }

  lemma LatestNamedEq(field: string, v: string)
    ensures "tolower(" + field + ")" + " " + "eq" + " " + ("'" + v + "'") == "tolower(" + field + ") eq '" + v + "'"
  {
  }

  lemma LatestNamedWrap(t: string)
    ensures "(" + t + ")" + " " + "and" + " " + "IsLatestVersion" == "(" + t + ") and IsLatestVersion"
  {
  }

  lemma LatestNamedWrap2(field: string, v: string)
    ensures "(" + ("tolower(" + field + ") eq '" + v + "'") + ") and IsLatestVersion"
      == "(tolower(" + field + ") eq '" + v + "') and IsLatestVersion"
  {
  }

  /** The lookup selects the latest versions whose column equals the value, ignoring case. */
  lemma LatestNamedParses(field: string, v: string)
    requires field in FieldMapping && Quotable(v) && v != "null"
    ensures ParseFilter(Text(LatestNamed(field, v))) == Ok(QueryValue(And(Equals(FieldMapping[field], v, true), IsLatest)))
  {
    var x := Binary(ToLower(field), OpEq, Str(v));
    var p := Equals(FieldMapping[field], v, true);
    assert FieldsMapped(Str(v)) && RightGrouped(Str(v)) && Closed(Str(v));
    assert FieldsMapped(x) && RightGrouped(x) && Closed(x);
    assert Lower(x) == Ok(Pred(p));
    LatestLowers(x, p);
    var e := LatestNamed(field, v);
    ParseWritten(e);
    OutcomeCases(e, |Unparse(e)|);
  }

  /** `Packages()` with `$filter=(tolower(Id) eq 'somename') and IsLatestVersion` looks up the
      latest version of somename. */
  lemma LatestSomename()
    ensures Views.PackagesFilter(Some("(tolower(" + "Id" + ") eq '" + "somename" + "') and IsLatestVersion"))
      == Views.Matching(And(Equals("nuget_id", "somename", true), IsLatest))
  {
    PlainQuotable("somename");
    LatestNamedText("Id", "somename");
    LatestNamedParses("Id", "somename");
  }

  /** `$orderby=id` names no field, so the feed orders by the package id column anyway;
      `$orderby=Description` orders by description. */
  lemma OrderByExamples()
    ensures Views.OrderColumn(Some("id")) == "nuget_id"
    ensures Views.OrderColumn(Some("Description")) == "description"
  {
  }

  /** An empty `$filter` is not parsed at all. */
  lemma EmptyFilter()
    ensures Views.PackagesFilter(Some("")) == Views.NoFilter
  {
  }

  /** The query `semVerLevel=2.0.0&id=somename`. */
  function SomenameQuery(): map<string, string>
  {
    map["semVerLevel" := "2.0.0", "id" := "somename"]
  }

  /** The query asks for somename. */
  lemma SomenameQueryId()
    ensures "id" in SomenameQuery() && Views.RequestedId(SomenameQuery()) == "somename"
  {
    PyStr.RemoveCharFree("somename", '\'');
  }

  /** The query skips nothing. */
  lemma SomenameQuerySkip()
    ensures Views.RequestedSkip(SomenameQuery()).None?
  {
    assert "$skiptoken" !in SomenameQuery() by {
      assert |"$skiptoken"| != |"id"| && |"$skiptoken"| != |"semVerLevel"|;
    }
  }

  /** `FindPackagesById()?semVerLevel=2.0.0&id=somename` lists the rows of somename. */
  method FindSomename(catalog: seq<Views.PackageRow>) returns (r: Result<seq<Views.PackageRow>, Views.RequestError>)
    ensures r == Ok(Views.ById(catalog, "somename"))
  {
    SomenameQueryId();
    SomenameQuerySkip();
    r := Views.FindPackagesById(catalog, SomenameQuery());
  }

  /** `FindPackagesById()` without an id is a bad request. */
  method FindWithoutId(catalog: seq<Views.PackageRow>) returns (r: Result<seq<Views.PackageRow>, Views.RequestError>)
    ensures r == Err(Views.BadRequest)
  {
    var params: map<string, string> := map[];
    r := Views.FindPackagesById(catalog, params);
    assert r.Err? && r.error.BadRequest?;
  }

  /** The tags field `tag1 tag2` gives the two tags. */
  lemma NuspecTags()
    ensures Upload.TagNames("tag1 tag2") == ["tag1", "tag2"]
  {
    assert PyStr.Spaced(["tag1", "tag2"], [" "]) == "tag1 tag2";
    Upload.TagNamesSpaced(["tag1", "tag2"], [" "]);
  }

  /** `requireLicenseAcceptance` of `false` is a false flag, and `True` a true one. */
  lemma NuspecFlags()
    ensures !Upload.BoolFlag("false")
    ensures Upload.BoolFlag("True")
  {
  }

  /** The version `1.0.2` has three components. */
  lemma NuspecVersion()
    ensures Upload.SplitVersion("1.0.2") == Ok(Upload.Version(1, 0, Some(2), None))
  {
    assert Upload.Decimals([1, 0, 2]) == ["1", "0", "2"];
    assert PyStr.Join(["1", "0", "2"], '.') == "1.0.2";
    Upload.SplitVersionDotted([1, 0, 2]);
  }

  /** The token `'somename','1.0.2'` skips past that version of somename. */
  lemma SkipTokenExample()
    ensures Views.ParseSkipToken("'somename','1.0.2'") == Some(Views.SkipToken("somename", "1.0.2"))
  {
    assert Views.Quoted("somename") + [','] + Views.Quoted("1.0.2") == "'somename','1.0.2'";
    Views.ParseSkipTokenQuoted("somename", "1.0.2");
  }
}
