/** Filter texts as people write them: no space anywhere except one on each side of an operator,
    as in `(Id ne null) and IsLatestVersion`. Such a text is one spelling of its tree, so the
    parser reads it as that tree. */
module Written {
  import opened Results
  import opened FilterLex
  import opened FilterYacc
  import opened FilterParse
  import opened Filter

  /** The usual text of a tree. */
  function Text(e: Expr): string
  {
    match e
    case Field(n) => n
    case ToLower(n) => "tolower(" + n + ")"
    case Null => "null"
    case Str(v) => "'" + v + "'"
    case IsLatestVersion => "IsLatestVersion"
    case SubstringOf(sub, a) => "substringof('" + sub + "'," + Text(a) + ")"
    case Paren(x) => "(" + Text(x) + ")"
    case Binary(l, op, r) => Text(l) + " " + OpLexeme(op).value + " " + Text(r)
  }

  /** The spaces after each lexeme of the usual text, with trail spaces after the last one. */
  function Gaps(e: Expr, trail: nat): (gaps: seq<nat>)
    ensures |gaps| == |Unparse(e)|
  {
    match e
    case ToLower(_) => [0, 0, 0, trail]
    case SubstringOf(_, a) => [0, 0, 0, 0] + Gaps(a, 0) + [trail]
    case Paren(x) => [0] + Gaps(x, 0) + [trail]
    case Binary(l, _, r) => Gaps(l, 1) + [1] + Gaps(r, trail)
    case _ => [trail]
  }

  /** Every string in the tree is one the scanner reads back between quotes. */
  predicate Closed(e: Expr)
  {
    match e
    case Str(v) => Quotable(v)
    case SubstringOf(sub, a) => Quotable(sub) && Closed(a)
    case Paren(x) => Closed(x)
    case Binary(l, _, r) => Closed(l) && Closed(r)
    case _ => true
  }

  lemma {:induction false} SpellConcat(a: seq<Lexeme>, ga: seq<nat>, b: seq<Lexeme>, gb: seq<nat>)
    requires |ga| == |a| && |gb| == |b|
    ensures Spell(a + b, ga + gb) == Spell(a, ga) + Spell(b, gb)
    decreases |a|
  {
    if a != [] {
      assert (a + b)[1..] == a[1..] + b && (ga + gb)[1..] == ga[1..] + gb;
      SpellConcat(a[1..], ga[1..], b, gb);
    } else {
      assert a + b == b && ga + gb == gb;
    }
  }

  /** A string with no quote, and no backslash that would escape the closing quote, is read
      back between quotes. */
  lemma PlainQuotable(v: string)
    requires Quote !in v && (v == [] || v[|v| - 1] != Backslash)
    ensures Quotable(v)
  {
    PlainScan(v, 0);
  }

  lemma {:induction false} PlainScan(v: string, i: nat)
    requires Quote !in v && (v == [] || v[|v| - 1] != Backslash) && i <= |v|
    ensures ScanString(v + [Quote], i) == Some(|v|)
    decreases |v| - i
  {
    var s := v + [Quote];
    assert s[|v|] == Quote;
    if i < |v| {
      assert s[i] == v[i];
      assert s[i] == Backslash ==> i + 1 < |v| && s[i + 1] == v[i + 1];
      PlainScan(v, i + 1);
    }
  }

  lemma SpellOne(l: Lexeme, g: nat)
    ensures Spell([l], [g]) == LexemeText(l) + Spaces(g)
  {
    assert Spell([], []) == [];
  }

  /** Two lexemes, the first followed by no space. */
  lemma SpellTwo(a: Lexeme, b: Lexeme, g: nat)
    ensures Spell([a, b], [0, g]) == LexemeText(a) + (LexemeText(b) + Spaces(g))
  {
    assert [a, b][1..] == [b] && [0, g][1..] == [g];
    SpellOne(b, g);
    assert Spaces(0) == [];
  }

  /** The usual text followed by trail spaces spells the tree's lexemes with those gaps. */
  lemma {:induction false} TextSpelled(e: Expr, trail: nat)
    ensures Spell(Unparse(e), Gaps(e, trail)) == Text(e) + Spaces(trail)
  {
    match e
    case Field(n) =>
      SpellOne(Lexeme(FIELD, n), trail);
    case ToLower(n) =>
      ToLowerSpelled(n, trail);
    case Null =>
      SpellOne(Lexeme(NULL, "null"), trail);
    case Str(v) =>
      SpellOne(Lexeme(STRING, v), trail);
    case IsLatestVersion =>
      SpellOne(Lexeme(ISLATESTVERSION, "IsLatestVersion"), trail);
    case SubstringOf(sub, a) =>
      TextSpelled(a, 0);
      SubstringOfSpelled(sub, a, trail);
    case Paren(x) =>
      TextSpelled(x, 0);
      ParenSpelled(x, trail);
    case Binary(l, op, r) =>
      TextSpelled(l, 1);
      TextSpelled(r, trail);
      BinarySpelled(l, op, r, trail);
  }

  lemma ToLowerSpelled(n: string, trail: nat)
    ensures Spell(Unparse(ToLower(n)), Gaps(ToLower(n), trail)) == Text(ToLower(n)) + Spaces(trail)
  {
    var a, b, c, d := Lexeme(TOLOWER, "tolower"), Lexeme(LPAREN, "("), Lexeme(FIELD, n), Lexeme(RPAREN, ")");
    SpellTwo(a, b, 0);
    SpellTwo(c, d, trail);
    assert Spaces(0) == [];
    assert LexemeText(a) == "tolower" && LexemeText(b) == "(" && LexemeText(c) == n && LexemeText(d) == ")";
    SpellConcat([a, b], [0, 0], [c, d], [0, trail]);
    ToLowerShape(n, trail);
    ToLowerText(n, Spaces(trail));
  }

  lemma ToLowerText(n: string, sp: string)
    ensures ("tolower" + ("(" + [])) + (n + (")" + sp)) == "tolower(" + n + ")" + sp
  {
  }

  lemma ParenSpelled(x: Expr, trail: nat)
    requires Spell(Unparse(x), Gaps(x, 0)) == Text(x) + Spaces(0)
    ensures Spell(Unparse(Paren(x)), Gaps(Paren(x), trail)) == Text(Paren(x)) + Spaces(trail)
  {
    var open, close := [Lexeme(LPAREN, "(")], [Lexeme(RPAREN, ")")];
    var u, g := Unparse(x), Gaps(x, 0);
    SpellOne(open[0], 0);
    SpellOne(close[0], trail);
    SpellConcat(open, [0], u, g);
    SpellConcat(open + u, [0] + g, close, [trail]);
    ParenShape(x, trail);
    assert Spaces(0) == [];
    WrapText("(", Text(x), ")", Spaces(trail));
  }

  lemma WrapText(a: string, t: string, b: string, sp: string)
    ensures (a + []) + (t + []) + (b + sp) == a + t + b + sp
  {
  }

  lemma BinarySpelled(l: Expr, op: BinOp, r: Expr, trail: nat)
    requires Spell(Unparse(l), Gaps(l, 1)) == Text(l) + Spaces(1)
    requires Spell(Unparse(r), Gaps(r, trail)) == Text(r) + Spaces(trail)
    ensures Spell(Unparse(Binary(l, op, r)), Gaps(Binary(l, op, r), trail)) == Text(Binary(l, op, r)) + Spaces(trail)
  {
    var ul, gl, o := Unparse(l), Gaps(l, 1), [OpLexeme(op)];
    var ur, gr := Unparse(r), Gaps(r, trail);
    SpellOne(o[0], 1);
    SpellConcat(ul, gl, o, [1]);
    SpellConcat(ul + o, gl + [1], ur, gr);
    BinaryShape(l, op, r, trail);
    assert Spaces(1) == " ";
    assert LexemeText(o[0]) == OpLexeme(op).value;
    JoinText(Text(l), OpLexeme(op).value, Text(r), Spaces(trail));
  }

  lemma JoinText(l: string, w: string, r: string, sp: string)
    ensures (l + " ") + (w + " ") + (r + sp) == l + " " + w + " " + r + sp
  {
  }

  lemma SubstringOfSpelled(sub: string, a: Expr, trail: nat)
    requires Spell(Unparse(a), Gaps(a, 0)) == Text(a) + Spaces(0)
    ensures Spell(Unparse(SubstringOf(sub, a)), Gaps(SubstringOf(sub, a), trail))
         == Text(SubstringOf(sub, a)) + Spaces(trail)
  {
    var head := [Lexeme(SUBSTRINGOF, "substringof"), Lexeme(LPAREN, "("), Lexeme(STRING, sub), Lexeme(COMMA, ",")];
    var close := [Lexeme(RPAREN, ")")];
    var u, g := Unparse(a), Gaps(a, 0);
    HeadSpelled(sub);
    SpellOne(close[0], trail);
    SpellConcat(head, [0, 0, 0, 0], u, g);
    SpellConcat(head + u, [0, 0, 0, 0] + g, close, [trail]);
    SubstringOfShape(sub, a, trail);
    assert Spaces(0) == [];
    HeadText(sub, Text(a), Spaces(trail));
  }

  lemma HeadText(sub: string, t: string, sp: string)
    ensures ("substringof('" + sub + "',") + (t + []) + (")" + sp) == "substringof('" + sub + "'," + t + ")" + sp
  {
  }

  lemma HeadSpelled(sub: string)
    ensures Spell([Lexeme(SUBSTRINGOF, "substringof"), Lexeme(LPAREN, "("), Lexeme(STRING, sub), Lexeme(COMMA, ",")],
      [0, 0, 0, 0]) == "substringof('" + sub + "',"
  {
    var a, b, c, d := Lexeme(SUBSTRINGOF, "substringof"), Lexeme(LPAREN, "("), Lexeme(STRING, sub), Lexeme(COMMA, ",");
    SpellTwo(a, b, 0);
    SpellTwo(c, d, 0);
    SpellConcat([a, b], [0, 0], [c, d], [0, 0]);
    assert [a, b] + [c, d] == [a, b, c, d];
    assert [0, 0] + [0, 0] == [0, 0, 0, 0];
    assert Spaces(0) == [];
    HeadLiteral(sub);
  }

  lemma HeadLiteral(sub: string)
    ensures ("substringof" + ("(" + [])) + (("'" + sub + "'") + ("," + [])) == "substringof('" + sub + "',"
  {
  }

  /** The lexemes and gaps of each compound tree, one level down. */
  lemma ToLowerShape(n: string, trail: nat)
    ensures Unparse(ToLower(n)) == [Lexeme(TOLOWER, "tolower"), Lexeme(LPAREN, "(")] + [Lexeme(FIELD, n), Lexeme(RPAREN, ")")]
    ensures Gaps(ToLower(n), trail) == [0, 0] + [0, trail]
  {
  }

  lemma ParenShape(x: Expr, trail: nat)
    ensures Unparse(Paren(x)) == [Lexeme(LPAREN, "(")] + Unparse(x) + [Lexeme(RPAREN, ")")]
    ensures Gaps(Paren(x), trail) == [0] + Gaps(x, 0) + [trail]
  {
  }

  lemma BinaryShape(l: Expr, op: BinOp, r: Expr, trail: nat)
    ensures Unparse(Binary(l, op, r)) == Unparse(l) + [OpLexeme(op)] + Unparse(r)
    ensures Gaps(Binary(l, op, r), trail) == Gaps(l, 1) + [1] + Gaps(r, trail)
  {
  }

  lemma SubstringOfShape(sub: string, a: Expr, trail: nat)
    ensures Unparse(SubstringOf(sub, a))
         == [Lexeme(SUBSTRINGOF, "substringof"), Lexeme(LPAREN, "("), Lexeme(STRING, sub), Lexeme(COMMA, ",")]
            + Unparse(a) + [Lexeme(RPAREN, ")")]
    ensures Gaps(SubstringOf(sub, a), trail) == [0, 0, 0, 0] + Gaps(a, 0) + [trail]
  {
  }

  lemma AllSpellableConcat(a: seq<Lexeme>, b: seq<Lexeme>)
    requires AllSpellable(a) && AllSpellable(b)
    ensures AllSpellable(a + b)
  {
    forall k | 0 <= k < |a + b|
      ensures Spellable((a + b)[k])
    {
      if k < |a| {
        assert (a + b)[k] == a[k];
      } else {
        assert (a + b)[k] == b[k - |a|];
      }
    }
  }

  /** Every lexeme of a tree with mapped fields and closed strings is read back by the scanner. */
  lemma {:induction false} UnparseSpellable(e: Expr)
    requires FieldsMapped(e) && Closed(e)
    ensures AllSpellable(Unparse(e))
  {
    match e
    case SubstringOf(sub, a) =>
      UnparseSpellable(a);
      SubstringOfSpellable(sub, a);
    case Paren(x) =>
      UnparseSpellable(x);
      ParenSpellable(x);
    case Binary(l, op, r) =>
      UnparseSpellable(l);
      UnparseSpellable(r);
      BinarySpellable(l, op, r);
    case _ =>
      LeafWritable(e);
  }

  lemma LeafWritable(e: Expr)
    requires FieldsMapped(e) && Closed(e) && !e.SubstringOf? && !e.Paren? && !e.Binary?
    ensures AllSpellable(Unparse(e))
  {
    var ls := Unparse(e);
    if e.ToLower? {
      assert Spellable(ls[0]) && Spellable(ls[1]) && Spellable(ls[2]) && Spellable(ls[3]);
    } else {
      assert Spellable(ls[0]);
    }
  }

  lemma SubstringOfSpellable(sub: string, a: Expr)
    requires Quotable(sub) && AllSpellable(Unparse(a))
    ensures AllSpellable(Unparse(SubstringOf(sub, a)))
  {
    var head := [Lexeme(SUBSTRINGOF, "substringof"), Lexeme(LPAREN, "("), Lexeme(STRING, sub), Lexeme(COMMA, ",")];
    assert Spellable(head[0]) && Spellable(head[1]) && Spellable(head[2]) && Spellable(head[3]);
    AllSpellableConcat(head, Unparse(a));
    assert Spellable([Lexeme(RPAREN, ")")][0]);
    AllSpellableConcat(head + Unparse(a), [Lexeme(RPAREN, ")")]);
  }

  lemma ParenSpellable(x: Expr)
    requires AllSpellable(Unparse(x))
    ensures AllSpellable(Unparse(Paren(x)))
  {
    assert Spellable([Lexeme(LPAREN, "(")][0]) && Spellable([Lexeme(RPAREN, ")")][0]);
    AllSpellableConcat([Lexeme(LPAREN, "(")], Unparse(x));
    AllSpellableConcat([Lexeme(LPAREN, "(")] + Unparse(x), [Lexeme(RPAREN, ")")]);
  }

  lemma BinarySpellable(l: Expr, op: BinOp, r: Expr)
    requires AllSpellable(Unparse(l)) && AllSpellable(Unparse(r))
    ensures AllSpellable(Unparse(Binary(l, op, r)))
  {
    assert Spellable([OpLexeme(op)][0]);
    AllSpellableConcat(Unparse(l), [OpLexeme(op)]);
    AllSpellableConcat(Unparse(l) + [OpLexeme(op)], Unparse(r));
  }

  /** A tree the parser can build, written the usual way, is read back as that tree: the parser
      answers with its value, or with the error its actions raise. */
  lemma ParseWritten(e: Expr)
    requires WellFormed(e) && Closed(e)
    ensures ParseText(Text(e)) == Outcome(e, |Unparse(e)|)
  {
    TextSpelled(e, 0);
    assert Text(e) + Spaces(0) == Text(e);
    UnparseSpellable(e);
    ParseSpelled(e, Gaps(e, 0));
  }
}
