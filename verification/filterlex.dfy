/** The `$filter` tokenizer: a two-state scanner (INITIAL and string) over the raw filter text.
    Lexing is total: characters no rule matches are dropped one at a time. */
module FilterLex {
  import opened Results

  /** Token kinds, named as in the lexer's token tuple. */
  datatype TokenKind =
    | AND | COMMA | EQ | FIELD | ISLATESTVERSION | LPAREN | NE | NULL | OR | RPAREN
    | STRING | SUBSTRINGOF | TOLOWER

  /** A scanned token: its kind, its value and the scanner position just after it
      (the position a syntax error reports). */
  datatype Token = Token(kind: TokenKind, value: string, end: nat)

  /** A token without its position. */
  datatype Lexeme = Lexeme(kind: TokenKind, value: string)

  /** The fixed-text rules of the INITIAL state: FIELD is `Description|Id|Tags`, every other
      kind matches its own keyword or punctuation, case-sensitively and with no word boundary. */
  predicate IsRule(l: Lexeme)
  {
    match l.kind
    case FIELD => l.value == "Description" || l.value == "Id" || l.value == "Tags"
    case ISLATESTVERSION => l.value == "IsLatestVersion"
    case SUBSTRINGOF => l.value == "substringof"
    case TOLOWER => l.value == "tolower"
    case NULL => l.value == "null"
    case AND => l.value == "and"
    case EQ => l.value == "eq"
    case LPAREN => l.value == "("
    case NE => l.value == "ne"
    case OR => l.value == "or"
    case RPAREN => l.value == ")"
    case COMMA => l.value == ","
    case STRING => false
  }

  /** The one character skipped by both states. */
  const Ignored: char := ' '
  /** The character that opens and closes a string. */
  const Quote: char := '\''
  const Backslash: char := '\\'

  /** The text w occurs in s at position i. */
  predicate StartsWith(s: string, i: nat, w: string)
    requires i <= |s|
  {
    i + |w| <= |s| && s[i..i + |w|] == w
  }

  /** No rule text is a prefix of another, so at most one rule matches at any position and the
      order in which the scanner tries them never decides between two. */
  lemma RuleTextsPrefixFree(l1: Lexeme, l2: Lexeme)
    requires IsRule(l1) && IsRule(l2) && l1.value <= l2.value
    ensures l1 == l2
  {
    assert l1.value[0] == l2.value[0];
    if |l1.value| > 1 {
      assert l1.value[1] == l2.value[1];
    }
  }

  /** The fixed-text rules of the INITIAL state in the order the scanner tries them: longest
      regular expression first, the FIELD alternation `Description|Id|Tags` in its written
      order, and rules of equal length in their order of definition. */
  const Rules: seq<Lexeme> := [
    Lexeme(FIELD, "Description"), Lexeme(FIELD, "Id"), Lexeme(FIELD, "Tags"),
    Lexeme(ISLATESTVERSION, "IsLatestVersion"), Lexeme(SUBSTRINGOF, "substringof"),
    Lexeme(TOLOWER, "tolower"), Lexeme(NULL, "null"), Lexeme(AND, "and"), Lexeme(EQ, "eq"),
    Lexeme(LPAREN, "("), Lexeme(NE, "ne"), Lexeme(OR, "or"), Lexeme(RPAREN, ")"),
    Lexeme(COMMA, ",")]

  /** The table holds exactly the rules. */
  lemma RulesTable(l: Lexeme)
    ensures IsRule(l) <==> l in Rules
  {
  }

  /** The first rule of the table from index k on whose text starts at i. */
  function MatchFrom(s: string, i: nat, k: nat): (r: Option<Lexeme>)
    requires i <= |s| && k <= |Rules|
    decreases |Rules| - k
  {
    if k == |Rules| then None
    else if StartsWith(s, i, Rules[k].value) then Some(Rules[k])
    else MatchFrom(s, i, k + 1)
  }

  /** The rule the INITIAL state matches at position i. */
  function RuleAt(s: string, i: nat): (r: Option<Lexeme>)
    requires i <= |s|
  {
    MatchFrom(s, i, 0)
  }

  lemma {:induction false} MatchFromSome(s: string, i: nat, k: nat)
    requires i <= |s| && k <= |Rules| && MatchFrom(s, i, k).Some?
    ensures MatchFrom(s, i, k).value in Rules[k..]
    ensures StartsWith(s, i, MatchFrom(s, i, k).value.value)
    decreases |Rules| - k
  {
    if !StartsWith(s, i, Rules[k].value) {
      MatchFromSome(s, i, k + 1);
    }
  }

  /** A rule the scanner matches is a non-empty rule whose text starts at i. */
  lemma RuleAtSome(s: string, i: nat)
    requires i <= |s| && RuleAt(s, i).Some?
    ensures IsRule(RuleAt(s, i).value) && StartsWith(s, i, RuleAt(s, i).value.value)
    ensures |RuleAt(s, i).value.value| > 0
  {
    MatchFromSome(s, i, 0);
    RulesTable(RuleAt(s, i).value);
  }

  /** Two rule texts found at the same position are the same rule. */
  lemma SameRule(s: string, i: nat, l1: Lexeme, l2: Lexeme)
    requires i <= |s| && IsRule(l1) && IsRule(l2)
    requires StartsWith(s, i, l1.value) && StartsWith(s, i, l2.value)
    ensures l1 == l2
  {
    if |l1.value| <= |l2.value| {
      assert l1.value == l2.value[..|l1.value|];
      RuleTextsPrefixFree(l1, l2);
    } else {
      assert l2.value == l1.value[..|l2.value|];
      RuleTextsPrefixFree(l2, l1);
    }
  }

  lemma {:induction false} MatchFromMatch(s: string, i: nat, k: nat, l: Lexeme)
    requires i <= |s| && k <= |Rules| && l in Rules[k..] && StartsWith(s, i, l.value)
    ensures MatchFrom(s, i, k) == Some(l)
    decreases |Rules| - k
  {
    if StartsWith(s, i, Rules[k].value) {
      RulesTable(l);
      RulesTable(Rules[k]);
      SameRule(s, i, Rules[k], l);
    } else {
      assert l != Rules[k];
      assert l in Rules[k + 1..];
      MatchFromMatch(s, i, k + 1, l);
    }
  }

  /** When a rule's text starts at i, the scanner matches that rule and no other. */
  lemma RuleAtMatch(s: string, i: nat, l: Lexeme)
    requires i <= |s| && IsRule(l) && StartsWith(s, i, l.value)
    ensures RuleAt(s, i) == Some(l)
  {
    RulesTable(l);
    MatchFromMatch(s, i, 0, l);
  }

  /** A quote at k closes a string whose body starts at i: it is the body's first character or
      does not follow a backslash. */
  predicate Closer(s: string, i: nat, k: nat)
  {
    i <= k < |s| && s[k] == Quote && (k == i || s[k - 1] != Backslash)
  }

  /** The quote at q is the first to close a string whose body starts at i. */
  predicate FirstCloser(s: string, i: nat, q: nat)
  {
    Closer(s, i, q) && forall k :: i <= k < q ==> !Closer(s, i, k)
  }

  /** No quote closes a string whose body starts at i. */
  predicate NoCloser(s: string, i: nat)
  {
    forall k :: i <= k < |s| ==> !Closer(s, i, k)
  }

  /** The string state, entered with the body starting at i: the position of the quote that
      closes the string. A backslash-quote pair is consumed without closing it; spaces are
      ignored and every other character is skipped; the end of input leaves it open. So the
      string ends at the first quote not escaped by the backslash before it, and stays open when
      there is none. */
  function ScanString(s: string, i: nat): (r: Option<nat>)
    ensures r.Some? ==> i <= r.value < |s| && s[r.value] == Quote
    ensures r.Some? ==> FirstCloser(s, i, r.value)
    ensures r.None? ==> NoCloser(s, i)
    decreases |s| - i
  {
    if i >= |s| then None
    else if s[i] == Ignored then CloserShift(s, i, i + 1); ScanString(s, i + 1)
    else if s[i] == Backslash && i + 1 < |s| && s[i + 1] == Quote then
      CloserShift(s, i, i + 2); ScanString(s, i + 2)
    else if s[i] == Quote then Some(i)
    else CloserShift(s, i, i + 1); ScanString(s, i + 1)
  }

  /** Moving the start of a string body past positions that hold no closer keeps every later
      closer, provided the new start is not an escaped quote. */
  lemma CloserShift(s: string, i: nat, j: nat)
    requires i < j <= |s|
    requires forall k :: i <= k < j ==> !Closer(s, i, k)
    requires j < |s| && s[j] == Quote ==> s[j - 1] != Backslash
    ensures forall k :: i <= k < |s| ==> (Closer(s, i, k) <==> j <= k && Closer(s, j, k))
  {
  }

  /** What a token says about the text it was scanned from: a STRING value is the raw slice
      between an opening quote and the quote that closes it; any other value is the text of a
      rule, found in s just before the token's end. */
  ghost predicate ScannedFrom(s: string, t: Token)
  {
    if t.kind == STRING then
      var start := t.end - 1 - |t.value|;
      && 1 <= start && t.end <= |s|
      && s[start - 1] == Quote
      && ScanString(s, start) == Some(t.end - 1)
      && s[start..t.end - 1] == t.value
    else
      && IsRule(LexemeOf(t))
      && |t.value| <= t.end <= |s|
      && s[t.end - |t.value|..t.end] == t.value
  }

  /** Tokens scanned from s after position i: each one scanned from s, in increasing order of
      their end positions. */
  ghost predicate TokensFrom(s: string, i: nat, toks: seq<Token>)
  {
    && (forall k :: 0 <= k < |toks| ==> i < toks[k].end && ScannedFrom(s, toks[k]))
    && (forall k :: 0 < k < |toks| ==> toks[k - 1].end < toks[k].end)
  }

  /** What the scanner does at a position of the INITIAL state: skip one character, emit a token
      ending at its end position, or stop at a string left open. */
  datatype Move = Skip | Emit(t: Token) | Stop

  /** One move of the INITIAL state at i: the ignored space is skipped; a quote opens a string,
      scanned to its closing quote, whose token is the raw body; a rule emits its token; any
      other character is dropped. */
  function Step(s: string, i: nat): (m: Move)
    requires i < |s|
    ensures m.Emit? ==> i < m.t.end <= |s|
  {
    if s[i] == Ignored then Skip
    else if s[i] == Quote then
      match ScanString(s, i + 1)
      case Some(q) => Emit(Token(STRING, s[i + 1..q], q + 1))
      case None => Stop
    else
      match RuleAt(s, i)
      case Some(l) => RuleAtSome(s, i); Emit(Token(l.kind, l.value, i + |l.value|))
      case None => Skip
  }

  /** The tokens of s from position i of the INITIAL state on. */
  function LexFrom(s: string, i: nat): (toks: seq<Token>)
    requires i <= |s|
    decreases |s| - i
  {
    if i == |s| then []
    else match Step(s, i)
      case Skip => LexFrom(s, i + 1)
      case Emit(t) => [t] + LexFrom(s, t.end)
      case Stop => []
  }

  /** Tokenize a whole filter string, starting in the INITIAL state. Every token is scanned from
      the text, in order, so there are never more tokens than characters. */
  function Lex(s: string): (toks: seq<Token>)
    ensures TokensFrom(s, 0, toks)
    ensures |toks| <= |s|
  {
    LexScanned(s, 0);
    LexFrom(s, 0)
  }

  function LexemeOf(t: Token): Lexeme
  {
    Lexeme(t.kind, t.value)
  }

  function Lexemes(toks: seq<Token>): (ls: seq<Lexeme>)
  {
    if toks == [] then [] else [LexemeOf(toks[0])] + Lexemes(toks[1..])
  }

  lemma LexemesCons(t: Token, toks: seq<Token>)
    ensures Lexemes([t] + toks) == [LexemeOf(t)] + Lexemes(toks)
  {
    assert ([t] + toks)[1..] == toks;
  }

  lemma LexemesHead(toks: seq<Token>, t: Token, rest: seq<Token>, ls: seq<Lexeme>)
    requires toks == [t] + rest && ls != [] && ls[0] == LexemeOf(t)
    requires Lexemes(rest) == ls[1..]
    ensures Lexemes(toks) == ls
  {
    LexemesCons(t, rest);
  }

  lemma TokensFromCons(s: string, i: nat, t: Token, toks: seq<Token>)
    requires i < t.end && ScannedFrom(s, t) && TokensFrom(s, t.end, toks)
    ensures TokensFrom(s, i, [t] + toks)
  {
    var r := [t] + toks;
    forall k | 0 < k < |r|
      ensures r[k - 1].end < r[k].end
    {
      assert r[k] == toks[k - 1];
      if k > 1 {
        assert r[k - 1] == toks[k - 2];
      }
    }
  }

  lemma TokensFromWeaken(s: string, i: nat, j: nat, toks: seq<Token>)
    requires i <= j && TokensFrom(s, j, toks)
    ensures TokensFrom(s, i, toks)
  {
  }

  lemma RuleTokenScanned(s: string, i: nat, l: Lexeme)
    requires i <= |s| && IsRule(l) && StartsWith(s, i, l.value)
    ensures ScannedFrom(s, Token(l.kind, l.value, i + |l.value|))
  {
    assert s[i..i + |l.value|] == l.value;
    assert LexemeOf(Token(l.kind, l.value, i + |l.value|)) == l;
  }

  /** Every token a move emits is scanned from the text. */
  lemma StepScanned(s: string, i: nat)
    requires i < |s| && Step(s, i).Emit?
    ensures ScannedFrom(s, Step(s, i).t)
  {
    if s[i] != Ignored && s[i] != Quote {
      var l := RuleAt(s, i).value;
      RuleAtSome(s, i);
      RuleTokenScanned(s, i, l);
    }
  }

  lemma {:induction false} LexScanned(s: string, i: nat)
    requires i <= |s|
    ensures TokensFrom(s, i, LexFrom(s, i)) && |LexFrom(s, i)| <= |s| - i
    decreases |s| - i
  {
    if i < |s| {
      var m := Step(s, i);
      if m.Emit? {
        LexFromEmit(s, i, m.t);
        LexScanned(s, m.t.end);
        StepScanned(s, i);
        TokensFromCons(s, i, m.t, LexFrom(s, m.t.end));
      } else if m.Skip? {
        LexFromSkip(s, i);
        LexScanned(s, i + 1);
        TokensFromWeaken(s, i, i + 1, LexFrom(s, i + 1));
      }
    }
  }

  /** The text a lexeme is read back from: a string between quotes, anything else verbatim. */
  function LexemeText(l: Lexeme): string
  {
    if l.kind == STRING then [Quote] + l.value + [Quote] else l.value
  }

  function Spaces(n: nat): (r: string)
    ensures |r| == n && forall k :: 0 <= k < n ==> r[k] == Ignored
  {
    if n == 0 then [] else [Ignored] + Spaces(n - 1)
  }

  /** A filter text spelling out the lexemes in order, each followed by gaps[k] spaces. */
  function Spell(ls: seq<Lexeme>, gaps: seq<nat>): string
    requires |gaps| == |ls|
  {
    if ls == [] then [] else LexemeText(ls[0]) + (Spaces(gaps[0]) + Spell(ls[1..], gaps[1..]))
  }

  /** A lexeme the scanner reads back from its text: a rule, or a string body in which the
      string state finds no closing quote before the one that follows it. */
  predicate Spellable(l: Lexeme)
  {
    if l.kind == STRING then ScanString(l.value + [Quote], 0) == Some(|l.value|) else IsRule(l)
  }

  predicate AllSpellable(ls: seq<Lexeme>)
  {
    forall k :: 0 <= k < |ls| ==> Spellable(ls[k])
  }

  /** The string state scans the text w placed at start as it scans w alone. */
  lemma {:induction false} StringStep(s: string, start: nat, w: string, k: nat)
    requires start + |w| <= |s| && s[start..start + |w|] == w && k <= |w|
    requires ScanString(w, k) == Some(|w| - 1)
    ensures ScanString(s, start + k) == Some(start + |w| - 1)
    decreases |w| - k
  {
    var i := start + k;
    assert s[i] == w[k];
    if w[k] == Ignored {
      StringStep(s, start, w, k + 1);
    } else if w[k] == Backslash && k + 1 < |w| && w[k + 1] == Quote {
      assert s[i + 1] == w[k + 1];
      StringStep(s, start, w, k + 2);
    } else if w[k] != Quote {
      if k + 1 < |w| {
        assert s[i + 1] == w[k + 1];
      }
      StringStep(s, start, w, k + 1);
    }
  }

  lemma {:induction false} SkipSpaces(s: string, e: nat, g: nat, j: nat)
    requires j == e + g && j <= |s| && forall k :: e <= k < j ==> s[k] == Ignored
    ensures LexFrom(s, e) == LexFrom(s, j)
    decreases g
  {
    if g > 0 {
      LexFromIgnored(s, e);
      SkipSpaces(s, e + 1, g - 1, j);
    }
  }

  /** A string lexeme whose text starts at i is read back as one token. */
  lemma StringLexemeStep(s: string, i: nat, l: Lexeme)
    requires l.kind == STRING && Spellable(l)
    requires i + |l.value| + 2 <= |s| && s[i..i + |l.value| + 2] == [Quote] + l.value + [Quote]
    ensures Step(s, i) == Emit(Token(STRING, l.value, i + |l.value| + 2))
  {
    var u := s[i..i + |l.value| + 2];
    var w := l.value + [Quote];
    assert s[i + 1..i + 1 + |w|] == u[1..] == w;
    assert s[i] == u[0];
    StringStep(s, i + 1, w, 0);
    assert s[i + 1..i + |w|] == w[..|l.value|] == l.value;
    StepOpen(s, i, i + |w|);
  }

  /** No rule text begins with a character the INITIAL state handles before the rules. */
  lemma RuleFirstChar(l: Lexeme)
    requires IsRule(l)
    ensures |l.value| > 0 && l.value[0] != Ignored && l.value[0] != Quote
  {
  }

  /** A rule whose text starts at i is read as one token. */
  lemma RuleStep(s: string, i: nat, l: Lexeme)
    requires i <= |s| && IsRule(l) && StartsWith(s, i, l.value)
    ensures i < |s| && Step(s, i) == Emit(Token(l.kind, l.value, i + |l.value|))
  {
    RuleFirstChar(l);
    assert s[i] == s[i..i + |l.value|][0];
    RuleAtMatch(s, i, l);
  }

  /** A spellable lexeme whose text lies between i and e is read back as one token. */
  lemma LexemeStep(s: string, i: nat, l: Lexeme, e: nat)
    requires Spellable(l) && e == i + |LexemeText(l)| && e <= |s| && s[i..e] == LexemeText(l)
    ensures i < |s| && Step(s, i) == Emit(Token(l.kind, l.value, e))
  {
    if l.kind == STRING {
      StringLexemeStep(s, i, l);
    } else {
      RuleStep(s, i, l);
    }
  }

  lemma LexFromIgnored(s: string, i: nat)
    requires i < |s| && s[i] == Ignored
    ensures LexFrom(s, i) == LexFrom(s, i + 1)
  {
  }

  /** A quote opens a string that the first unescaped quote after it closes: the two make one
      token, whose value is the raw text between them, escapes included. */
  lemma StepOpen(s: string, i: nat, q: nat)
    requires i < |s| && s[i] == Quote && FirstCloser(s, i + 1, q)
    ensures Step(s, i) == Emit(Token(STRING, s[i + 1..q], q + 1))
  {
  }

  /** A quote with no unescaped quote after it opens a string that is never closed; that ends
      the scan, and nothing from it on becomes a token. */
  lemma UnterminatedString(s: string, i: nat)
    requires i < |s| && s[i] == Quote && NoCloser(s, i + 1)
    ensures LexFrom(s, i) == []
  {
  }

  lemma LexFromSkip(s: string, i: nat)
    requires i < |s| && Step(s, i) == Skip
    ensures LexFrom(s, i) == LexFrom(s, i + 1)
  {
  }

  /** The characters a rule text can start with. */
  const RuleInitials: set<char> := {'D', 'I', 'T', 's', 't', 'n', 'a', 'e', 'o', '(', ')', ','}

  /** No rule is found at a character no rule text starts with. */
  lemma NoRuleAt(s: string, i: nat)
    requires i < |s| && s[i] !in RuleInitials
    ensures RuleAt(s, i).None?
  {
    if RuleAt(s, i).Some? {
      RuleAtSome(s, i);
      RuleInitial(s, i, RuleAt(s, i).value);
      assert false;
    }
  }

  lemma RuleInitial(s: string, i: nat, l: Lexeme)
    requires i <= |s| && IsRule(l) && StartsWith(s, i, l.value)
    ensures i < |s| && s[i] in RuleInitials
  {
    RuleFirstChar(l);
    assert s[i] == s[i..i + |l.value|][0];
  }

  /** Positions the scanner skips one at a time yield no token. */
  lemma {:induction false} SkippedRun(s: string, i: nat, j: nat)
    requires i <= j <= |s| && forall k :: i <= k < j ==> Step(s, k) == Skip
    ensures LexFrom(s, i) == LexFrom(s, j)
    decreases j - i
  {
    if i < j {
      LexFromSkip(s, i);
      SkippedRun(s, i + 1, j);
    }
  }

  /** A run of characters, none a quote and none the start of a rule's text, yields no token:
      an unquoted word that contains no keyword vanishes, and so do tabs, newlines and any
      other character the scanner does not know. */
  lemma DroppedRun(s: string, i: nat, j: nat)
    requires i <= j <= |s|
    requires forall k :: i <= k < j ==> s[k] != Quote && RuleAt(s, k).None?
    ensures LexFrom(s, i) == LexFrom(s, j)
  {
    forall k | i <= k < j
      ensures Step(s, k) == Skip
    {
      StepSkip(s, k);
    }
    SkippedRun(s, i, j);
  }

  lemma StepSkip(s: string, i: nat)
    requires i < |s| && s[i] != Quote && RuleAt(s, i).None?
    ensures Step(s, i) == Skip
  {
  }

  /** A character that is neither the quote nor a rule's first character is dropped. */
  lemma UnknownDropped(s: string, i: nat)
    requires i < |s| && s[i] != Quote && s[i] !in RuleInitials
    ensures LexFrom(s, i) == LexFrom(s, i + 1)
  {
    NoRuleAt(s, i);
    DroppedRun(s, i, i + 1);
  }

  lemma LexFromEmit(s: string, i: nat, t: Token)
    requires i < |s| && Step(s, i) == Emit(t)
    ensures LexFrom(s, i) == [t] + LexFrom(s, t.end)
  {
  }

  /** The slice of s from i that is a + (b + c) splits into a, b and c, ending at e and j. */
  lemma SplitText(s: string, i: nat, a: string, b: string, c: string) returns (e: nat, j: nat)
    requires i <= |s| && s[i..] == a + (b + c)
    ensures e == i + |a| && j == e + |b| && j <= |s|
    ensures s[i..e] == a && s[e..j] == b && s[j..] == c
  {
    e := i + |a|;
    j := e + |b|;
    assert s[i..e] == (a + (b + c))[..|a|];
    assert s[e..] == (a + (b + c))[|a|..] == b + c;
    assert s[e..j] == s[e..][..|b|] == (b + c)[..|b|];
    assert s[j..] == s[e..][|b|..] == (b + c)[|b|..];
  }

  /** A spellable lexeme's text from i to e, then spaces up to j: one token ending at e, and the
      scanner resumes at j. */
  lemma TextStep(s: string, i: nat, l: Lexeme, e: nat, g: nat, j: nat)
    requires Spellable(l) && e == i + |LexemeText(l)| && j == e + g && j <= |s|
    requires s[i..e] == LexemeText(l) && s[e..j] == Spaces(g)
    ensures LexFrom(s, i) == [Token(l.kind, l.value, e)] + LexFrom(s, j)
  {
    LexemeStep(s, i, l, e);
    LexFromEmit(s, i, Token(l.kind, l.value, e));
    forall k | e <= k < j
      ensures s[k] == Ignored
    {
      assert s[k] == s[e..j][k - e];
    }
    SkipSpaces(s, e, g, j);
  }

  lemma {:induction false} LexSpelledFrom(s: string, i: nat, ls: seq<Lexeme>, gaps: seq<nat>)
    requires i <= |s| && |gaps| == |ls| && AllSpellable(ls) && s[i..] == Spell(ls, gaps)
    ensures Lexemes(LexFrom(s, i)) == ls
    decreases |ls|
  {
    if ls == [] {
      assert |s[i..]| == 0;
    } else {
      var l, g := ls[0], gaps[0];
      var e, j := SplitText(s, i, LexemeText(l), Spaces(g), Spell(ls[1..], gaps[1..]));
      TextStep(s, i, l, e, g, j);
      LexSpelledFrom(s, j, ls[1..], gaps[1..]);
      LexemesHead(LexFrom(s, i), Token(l.kind, l.value, e), LexFrom(s, j), ls);
    }
  }

  /** Lexing is the inverse of spelling: the scanner reads back exactly the lexemes spelled out,
      whatever the spacing between them. */
  lemma LexSpelled(ls: seq<Lexeme>, gaps: seq<nat>)
    requires |gaps| == |ls| && AllSpellable(ls)
    ensures Lexemes(Lex(Spell(ls, gaps))) == ls
  {
    LexSpelledFrom(Spell(ls, gaps), 0, ls, gaps);
  }
}
