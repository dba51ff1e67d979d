/** The `$filter` grammar and its semantic actions. The actions of the parser build a predicate
    over package columns; here they are pure functions from operands to operands, applied to a
    parse tree by Lower in the order the parser runs them (children left to right, then the
    node). */
module FilterYacc {
  import opened Results
  import opened FilterLex

  /** The field names a filter may mention and the package columns they stand for. */
  const FieldMapping: map<string, string> :=
    map["Description" := "description", "Id" := "nuget_id", "Tags" := "tags__name"]

  /** The columns a field name maps to. */
  predicate IsColumn(col: string)
  {
    col == "description" || col == "nuget_id" || col == "tags__name"
  }

  /** The field name standing for a column: the inverse of the field table. */
  function FieldName(col: string): (name: string)
    requires IsColumn(col)
    ensures name in FieldMapping && FieldMapping[name] == col
  {
    if col == "description" then "Description" else if col == "nuget_id" then "Id" else "Tags"
  }

  lemma FieldMappingColumns(name: string)
    requires name in FieldMapping
    ensures IsColumn(FieldMapping[name]) && FieldName(FieldMapping[name]) == name
  {
  }

  /** A condition on packages, as the actions build it. `ci` marks a lookup through the
      case-insensitive exact match: the key of a lower-cased field. FieldNone is the condition a
      bare field or `tolower(F)` builds (the column compared with None), NullCond the one the
      `null` keyword builds (a test that a column named rhs is null). IsNull tests a column for
      null, and ContainsNull tests the key of a containment for null, which is what comparing
      `substringof(S, F)` with null builds. */
  datatype Predicate =
    | IsLatest
    | NullCond
    | FieldNone(col: string, ci: bool)
    | IsNull(col: string, isNull: bool, ci: bool)
    | ContainsNull(col: string, isNull: bool, ci: bool)
    | Contains(col: string, sub: string, ci: bool)
    | Equals(col: string, val: string, ci: bool)
    | And(left: Predicate, right: Predicate)
    | Or(left: Predicate, right: Predicate)

  /** The value of a reduced expression: a string literal, a (possibly lower-cased) field, the
      `null` keyword, or a predicate. */
  datatype Operand = Lit(s: string) | FieldRef(col: string, ci: bool) | NullMarker | Pred(p: Predicate)

  /** Why a filter yields no value. GenericSyntaxError carries the scanner position after the
      offending token and that token's value; UnexpectedEnd is the input running out while the
      parser still expects a token, which the error hook does not turn into a syntax error;
      InvalidTypeForEq is a keyed condition compared with a condition; AttributeError,
      AssertionError and TypeError are the errors Python raises when an action meets a string
      where it expects a condition; Unsupported is a shape the model does not describe: an
      and/or read for its first child, whose outcome rests on the query library's internals, or a
      lookup on a key outside the field table. */
  datatype FilterError =
    | GenericSyntaxError(index: nat, token: string)
    | UnexpectedEnd
    | InvalidTypeForEq
    | AttributeError
    | AssertionError
    | TypeError
    | Unsupported

  /** The errors an action raises, as opposed to those of the parser itself. */
  predicate ActionError(e: FilterError)
  {
    !e.GenericSyntaxError? && !e.UnexpectedEnd?
  }

  datatype BinOp = OpOr | OpAnd | OpNe | OpEq

  /** A parse tree of the grammar. Field and ToLower keep the field name as written. */
  datatype Expr =
    | Field(name: string)
    | ToLower(name: string)
    | Null
    | Str(value: string)
    | IsLatestVersion
    | SubstringOf(sub: string, arg: Expr)
    | Paren(inner: Expr)
    | Binary(left: Expr, op: BinOp, right: Expr)

  /** Every column a predicate mentions is one of the mapped columns. */
  predicate ColumnsMapped(p: Predicate)
  {
    match p
    case IsLatest => true
    case NullCond => true
    case FieldNone(col, _) => IsColumn(col)
    case IsNull(col, _, _) => IsColumn(col)
    case ContainsNull(col, _, _) => IsColumn(col)
    case Contains(col, _, _) => IsColumn(col)
    case Equals(col, _, _) => IsColumn(col)
    case And(l, r) => ColumnsMapped(l) && ColumnsMapped(r)
    case Or(l, r) => ColumnsMapped(l) && ColumnsMapped(r)
  }

  predicate OperandMapped(o: Operand)
  {
    match o
    case Lit(_) => true
    case FieldRef(col, _) => IsColumn(col)
    case NullMarker => true
    case Pred(p) => ColumnsMapped(p)
  }

  /** Every field a tree names is in the field table. */
  predicate FieldsMapped(e: Expr)
  {
    match e
    case Field(n) => n in FieldMapping
    case ToLower(n) => n in FieldMapping
    case SubstringOf(_, a) => FieldsMapped(a)
    case Paren(x) => FieldsMapped(x)
    case Binary(l, _, r) => FieldsMapped(l) && FieldsMapped(r)
    case _ => true
  }

  /** No chain is the left operand of an operator: a chain extends to the right as far as it
      can, so only a parenthesised chain stands on the left of an operator. */
  predicate RightGrouped(e: Expr)
  {
    match e
    case SubstringOf(_, a) => RightGrouped(a)
    case Paren(x) => RightGrouped(x)
    case Binary(l, _, r) => !l.Binary? && RightGrouped(l) && RightGrouped(r)
    case _ => true
  }

  /** The trees the parser can build. */
  predicate WellFormed(e: Expr)
  {
    FieldsMapped(e) && RightGrouped(e)
  }

  /** The condition an operand stands for: every value but a string literal is one. */
  function AsQuery(o: Operand): (q: Option<Predicate>)
    ensures q.Some? <==> !o.Lit?
    ensures OperandMapped(o) && q.Some? ==> ColumnsMapped(q.value)
  {
    match o
    case Lit(_) => None
    case FieldRef(col, ci) => Some(FieldNone(col, ci))
    case NullMarker => Some(NullCond)
    case Pred(p) => Some(p)
  }

  /** A compound condition: an and/or of two, whose first child is whatever the query library
      made of it. */
  predicate IsCompound(b: Operand)
  {
    b.Pred? && (b.p.And? || b.p.Or?)
  }

  /** An operand built as a single keyword condition: a field reference, the null marker or a
      leaf predicate. eq, ne and substringof read the key of that condition. */
  predicate IsKeyed(a: Operand)
  {
    !a.Lit? && !IsCompound(a)
  }

  /** The key of the condition a keyed operand is built from, as eq, ne and substringof read it:
      a column compared as it is or ignoring case, a column's containment test, or any other key
      (the null marker's, the latest flag's, a null test's, which the model does not follow). */
  datatype Key = Column(col: string, ci: bool) | Containment(col: string, ci: bool) | OtherKey

  function KeyOf(a: Operand): (k: Key)
    requires IsKeyed(a)
    ensures OperandMapped(a) && !k.OtherKey? ==> IsColumn(k.col)
    ensures k.Column? <==> a.FieldRef? || (a.Pred? && (a.p.FieldNone? || a.p.Equals?))
    ensures k.Containment? <==> a.Pred? && a.p.Contains?
  {
    match a
    case FieldRef(col, ci) => Column(col, ci)
    case Pred(FieldNone(col, ci)) => Column(col, ci)
    case Pred(Equals(col, _, ci)) => Column(col, ci)
    case Pred(Contains(col, _, ci)) => Containment(col, ci)
    case _ => OtherKey
  }

  /** The action of `substringof(S, E)`: it reads the key of E's condition, so a field (or an
      equality on one) turns into a containment test on its column that takes over the case
      sensitivity; a string has no condition to read. */
  function SubstringOfAction(sub: string, b: Operand): (r: Result<Operand, FilterError>)
    ensures r.Ok? <==> IsKeyed(b) && KeyOf(b).Column?
    ensures r.Ok? ==> r.value == Pred(Contains(KeyOf(b).col, sub, KeyOf(b).ci))
    ensures b.Lit? ==> r == Err(AttributeError)
    ensures r.Err? && !b.Lit? ==> r.error == Unsupported
  {
    if b.Lit? then Err(AttributeError)
    else if IsCompound(b) then Err(Unsupported)
    else
      match KeyOf(b)
      case Column(col, ci) => Ok(Pred(Contains(col, sub, ci)))
      case _ => Err(Unsupported)
  }

  /** The right operand of eq/ne that means null: the keyword (or the condition it builds), or a
      string literal spelled null. */
  predicate IsNullOperand(b: Operand)
  {
    b == NullMarker || b == Pred(NullCond) || b == Lit("null")
  }

  /** The action of the four binary operators. and/or combine two conditions, and a string on
      either side fails: on the right the action's assertion, on the left Python's `&`/`|`.
      eq/ne read the key of the left operand's condition: against null they test that key for
      null (eq) or not null (ne); against any other literal both compare the key with
      it, since there is no not-equals branch; against a condition that is not the null one
      they fail. */
  function OpAction(a: Operand, op: BinOp, b: Operand): (r: Result<Operand, FilterError>)
    ensures (op == OpAnd || op == OpOr) ==> (r.Ok? <==> !a.Lit? && !b.Lit?)
    ensures op == OpAnd && r.Ok? ==> r.value == Pred(And(AsQuery(a).value, AsQuery(b).value))
    ensures op == OpOr && r.Ok? ==> r.value == Pred(Or(AsQuery(a).value, AsQuery(b).value))
    ensures (op == OpAnd || op == OpOr) && b.Lit? ==> r == Err(AssertionError)
    ensures (op == OpAnd || op == OpOr) && a.Lit? && !b.Lit? ==> r == Err(TypeError)
    ensures (op == OpEq || op == OpNe) && a.Lit? ==> r == Err(AttributeError)
    ensures (op == OpEq || op == OpNe) && r.Ok? ==>
      IsKeyed(a) && !KeyOf(a).OtherKey? && (IsNullOperand(b) || b.Lit?)
    ensures (op == OpEq || op == OpNe) && IsKeyed(a) && KeyOf(a).Column? && IsNullOperand(b)
      ==> r == Ok(Pred(IsNull(KeyOf(a).col, op == OpEq, KeyOf(a).ci)))
    ensures (op == OpEq || op == OpNe) && IsKeyed(a) && KeyOf(a).Containment? && IsNullOperand(b)
      ==> r == Ok(Pred(ContainsNull(KeyOf(a).col, op == OpEq, KeyOf(a).ci)))
    ensures (op == OpEq || op == OpNe) && IsKeyed(a) && KeyOf(a).Column? && b.Lit? && !IsNullOperand(b)
      ==> r == Ok(Pred(Equals(KeyOf(a).col, b.s, KeyOf(a).ci)))
    ensures (op == OpEq || op == OpNe) && IsKeyed(a) && KeyOf(a).Containment? && b.Lit? && !IsNullOperand(b)
      ==> r == Ok(Pred(Contains(KeyOf(a).col, b.s, KeyOf(a).ci)))
    ensures r == Err(InvalidTypeForEq) <==>
      && (op == OpEq || op == OpNe) && IsKeyed(a)
      && !IsNullOperand(b) && !b.Lit? && !IsCompound(b)
    ensures r.Err? ==> ActionError(r.error)
  {
    match op
    case OpAnd =>
      if b.Lit? then Err(AssertionError)
      else if a.Lit? then Err(TypeError)
      else Ok(Pred(And(AsQuery(a).value, AsQuery(b).value)))
    case OpOr =>
      if b.Lit? then Err(AssertionError)
      else if a.Lit? then Err(TypeError)
      else Ok(Pred(Or(AsQuery(a).value, AsQuery(b).value)))
    case _ =>
      if a.Lit? then Err(AttributeError)
      else if IsCompound(a) then Err(Unsupported)
      else if IsNullOperand(b) then
        match KeyOf(a)
        case Column(col, ci) => Ok(Pred(IsNull(col, op == OpEq, ci)))
        case Containment(col, ci) => Ok(Pred(ContainsNull(col, op == OpEq, ci)))
        case OtherKey => Err(Unsupported)
      else if b.Lit? then
        match KeyOf(a)
        case Column(col, ci) => Ok(Pred(Equals(col, b.s, ci)))
        case Containment(col, ci) => Ok(Pred(Contains(col, b.s, ci)))
        case OtherKey => Err(Unsupported)
      else if IsCompound(b) then Err(Unsupported)
      else Err(InvalidTypeForEq)
  }

  /** Run the actions of a tree bottom-up, left to right; the first action that fails decides
      the error. Lowering never reports a syntax error, and every column it yields is mapped. */
  function Lower(e: Expr): (r: Result<Operand, FilterError>)
    requires FieldsMapped(e)
    ensures r.Ok? ==> OperandMapped(r.value)
    ensures r.Err? ==> ActionError(r.error)
  {
    match e
    case Field(n) => FieldMappingColumns(n); Ok(FieldRef(FieldMapping[n], false))
    case ToLower(n) => FieldMappingColumns(n); Ok(FieldRef(FieldMapping[n], true))
    case Null => Ok(NullMarker)
    case Str(v) => Ok(Lit(v))
    case IsLatestVersion => Ok(Pred(IsLatest))
    case SubstringOf(sub, a) =>
      var b :- Lower(a);
      SubstringOfAction(sub, b)
    case Paren(x) => Lower(x)
    case Binary(l, op, rt) =>
      var a :- Lower(l);
      var b :- Lower(rt);
      OpAction(a, op, b)
  }

  /** The lexeme of an operator keyword. */
  function OpLexeme(op: BinOp): (l: Lexeme)
    ensures IsRule(l)
  {
    match op
    case OpOr => Lexeme(OR, "or")
    case OpAnd => Lexeme(AND, "and")
    case OpNe => Lexeme(NE, "ne")
    case OpEq => Lexeme(EQ, "eq")
  }

  /** The operator a token kind stands for, if any. */
  function KindOp(k: TokenKind): (r: Option<BinOp>)
    ensures r.Some? ==> OpLexeme(r.value).kind == k
    ensures r.None? ==> k != AND && k != OR && k != EQ && k != NE
  {
    match k
    case OR => Some(OpOr)
    case AND => Some(OpAnd)
    case NE => Some(OpNe)
    case EQ => Some(OpEq)
    case _ => None
  }

  /** The lexemes a tree is read from. */
  function Unparse(e: Expr): (ls: seq<Lexeme>)
    ensures |ls| > 0
  {
    match e
    case Field(n) => [Lexeme(FIELD, n)]
    case ToLower(n) => [Lexeme(TOLOWER, "tolower"), Lexeme(LPAREN, "("), Lexeme(FIELD, n), Lexeme(RPAREN, ")")]
    case Null => [Lexeme(NULL, "null")]
    case Str(v) => [Lexeme(STRING, v)]
    case IsLatestVersion => [Lexeme(ISLATESTVERSION, "IsLatestVersion")]
    case SubstringOf(sub, a) =>
      [Lexeme(SUBSTRINGOF, "substringof"), Lexeme(LPAREN, "("), Lexeme(STRING, sub), Lexeme(COMMA, ",")]
      + Unparse(a) + [Lexeme(RPAREN, ")")]
    case Paren(x) => [Lexeme(LPAREN, "(")] + Unparse(x) + [Lexeme(RPAREN, ")")]
    case Binary(l, op, r) => Unparse(l) + [OpLexeme(op)] + Unparse(r)
  }
}
