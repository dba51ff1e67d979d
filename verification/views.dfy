/** The pure steps of the two feed views: the column `Packages()` orders by, the predicate its
    `$filter` yields, and the rows `FindPackagesById()` returns for an id and a `$skiptoken`. */
module Views {
  import opened Results
  import opened FilterLex
  import opened FilterYacc
  import opened Filter
  import opened PyStr

  /** The column `Packages()` orders by: the mapped column of a field name given as `$orderby`,
      and nuget_id for anything else, an absent or empty value included. */
  function OrderColumn(orderby: Option<string>): (col: string)
    ensures IsColumn(col)
    ensures orderby.Some? && orderby.value in FieldMapping ==> FieldName(col) == orderby.value
    ensures col != "nuget_id" ==> orderby == Some(FieldName(col))
  {
    if orderby.Some? && orderby.value != [] && orderby.value in FieldMapping then
      FieldMappingColumns(orderby.value);
      FieldMapping[orderby.value]
    else "nuget_id"
  }

  /** Ordering by a field's name orders by its column. */
  lemma OrderColumnField(name: string)
    requires name in FieldMapping
    ensures OrderColumn(Some(name)) == FieldMapping[name]
  {
  }

  /** What `Packages()` makes of `$filter`. NoFilter is an absent or empty parameter, for which
      the parser is skipped and an empty dict is handed to the query; Matching and StringFilter
      are the value handed to the query otherwise; InvalidFilter is the bad-request answer to a
      syntax error; Failed is any other error, which the view does not catch; NotModelled is a
      filter whose value rests on the query library's internals. */
  datatype FilterOutcome =
    | NoFilter
    | Matching(p: Predicate)
    | StringFilter(s: string)
    | InvalidFilter
    | Failed(error: FilterError)
    | NotModelled

  function PackagesFilter(filter: Option<string>): (r: FilterOutcome)
    ensures r.NoFilter? <==> filter.None? || filter.value == []
    ensures r.Matching? <==>
      filter.Some? && filter.value != [] && ParseFilter(filter.value).Ok?
      && ParseFilter(filter.value).value.QueryValue?
    ensures r.Matching? ==> ParseFilter(filter.value) == Ok(QueryValue(r.p)) && ColumnsMapped(r.p)
    ensures r.StringFilter? <==>
      filter.Some? && filter.value != [] && ParseFilter(filter.value).Ok?
      && ParseFilter(filter.value).value.StringValue?
    ensures r.StringFilter? ==> ParseFilter(filter.value) == Ok(StringValue(r.s))
    ensures r.InvalidFilter? <==>
      filter.Some? && filter.value != [] && ParseFilter(filter.value).Err?
      && ParseFilter(filter.value).error.GenericSyntaxError?
    ensures r.NotModelled? <==>
      filter.Some? && filter.value != [] && ParseFilter(filter.value) == Err(Unsupported)
    ensures r.Failed? ==> !r.error.GenericSyntaxError? && r.error != Unsupported
    ensures r.Failed? ==> filter.Some? && ParseFilter(filter.value) == Err(r.error)
  {
    if filter.None? || filter.value == [] then NoFilter
    else
      match ParseFilter(filter.value)
      case Ok(QueryValue(p)) => Matching(p)
      case Ok(StringValue(v)) => StringFilter(v)
      case Err(GenericSyntaxError(_, _)) => InvalidFilter
      case Err(Unsupported) => NotModelled
      case Err(e) => Failed(e)
  }

  /** A printed filter text is never empty. */
  lemma SpellNonEmpty(ls: seq<Lexeme>, gaps: seq<nat>)
    requires |gaps| == |ls| && |ls| > 0 && AllSpellable(ls)
    ensures Spell(ls, gaps) != []
  {
    assert Spellable(ls[0]);
  }

  /** Every predicate a filter text can express, written out with any spacing, selects the
      packages that predicate selects. */
  lemma PackagesFilterText(p: Predicate, gaps: seq<nat>)
    requires Printable(p) && |gaps| == |Unparse(Print(p))|
    ensures PackagesFilter(Some(FilterText(p, gaps))) == Matching(p)
  {
    PrintSpellable(p);
    SpellNonEmpty(Unparse(Print(p)), gaps);
    ParseFilterText(p, gaps);
  }

  /** A package as the feed sees it: its id and its version text. */
  datatype PackageRow = PackageRow(id: string, version: string)

  /** The package a `$skiptoken` names. */
  datatype SkipToken = SkipToken(id: string, version: string)

  datatype RequestError = BadRequest

  /** The rows of a catalog with the given id, in catalog order. */
  function ById(catalog: seq<PackageRow>, id: string): (rows: seq<PackageRow>)
    ensures forall k :: 0 <= k < |rows| ==> rows[k].id == id
    ensures forall row :: row in rows <==> row in catalog && row.id == id
    decreases |catalog|
  {
    if catalog == [] then []
    else
      var rest := ById(catalog[1..], id);
      assert catalog == [catalog[0]] + catalog[1..];
      if catalog[0].id == id then [catalog[0]] + rest else rest
  }

  /** Selecting by id keeps catalog order: the rows of a catalog in two parts are the rows of
      the first part followed by those of the second. */
  lemma {:induction false} ByIdConcat(a: seq<PackageRow>, b: seq<PackageRow>, id: string)
    ensures ById(a + b, id) == ById(a, id) + ById(b, id)
    decreases |a|
  {
    if a == [] {
      assert a + b == b;
    } else {
      assert (a + b)[1..] == a[1..] + b;
      ByIdConcat(a[1..], b, id);
    }
  }

  /** The pieces of a `$skiptoken`: split on commas, each stripped of whitespace and then of
      surrounding quotes. */
  function SkipTokenParts(token: string): (parts: seq<string>)
    ensures |parts| == multiset(token)[','] + 1
  {
    SplitPieces(token, ',');
    Unquoted(Split(token, ','))
  }

  /** Each piece stripped of whitespace and then of surrounding quotes. */
  function Unquoted(pieces: seq<string>): (parts: seq<string>)
    ensures |parts| == |pieces|
  {
    if pieces == [] then [] else [StripQuotes(Strip(pieces[0]))] + Unquoted(pieces[1..])
  }

  lemma {:induction false} UnquotedAt(pieces: seq<string>, k: nat)
    requires k < |pieces|
    ensures Unquoted(pieces)[k] == StripQuotes(Strip(pieces[k]))
    decreases k
  {
    if k > 0 {
      UnquotedAt(pieces[1..], k - 1);
    }
  }

  /** Each piece of a token is free of commas and of quotes at either end. */
  lemma SkipTokenPieces(token: string, k: nat)
    requires k < |SkipTokenParts(token)|
    ensures ',' !in SkipTokenParts(token)[k] && Trimmed(SkipTokenParts(token)[k], {'\'', '"'})
  {
    SplitPieces(token, ',');
    var piece := Split(token, ',')[k];
    UnquotedAt(Split(token, ','), k);
    assert ',' !in piece;
    StripKeeps(piece, Whitespace, ',');
    StripKeeps(Strip(piece), {'\'', '"'}, ',');
  }

  /** A `$skiptoken` is used only when it has exactly two pieces, the id and the version. */
  function ParseSkipToken(token: string): (t: Option<SkipToken>)
    ensures t.Some? <==> multiset(token)[','] == 1
    ensures t.Some? ==> t.value.id == SkipTokenParts(token)[0] && t.value.version == SkipTokenParts(token)[1]
  {
    var parts := SkipTokenParts(token);
    if |parts| == 2 then Some(SkipToken(parts[0], parts[1])) else None
  }

  /** The documented token form `'Id','Version'` reads back as that id and version. */
  lemma ParseSkipTokenQuoted(id: string, version: string)
    requires ',' !in id && ',' !in version
    requires Trimmed(id, {'\'', '"'}) && Trimmed(version, {'\'', '"'})
    ensures ParseSkipToken(Quoted(id) + [','] + Quoted(version)) == Some(SkipToken(id, version))
  {
    var token := Quoted(id) + [','] + Quoted(version);
    assert Join([Quoted(id), Quoted(version)], ',') == token;
    SplitJoin([Quoted(id), Quoted(version)], ',');
    QuotedStrips(id);
    QuotedStrips(version);
    SplitPieces(token, ',');
    UnquotedAt(Split(token, ','), 0);
    UnquotedAt(Split(token, ','), 1);
  }

  /** `'v'`. */
  function Quoted(v: string): string
  {
    ['\''] + v + ['\'']
  }

  /** A quoted value has no whitespace to strip, and its quotes strip off. */
  lemma QuotedStrips(v: string)
    requires Trimmed(v, {'\'', '"'})
    ensures Strip(Quoted(v)) == Quoted(v) && StripQuotes(Quoted(v)) == v
  {
    QuotedBare(v);
    QuotedUnquotes(v);
  }

  lemma QuotedBare(v: string)
    ensures Strip(Quoted(v)) == Quoted(v)
  {
    StripTrimmed(Quoted(v), Whitespace);
  }

  lemma QuotedUnquotes(v: string)
    requires Trimmed(v, {'\'', '"'})
    ensures StripQuotes(Quoted(v)) == v
  {
    StripPadded(['\''], v, ['\''], {'\'', '"'});
  }

  /** A row is the one a token names. */
  predicate Names(row: PackageRow, t: SkipToken)
  {
    row.id == t.id && row.version == t.version
  }

  /** rest is what follows the first row the token names, or all of rows when none does. */
  predicate SkippedPast(rows: seq<PackageRow>, t: SkipToken, rest: seq<PackageRow>)
  {
    && |rest| <= |rows| && rest == rows[|rows| - |rest|..]
    && (|rest| == |rows| ==> forall i :: 0 <= i < |rows| ==> !Names(rows[i], t))
    && (|rest| < |rows| ==>
          Names(rows[|rows| - |rest| - 1], t) && forall i :: 0 <= i < |rows| - |rest| - 1 ==> !Names(rows[i], t))
  }

  /** SkippedPast pins the rest down: there is one suffix that follows the first named row. */
  lemma SkippedPastUnique(rows: seq<PackageRow>, t: SkipToken, a: seq<PackageRow>, b: seq<PackageRow>)
    requires SkippedPast(rows, t, a) && SkippedPast(rows, t, b)
    ensures a == b
  {
  }

  /** The rows after the first one the token names: the whole list when none does. */
  method SkipPast(rows: seq<PackageRow>, t: SkipToken) returns (rest: seq<PackageRow>)
    ensures SkippedPast(rows, t, rest)
  {
    var i := 0;
    while i < |rows|
      invariant 0 <= i <= |rows|
      invariant forall j :: 0 <= j < i ==> !Names(rows[j], t)
    {
      if Names(rows[i], t) {
        return rows[i + 1..];
      }
      i := i + 1;
    }
    return rows;
  }

  /** The id a request asks for: the `id` parameter with every quote removed. */
  function RequestedId(params: map<string, string>): (id: string)
    requires "id" in params
    ensures '\'' !in id
  {
    RemoveChar(params["id"], '\'')
  }

  /** The token a request skips past, if it gives a non-empty `$skiptoken` of two pieces. */
  function RequestedSkip(params: map<string, string>): (t: Option<SkipToken>)
    ensures t.Some? <==> "$skiptoken" in params && multiset(params["$skiptoken"])[','] == 1
    ensures t.Some? ==> t.value.id == SkipTokenParts(params["$skiptoken"])[0]
    ensures t.Some? ==> t.value.version == SkipTokenParts(params["$skiptoken"])[1]
  {
    if "$skiptoken" in params && params["$skiptoken"] != [] then ParseSkipToken(params["$skiptoken"])
    else None
  }

  /** `FindPackagesById()` over a catalog in the order the view iterates its rows: the rows with
      the requested id, after the row the skip token names when there is one, or a bad request
      when no id is given. The feed is not rendered here, so the bad request a row's text can
      cause while rendering does not arise. */
  method FindPackagesById(catalog: seq<PackageRow>, params: map<string, string>)
    returns (r: Result<seq<PackageRow>, RequestError>)
    ensures r.Err? <==> "id" !in params
    ensures r.Ok? ==> forall k :: 0 <= k < |r.value| ==> r.value[k].id == RequestedId(params)
    ensures r.Ok? && RequestedSkip(params).None? ==> r.value == ById(catalog, RequestedId(params))
    ensures r.Ok? && RequestedSkip(params).Some? ==>
      SkippedPast(ById(catalog, RequestedId(params)), RequestedSkip(params).value, r.value)
  {
    if "id" !in params {
      return Err(BadRequest);
    }
    var rows := ById(catalog, RequestedId(params));
    var skip := RequestedSkip(params);
    if skip.Some? {
      var rest := SkipPast(rows, skip.value);
      assert forall k :: 0 <= k < |rest| ==> rest[k] == rows[|rows| - |rest| + k];
      return Ok(rest);
    }
    return Ok(rows);
  }
}
