/** The text normalisation a package upload applies to the fields of its nuspec: which column each
    field fills and how, tags and authors split into names, flags read as booleans, and the
    version text split into its numeric components. */
module Upload {
  import opened Results
  import opened PyStr

  /** The nuspec fields read from an upload and the package columns they fill. */
  const NuspecFieldMappings: map<string, string> := map[
    "authors" := "authors", "description" := "description", "id" := "nuget_id",
    "projectUrl" := "project_url", "requireLicenseAcceptance" := "require_license_acceptance",
    "packageSourceUrl" := "source_url", "summary" := "summary", "tags" := "tags",
    "title" := "title", "version" := "version"]

  /** No two nuspec fields fill the same column. */
  lemma NuspecColumnsDistinct(a: string, b: string)
    requires a in NuspecFieldMappings && b in NuspecFieldMappings && a != b
    ensures NuspecFieldMappings[a] != NuspecFieldMappings[b]
  {
  }

  /** How a package column is stored: a many-to-many relation, a boolean, or a plain value. */
  datatype ColumnKind = ManyToMany | Boolean | Plain

  /** The internal type names the Package model declares for the columns a nuspec field fills.
      A URL field is stored as a CharField. */
  const PackageFieldTypes: map<string, string> := map[
    "authors" := "ManyToManyField", "description" := "TextField", "nuget_id" := "CharField",
    "project_url" := "CharField", "require_license_acceptance" := "BooleanField",
    "source_url" := "CharField", "summary" := "TextField", "tags" := "ManyToManyField",
    "title" := "CharField", "version" := "CharField"]

  /** How the upload stores a column, read off its internal type: a column that is not a field
      of the model is handled like a relation. */
  function KindOf(col: string): ColumnKind
  {
    if col !in PackageFieldTypes || PackageFieldTypes[col] == "ManyToManyField" then ManyToMany
    else if PackageFieldTypes[col] == "BooleanField" then Boolean
    else Plain
  }

  /** Every nuspec field fills a column of the model; tags and authors are its relations and
      the licence flag its one boolean. */
  lemma NuspecKinds(key: string)
    requires key in NuspecFieldMappings
    ensures NuspecFieldMappings[key] in PackageFieldTypes
    ensures KindOf(NuspecFieldMappings[key]) == ManyToMany <==> key == "tags" || key == "authors"
    ensures KindOf(NuspecFieldMappings[key]) == Boolean <==> key == "requireLicenseAcceptance"
    ensures key == "tags" || key == "authors" ==> NuspecFieldMappings[key] == key
  {
  }

  /** What a non-empty nuspec field sets on the new package. */
  datatype ColumnValue = TagList(tags: seq<string>) | AuthorList(authors: seq<string>) | Flag(b: bool) | Text(s: string)

  /** The tag names of a tags field: its pieces between whitespace runs, each stripped. */
  function TagNames(value: string): (names: seq<string>)
    ensures |names| == |SplitRuns(value)|
  {
    StripAll(SplitRuns(value))
  }

  /** Each text stripped of surrounding whitespace. */
  function StripAll(texts: seq<string>): (r: seq<string>)
    ensures |r| == |texts|
  {
    if texts == [] then [] else [Strip(texts[0])] + StripAll(texts[1..])
  }

  lemma {:induction false} StripAllAt(texts: seq<string>, k: nat)
    requires k < |texts|
    ensures StripAll(texts)[k] == Strip(texts[k])
    decreases k
  {
    if k > 0 {
      StripAllAt(texts[1..], k - 1);
    }
  }

  /** Stripping the pieces of a whitespace split changes nothing: they hold no whitespace. */
  lemma {:induction false} StripAllFree(texts: seq<string>)
    requires forall k :: 0 <= k < |texts| ==> Free(texts[k], Whitespace)
    ensures StripAll(texts) == texts
    decreases |texts|
  {
    if texts != [] {
      StripFree(texts[0]);
      StripAllFree(texts[1..]);
      assert [texts[0]] + texts[1..] == texts;
    }
  }

  /** The tag names are the pieces between whitespace runs. */
  lemma TagNamesPieces(value: string)
    ensures TagNames(value) == SplitRuns(value)
  {
    SplitRunsPieces(value);
    StripAllFree(SplitRuns(value));
  }

  /** Tags written with any whitespace between them read back as the same tags. */
  lemma TagNamesSpaced(tags: seq<string>, gaps: seq<string>)
    requires |tags| > 0 && |gaps| == |tags| - 1
    requires forall k :: 0 <= k < |tags| ==> tags[k] != [] && Free(tags[k], Whitespace)
    requires forall k :: 0 <= k < |gaps| ==> gaps[k] != [] && Within(gaps[k], Whitespace)
    ensures TagNames(Spaced(tags, gaps)) == tags
  {
    SplitRunsSpaced(tags, gaps);
    TagNamesPieces(Spaced(tags, gaps));
  }

  /** The author names of an authors field: its comma-separated pieces, each stripped. */
  function AuthorNames(value: string): (names: seq<string>)
    ensures |names| == multiset(value)[','] + 1
  {
    SplitPieces(value, ',');
    StripAll(Split(value, ','))
  }

  /** Each author name is free of commas and of whitespace at either end. */
  lemma AuthorNamesTrimmed(value: string, k: nat)
    requires k < |AuthorNames(value)|
    ensures ',' !in AuthorNames(value)[k] && Trimmed(AuthorNames(value)[k], Whitespace)
  {
    SplitPieces(value, ',');
    StripAllAt(Split(value, ','), k);
    StripKeeps(Split(value, ',')[k], Whitespace, ',');
  }

  /** Authors joined by commas, each with any whitespace around it, read back as themselves. */
  lemma AuthorNamesJoined(names: seq<string>, padded: seq<string>)
    requires |names| > 0 && |padded| == |names|
    requires forall k :: 0 <= k < |names| ==> ',' !in padded[k] && Strip(padded[k]) == names[k]
    ensures AuthorNames(Join(padded, ',')) == names
  {
    SplitJoin(padded, ',');
    forall k | 0 <= k < |names|
      ensures AuthorNames(Join(padded, ','))[k] == names[k]
    {
      StripAllAt(padded, k);
    }
  }

  /** A boolean field is true when its lower-cased text is `true`. */
  function BoolFlag(value: string): (b: bool)
    ensures b <==> |value| == 4 && forall k :: 0 <= k < 4 ==> value[k] == "true"[k] || value[k] == "TRUE"[k]
  {
    var low := Lower(value);
    assert |value| == 4 ==> (low == "true" <==> forall k :: 0 <= k < 4 ==> low[k] == "true"[k]);
    low == "true"
  }

  /** What a nuspec field's text sets on the package column it fills: nothing for an empty
      text, tag or author names for the two relations, a flag for the boolean column, and the
      text itself for any other column. */
  function ColumnValueOf(col: string, value: string): (v: Option<ColumnValue>)
    ensures v.None? <==> value == [] || (KindOf(col) == ManyToMany && col != "tags" && col != "authors")
    ensures v.Some? && KindOf(col) == Plain ==> v.value == Text(value)
    ensures v.Some? && KindOf(col) == Boolean ==> v.value == Flag(BoolFlag(value))
    ensures v.Some? && col == "tags" ==> v.value == TagList(SplitRuns(value))
    ensures v.Some? && col == "authors" ==> v.value == AuthorList(AuthorNames(value))
  {
    if value == [] then None
    else
      match KindOf(col)
      case ManyToMany =>
        if col == "tags" then
          TagNamesPieces(value);
          Some(TagList(TagNames(value)))
        else if col == "authors" then Some(AuthorList(AuthorNames(value)))
        else None
      case Boolean => Some(Flag(BoolFlag(value)))
      case Plain => Some(Text(value))
  }

  /** Every column a nuspec field fills is set by ColumnValueOf whenever the field has text. */
  lemma NuspecColumnsSet(key: string, value: string)
    requires key in NuspecFieldMappings && value != []
    ensures ColumnValueOf(NuspecFieldMappings[key], value).Some?
  {
    NuspecKinds(key);
  }

  /** The numeric components of a version: the first two always, the third and fourth when
      the version has them. */
  datatype Version = Version(v0: nat, v1: nat, v2: Option<nat>, v3: Option<nat>)

  datatype VersionError = TooFewComponents

  /** The version components split at dots, as integers. A version with one component fails,
      which the upload does not catch. */
  function SplitVersion(version: string): (r: Result<Version, VersionError>)
    requires forall k :: 0 <= k < |Split(version, '.')| && k < 4 ==> IsDigits(Split(version, '.')[k])
    ensures r.Err? <==> '.' !in version
    ensures r.Ok? ==> (r.value.v2.Some? <==> multiset(version)['.'] >= 2)
    ensures r.Ok? ==> (r.value.v3.Some? <==> multiset(version)['.'] >= 3)
  {
    var parts := Split(version, '.');
    SplitPieces(version, '.');
    if |parts| < 2 then Err(TooFewComponents)
    else
      assert IsDigits(parts[0]) && IsDigits(parts[1]);
      assert |parts| > 2 ==> IsDigits(parts[2]);
      assert |parts| > 3 ==> IsDigits(parts[3]);
      Ok(Version(
        DecimalValue(parts[0]),
        DecimalValue(parts[1]),
        if |parts| > 2 then Some(DecimalValue(parts[2])) else None,
        if |parts| > 3 then Some(DecimalValue(parts[3])) else None))
  }

  /** The decimal texts of some numbers, each without leading zeros. */
  function Decimals(ns: seq<nat>): (ds: seq<string>)
    ensures |ds| == |ns|
  {
    if ns == [] then [] else [Decimal(ns[0])] + Decimals(ns[1..])
  }

  lemma {:induction false} DecimalsAt(ns: seq<nat>, k: nat)
    requires k < |ns|
    ensures Decimals(ns)[k] == Decimal(ns[k])
    decreases k
  {
    if k > 0 {
      DecimalsAt(ns[1..], k - 1);
    }
  }

  /** A version written as dotted numbers splits back into those numbers, the components past
      the fourth ignored; a single number is too few. */
  lemma SplitVersionDotted(ns: seq<nat>)
    requires |ns| > 0
    ensures forall k :: 0 <= k < |Split(Join(Decimals(ns), '.'), '.')| && k < 4 ==>
      IsDigits(Split(Join(Decimals(ns), '.'), '.')[k])
    ensures |ns| == 1 ==> SplitVersion(Join(Decimals(ns), '.')) == Err(TooFewComponents)
    ensures |ns| >= 2 ==> SplitVersion(Join(Decimals(ns), '.')) == Ok(Version(ns[0], ns[1],
      if |ns| > 2 then Some(ns[2]) else None, if |ns| > 3 then Some(ns[3]) else None))
  {
    var ds := Decimals(ns);
    forall k | 0 <= k < |ds|
      ensures '.' !in ds[k] && IsDigits(ds[k]) && DecimalValue(ds[k]) == ns[k]
    {
      DecimalsAt(ns, k);
      DecimalValueOf(ns[k]);
    }
    SplitJoin(ds, '.');
    SplitPieces(Join(ds, '.'), '.');
  }
}
