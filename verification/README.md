# minchoc `$filter` engine and feed helpers in Dafny

minchoc is a small NuGet/Chocolatey package gallery. Its feed answers `Packages()` with an
OData `$filter` query option, of which it understands the subset package clients send:
`substringof`, `tolower`, `eq`/`ne` against `null` or a quoted string, `IsLatestVersion`,
`and`, `or` and parentheses. This project models that engine and the pure text steps of the
views around it, and proves what they do.

The model has five layers:

- **Tokenizer** (`FilterLex`, from `minchoc/filterlex.py`). This is the two-state scanner.
  - INITIAL reads the fixed-text rules: `Description|Id|Tags`, the keywords and the punctuation. It skips spaces, and a `'` opens a string.
  - The `string` state ends at the next quote that is not part of a `\'` pair.
  - Characters no rule matches are dropped one at a time, so lexing never fails.
  - `Lex` is a pure function. Each token keeps the scanner position just after it, which is what a syntax error reports.
- **Grammar actions** (`FilterYacc`, from `minchoc/filteryacc.py`).
  - The expression tree has two counterparts in the source: the grammar's productions and the operand values the actions pass around (a field reference, a literal, the null marker or a predicate).
  - A bare field stands for the condition "column is None", and `null` for the condition "rhs is null". Both combine with `and`/`or` like any other condition.
  - `Lower` runs the actions bottom-up. It fails with `InvalidTypeForEq` where the source raises it for an operand that is not an `and`/`or`. It also models the Python errors an action raises when it meets a string where it needs a condition: `AttributeError`, `AssertionError` and `TypeError`.
  - eq, ne and substringof read the key of the first condition of their operand. The model follows a column's key (a field, `tolower(F)` or an equality on them) for all three. It follows a containment's key (`substringof`) for eq and ne, which compare it with a string or test it for null.
  - The model answers `Unsupported` in two kinds of case. The first is an operand that is an `and`/`or`: what the source builds then depends on how the query library flattens its children. The second is any other key:
    - The latest flag's key is `is_latest_version`, a boolean Package column outside the field table, and the source builds ordinary lookups on it.
    - The keys of `null` (`rhs__isnull`) and of the null tests (`nuget_id__isnull` and the like) give lookups the query rejects, for one of three reasons:
      - `rhs` is not a Package field;
      - a key such as `nuget_id__isnull__isnull` puts a lookup after a lookup;
      - `isnull` takes only a boolean, so `nuget_id__isnull='x'` fails (Django 4.0 and later raise ValueError).
- **Parser** (`FilterParse`). This models the behaviour of the LALR tables PLY builds from that grammar.
  - No precedence is declared, and shift wins every conflict, so `a op b op c` groups to the right.
  - A primary is reduced, and its action run, only when the next token is `)`, an operator or the end of input. Any other token is a `GenericSyntaxError` carrying that token's end position and value.
  - Running out of input where a token is required calls the error handler with no token. That fails with an error that is not a syntax error, modelled as `UnexpectedEnd`.
  - The parser is proved both sound and complete against the tree and `Lower`.
- **The whole filter** (`Filter`, `Written`). Parsing a text gives exactly the lowering of the tree its tokens spell. A text whose whole value is a string literal parses to that string. This gives two round trips:
  - every predicate the grammar can express, printed with any spacing, parses back to itself;
  - the conventional text of any well-formed tree parses to that tree's outcome.
- **View helpers** (`Views`, `Upload`, `PyStr`, from `minchoc/views.py`). These cover:
  - the `$orderby` column;
  - what `Packages()` makes of `$filter`;
  - `FindPackagesById()`'s id clean-up, `$skiptoken` split and suffix selection;
  - the nuspec field normalisation of an upload: tags, authors, boolean flags and the version split.

  The Python string methods these steps use are modelled in `PyStr`: `strip`, `split`, `re.split(r'\s+')`, `lower`, `replace` and `int` on digit strings.

`Examples` works through the filters and requests the repository's own tests use.

Behaviour of the code worth knowing:

- A `\'` pair inside a string stays in the value verbatim, because the value is a slice of the input. It is not dropped.
- Operator chains group to the right, not to the left.
- `ne` against a literal yields the same equality predicate as `eq`. There is no not-equals branch.
- The error for a condition as the right operand of `eq`/`ne` is `InvalidTypeForEq`. The null condition is the exception: it reads as a null test.
- `(Id eq 'x') eq 'y'` is `Id eq 'y'`, and `substringof('x', Id eq 'y')` is a containment test on the id. An equality keeps the key of its column, and the second action reads that key. In the same way `substringof('x', Id) eq null` tests the key `nuget_id__contains` for null.
- An empty `$filter` does not reach the parser: the view hands an empty dict to the query instead.
- There is no numeric literal: the lexer has no rule for digits, so they are dropped.
- An unmapped field name is not a FIELD token, and the scanner drops its characters one at a time. Any rule text inside the name still matches, so `PackageId eq 'x'` reads as `Id eq 'x'`.
- The order of the lexer's rules is immaterial, because no rule text is a prefix of another.

## Model

| member | source | states |
|---|---|---|
| FilterLex.RulesTable | minchoc/filterlex.py:12-26 | The scanner's rule table holds exactly the fixed-text rules: FIELD is one of `Description`, `Id`, `Tags`, and every other kind but STRING is its own keyword or punctuation text. |
| FilterLex.RuleTextsPrefixFree | minchoc/filterlex.py:15-26 | No rule's text is a prefix of another's, so trying the rules longest regex first picks the same rule as any other order (`null` is never read as `ne`). |
| FilterLex.SameRule | minchoc/filterlex.py:15-26 | Two rules whose texts both occur at one position are the same rule. |
| FilterLex.RuleAtMatch | minchoc/filterlex.py:15-26 | Wherever a rule's text occurs, case-sensitively and with no word boundary, the scanner matches that rule there. |
| FilterLex.RuleStep | minchoc/filterlex.py:15-26 | A rule's text at position i is emitted as one token of that kind and value ending right after the text. |
| FilterLex.ScanString | minchoc/filterlex.py:42-58 | The string state stops at the first quote that is the body's first character or does not follow a backslash. It stays open when there is no such quote. |
| FilterLex.StepOpen | minchoc/filterlex.py:36-53 | A quote followed by a first unescaped quote gives one STRING token. Its value is the raw text between the two, escapes included, and it ends after the closing quote. |
| FilterLex.StringLexemeStep | minchoc/filterlex.py:36-53 | A quoted body that the string state reads to its own end is emitted as one STRING token holding the body. |
| FilterLex.UnterminatedString | minchoc/filterlex.py:36-39 | A quote with no unescaped quote after it ends the scan: nothing from it on becomes a token. |
| FilterLex.SkipSpaces | minchoc/filterlex.py:28 | Any run of spaces is skipped. |
| FilterLex.DroppedRun | minchoc/filterlex.py:32-33 | A run of characters with no quote, none of which starts a rule's text, yields no token, so an unquoted word without a keyword in it vanishes. |
| FilterLex.UnknownDropped | minchoc/filterlex.py:32-33 | A character that is neither a quote nor a rule's first character (a tab, a newline, a digit) is dropped. |
| FilterLex.Step | minchoc/filterlex.py:28-58 | Every token a scan step emits ends after the position it started from. |
| FilterLex.Lex | minchoc/filterlex.py:28-61 | Every token is scanned from the text (a rule's text just before its end, or a string's raw body), in increasing position order, so there are never more tokens than characters. |
| FilterLex.LexScanned | minchoc/filterlex.py:28-58 | By induction over the scan, the tokens after any position are scanned from the text in order and number at most the characters left. |
| FilterLex.LexSpelled | minchoc/filterlex.py:12-58 | Lexing the text of any sequence of readable lexemes, written with any number of spaces after each, gives those lexemes back. |
| FilterYacc.FieldMappingColumns | minchoc/filteryacc.py:18 | The field table maps Description, Id and Tags to three distinct columns, and FieldName inverts it. |
| FilterYacc.OpAction | minchoc/filteryacc.py:67-91 | `and`/`or` combine the conditions of two operands. A string on the right fails the assertion, and one on the left fails with TypeError. `eq`/`ne` on a string fail with AttributeError. With a column key on the left, against null or `'null'` they give a null test (true for `eq`), and against another literal an equality for both operators. With a containment key, against null they give a null test on that key, and against another literal a containment on that literal. In the model, InvalidTypeForEq is the answer exactly when a keyed left operand meets a right condition that is neither null nor an `and`/`or`. The `and`/`or` right side is listed under Left out. |
| FilterYacc.Lower | minchoc/filteryacc.py:26-120 | Running the actions never fails with a parser error, only with an action's error, and every column in the result is one of the mapped columns. |
| FilterYacc.KindOp | minchoc/filteryacc.py:67-71 | Exactly the tokens `and`, `or`, `eq` and `ne` are binary operators. |
| FilterParse.ParseToLower | minchoc/filteryacc.py:46-51 | `tolower ( FIELD )` spans four tokens and builds a ToLower tree, followed by a token that allows the reduction. |
| FilterParse.ParseSubstringOf | minchoc/filteryacc.py:32-43 | `substringof ( STRING , e )` spans more than five tokens and builds a SubstringOf tree. |
| FilterParse.ParseParen | minchoc/filteryacc.py:26-29 | `( e )` builds a Paren tree around the inner expression. |
| FilterParse.ParsePrimary | minchoc/filteryacc.py:107-120 | A primary is never a chain and is followed by the end or by a token that allows its reduction. |
| FilterParse.ParseExpr | minchoc/filteryacc.py:67-71 | An expression consumes at least one token and is followed by the end or by `)`. |
| FilterParse.ParseExprSound | minchoc/filteryacc.py:26-120 | Any expression the parser accepts is well formed, its lexemes are exactly the tokens it spans, and its lowering is the value the parser computed. |
| FilterParse.ParseExprComplete | minchoc/filteryacc.py:26-120 | Tokens that spell a well-formed tree, followed by the end or `)`, parse to exactly that tree's lowering outcome, error included. |
| FilterParse.ParseTree | minchoc/filteryacc.py:123-127 | A whole parse that succeeds consumes every token. |
| FilterParse.ParseTreeSound | minchoc/filteryacc.py:26-127 | An accepted token sequence spells the accepted tree exactly, and the value is that tree's lowering. |
| FilterParse.ParseTreeComplete | minchoc/filteryacc.py:26-127 | Tokens spelling any well-formed tree parse to that tree's lowering outcome. |
| FilterParse.ParseTreeErrFrom | minchoc/filteryacc.py:102-104 | Every syntax error carries the end position and value of one of the input's tokens. |
| Filter.LexRuleTokens | minchoc/filterlex.py:12-26 | Every non-string token the scanner produces carries a rule's text. |
| Filter.MatchesLexemes | minchoc/filterlex.py:12-13 | Tokens match a lexeme sequence from the start and have its length exactly when their lexemes are that sequence. |
| Filter.ParseText | minchoc/filteryacc.py:127-128 | A parsed text's tokens spell a well-formed tree whose lowering is the result. A failure is a syntax error at one of its tokens, or a non-syntax error. |
| Filter.ParseFilter | minchoc/filteryacc.py:127-128 | A filter parses exactly when its text does. A condition value gives the condition, with mapped columns. A string value gives that string. An error is passed on unchanged. |
| Filter.FieldExpr | minchoc/filteryacc.py:46-59 | Every column has a bare and a `tolower` field form lowering to the matching case-sensitive or case-insensitive reference. |
| Filter.ChainedLowers | minchoc/filteryacc.py:77-82 | Two parenthesised expressions joined by `and`/`or` lower to And/Or of their conditions. |
| Filter.PrintLowers | minchoc/filteryacc.py:26-120 | Every condition the grammar can express, including a bare field, `null`, a null test on a lower-cased field and a null test on a containment, has a well-formed tree whose value stands for it. |
| Filter.PrintSpellable | minchoc/filterlex.py:36-53 | That tree's lexemes can all be written as text that lexes back to them. |
| Filter.ParseSpelled | minchoc/filteryacc.py:127-128 | A well-formed tree written out with any spacing parses to its lowering outcome. |
| Filter.ParseFilterText | minchoc/filteryacc.py:127-128 | Round trip: every expressible condition, printed with any spacing, parses back to itself. |
| Written.PlainQuotable | minchoc/filterlex.py:42-53 | A value with no quote that does not end in a backslash can be written between quotes and read back. |
| Written.TextSpelled | minchoc/filterlex.py:28 | The conventional text of a tree is its lexemes spelled with one space around each operator and none elsewhere. |
| Written.UnparseSpellable | minchoc/filterlex.py:36-53 | Every lexeme of a tree whose strings are quotable can be written and read back. |
| Written.ParseWritten | minchoc/filteryacc.py:127-128 | The conventional text of any well-formed tree with quotable strings parses to that tree's outcome. |
| PyStr.StripChars | minchoc/views.py:105 | `strip(cs)` leaves no character of cs at either end. |
| PyStr.StripCharsSlice | minchoc/views.py:105 | `strip(cs)` is a slice of the text with only characters of cs removed before and after it. |
| PyStr.StripPadded | minchoc/views.py:105 | Stripping padding made of cs off a text already trimmed of cs gives that text. |
| PyStr.SplitPieces | minchoc/views.py:282 | `split(c)` gives one more piece than there are separators, none containing the separator. |
| PyStr.JoinSplit | minchoc/views.py:282 | Joining the pieces of `split(c)` with c gives the text back. |
| PyStr.SplitJoin | minchoc/views.py:282 | Splitting pieces joined by c, none containing c, gives the pieces back. |
| PyStr.SplitRunsPieces | minchoc/views.py:276 | `re.split(r'\s+')` pieces contain no whitespace, and only the first and last can be empty, each only when the text starts or ends with whitespace. |
| PyStr.SplitRunsSpaced | minchoc/views.py:276 | Words joined by any non-empty whitespace runs split back into those words. |
| PyStr.Lower | minchoc/views.py:290 | `lower` on ASCII letters only: upper-case ASCII letters map to lower case, and every other character is kept. |
| PyStr.LowerIdempotent | minchoc/views.py:290 | Lower-casing twice is lower-casing once. |
| PyStr.LowerFixed | minchoc/views.py:290 | A text is unchanged by lower-casing exactly when it has no upper-case ASCII letter. |
| PyStr.LowerConcat | minchoc/views.py:290 | Lower-casing distributes over concatenation. |
| PyStr.RemoveChar | minchoc/views.py:100 | `replace(c, '')` leaves no c and keeps the count of every other character. |
| PyStr.RemoveCharConcat | minchoc/views.py:100 | Removal keeps the order of what stays: it distributes over concatenation. |
| PyStr.DecimalValueOf | minchoc/views.py:294-298 | `int` of the decimal text of a number is that number. |
| Views.OrderColumn | minchoc/views.py:149-151 | The order column is always a mapped column. It is the field's column when `$orderby` names a field, and nuget_id otherwise. |
| Views.OrderColumnField | minchoc/views.py:150-151 | Ordering by a field's name orders by its column. |
| Views.PackagesFilter | minchoc/views.py:158-161 | An absent or empty filter skips the parser. Otherwise the parsed condition or string is handed to the query. Only a syntax error becomes the invalid-filter answer. A shape the model leaves to the query library is marked as such. InvalidTypeForEq and the other errors escape. |
| Views.PackagesFilterText | minchoc/views.py:158-159 | Every expressible predicate, sent as a filter with any spacing, is the predicate `Packages()` applies. |
| Views.ById | minchoc/views.py:101 | The rows for an id are exactly the catalog's rows with that id. |
| Views.ByIdConcat | minchoc/views.py:101 | Selecting by id keeps catalog order: it distributes over concatenation. |
| Views.SkipTokenParts | minchoc/views.py:105 | A skip token has one more piece than it has commas. |
| Views.SkipTokenPieces | minchoc/views.py:105 | Each piece has no comma and no quote at either end. |
| Views.ParseSkipToken | minchoc/views.py:105-108 | A skip token is used exactly when it has one comma, and it names its two pieces. |
| Views.ParseSkipTokenQuoted | minchoc/views.py:92-93 | The documented form `'Id','Version'` reads back as that id and version. |
| Views.SkippedPastUnique | minchoc/views.py:114-121 | Only one suffix is what follows the first named row. |
| Views.SkipPast | minchoc/views.py:114-121 | The result is the suffix after the first row the token names, or the whole list when no row matches. |
| Views.RequestedId | minchoc/views.py:100 | The requested id has no quote left in it. |
| Views.RequestedSkip | minchoc/views.py:102-108 | A request skips past a token exactly when its `$skiptoken` has one comma, and the token names the two pieces. |
| Views.FindPackagesById | minchoc/views.py:99-135 | Without an id the answer is a bad request, and a missing id is the only bad request modelled; the one rendering can raise is listed under Left out. Otherwise every row has the requested id. Without a usable skip token the answer is all of that id's rows. With one, it is the suffix after the named row. |
| Upload.TagNames | minchoc/views.py:276 | There is one tag name per whitespace-separated piece. |
| Upload.TagNamesPieces | minchoc/views.py:276 | The tag names are exactly the pieces between whitespace runs. |
| Upload.TagNamesSpaced | minchoc/views.py:276 | Tags written with any whitespace between them read back as those tags. |
| Upload.AuthorNames | minchoc/views.py:282 | There is one author name per comma-separated piece. |
| Upload.AuthorNamesTrimmed | minchoc/views.py:282 | Each author name has no comma and no whitespace at either end. |
| Upload.AuthorNamesJoined | minchoc/views.py:282 | Authors joined by commas, each with whitespace around it, read back as those authors. |
| Upload.BoolFlag | minchoc/views.py:290 | A flag is true exactly when its text is `true` in any mix of cases. |
| Upload.NuspecColumnsDistinct | minchoc/views.py:46-57 | The nuspec field table sends no two fields to the same column. |
| Upload.NuspecKinds | minchoc/views.py:268-289 | Every nuspec field fills a column of the model. Exactly tags and authors are stored as relations, and exactly the licence flag as a boolean. |
| Upload.NuspecColumnsSet | minchoc/views.py:265-292 | Every nuspec field that has text sets the column it fills. |
| Upload.ColumnValueOf | minchoc/views.py:265-292 | An empty field sets nothing, and neither does a relation other than tags and authors. Otherwise: tags set the whitespace-separated pieces, authors their author names, the boolean column its flag, and any other column the text itself. |
| Upload.SplitVersion | minchoc/views.py:293-300 | A version without a dot fails. Otherwise the third and fourth components are present exactly when there are at least two and three dots. |
| Upload.SplitVersionDotted | minchoc/views.py:293-300 | Dotted numbers split back into those numbers, past the fourth ignored, and a single number is too few. |
| Examples.ChocolateySearch | tests/test_parser.py:15-44 | The Chocolatey client's search for `cat` lowers to (Id, Description or Tags set and containing the term, ignoring case) and IsLatest. |
| Examples.SubstringOfField | minchoc/filteryacc.py:32-43 | `substringof('S',F)` on a bare field is a case-sensitive containment test on F's column. |
| Examples.SubstringOfWithoutLower | tests/test_parser.py:52-56 | `substringof('cat',Id)` is a case-sensitive containment on nuget_id. |
| Examples.FieldComparedWithField | minchoc/filteryacc.py:84-90 | A field compared with a field by `eq` or `ne` fails with InvalidTypeForEq. |
| Examples.FieldEqualsField | tests/test_parser.py:47-49 | `Id eq Description` fails with InvalidTypeForEq. |
| Examples.FieldAndLatest | minchoc/filteryacc.py:54-82 | `F and IsLatestVersion` is the latest versions whose column is None. |
| Examples.LoneLeaves | minchoc/filteryacc.py:54-120 | A field alone is the "column is None" condition, and `null` alone is the "rhs is null" condition. |
| Examples.LoneString | minchoc/filteryacc.py:94-99 | A string alone parses to the string itself. |
| Examples.StringOnRight | minchoc/filteryacc.py:77-82 | A string on the right of `and`/`or` fails the assertion. |
| Examples.StringOnLeft | minchoc/filteryacc.py:77-82 | A string on the left of `and`/`or` fails with TypeError. |
| Examples.StringCompared | minchoc/filteryacc.py:84 | A string compared by `eq` fails with AttributeError. |
| Examples.SubstringOfString | minchoc/filteryacc.py:38 | `substringof` over a string fails with AttributeError. |
| Examples.EqualityCompared | minchoc/filteryacc.py:84-91 | `(F eq 'x') eq 'y'` is `F eq 'y'`. |
| Examples.ContainmentComparedWithNull | minchoc/filteryacc.py:84-87 | `substringof(S,F) eq null` is the null test on the key of F's containment, case-sensitive. |
| Examples.LatestNamedParses | minchoc/filteryacc.py:84-91 | `(tolower(F) eq 'V') and IsLatestVersion` selects the latest versions whose column equals V, ignoring case. |
| Examples.LatestSomename | tests/test_workflow.py:216-221 | The workflow's filter `(tolower(Id) eq 'somename') and IsLatestVersion` is applied as that predicate. |
| Examples.BareWordAfterEq | tests/test_workflow.py:21-24 | With the bare word dropped, the parser reports the `)` after `eq` at position 25. |
| Examples.EscapedQuoteKept | minchoc/filterlex.py:42-49 | `'a\'b'` is one STRING whose value keeps the backslash and the quote. |
| Examples.DoubleBackslash | minchoc/filterlex.py:42-53 | In `'a\\'b'` the second backslash escapes the quote, and the last quote closes the string. |
| Examples.OpenStringDropped | minchoc/filterlex.py:36-39 | A string that is never closed yields no token. |
| Examples.OrderByExamples | minchoc/views.py:149-151 | `$orderby=id` is not a field name, so ordering is by nuget_id; `Description` orders by description. |
| Examples.EmptyFilter | minchoc/views.py:159 | An empty `$filter` is not parsed. |
| Examples.FindSomename | tests/test_workflow.py:212 | `FindPackagesById()?semVerLevel=2.0.0&id=somename` lists exactly the rows of somename. |
| Examples.FindWithoutId | tests/test_workflow.py:134-136 | `FindPackagesById()` without an id is a bad request. |
| Examples.NuspecTags | tests/test_workflow.py:183 | The nuspec tags `tag1 tag2` become the tags tag1 and tag2. |
| Examples.NuspecFlags | tests/test_workflow.py:179 | `requireLicenseAcceptance` of `false` is false, and `True` is true. |
| Examples.NuspecVersion | tests/test_workflow.py:175 | The version `1.0.2` has components 1, 0 and 2, and no fourth. |
| Examples.SkipTokenExample | minchoc/views.py:102-108 | The token `'somename','1.0.2'` names that version of somename. |

## Left out

- Query objects and the database are not modelled. The model builds a typed condition tree and does not evaluate Django `Q` objects, their child flattening or the query against a catalog. And/Or are binary here, where the query library flattens nested conditions with the same connector.
- Views.PackagesFilter: what the query makes of the value handed to it is not modelled. That covers the empty dict of an absent filter, a string value, and a condition it rejects at query time.
- FilterYacc.OpAction: answers `Unsupported` in two cases.
  - `eq`/`ne` with an `and`/`or` on either side. The source reads the first flattened child of that side. A first child that is itself a nested condition is not subscriptable, so on either side the action fails with TypeError; `Id eq ((Id or Id) and Id)` is an example. On the left, a first child that has a key gives a lookup on that key. On the right, such a child reads as null when its key is rhs__isnull, and as InvalidTypeForEq otherwise.
  - A left condition whose key is neither a column's nor a containment's. For the latest flag the source builds ordinary lookups on the boolean column `is_latest_version`: `IsLatestVersion eq null` gives `is_latest_version__isnull`, and `IsLatestVersion eq 'x'` gives `is_latest_version='x'`. The model's conditions range over the field table's columns only. For the null condition and the null tests, the query rejects the lookups the source builds, for one of three reasons:
    - `rhs` is not a Package field: `null eq null` gives `rhs__isnull__isnull`, and `null eq 'x'` gives `rhs__isnull='x'`.
    - A lookup follows a lookup: `(Id eq null) eq null` gives `nuget_id__isnull__isnull`, and `(substringof('s',Id) eq null) eq null` gives `nuget_id__contains__isnull__isnull`.
    - `isnull` takes only a boolean: `(Id eq null) eq 'x'` gives `nuget_id__isnull='x'`, which Django 4.0 and later reject with ValueError.
- FilterYacc.SubstringOfAction: answers `Unsupported` over an `and`/`or`, or over a condition whose key is not a column's. In the source it builds a containment lookup on whatever key the first flattened child has. On the latest flag that is `is_latest_version__contains`, a lookup on the boolean column. On a containment or a null test it is a lookup after a lookup, such as `nuget_id__contains__contains` or `nuget_id__isnull__contains`. On the null condition it is `rhs__isnull__contains`, on a field Package does not have. The query rejects all of these.
- Filter.ParseFilter and Views.PackagesFilter: inherit the `Unsupported` answers above, which stand for a value the model does not describe.
- `Packages()` ordering, the twenty-row page and the ignored `$skip`, `$top` and `semVerLevel` are not modelled: they are database and response concerns.
- HTTP routing, status codes other than the modelled bad requests, feed XML rendering, timestamps, `packages_with_args` and `fetch_package_file` are left out: they are templating, I/O and database access.
- Upload.KindOf: reads the column types from a table of the ten columns the nuspec fields fill, copied from the Package model (`minchoc/models.py`), not from the model's field registry.
- Several parts of the upload are left out as foreign library calls and I/O. These are multipart parsing, zip handling, XML parsing, temporary files, authentication, `get_or_create` of tags and authors, and the save. Reading each nuspec field's text (`tag_text_or`) is also left out: the model starts from each field's text.
- The lexer and parser are not modelled as the module-level singletons they are, which keep state between calls. Every lex starts in INITIAL. The line counter the string rule updates is not modelled either, since nothing reads it.
- Views.FindPackagesById: the catalog it takes stands for the rows whose id matches, in the order the view iterates them. The database decides that order. With a two-piece `$skiptoken` the view orders by the version column. That column is text, so `1.10.0` comes before `1.9.0`. Without a token, or with a malformed one, no order is requested, and the Package model declares no default ordering.
- Views.FindPackagesById: the only bad request modelled is a missing `id`. The view's `except KeyError` also covers rendering the feed. That step %-formats a template into which each row's own text is copied (`minchoc/utils.py`), such as its id, version, title and description. A returned row whose text holds a `%(name)s` key other than the template's own therefore also gives a bad request, although an id was given. Any other `%` in that text is read as a format directive too. Rendering is not modelled.
- Upload.SplitVersion: requires the first four dot components to be digit strings, so `int()`'s acceptance of signs, underscores and surrounding whitespace, and its failure on other text, are not modelled.
- PyStr.Lower: lower-cases ASCII letters only. Python's `str.lower` also maps letters of other scripts, which the model keeps unchanged; Upload.BoolFlag reads its flag through this ASCII-only lower-casing.
- Examples.ChocolateySearch: states the filter as the conventional text of its tree (`Written.Text`) rather than as the literal string. The lemma's comment quotes the text the tree is written to print as, which is the test's filter; that the two are equal character for character is not proved.
- Examples.BareWordAfterEq: is stated on the token sequence the scanner produces for `(tolower(Id) eq somename) and IsLatestVersion`, not on the text. That the word vanishes is the general FilterLex.DroppedRun, but the character-by-character scan of this text is not carried out.
- Examples.NuspecTags, Examples.NuspecFlags and Examples.NuspecVersion: state the normalisation of the test nuspec's field texts. Reading those texts out of the XML is not modelled.
