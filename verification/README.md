# sardine core, modelled in Dafny

This project models the core of the sardine PHP framework and proves
properties of that model. The core has three parts:

- the entity layer (`bin/Model.php`): table descriptors and their cache,
  construction, `load`, `getBy`, `bind`, `iterator`, the paginated `getList`,
  the SQL that `insert` and `update` build, `validate`, and `delete` with its
  referential-integrity walk over related entities;
- the base controller (`bin/Controller.php`): controller and entity names,
  the user's access profile and `isAllow`, the configuration merge, the
  default sort order, and the blank row the list screen puts first;
- the request (`bin/Request.php`): the friendly-URL segments, the parameter
  array, the short language, the old-browser test and the development-host
  test.

PHP 7's loose semantics are written out once, in module `PhpValue`. This
covers truthiness, `== ''`, loose `==`/`<`/`>`, `in_array` and string
interpolation of values. A PHP array with string keys is an ordered
association list (`Assoc`). The database is an in-memory store of rows per
table (`Database`). The value the database returns for an `INSERT` (the
generated key) and for an `UPDATE` (the affected-row count) is a parameter.
The `$_SERVER` values the request reads are parameters too.

Modules, one file each: `PhpValue`, `Strings`, `Assoc`, `Descriptor`,
`Database`, `Entity`, `ListQuery`, `Writes`, `Validation`, `Integrity`,
`Controller`, `Request`.

Where the system's documentation and its code disagree, the model follows
the code. The doc comment of `delete` (bin/Model.php:297-300) says that when
a non-cascading relation has related objects, nothing is deleted. In the
code, the cascading relations are deleted while the relations are walked. A
later non-cascading relation then refuses the delete, but the cascaded rows
are already gone (`Integrity.CascadeRunsBeforeBlock`).

## Model

| member | source | states |
|---|---|---|
| Descriptor.ColumnNames | bin/Model.php:674-683 | the column names, one per descriptor column, in declaration order |
| Descriptor.CacheDescriptor | bin/Model.php:1117-1134 | a table already cached keeps its entry and the cache is unchanged; otherwise the introspected descriptor is added and every other table's entry is kept |
| Descriptor.CacheIdempotent | bin/Model.php:1125-1129 | caching the same table a second time changes neither the cache nor the entry returned |
| Entity.Load | bin/Model.php:271-289 | when the first row with the record's key text is found, the fields are overwritten by that row's columns and `persisted` holds iff its key is not blank; without such a row only `persisted` changes, to false; the key's text is kept |
| Entity.LoadIdempotent | bin/Model.php:271-289 | loading a loaded record again changes nothing |
| Entity.LoadByTruthyKey | bin/Model.php:271-289 | loading by a truthy key persists iff some row has that key |
| Entity.SetDefaults | bin/Model.php:85-92 | every non-key column gets the explicit default when set, else the descriptor's; the key and non-column fields are untouched |
| Entity.New | bin/Model.php:58-73 | persisted iff the key is truthy and a row has it; then its fields are the first such row's columns over the key; otherwise every non-key column holds its default and the key is kept; no errors |
| Entity.ConstructedRecordReloads | bin/Model.php:58-73 | a constructed record that is persisted loads back to itself |
| Entity.NewByStoredKey | bin/Model.php:58-73 | constructing by a truthy key gives exactly the first row with that key, persisted |
| Entity.KeyOfFirst | bin/Model.php:362-368 | the key column of the first row with `col = 'text'`, or `''` when no row matches |
| Entity.GetBy | bin/Model.php:362-370 | with no matching row the record is not persisted and has key `''`; otherwise it carries the first matching row's key and is persisted iff that key is truthy |
| Entity.GetByKeyRoundTrip | bin/Model.php:362-370 | a record `getBy` found is found again, identical, by its own primary key |
| Entity.GetByFoundRow | bin/Model.php:362-370 | for the first row with `col = 'text'`, the record is persisted iff that row's key is truthy, and is then exactly the first row with that key |
| Entity.Bind | bin/Model.php:634-641 | every key of the data that names a column is assigned its value; every other field is unchanged |
| Entity.BindIdempotent | bin/Model.php:634-641 | binding the same data twice equals binding it once |
| Entity.BindIgnoresUnknown | bin/Model.php:637 | adding a key that is not a column to the data changes nothing |
| Entity.Iterator | bin/Model.php:651-666 | with no names, the keys are the column names in order; otherwise exactly the requested names, in the order they are first named; each key maps to the record's field |
| Entity.ColumnPairs | bin/Model.php:655-658 | the keys are the column names in order and each maps to the record's field |
| Entity.PairsOf | bin/Model.php:660-662 | each requested name is a key mapped to the record's field; no other key is added |
| Entity.PairsOfInOrder | bin/Model.php:660-662 | the keys already there stay first, and the requested names follow in the order they are first named |
| ListQuery.WithDefaults | bin/Model.php:106-114 | every entry ends up truthy: page 1, 15 per page and `p.<key> ASC` replace falsy entries; truthy ones are kept |
| ListQuery.FloorDiv | bin/Model.php:148 | `floor(a / b)`: `q*b <= a < q*b + b` for a positive divisor, `q*b >= a > q*b + b` for a negative one |
| ListQuery.TruncMod | bin/Model.php:149 | PHP `%`: the remainder has the sign of the dividend and is smaller than the divisor in magnitude |
| ListQuery.TruncModIsRemainder | bin/Model.php:148-149 | the dividend minus the remainder is a multiple of the divisor; for the page count, `floor` times the divisor plus the remainder is the dividend |
| ListQuery.PageCountIsCeiling | bin/Model.php:148-151 | with a positive page size the page count is the ceiling of records / page size |
| ListQuery.RowsOnPage | bin/Model.php:154-158 | `LIMIT offset, n` keeps `min(n, records - offset)` rows, and none past the end of the result |
| ListQuery.RowsUpToIsPrefix | bin/Model.php:152-158 | the first `p` pages hold `min(records, p * rpp)` rows |
| ListQuery.PagesPartitionRecords | bin/Model.php:148-158 | every page up to the page count is non-empty, every later page is empty, and the pages together hold every record exactly once |
| ListQuery.ThirtySevenRecords | bin/Model.php:148-158 | 37 records at 15 per page make 3 pages of 15, 15 and 7 rows, and page 4 is empty |
| ListQuery.KeywordColumns | bin/Model.php:119-129 | the declared search columns that exist in the descriptor, or every column when none is declared |
| ListQuery.KeywordColumnsInOrder | bin/Model.php:119-129 | the declared search columns are searched in their declared order |
| ListQuery.KnownColumns | bin/Model.php:122-126 | exactly the given names that are descriptor columns |
| ListQuery.KnownColumnsInOrder | bin/Model.php:122-126 | the known columns keep the order of the given names |
| ListQuery.LikeClauses | bin/Model.php:132-134 | one `LIKE '%keywords%'` clause per column, in column order |
| ListQuery.ListFilterShape | bin/Model.php:116-142 | the filter is `(1)`, then the OR of the LIKE clauses only with keywords and search columns, then the additional filter when it is not blank |
| PhpValue.PaddedNumber | bin/Model.php:148-149 | leading whitespace changes neither whether a string is an integer string nor the number it is read as |
| PhpValue.PaddedFifteen | bin/Model.php:148-149 | `" 15"` is the number 15 and loosely equal to it |
| ListQuery.GetList | bin/Model.php:103-176 | a zero page size stops with a division by zero; otherwise the defaulted pagination, the offset `(page-1)*rpp`, the filter, and a page count that is the ceiling |
| Writes.EscapedBodyRoundTrip | bin/Model.php:247 | an `addslashes`-escaped text followed by a closing quote reads back as exactly that text |
| Writes.EscapeReadsBack | bin/Model.php:247 | reading one escaped character gives that character back |
| Writes.EscapedLiteralRoundTrip | bin/Model.php:247 | a quoted escaped literal reads back as the original text, whatever follows it |
| Writes.PlainLiteralReadsBack | bin/Model.php:205 | a quoted text without `'` or `\` reads back as itself |
| Writes.QuoteCutsLiteral | bin/Model.php:205 | a quoted text with an undoubled `'` after a plain prefix reads back as that prefix, the rest left over |
| Writes.InsertStatementOf | bin/Model.php:200-212 | one column and one literal per descriptor column, in order: NULL exactly for a NULL field or a blank key, else the field's text quoted as it stands |
| Writes.InsertUnescapedReading | bin/Model.php:200-207 | as written, a field text without `'` or `\` reads back unchanged, and one with an undoubled `'` is cut at it |
| Writes.InsertStatementEscaped | bin/Model.php:200-212 | the same statement with each text escaped: NULL exactly for a NULL field or blank key, and every other value reads back as the field's text whatever follows it |
| Writes.EscapedReadsBack | bin/Model.php:247 | the quoted `addslashes` of any text reads back as the text |
| Writes.InsertUnescapedQuoteBreaks | bin/Model.php:205 | as written, `O'Brien` is cut at its quote and reads back as `O`; escaped, it reads back whole |
| Writes.QuoteEndsLiteral | bin/Model.php:205 | the literal `'O'Brien'` ends after `O` |
| Writes.RenderInsertJoins | bin/Model.php:200-212 | cutting the last comma off the `item,` lists yields the comma-joined column names and literals |
| Writes.BindIfAny | bin/Model.php:192-194 | binding data before a write never changes `persisted` or the errors |
| Writes.Insert | bin/Model.php:190-221 | the reported key is stored and returned; `persisted` holds iff it is not blank; the other fields are as bound |
| Writes.Assignments | bin/Model.php:242-250 | the SET list names exactly the non-key columns; each gets NULL for a NULL field, else the escaped text |
| Writes.UpdateSetsEveryOtherColumn | bin/Model.php:242-253 | the SET list covers exactly the non-key columns and every non-NULL literal reads back as the field's text |
| Writes.Update | bin/Model.php:232-264 | the key is returned only when rows were affected, NULL otherwise; `persisted` becomes true only for a truthy returned key; the fields are as bound |
| Validation.ConstraintErrors | bin/Model.php:777-801 | only range, length and allowed-values errors of that column, at most three |
| Validation.ConstraintErrorsPerKind | bin/Model.php:777-801 | each of the range, length (in `strlen` bytes) and allowed-values errors is reported iff its check fails, with the failing value and constraint, at most once, in that order |
| Validation.CollectPerKind | bin/Model.php:777-801 | each kind of error is collected iff its check failed, once, in check order |
| Validation.CollectCarries | bin/Model.php:777-801 | every collected error carries the value and the constraint it failed |
| Validation.MultibyteLength | bin/Model.php:785 | `ñ` is two bytes, too long for a length of at most one |
| Validation.FlattenStep | bin/Model.php:747-802 | collecting one more column appends that column's errors |
| Validation.InFlatten | bin/Model.php:747-802 | an error is collected iff some column reported it |
| Validation.Validate | bin/Model.php:740-805 | the errors are the logic errors then each column's errors in order; fields and `persisted` are unchanged; the result is true iff there is no error, and then every column passed |
| Validation.RequiredInColumn | bin/Model.php:750-752 | a column reports "value required" iff it is that column and its value is missing |
| Validation.RequiredIff | bin/Model.php:750-752 | "value required" is reported for a name iff a column of that name is NOT NULL, not auto-increment, and its field is unset or blank after trimming |
| Validation.NoErrorsMeansChecksPass | bin/Model.php:750-801 | a column without errors has a value, a free primary or unique key, and a value within its range, length and allowed values |
| Validation.PersistedKeepsItsKey | bin/Model.php:755-761 | a stored record never gets the primary-key uniqueness error |
| Validation.StoredDuplicateNotUnique | bin/Model.php:755-761 | a record not yet stored whose key text the first matching row has, with a truthy key, gets the primary-key uniqueness error |
| Validation.NotUniqueOnlyWhenTaken | bin/Model.php:755-769 | a column gets the uniqueness error iff its primary-key or its unique-key check fails |
| Validation.UniqueFreePasses | bin/Model.php:763-768 | a unique column whose value no stored row has gets no uniqueness error |
| Validation.UniqueSameKeyPasses | bin/Model.php:763-768 | a unique column whose first matching row reads back with a key loosely equal to the record's own gets no uniqueness error, so saving a stored record again passes |
| Validation.UniqueTakenByOther | bin/Model.php:763-768 | a unique column whose first matching row has a truthy key that reads back not loosely equal to the record's own gets the uniqueness error, stored record or not |
| Validation.ExplicitOverrides | bin/Model.php:774 | a column with an explicit constraint is checked against it alone |
| Validation.GetByReadsOnlyDescriptor | bin/Model.php:362-370 | `getBy` depends on the entity only through its descriptor |
| Validation.BlankStringIsMissing | bin/Model.php:750 | a NOT NULL column holding only blanks is reported as required; one holding `0` is not |
| Integrity.RelatedObjects | bin/Model.php:489-515 | nothing for an unknown model or an empty foreign key; one-to-many gives the key of every matching row, or nothing; one-to-one gives one object, found iff a row matches, with the first matching row's key, or `''` |
| Integrity.Count | bin/Model.php:318 | a list counts its length; as written, one object counts 1 whether found or not |
| Integrity.Delete | bin/Model.php:306-353 | only rows are removed; success implies no errors and that the row existed; every error names a non-cascade relation; without errors no row has the key; an error without cascades leaves the store unchanged |
| Integrity.CheckRelations | bin/Model.php:314-335 | only rows are removed; every error names a non-cascade relation from the current one on; with no cascade left the store is unchanged |
| Integrity.CheckRelation | bin/Model.php:316-332 | a non-cascade relation leaves the store and reports its positive count; a cascading one reports nothing; a relation with nothing related changes nothing |
| Integrity.CascadeAll | bin/Model.php:323-326 | deleting the related records one after the other only removes rows |
| Integrity.CountShrinks | bin/Model.php:316-318 | removing rows never makes a relation count something it did not |
| Integrity.NoBlockersMeans | bin/Model.php:316-332 | no blockers from a relation on means every non-cascade relation from there counts nothing |
| Integrity.CheckRelationsWithoutBlockers | bin/Model.php:314-335 | when no non-cascade relation counts anything, no error is reported |
| Integrity.CheckRelationsReportBlockers | bin/Model.php:314-335 | every non-cascade relation that still counts related records afterwards is reported with a positive count |
| Integrity.ReportedMeans | bin/Model.php:328-332 | being reported means every such relation's model appears among the errors with a positive count |
| Integrity.DeleteWithoutBlockers | bin/Model.php:306-353 | a record no non-cascade relation blocks is deleted without error and no row keeps its key |
| Integrity.DeleteReportsBlockers | bin/Model.php:306-353 | a non-cascade relation still counting related records makes the delete return false and report it with a positive count |
| Integrity.CascadeAllRemoves | bin/Model.php:323-326 | every cascaded key whose own delete nothing blocks has no row left |
| Integrity.SelfBlockingCategory | bin/Model.php:328-331 | a type may have a non-cascading relation to itself, and a record with a stored child row of its own type is not deleted |
| Integrity.CascadeBeforeRest | bin/Model.php:320-326 | a cascading relation with related rows deletes them before the next relations are checked |
| Integrity.OneToOneAlwaysBlocks | bin/Model.php:316-332 | as written, a non-cascade one-to-one relation reports one blocker whatever the store holds |
| Integrity.OneToOneRecordNeverDeleted | bin/Model.php:306-353 | as written, a record with such a relation is never deleted |
| Integrity.CorrectedNothingRelatedIsNoOp | bin/Model.php:314-335 | counting as intended, relations without related rows neither block nor cascade |
| Integrity.CorrectedUnrelatedRecordDeleted | bin/Model.php:306-353 | counting as intended, a record without related rows is deleted iff its row exists, and nothing else is removed |
| Integrity.CascadeRunsBeforeBlock | bin/Model.php:314-337 | a refused delete keeps the record but not the children already cascaded |
| Controller.ControllerName | bin/Controller.php:56 | a class name without `Controller` is its own controller name |
| Controller.ControllerNameDropsSuffix | bin/Controller.php:56 | `<n>Controller` is the controller `<n>` whenever `n` has no `Controller` |
| Controller.EntityName | bin/Controller.php:58-60 | a blank declared entity becomes the controller name; any other is kept |
| Controller.NameOfFamiliasController | bin/Controller.php:56-60 | `FamiliasController` works on `Familias` |
| Controller.GetProfile | bin/Controller.php:480-497 | one entry per permission in order; every one true without profiles, else the specific grant or the `*` grant |
| Controller.AllowedIffGranted | bin/Controller.php:526-530 | on a built profile, an action is allowed iff it is a permission and (no profiles are configured or its grant is truthy) |
| Controller.ExplicitDenialWins | bin/Controller.php:490-494 | an explicit false for `del` wins over a `*` that grants everything |
| Controller.GetConfig | bin/Controller.php:506-517 | a key takes the controller's value when it sets it, else the global one |
| Controller.DefaultOrderBy | bin/Controller.php:73-75 | a truthy requested order is kept; otherwise the configured one is used |
| Controller.DefaultOrderByIdempotent | bin/Controller.php:73-75 | defaulting the order a second time changes nothing |
| Controller.ListTemplate | bin/Controller.php:136-153 | the list template when access is allowed, the forbidden template otherwise |
| Controller.BlankRow | bin/Controller.php:142-145 | the keys of the first row, in order, each with the empty string |
| Controller.PrependBlankRow | bin/Controller.php:142-146 | the rows are kept after one new first row; that row has the first row's keys, each holding `''`, or is NULL on an empty page |
| Request.GetUrl | bin/Request.php:95-105 | the segments are non-empty, hold no `/`, and together are the path without its slashes |
| Request.GetUrlOfSegment | bin/Request.php:95-105 | a path without `/` is one segment, or none when empty |
| Request.GetUrlSplitsAtSlash | bin/Request.php:95-105 | a path splits at its first `/`: the text before it is the first segment (dropped when empty) and the rest is split alike |
| Request.NextIndex | bin/Request.php:134 | the index `[]` appends is the least index that is non-negative and above every integer key: 0, or one past an integer key |
| Request.GetParameters | bin/Request.php:122-139 | the request variables unchanged, then each non-empty path segment under the next integer keys, in order; keys stay distinct |
| Request.ShortLanguage | bin/Request.php:177-179 | a prefix of the accepted language, of length two or less |
| Request.ShortLanguageStable | bin/Request.php:177-179 | shortening twice is shortening once; `es-ES` gives `es` |
| Request.IsOldBrowser | bin/Request.php:216-228 | as written, the browser is old iff the first occurrence of some marker is after the first character of the user agent |
| Request.LeadingMarkerMissed | bin/Request.php:221 | as written, `MSIE 6.0` is not recognised although it contains a marker |
| Request.OldBrowserIntendedIffContains | bin/Request.php:208-228 | the intended test holds iff the user agent contains one of the markers |
| Request.DevelopmentIffNotWww | bin/Request.php:236-238 | development iff the host does not start with `www`; the `localhost` test adds nothing |

## Left out

- Database access: the driver, SQL execution and the text of SELECT and DELETE queries are left out. Selection is modelled on the in-memory store with `col = 'text'` matching.
- The count query of `getList` and the page fetch are left out; the row count is a parameter. `ORDER BY`, `GROUP BY` and the returned columns are not modelled.
- Hooks (`beforeInsert`, `afterInsert`, `beforeUpdate`, `afterUpdate`, `beforeDelete`, `afterDelete`) are left out; they are empty in the base class.
- `logicValidation` becomes the `logicErrors` parameter of `Validate`.
- The error messages are one `Error` constructor per message kind, not the Spanish texts.
- Alerts are left out.
- The descriptor cache file and the serialisation of descriptors are left out. Only the merge decision is modelled.
- `getRelatedObjects`: the `subSet` parameter (order, limit, extra filter) and the order of the related rows are left out.
- `class_exists` is modelled as "the model is a type of the schema".
- Integrity.Delete: the model requires the cascading relations to be acyclic (a rank per type that decreases along every cascading relation), so that it terminates. A relation without cascade only counts and may point anywhere, even back to its own type (`Integrity.SelfBlockingCategory`). On a cascade cycle the code recurses without end when the data cycles, and always through a one-to-one cascade, because that lookup always yields an object. Self-referencing cascades over tree-shaped data, which the code deletes correctly, are not modelled.
- Floating-point values and MySQL collation are left out: comparisons are exact on text and integers.
- `parse_url` is left out: the request URI path and the script path are passed in already parsed.
- The `Request` constructor, sessions (the current user's profile name becomes a parameter), and YAML loading in `getConfig` (the two configurations become parameters) are left out.
- The rest of the controller's actions and `FrontController` are left out.
- Array values inside `$_REQUEST` are left out; request variables are scalar.
- PHP 8's changed loose comparisons are left out; the model follows PHP 7.
- Integer keys of the configurations in `getConfig` are left out: `array_merge` renumbers them, and the model treats every key as a string.
- Request.GetUrl: the example in the source's comment (`app/Erp/Clientes/edit/1`) is not stated as a lemma; `GetUrlOfSegment` and `GetUrlSplitsAtSlash` fix every segment boundary in general.
- Validation.BadLengthFor: text is taken to be UTF-8 when `strlen` counts its bytes; other encodings are left out.
- Numeric strings with a fraction or exponent (`"1.5"`, `"1e3"`) are left out; numeric strings are integers, with leading whitespace allowed.
- Validation.ConstraintErrors: its own contract gives only the kinds, the column and the bound of three; which errors are reported is stated by `Validation.ConstraintErrorsPerKind`.

## Findings

| source | as written | input that shows it | evidently intended | confidence | as-written member | corrected member |
|---|---|---|---|---|---|---|
| bin/Model.php:316-318 | a one-to-one relation's `getBy` result is an object, and `count` of an object is 1, even when no row matched | a record whose non-cascade one-to-one relation has no related row | count the related object only when a row matched, so an unrelated record can be deleted | not executed | Integrity.OneToOneRecordNeverDeleted | Integrity.CorrectedUnrelatedRecordDeleted |
| bin/Model.php:205 | `insert` puts each value between quotes without escaping it | a field holding `O'Brien` | escape with `addslashes`, as `update` does | not executed | Writes.InsertUnescapedQuoteBreaks | Writes.InsertStatementEscaped |
| bin/Request.php:221 | `strpos(...) != 0` is false both for "not found" and for a match at position 0 | the user agent `MSIE 6.0` | a marker found anywhere counts (`!== false`) | not executed | Request.LeadingMarkerMissed | Request.OldBrowserIntendedIffContains |
