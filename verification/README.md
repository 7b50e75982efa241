# Verification of the MySQL validation core

This project models the decision logic of the validation, quoting and replication-status
packages and proves what it promises. The server appears as what it delivers: arbitrary row
sequences that may break off at the end. Everything computed from those rows is modelled
step for step.

- **Privileges.** `Wildcards` is the grant-pattern matcher, an iterative loop that remembers
  only the last `%`, proved equal to a recursive meaning of patterns (the dialect is that of
  section 15.7.1.6 of the MySQL 8.4 Reference Manual). `Grants` resolves the four-valued
  answer through its chain of downgrades and proves it equal to `Answer`, a definition in
  terms of which stored rows prove, touch, or miss an object. `GrantAssembly` builds the fact
  from the five privilege reads; `GrantChecks` runs the checks that share a scan memo over a
  table loop and proves the memo invisible.
- **Foreign keys.** `InnoDBScan` and `StandardScan` group position-numbered rows into
  constraints; `Lists` says which rows are a listing of which constraints, and each scanner
  is proved to invert it. `FallbackIndexes` accumulates index parts over batches,
  `Selection` orders and repeats the answer per request, `Closure` judges a table set, and
  `SourceAgreement` proves that both sources lead to the same selection.
- **Table comparison.** `FoldedNames` matches names exact first and then by folded key,
  `SpecDiff` is the comparison, `SpecEquivalence` characterises an empty result and how far it
  is an equivalence relation, `SpecMirror` compares the two orders of arguments, and
  `SpecContents` says which differences each section holds. `TypeNormalization` drops display widths.
- **Statements, quoting, decoding.** `Statements` counts placeholders against arguments,
  `ForeignKeyStatements` shows that no row a selector needs goes unasked,
  `Quoting` pairs the printer with a parser (section 9.2 of the MySQL 8.4 Reference Manual),
  `ReplicaStatus` decodes rows by column name through a reused buffer.

`Outcomes`, `Lists`, `Grouping`, `Ordering` and `Sorting` hold what several of these share:
results and deliveries, repeats and occurrences, runs of equal keys, the byte order of names,
and the contract of a library sort (a sorted permutation, nothing more).

Loops and objects that the program updates in place are methods and classes here, each proved
against a function or predicate on values; the theorems are about those.

## Where the program and its documentation part

- `DiffSpecs` is documented to report every difference (pkg/validations/spec_diff.go:246) with
  an empty result meaning that none were found (lines 261-264). Constraints are indexed by name
  only (lines 671-674), while capture allows a CHECK and a foreign key of one name
  (pkg/validations/spec_capture.go:346-348). Such a table differs from itself, and a same-named
  CHECK that only one side has is missed in one direction. The model follows the program:
  `SharedNameBreaksReflexivity` and `SharedNameBreaksSymmetry` give concrete constraint lists.
  For all lists, a comparison with itself is empty exactly when constraints of one name look
  alike (`ConstraintsReflexiveExactly`), an empty comparison is empty the other way exactly when
  those of the second list do (`ConstraintsSymmetricExactly`), and empty comparisons always
  chain (`ConstraintsTransitive`); `EmptinessIsAnEquivalence` says the same of whole tables.
- The standard scanner tells constraints apart by schema, NUL and name joined into one key
  (pkg/validations/foreign_keys.go:627). With NUL in schema names two neighbouring constraints can
  share a key, and their listing is then refused; `ReadableExactlyWhenTagsApart` is the exact condition, and
  `TagsApartWithoutNul` shows that NUL-free schema names meet it.
- `normalizeColumnType` is documented to return malformed input unchanged
  (pkg/validations/spec_normalize.go:29). The program looks at the first parenthesised part only:
  "int(1)(2)" becomes "int(2)", which becomes "int". `ChangesExactlyPlainWidths` is the exact
  condition for a change and `IdempotentExceptTwice` the exact condition for a second one. Types
  whose attributes run into the base can normalise alike, but only by completing INT to INTEGER
  (`NormalFormsDecideEquality`).

## Model

| member | source | states |
|---|---|---|
| `Wildcards.LikePatternMatches` | pkg/validations/grants.go:843-884 | true exactly when some way of splitting the name fits the tokens of the pattern (`%` any run, `_` one character, an escaped character itself, a lone trailing backslash itself), within (pattern length + 1) times (name length + 1) iterations |
| `Wildcards.LaterStarSuffices` | pkg/validations/grants.go:855-859 | when a new `%` is met, the pattern covers the name exactly when that `%` with the rest of the pattern covers what is left of the name, so the earlier `%` may be forgotten |
| `Wildcards.CoversByCharacter` | pkg/validations/grants.go:843-884 | the dialect one pattern character at a time: `%` covers any run, `_` exactly one character, a backslash makes the next character stand for itself, any other character is itself |
| `Wildcards.LoneBackslash` | pkg/validations/grants.go:858-867 | a backslash that ends the pattern stands for itself |
| `Grants.Resolve` | pkg/validations/grants.go:577-618 | the answer from exact rows alone does not depend on the order of the specific sources: unknown for an unpopulated fact or undeclared privilege, present if any source proves it, absent only for a conclusive session with no source at all |
| `Grants.StateForSources` | pkg/validations/grants.go:751-768 | present exactly for an account source on a usable session, absent exactly without any source, never unknown |
| `Grants.SchemaPatternCovers` | pkg/validations/grants.go:664-675 | finds whether some recorded schema row of the privilege, spelled differently, covers the schema as a wildcard pattern |
| `Grants.SchemaCaseVariantMatches` | pkg/validations/grants.go:709-718 | finds whether some recorded schema row of the privilege names the schema up to case but not exactly |
| `Grants.DowngradeForSchemaPattern` | pkg/validations/grants.go:637-662 | turns absent into unconfirmed exactly when partial revokes are off and a pattern covers the schema, whatever the memo holds, and leaves in the memo only what a scan would answer |
| `Grants.DowngradeForTableCaseVariant` | pkg/validations/grants.go:720-749 | the same for case variants of the schema, the table or the column row |
| `Grants.Global` | pkg/validations/grants.go:534-536 | the answer defined by rows: present from a proving row, absent when conclusive and no row bears on the object, otherwise unconfirmed; unknown first |
| `Grants.Schema` | pkg/validations/grants.go:542-551 | the same definition for a schema, pattern and case-variant rows included |
| `Grants.TableState` | pkg/validations/grants.go:561-575 | the same definition for a table, equal to the memo-free answer for every memo that agrees with the fact, and keeping that agreement |
| `Grants.Table` | pkg/validations/grants.go:557-559 | the same definition for a table, without a memo shared by callers |
| `Grants.AbsentExactly` | pkg/validations/grants.go:561-768 | absent holds exactly when the fact is populated, the privilege one of the six, the session pinned and role-free, SELECT on the schema named mysql proven, and no stored row that touches the object (exact, case variant, column, or pattern while partial revokes are off) carries evidence |
| `Grants.VisibilityIsProvenSelect` | pkg/validations/grants.go:620-631 | rows of other accounts count as visible exactly when the own account is proven to hold SELECT on the schema named mysql |
| `Grants.PresentExactly` | pkg/validations/grants.go:577-618 | present holds exactly for a populated fact, one of the six privileges, a pinned or pooled session, and an account bit in the global map (partial revokes off), in the schema map under the exact name, or in the table map under both exact names |
| `Grants.UntouchedByMaps` | pkg/validations/grants.go:637-749 | no row touches a table exactly when, in the four maps, every entry for the privilege that names it up to case, or covers its schema as a pattern while partial revokes are off, has no bit set |
| `Grants.UnknownExactly` | pkg/validations/grants.go:577-585 | unknown holds exactly for an unpopulated fact or a privilege other than the six |
| `Grants.PartialRevokesNarrowEvidence` | pkg/validations/grants.go:577-662 | under partial revokes a present answer needs an account row on the schema or table itself, and schema rows bear on a schema only by name |
| `Grants.ForeignEvidenceOnlyWeakens` | pkg/validations/grants.go:534-768 | adding role or anonymous evidence anywhere leaves each answer unchanged or turns absent into unconfirmed, and absent survives exactly when none of the added evidence touches the object |
| `Grants.AnswersNest` | pkg/validations/grants.go:534-575 | present at a wider scope implies present at a narrower one, absent at a narrower scope implies absent at a wider one |
| `Grants.AffinityLimitsAnswers` | pkg/validations/grants.go:577-618 | a pool confirms exactly what a pinned session confirms and never denies; an opaque querier only answers unknown or unconfirmed |
| `GrantAssembly.CurrentUserGranteeSplits` | pkg/validations/grants.go:775-786 | the account grantee is split at the last `@`, and a value without one is a user at any host |
| `GrantAssembly.AnonymousIsRequested` | pkg/validations/grants.go:810-825 | every grantee recorded as anonymous is covered by the pattern the narrowed schema statement asks for |
| `GrantAssembly.GrantsReader.ReadEnabledRoles` | pkg/validations/grants.go:333-356 | adds exactly the grantees of the delivered roles, in every other respect leaving the fact alone, and fails exactly on a broken delivery |
| `GrantAssembly.GrantsReader.ReadGlobalGrants` | pkg/validations/grants.go:358-398 | the global map afterwards holds exactly the evidence of all rows read so far, account or role only, and no other field changes |
| `GrantAssembly.GrantsReader.ReadSchemaGrants` | pkg/validations/grants.go:400-435 | the same for the schema map, where anonymous rows count too |
| `GrantAssembly.GrantsReader.ReadTableGrants` | pkg/validations/grants.go:437-474 | the same for the table map |
| `GrantAssembly.GrantsReader.ReadColumnGrants` | pkg/validations/grants.go:476-515 | the same for the column map |
| `GrantAssembly.AssembleGrants` | pkg/validations/grants.go:256-320 | the first of the seven statements to fail is reported and yields no fact; otherwise the fact is populated and its four maps hold exactly the evidence read, by existence alone |
| `GrantAssembly.AssembledIdentities` | pkg/validations/grants.go:275-303 | in an assembled fact the account is the session user split at the last `@`, the roles are the enabled ones as user and host, and partial revokes are off exactly for 0 |
| `GrantAssembly.AccountBitExactly` | pkg/validations/grants.go:358-529 | the account bit of an object and privilege is set exactly when a delivered row about it, in the spelling of the server, names the account |
| `GrantAssembly.RoleBitExactly` | pkg/validations/grants.go:358-529 | the role bit is set exactly when such a row names an enabled role other than the account |
| `GrantAssembly.AnonymousBitExactly` | pkg/validations/grants.go:400-435 | the anonymous bit is set exactly when such a schema row names a blank user that is neither |
| `GrantAssembly.ReadWidthIsInvisible` | pkg/validations/grants.go:358-529 | reads that miss no requested row build the same fact as reading everything, whatever the row order and repetition |
| `GrantAssembly.PrivilegeStatements` | pkg/validations/grants.go:298-303 | both statements of a session, built from its account and roles, ask for exactly the requested rows, or for all when they could not be narrowed |
| `GrantAssembly.AskedRowsNarrow` | pkg/validations/grants.go:788-825 | a server that returns the rows a statement asks for leaves no requested row out |
| `GrantChecks.CheckTablePrivileges` | pkg/validations/checks_privileges.go:11-39 | with one memo shared over the loop, exactly the memo-free answers that are not present, in order and with repeats |
| `GrantChecks.CheckSchemaPrivileges` | pkg/validations/checks_privileges.go:48-73 | one finding per requested privilege whose schema answer is not present, in order |
| `GrantChecks.SchemaFindingMultiplicity` | pkg/validations/checks_privileges.go:48-73 | a schema-scoped privilege is reported once per request when its answer is not present and never otherwise, without a table and with that exact state |
| `GrantChecks.SchemaPassesExactlyWhenAllPresent` | pkg/validations/checks_privileges.go:48-73 | no finding exactly when every requested privilege is proven present |
| `GrantChecks.SchemaFindingsSplit` | pkg/validations/checks_privileges.go:48-73 | splitting the requested privileges anywhere splits the findings |
| `GrantChecks.CheckTriggerVisibility` | pkg/validations/checks_trigger_visibility.go:26-48 | the same as for tables, for the TRIGGER privilege and under its own check name |
| `GrantChecks.FindingsSplit` | pkg/validations/checks_privileges.go:19-36 | splitting the table list anywhere splits the findings, so no table is influenced by its neighbours |
| `GrantChecks.FindingMultiplicity` | pkg/validations/checks_privileges.go:19-36 | a table is reported once per request when its answer is not present and never otherwise, with that exact state |
| `GrantChecks.PassesExactlyWhenAllPresent` | pkg/validations/checks_privileges.go:11-39 | no finding exactly when every requested table is proven present |
| `Statements.NarrowNames` | pkg/validations/predicate.go:43-69 | the distinct names in first-occurrence order, refused exactly when a name is unrepresentable or the distinct names with the fixed arguments exceed 65535 |
| `Statements.DistinctOrder` | pkg/validations/predicate.go:50-62 | the result of narrowing has no repeats and follows first occurrences |
| `Statements.PlaceholdersShape` | pkg/validations/predicate.go:137-139 | `count` marks with single commas between them and nothing else |
| `Statements.BoundMeans` | pkg/validations/predicate.go:16-42 | a statement is bound exactly when it has as many question marks as arguments and at most 65535 of them |
| `Statements.DerivedTableText` | pkg/validations/predicate.go:92-99 | the text of the derived table of point lookups, one requested object after the other |
| `Statements.RequestedObjects` | pkg/validations/predicate.go:79-106 | the derived table with one pair of placeholders per distinct table, bound as (schema, table) pairs in order; refused exactly for no tables, an unrepresentable name, or more than 2048 distinct tables |
| `Statements.GranteePredicate` | pkg/validations/grants.go:800-808 | the exact statement: narrowed to the distinct grantees whenever they fit, else the bare query, with as many placeholders as arguments and at most 65535 |
| `Statements.GranteePredicateWithAnonymous` | pkg/validations/grants.go:810-825 | the same with the anonymous pattern as one more argument at the end |
| `Statements.InnoDBStatement` | pkg/validations/foreign_keys.go:255-311 | the exact statement over the distinct composed `schema/table` names in the column the selector kind chooses, or unnarrowed; as many placeholders as arguments |
| `Statements.StandardStatement` | pkg/validations/foreign_keys.go:524-577 | the exact statement with the schema equality and table list on the side the selector kind chooses, the schema bound first in both shapes; as many placeholders as arguments |
| `Statements.FallbackIndexStatement` | pkg/validations/foreign_keys.go:735-752 | one clause with two placeholders per pair, the arguments alternating between the halves, within the ceiling for every batch |
| `ForeignKeyStatements.RegistryStatement` | pkg/validations/foreign_keys.go:255-311 | the registry statement of a selector asks, by child or referenced name, for every row of every constraint that answers it, and when narrowed binds exactly the composed names of the requested tables |
| `ForeignKeyStatements.StandardTablesStatement` | pkg/validations/foreign_keys.go:524-577 | the standard statement does so by the schema equality and table list of the child or the referenced side |
| `ForeignKeys.SplitIsJoinUndone` | pkg/validations/foreign_keys.go:465-472 | a name splits into two parts exactly when it is their join at the first slash and both are nonempty |
| `ForeignKeys.DecodeForeignKeyRule` | pkg/validations/foreign_keys.go:507-522 | the one set flag of a list, the default when none is set, refused when several are |
| `ForeignKeys.DecodeInnoDBForeignKeyRules` | pkg/validations/foreign_keys.go:474-500 | both rules, refused for unknown bits or exclusive ones |
| `ForeignKeys.RulesAreFlagsUndone` | pkg/validations/foreign_keys.go:474-522 | decoding is a bijection between the accepted flag words and the sixteen pairs of rules |
| `ForeignKeys.FlagsByBit` | pkg/validations/foreign_keys.go:474-522 | which bit stands for which action: 1, 2 and 16 for deletes, 4, 8 and 32 for updates |
| `ForeignKeys.UnreadableFlags` | pkg/validations/foreign_keys.go:474-522 | a word is refused exactly for an unknown bit or two actions for one event |
| `InnoDBScan.Group.ForeignKey` | pkg/validations/foreign_keys.go:417-463 | a finished group becomes a constraint whose rows are exactly the rows appended, or the first of its faults in checking order |
| `InnoDBScan.ScanInnoDBForeignKeys` | pkg/validations/foreign_keys.go:349-415 | succeeds exactly when no row and no end has a fault, else reports the first fault; flattening the result gives the rows back, and any listing of a list of constraints scans to that list |
| `InnoDBScan.ListingIsClean` | pkg/validations/foreign_keys.go:349-463 | the listing of any storable constraints, neighbours with different identifiers, has no fault anywhere |
| `InnoDBScan.ListingIsInjective` | pkg/validations/foreign_keys.go:349-463 | no two lists of constraints share a listing |
| `InnoDBScan.ListedRow` | pkg/validations/foreign_keys.go:349-463 | every row behind a scanned list, by constraint and column, with the text and number in each of its fields, and no further row |
| `InnoDBScan.GroupFaultByNames` | pkg/validations/foreign_keys.go:417-432 | a name without two parts is reported for the identifier first, then the child, then the parent |
| `InnoDBScan.GroupFaultByContents` | pkg/validations/foreign_keys.go:433-450 | with readable names, differing schemas are reported first, then a wrong number of rows, then unreadable flags |
| `InnoDBScan.FaultsInOrder` | pkg/validations/foreign_keys.go:366-415 | on reading a row, a fault of the group before it comes first, then changed scalars, then a wrong position |
| `StandardScan.ScanStandardForeignKeys` | pkg/validations/foreign_keys.go:604-666 | the same three statements for the standard rows, grouped by schema and constraint name |
| `StandardScan.ListingIsInjective` | pkg/validations/foreign_keys.go:604-666 | no two lists of constraints share a standard listing |
| `StandardScan.ListedRow` | pkg/validations/foreign_keys.go:604-666 | every row behind a scanned list, by constraint and column, field by field, and no further row |
| `StandardScan.FaultsInOrder` | pkg/validations/foreign_keys.go:626-666 | on reading a row of the constraint before it, changed scalars come before a wrong position, which is also what starts another constraint wrongly |
| `FallbackIndexes.IndexAccumulator.ReadFallbackIndexes` | pkg/validations/foreign_keys.go:735-800 | one batch read into the shared map gathers exactly the rows before and the rows of the batch; it fails exactly on a broken delivery or at the first row that leaves a gap in its index |
| `FallbackIndexes.GatheringIsUnique` | pkg/validations/foreign_keys.go:754-800 | the accumulated map depends only on the parts read per index, not on how indexes interleave |
| `FallbackIndexes.BatchingChangesNothing` | pkg/validations/foreign_keys.go:703-714 | chunks of distinct table pairs read the same parts of every index as one statement would |
| `FallbackIndexes.BatchedMapIsSingleMap` | pkg/validations/foreign_keys.go:668-731 | the map accumulated over batches equals the map of a single read |
| `FallbackIndexes.FunctionalPartsNeverMatch` | pkg/validations/foreign_keys.go:780-791 | where columns lead an index, every one of them is a plain column part of that name |
| `FallbackIndexes.SupportedByRows` | pkg/validations/foreign_keys.go:780-828 | a constraint is supported exactly when one index of its child table has, for each of its columns in order, a row with that column at that place |
| `FallbackIndexes.GapsByPosition` | pkg/validations/foreign_keys.go:767-778 | a row is refused exactly when its number is not one more than the rows its index has so far, with both numbers |
| `FallbackIndexes.BatchSize` | pkg/validations/foreign_keys.go:703-708 | a statement takes up to 32767 pairs |
| `FallbackIndexes.ForeignKeyColumnsIndexed` | pkg/validations/foreign_keys.go:807-828 | true exactly when the columns are nonempty and some index starts with them |
| `FallbackIndexes.CollectPairs` | pkg/validations/foreign_keys.go:676-686 | the distinct child tables in order of first occurrence |
| `FallbackIndexes.ReadAllBatches` | pkg/validations/foreign_keys.go:703-714 | all batches in one accumulator hold exactly their rows; it fails exactly when a batch breaks or a numbering has a gap, with the failure of the first batch that cannot be read |
| `FallbackIndexes.PopulateFallbackIndexes` | pkg/validations/foreign_keys.go:668-731 | in place, each constraint is marked indexed exactly when some index of its child table starts with its columns; nothing else changes, and nothing at all on failure, whose error is that of the first unreadable batch |
| `Selection.SelectForeignKeys` | pkg/validations/foreign_keys.go:830-870 | the concatenation, over requested tables in order and with repeats, of each table's matches as a sorted permutation |
| `Selection.SortIndexes` | pkg/validations/foreign_keys.go:843-857 | a sorted permutation by child schema, child table and name, ties in any order |
| `Selection.KeyLessByNames` | pkg/validations/foreign_keys.go:843-857 | child schema, child table and name are compared in this priority, each by its first differing character, ascending |
| `Selection.SelectionIsDetermined` | pkg/validations/foreign_keys.go:830-895 | inputs that agree on the constraints answering the request, in any order, are selected identically when different answers have different sort triples |
| `Selection.MatchingCounts` | pkg/validations/foreign_keys.go:872-895 | a constraint is collected for a table as often as it is given if it answers the request, and never otherwise |
| `Selection.SortedPermutationsAgree` | pkg/validations/foreign_keys.go:843-857 | with telling sort triples there is one sorted permutation, so the choice of sort is invisible |
| `Selection.OwnColumns` | pkg/validations/foreign_keys.go:859-867 | the returned column lists are fresh and pairwise distinct buffers with the selected values |
| `Selection.SelectOwned` | pkg/validations/foreign_keys.go:830-870 | what a caller reads in the returned entries is the selection, and every entry, repeated ones too, has fresh column lists of its own |
| `Closure.CheckFKClosure` | pkg/validations/checks_foreign_keys.go:42-95 | the external constraints in input order, then one visibility finding unless visibility is complete; nothing for an empty set |
| `Closure.ClosureIsDecided` | pkg/validations/checks_foreign_keys.go:42-95 | on the incoming selection of a set, no finding exactly when every constraint whose parent is in the set has its child in the set |
| `Closure.ExternalReportedPerRequest` | pkg/validations/checks_foreign_keys.go:63-84 | each external constraint is reported once per occurrence of its parent in the request, and no other is |
| `Closure.SelectionCounts` | pkg/validations/foreign_keys.go:830-884 | an incoming selection holds a constraint of the schema of the parent once per occurrence of its parent table in the request |
| `Closure.OutgoingCounts` | pkg/validations/foreign_keys.go:830-884 | an outgoing selection holds a constraint of the schema of the child once per occurrence of its child table in the request, and no other constraint |
| `Closure.WithinCounts` | pkg/validations/foreign_keys.go:872-895 | a selection within a set does so exactly for constraints with both ends in the schema and the parent in the set |
| `Closure.FindingsSplit` | pkg/validations/checks_foreign_keys.go:63-84 | splitting the constraints anywhere splits the findings |
| `SourceAgreement.ReadForeignKeys` | pkg/validations/foreign_keys.go:206-249 | which source answers, with which visibility and downgrade reason, that the keys are the selection of that source, and that the first error of the primary source is kept; an error exactly when neither can answer, with both causes |
| `SourceAgreement.SourcesAgree` | pkg/validations/foreign_keys.go:349-870 | for any catalogue, the InnoDB listing and the standard listing, each in its own row order and narrowed or not, select the same constraints |
| `SourceAgreement.BothSourcesReadable` | pkg/validations/foreign_keys.go:206-249 | those listings exist and neither source refuses them |
| `SourceAgreement.ReadableExactlyWhenTagsApart` | pkg/validations/foreign_keys.go:604-666 | a standard listing can be read exactly when no two neighbouring constraints share a group key |
| `SourceAgreement.TagsCanCollide` | pkg/validations/foreign_keys.go:627 | two different (schema, name) pairs with one group key |
| `SourceAgreement.TagsApartWithoutNul` | pkg/validations/foreign_keys.go:627 | schema names without NUL keep all group keys apart |
| `SourceAgreement.FillingRestores` | pkg/validations/foreign_keys.go:668-731 | for supported constraints the fallback's index pass restores the primary source's `Indexed` |
| `SourceAgreement.UnrepresentableSchemaAgrees` | pkg/validations/foreign_keys.go:535-543 | skipping the fallback statement for a schema no constraint names selects what the primary source would |
| `FoldedNames.ComputeFoldKey` | pkg/validations/spec_diff.go:334-349 | the lazily copied buffer is the name with A-Z lowered and every other character kept |
| `FoldedNames.LowersLetters` | pkg/validations/spec_diff.go:334-349 | the twenty-six capital letters are lowered and no other character is |
| `FoldedNames.AsciiFoldEqual` | pkg/validations/checks_pk.go:329-351 | decides equality of folded keys without building them |
| `FoldedNames.FoldCollisions` | pkg/validations/spec_diff.go:355-364 | adds exactly the keys shared by two positions of the list |
| `FoldedNames.NewFoldedIndex` | pkg/validations/spec_diff.go:373-388 | the last position of every exact name and of every key that is not excluded |
| `FoldedNames.LookupFinds` | pkg/validations/spec_diff.go:396-407 | looking up the built index answers the question stated on the two lists |
| `FoldedNames.FindsExactlyTheRelated` | pkg/validations/spec_diff.go:396-464 | a name is found exactly at the position it is related to: same spelling, or same folded key where neither list has two names of that key |
| `FoldedNames.RelatedByPositions` | pkg/validations/spec_diff.go:396-464 | two positions are related exactly by equal names, or by equal keys that no other name of either list has |
| `FoldedNames.MatchingIsSymmetric` | pkg/validations/spec_diff.go:414-464 | the matching is the same relation with the lists swapped |
| `FoldedNames.MatchingIsInjective` | pkg/validations/spec_diff.go:414-464 | no two names are matched to one |
| `FoldedNames.MatchingCounts` | pkg/validations/spec_diff.go:414-464 | matched plus absent is the length of each list, with equally many matched on both sides |
| `SpecDiff.DiffColumns` | pkg/validations/spec_diff.go:414-464 | every column of `a` in order (absent, renamed by case, differing attributes), then a sorted permutation of the columns only `b` has |
| `SpecDiff.DiffTableLevel` | pkg/validations/spec_diff.go:281-310 | the engine, charset, collation and comment comparisons, emitted in turn |
| `SpecDiff.DiffColumnPair` | pkg/validations/spec_diff.go:473-523 | the eleven comparisons emitted in turn are the kinds whose attribute differs, in the fixed order of kinds |
| `SpecDiff.ColumnSectionIsDetermined` | pkg/validations/spec_diff.go:447-463 | with distinct names the column section is one sequence, tail order included |
| `SpecDiff.DiffIndexes` | pkg/validations/spec_diff.go:584-646 | unconfirmed for one-sided capture; else every index of `a` in order with its differing attributes, then what only `b` has in its order |
| `SpecDiff.ReportIndexPair` | pkg/validations/spec_diff.go:608-631 | the five comparisons emitted in turn are the candidates whose condition holds |
| `SpecDiff.PartsEqual` | pkg/validations/spec_diff.go:650-657 | true exactly when the part lists agree element by element, column names up to ASCII case |
| `SpecDiff.DiffConstraints` | pkg/validations/spec_diff.go:661-702 | the same by exact name, the last of equal names in `b` standing for them all |
| `SpecDiff.DiffConstraintPair` | pkg/validations/spec_diff.go:710-753 | a change of kind alone, an unknown kind as unconfirmed, otherwise the differing fields of the common kind |
| `SpecDiff.DiffSpecs` | pkg/validations/spec_diff.go:271-279 | table level, columns, indexes and constraints in this order |
| `SpecContents.ComparisonHolds` | pkg/validations/spec_diff.go:271-279 | a comparison holds exactly the differences described part by part below, each with its condition, kind, side, name and values |
| `SpecContents.ComparisonUnrepeated` | pkg/validations/spec_diff.go:271-279 | with distinct names, no difference is reported twice |
| `SpecContents.TableLevelHolds` | pkg/validations/spec_diff.go:281-330 | the five table-level differences, with the side that did not capture the comment |
| `SpecContents.ColumnsHold` | pkg/validations/spec_diff.go:414-523 | differences of related columns, columns of `a` related to none in `b` as absent from `b`, and the reverse |
| `SpecContents.ColumnPairHolds` | pkg/validations/spec_diff.go:473-570 | the twelve differences of a column pair with the raw type, and defaults by side, text and expression flag |
| `SpecContents.ColumnsInOrder` | pkg/validations/spec_diff.go:419-446 | the reports of the columns of `a` follow one another in its order |
| `SpecContents.TailIsSorted` | pkg/validations/spec_diff.go:447-463 | what only `b` has comes by folded name, then by exact name, ascending by the first differing character |
| `SpecContents.IndexSectionHolds` | pkg/validations/spec_diff.go:584-646 | differences of related indexes, absence on the side where an index is related to none, or the side that did not capture |
| `SpecContents.IndexPairHolds` | pkg/validations/spec_diff.go:608-657 | the five differences of an index pair, parts compared by folded column, expression, prefix length and direction |
| `SpecContents.IndexesInOrder` | pkg/validations/spec_diff.go:592-634 | the reports of the indexes of `a` follow one another in its order |
| `SpecContents.AbsentIndexesInOrder` | pkg/validations/spec_diff.go:635-646 | the indexes only `b` has follow in its order |
| `SpecContents.ConstraintSectionHolds` | pkg/validations/spec_diff.go:661-702 | for all lists: differences of each constraint of `a` from the last of its name in `b`, absence on either side by exact name, or the side that did not capture |
| `SpecContents.ConstraintPairHolds` | pkg/validations/spec_diff.go:710-753 | the differences of a constraint pair, kind by kind, with the values shown |
| `SpecContents.ConstraintsInOrder` | pkg/validations/spec_diff.go:678-692 | the reports of the constraints of `a` follow one another in its order |
| `SpecDiff.DefaultSide` | pkg/validations/spec_diff.go:533-542 | for differing defaults, the side named is the one that has none |
| `SpecDiff.SectionAgreement` | pkg/validations/spec_diff.go:316-330 | both captured, or the one side that did not, or neither |
| `SpecEquivalence.ColumnPairSilent` | pkg/validations/spec_diff.go:473-523 | a column pair is silent exactly when all compared attributes agree |
| `SpecEquivalence.DefaultsCompared` | pkg/validations/spec_diff.go:552-562 | defaults agree exactly when both are absent or both present with one text and one expression flag |
| `SpecEquivalence.IndexPairSilent` | pkg/validations/spec_diff.go:608-631 | an index pair is silent exactly when names, parts up to case, uniqueness, type and visibility agree |
| `SpecEquivalence.ConstraintPairSilent` | pkg/validations/spec_diff.go:710-753 | a constraint pair is silent exactly when its kind is known and the fields belonging to that kind agree |
| `SpecEquivalence.ColumnSectionSilent` | pkg/validations/spec_diff.go:414-464 | with distinct names, no column difference exactly when the maps from exact name to attributes are equal |
| `SpecEquivalence.IndexListSilent` | pkg/validations/spec_diff.go:584-646 | the same for indexes |
| `SpecEquivalence.ConstraintListSilent` | pkg/validations/spec_diff.go:661-702 | the exact condition for an empty constraint comparison on all lists, repeated names included |
| `SpecEquivalence.ConstraintListSilentByName` | pkg/validations/spec_diff.go:661-702 | the same condition by name: the constraints of `a` are known, its namesakes agree, and the last of each name looks alike on both sides |
| `SpecEquivalence.ConstraintsSymmetricExactly` | pkg/validations/spec_diff.go:661-702 | an empty comparison is empty the other way exactly when the namesakes of the second list agree |
| `SpecEquivalence.ConstraintsTransitive` | pkg/validations/spec_diff.go:661-702 | empty comparisons chain for all lists, repeated names included |
| `SpecEquivalence.ConstraintsReflexiveExactly` | pkg/validations/spec_diff.go:661-702 | a constraint list compares empty with itself exactly when kinds are known and constraints of one name look alike |
| `SpecEquivalence.SharedNameBreaksReflexivity` | pkg/validations/spec_diff.go:671-690 | a CHECK and a foreign key of one name differ from themselves |
| `SpecEquivalence.SharedNameBreaksSymmetry` | pkg/validations/spec_diff.go:671-690 | a same-named CHECK on one side only is missed in one direction and reported in the other |
| `SpecEquivalence.EmptyMeansSameShape` | pkg/validations/spec_diff.go:271-279 | the comparison is empty exactly when table fields, captured sections and all named contents agree and the constraints of the first side are known and unambiguous; constraint names may repeat |
| `SpecEquivalence.EmptinessIsAnEquivalence` | pkg/validations/spec_diff.go:271-279 | emptiness is reflexive exactly on known and unambiguous constraints, symmetric exactly when the second side is unambiguous, and transitive always |
| `SpecEquivalence.DistinctNamesAreUnambiguous` | pkg/validations/spec_diff.go:671-674 | distinct constraint names are enough for the symmetric case |
| `SpecMirror.PairMirrors` | pkg/validations/spec_diff.go:473-542 | swapping a column pair swaps sides and values of every difference, in the same order |
| `SpecMirror.SectionHolds` | pkg/validations/spec_diff.go:414-464 | the column section holds exactly the differences of related columns and the columns without a relative, a statement that reads the same from both sides |
| `SpecMirror.SectionMirrors` | pkg/validations/spec_diff.go:414-464 | with the arguments swapped, the column section is a permutation of the mirrored differences |
| `SpecMirror.AbsenceSwaps` | pkg/validations/spec_diff.go:414-464 | a column is reported absent from `b` exactly when the swapped comparison reports it absent from `a` |
| `TypeNormalization.ChangesExactlyPlainWidths` | pkg/validations/spec_normalize.go:30-61 | a type changes exactly when it is an integer or YEAR type whose width is digits and says nothing, and it loses only the parenthesised width |
| `TypeNormalization.NormalizesByName` | pkg/validations/spec_normalize.go:30-101 | in words: the parenthesised digits of bigint, int, integer, mediumint, smallint, tinyint or year are removed, in any case, unless the type is tinyint with width 1 or some word of the attributes is zerofill in any case |
| `TypeNormalization.TinyintOneIsKept` | pkg/validations/spec_normalize.go:51-53 | tinyint(1) is kept and tinyint(4) becomes tinyint |
| `TypeNormalization.FieldsAreWords` | pkg/validations/spec_normalize.go:66-74 | the attribute fields are the runs of characters between white space |
| `TypeNormalization.UnsplitIsUnchanged` | pkg/validations/spec_normalize.go:31-39 | text in which no parenthesis is opened and closed after that is unchanged |
| `TypeNormalization.NormalizesParts` | pkg/validations/spec_normalize.go:30-61 | on base, optional width and attributes, the result is the same type with only the retained width |
| `TypeNormalization.NormalFormsDecideEquality` | pkg/validations/spec_normalize.go:30-101 | two such types normalise alike exactly when retained width, base and attributes agree, or neither retains a width and one spells the other by completing INT to INTEGER |
| `TypeNormalization.OnlyIntBeginsAnother` | pkg/validations/spec_normalize.go:81-88 | INT and INTEGER are the only two width-carrying bases of which one begins the other |
| `TypeNormalization.SpacedFormsDecideEquality` | pkg/validations/spec_normalize.go:30-101 | with attributes set off by a space, as the server writes them, base, attributes and retained width decide alone |
| `TypeNormalization.NormalizationIsIdempotent` | pkg/validations/spec_normalize.go:30-61 | on types whose attributes hold no parenthesis, normalising twice is normalising once |
| `TypeNormalization.IdempotentExactly` | pkg/validations/spec_normalize.go:30-61 | for a text split at its parentheses, normalising twice differs from once exactly when removing one plain width shows another |
| `TypeNormalization.IdempotentExceptTwice` | pkg/validations/spec_normalize.go:30-61 | the same condition for every text, split or not |
| `TypeNormalization.RunTogetherTypesCollide` | pkg/validations/spec_normalize.go:60-88 | two types with attributes not set off by a space that normalise alike |
| `TypeNormalization.SecondWidthDefeatsIdempotence` | pkg/validations/spec_normalize.go:41-60 | a text that changes twice, and one with a second parenthesised part that is stable |
| `Quoting.QuoteQualified` | pkg/sqlutil/sqlutil.go:45-52 | the text is read back as exactly the parts given |
| `Quoting.LexingUndoesQuoting` | pkg/sqlutil/sqlutil.go:36-38 | a quoted name, whatever its characters, never ends early and is lexed back |
| `Quoting.DoublesBackticks` | pkg/sqlutil/sqlutil.go:36-38 | a quoted name is the name between backticks with every backtick doubled and everything else unchanged |
| `Quoting.DotsBetweenParts` | pkg/sqlutil/sqlutil.go:45-52 | parts are joined by single dots, and no part gives the empty text |
| `Quoting.ParsingUndoesQuoting` | pkg/sqlutil/sqlutil.go:36-52 | parsing recovers every list of parts, empty ones included |
| `Quoting.ParsingAcceptsOnlyQuoted` | pkg/sqlutil/sqlutil.go:36-52 | the parser accepts nothing but what the printer writes |
| `Quoting.QuotingIsInjective` | pkg/sqlutil/sqlutil.go:36-52 | different lists have different texts |
| `ReplicaStatus.IndexColumns` | pkg/replication/replica_status.go:221-241 | every name at its first position, or the first promised name that is missing |
| `ReplicaStatus.DecodingFailsAtFirstRefused` | pkg/replication/replica_status.go:160-208 | a row fails exactly at its first refused column in promise order, naming the channel unless that is what was refused |
| `ReplicaStatus.FieldsComeFromTheirColumns` | pkg/replication/replica_status.go:160-208 | each field is the decoded value of its own column |
| `ReplicaStatus.FieldsBySpelling` | pkg/replication/replica_status.go:140-208 | each field is decoded from the first column with the server spelling of its name |
| `ReplicaStatus.ColumnSpellings` | pkg/replication/replica_status.go:140-155 | the twelve promised columns in the order in which they are missed |
| `ReplicaStatus.Scan` | pkg/replication/replica_status.go:246-254 | the reused buffer holds exactly the delivered row |
| `ReplicaStatus.ReadChannel` | pkg/replication/replica_status.go:265-283 | decoding through positions in the buffer is decoding by column name |
| `ReplicaStatus.ParseReplicaStatus` | pkg/replication/replica_status.go:104-138 | all rows in order or the first failure, without a partial list |
| `ReplicaStatus.ParsesExactly` | pkg/replication/replica_status.go:104-138 | a result is read exactly when its names are known and complete, every row decodes, and neither iteration nor closing fails; then row by row in order |
| `ReplicaStatus.MissingColumnReported` | pkg/replication/replica_status.go:221-241 | unknown names are a driver failure, otherwise the first missing column is named |
| `ReplicaStatus.FirstBadRowReported` | pkg/replication/replica_status.go:113-138 | the first row that cannot be decoded is reported, whatever follows it |
| `ReplicaStatus.DriverFailureReported` | pkg/replication/replica_status.go:104-138 | a failing iteration or close is reported when every row was read well |
| `ReplicaStatus.ParsingReadsNamesOnly` | pkg/replication/replica_status.go:104-283 | results that show the same values under the promised names parse alike, errors included |
| `ReplicaStatus.ColumnOrderIsInvisible` | pkg/replication/replica_status.go:104-283 | permuting distinctly named columns with their values changes nothing |
| `ReplicaStatus.UnknownColumnIsInvisible` | pkg/replication/replica_status.go:104-283 | inserting an unknown column with any values changes nothing |

## Left out

- Query execution, contexts, row closing, driver scanning and error texts: replaced by row sequences with flags for a broken delivery and a failing close; an error keeps its cause, its object and its numbers.
- The SELECT lists and orderings of the statements: texts without a placeholder, passed in; all text built around placeholders is spelled out.
- UTF-8 validity and the limit to the basic multilingual plane in `representable` (pkg/validations/predicate.go:124-135): an arbitrary predicate on names, so the results hold for this one too.
- Unicode case folding in `strings.EqualFold` on object names: equality under an arbitrary map from characters to representatives; names are sequences of characters, not bytes.
- 64-bit wrap-around of positions and counts: row positions and lengths are unbounded naturals; the flag word is a 64-bit vector.
- The library sort is an insertion sort whose callers see only its contract.
- Selection.OwnColumns: copies the column lists in a pass after the selection instead of inside it; `SelectOwned` is the two together, with what the caller is promised.
- TypeNormalization.ChangesExactlyPlainWidths: lower-casing knows A-Z and the dotted capital I, the only characters that lower to the letters of a type name.
- Text of values in a difference (`partsText`, `referenceText`, `ruleText`, `boolText`): a difference carries the values themselves, so whether two values share one text is not modelled.
- The driver's failure to report column names is a result set without names, decided before any row is read.
- Value conversions in `decode.go`: four arbitrary partial functions, since they rest on number parsing and floating point.
- One-line filters (`CheckFKIndexed`, `CheckCascadeRules`, `CheckFKMetadataVisibility`, primary key, engine, trigger and replication-lag checks): each is settled by reading one branch.
- Table capture queries, trigger ordering, binary log status, Group Replication facts, `IsSimpleIdentifier` and `ValidateIdentifier`: thin wrappers or single loops that would add only easy members.
- Finding messages, enum names, catalogs and JSON tags: finite tables.
