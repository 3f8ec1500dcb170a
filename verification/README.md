# Luminair: schema sync, document store and document service

Luminair is a headless content server. A schema directory declares document types and
relations; from them it derives a PostgreSQL schema and keeps a database in step with it;
documents are then created, linked, published and read through a service over SQL tables.
This project models four parts and proves what they keep and promise.

**Schema synchronisation.** `Naming` gives tables their names and reads kinds back from
them. `SchemaAst`, `SchemaDiff` and `Planner` compare two schemas by name under a policy and
order the steps in twelve phases. `Catalog` is the live database: each DDL step is accepted
or refused and has an effect on tables, columns, foreign keys and globally named indexes;
introspection reads all but the system tables and primary-key indexes. `StepEffects`,
`Convergence` and `Completion` follow whole runs. `DomainSchema` is the registry of types
and relations, `Builder` makes the desired schema of a registry, `BuiltSchema` says what it
contains, `RowColumns` that its columns are those the repository writes, and `Upgrade`
follows a database through releases of the registry. `Attainability` tells from the registry
which schemas a sync can reach, `Collisions` which attributes share an index name, and
`ServerStarts` follows the server's own starts, which run under the additive policy.

**Content.** `Content` and `Validator` hold values, constraints and validation; `Codec`
encodes values, stores them in the column type that the builder chose, and reads them back.
`Survival` says for which fields what is valid is still valid when read back.

**Document store.** `Instance` is the document aggregate. `DocumentStore` is the SQL
repository as transactions over four families of tables: working rows, published mirrors,
draft links and published links, and over the unique indexes that are live. `StoreInvariants`
proves what every run of saves and deletes keeps, `StoreSchema` that these references are the
foreign keys of the built schema, `LiveIndexes` that the row constraints are its unique
indexes and which of them are live after which syncs, `IndexCreation` what happens when they
are created over rows, `ReadBack` what is read after a write and what a write leaves alone,
`WhatIsSaved` what a save stores and refuses, told from the document alone.
`Enrichment` is the batch loading of related documents.

**Document service.** `DocumentsService` is the application service over a port that maps
type and id to a document; `ServiceRuns` holds the properties of command sequences, and
`ServiceOnTables` carries them over to the service running on the SQL tables.

## How the source's code appears

Loops that push, insert or remove are methods with loops, proved equal to a recursive
function of their input; the results are then proved about that function. The database, the
repository, the aggregate and the service are classes with the source's fields. Hash maps
and unordered query results are sets and maps that loops take from in any order, so every
result holds for every order. `hide` statements keep proofs small.

The following comes from outside and is a parameter: the clock, new ids, the outcome of a
permission check, whether the service's port answers, the regex engine, the iteration order
of hash maps, the row order of queries, and what a failed statement does to its transaction
(`LinkFailure`: PostgreSQL aborts it; the other reading, that it is skipped, is covered too).

Hypotheses that the loader does not check and that the results name: plural and singular
names are kebab-case and distinct, and an owner has no two relations of one attribute
(`WellNamed`, `StoreReady`; `ProperNames` adds what the loader checks of attribute ids), nor an
inverse attribute that hides it (`OwnersResolve`); a type's table name does not end in
`_link` (`KindsReadable`, where kinds are read from names).

## Where the code and its surroundings differ

- A new table comes without its indexes (`diff.rs:58-62`), so a second sync has work to do,
  against the expectation in `infrastructure/tests/dynamic_ddl_test.rs:359-368`
  (`FreshDatabaseNeedsTwoSyncs`, `OneSyncSettles`).
- The loader takes any precision of a decimal
  (`infrastructure/src/schema_loader/loader.rs:259-265`); with 0 the first sync breaks off
  (`NoDigitsNoDatabase`).
- Index names are global in the database but not uniquely decodable
  (`WellNamedYetUnreachable`, `SharedNamesExactly`), and a unique attribute named `pkey` has an
  index that introspection hides (`ReservedAttributeUnreachable`). For such a registry no
  number of syncs ends with an empty diff (`UnreachableNeverSettles`).
- Turning draft-and-publish off for a relation's target makes every later sync under the
  permissive policy break off at the drop of a table that is still referred to
  (`TurningMirrorOffBlocks`), because foreign keys of kept tables are not compared. The
  additive policy, which the server uses, refuses the drop before that.
- Uniqueness exists only as indexes, and a fresh database has none after the one sync that
  the server makes when it starts (`infrastructure/src/cli/runner.rs:66-79`): until another
  sync, unique attributes, singletons and has-one relations are not enforced by the database
  (`FirstSyncRefusesNoRow`). What has been stored by then can keep the indexes from being
  created, and every later start from succeeding (`SecondSingletonBlocksStarts`). A second
  document of a singleton type is refused exactly when the singleton's index is live, and
  never merged into the first (`SecondSingletonIffUnlocked`, `SecondSyncRefusesSingleton`),
  against `infrastructure/tests/document_repository_test.rs:434-469`.
- An error of a published-link insert is ignored, but in PostgreSQL it has aborted the
  transaction: the publication may be acknowledged and lost (`AbortingPublication`).
- The SQL repository forgets the last revision of drafts (`RevisionsRestart`), while on the
  port revisions count publications (`RevisionsCountPublications`).
- A create or update that also asks for related documents can fail after it has saved
  (`FailedCommand`).
- A relation within one type is always followed backwards when populated
  (`PopulateShowsTargets`).
- The validator accepts uids and emails longer than their 255-character columns, decimals
  with more digits than their column, texts with U+0000, dates and times outside the range of
  the database, and times finer than microseconds (`CodecLossless` says exactly which values
  survive unchanged). Most of these are refused or still valid when read back. The exceptions
  are decimal bounds finer than the column's scale (`LeastPriceIsLost`, `CheapItemIsStuck`)
  and uids that need the blanks after their 255th character (`SurvivesExactly`).
- The registry drops a relation whose id repeats an earlier one without a word
  (`RegistryKeepsFirsts`), and the loader does not reject it.

## Model

| member | source | states |
|---|---|---|
| Naming.KebabToSnakeInjective | infrastructure/src/persistence/naming/sanitize.rs:89-91 | on kebab-case identifiers the conversion to snake case loses nothing: equal results mean equal identifiers |
| Naming.UniqueDecoding | infrastructure/src/persistence/naming/provider.rs:135-140 | entity, published, draft-link and published-link names are four disjoint families and every name determines what it was made from: two roles have one name exactly when they are one role |
| Naming.ClassificationExact | infrastructure/src/persistence/migration/dynamic/introspector.rs:231-237 | suffix classification gives a managed table its kind back exactly when it is a link table or its base name does not end in `_link` |
| Naming.LinkClassesToldApart | infrastructure/src/persistence/migration/dynamic/planner.rs:59-82 | the planner's suffix check tells published link tables from draft ones, for every owner and attribute |
| SchemaDiff.ComputeDiff | infrastructure/src/persistence/migration/dynamic/diff.rs:50-144 | the nested loops with early return give the whole list of steps of a name-by-name comparison, or the first destructive step when the policy forbids it |
| SchemaDiff.DiffIsExact | infrastructure/src/persistence/migration/dynamic/diff.rs:57-141 | a step is in the diff exactly when it repairs a difference of table, column or index names, so nothing is missed and nothing is needless |
| SchemaDiff.DiffListsOnce | infrastructure/src/persistence/migration/dynamic/diff.rs:57-141 | between schemas whose tables, columns and indexes have distinct names no step is listed twice |
| SchemaDiff.EmptyDiffIffSameNames | infrastructure/src/persistence/migration/dynamic/diff.rs:57-141 | the diff is empty exactly when both schemas have the same table names and, per table, the same column and index names |
| SchemaDiff.AdditiveOnlyIsExact | infrastructure/src/persistence/migration/dynamic/diff.rs:57-141 | the additive policy succeeds exactly when every actual table, column and index name is desired, and then gives the very steps of the permissive policy |
| Planner.PlanMigrations | infrastructure/src/persistence/migration/dynamic/planner.rs:41-103 | the twelve vectors filled in one pass, then joined, are the stable arrangement of the steps by phase |
| Planner.PlanIsSortedAndStable | infrastructure/src/persistence/migration/dynamic/planner.rs:41-103 | the plan is ordered by the twelve phases and keeps the order of the diff within each |
| Planner.SamePerClassIsPermutation | infrastructure/src/persistence/migration/dynamic/planner.rs:41-103 | agreeing phase by phase means being a permutation: the plan loses no step and adds none |
| Planner.StableSortIsUnique | infrastructure/src/persistence/migration/dynamic/planner.rs:41-103 | there is only one such arrangement: any sorted list that agrees phase by phase is the plan |
| Planner.PlanIsIdempotent | infrastructure/src/persistence/migration/dynamic/planner.rs:41-103 | planning a plan changes nothing |
| Planner.PlanKeepsOrder | infrastructure/src/persistence/migration/dynamic/planner.rs:41-103 | indexes are dropped first and created last, tables go before those they refer to and come after them, everything that goes does so before anything comes, and new tables come before new columns |
| Catalog.Database.ExecuteMigrationPlan | infrastructure/src/persistence/migration/dynamic/executor.rs:202-223 | statements run one by one outside a transaction: on failure exactly the steps before the reported one have taken effect |
| Catalog.Database.Introspect | infrastructure/src/persistence/migration/dynamic/introspector.rs:48-253 | introspection reports every table outside the system list once, with its column names, foreign keys, its indexes except primary-key ones, and the kind its name suggests |
| Catalog.RunValid | infrastructure/src/persistence/migration/dynamic/executor.rs:36-128 | no run, broken off or not, leaves an index without its table or columns, or a foreign key without its columns, its target table or the columns it refers to there |
| StepEffects.TableAfter | infrastructure/src/persistence/migration/dynamic/executor.rs:36-128 | what any run does to a table that it does not drop: columns dropped and added, foreign keys lost with their columns |
| StepEffects.TableCreated | infrastructure/src/persistence/migration/dynamic/executor.rs:63-101 | after any run that creates it, a table that was not there has exactly the columns and foreign keys asked for |
| StepEffects.NoIndexOn | infrastructure/src/persistence/migration/dynamic/executor.rs:63-128 | creating a table brings no index along: a table without indexes stays without until one is created on it |
| StepEffects.IndexesCreated | infrastructure/src/persistence/migration/dynamic/executor.rs:113-128 | which indexes exist, and with which definition, after a run of index creations that are skipped when the name is taken anywhere in the database |
| Convergence.PipelinePlans | infrastructure/src/persistence/migration/dynamic/sync.rs:39-60 | introspection, permissive diff and planner together give a sorted plan of exactly the needed steps |
| Convergence.TablesAfterSync | infrastructure/src/persistence/migration/dynamic/sync.rs:39-60 | a completed run leaves exactly the desired tables with exactly the desired columns |
| Convergence.SystemTableUntouched | infrastructure/src/persistence/migration/dynamic/introspector.rs:17-30 | no sync, not even one that breaks off, changes a table on the system list |
| Convergence.NamedTablesStay | infrastructure/src/persistence/migration/dynamic/introspector.rs:17-30 | by name: the ten tables of the migrator, of roles and permissions, of access requests, users and snapshots are never touched, and of all others a completed sync leaves exactly the desired ones |
| Convergence.SettledIffNoSteps | infrastructure/src/persistence/migration/dynamic/diff.rs:57-141 | the live database has the desired names exactly when a further diff is empty, whatever order introspection returns |
| Convergence.TwoSyncFixpoint | infrastructure/src/persistence/migration/dynamic/sync.rs:39-60 | from any database whose first run completes, two runs settle it exactly when the desired names are attainable; the second run then never fails |
| Convergence.NeverSettles | infrastructure/src/persistence/migration/dynamic/sync.rs:39-60 | over any number of syncs, complete or not, a database ends up settled only if the desired names were attainable at the start |
| Convergence.ThirdDiffIsEmpty | infrastructure/src/persistence/migration/dynamic/sync.rs:39-60 | in the pipeline's own terms: the third diff is empty exactly when no desired table is on the system list and no desired index name is hidden, held by a system table or asked for twice |
| Convergence.OneSyncSettles | infrastructure/src/persistence/migration/dynamic/diff.rs:58-62 | one run is enough exactly when every index belongs to a table that was there and sits on columns that stay |
| Completion.SyncCompletes | infrastructure/src/persistence/migration/dynamic/planner.rs:41-103 | at every prefix of the plan the next step is accepted, so the run completes, exactly when no table that stays refers to one that goes and every new column has a type the database takes |
| Completion.SurvivingReferrerBlocks | infrastructure/src/persistence/migration/dynamic/executor.rs:36-61 | a table that stays and refers to one that goes stops the run |
| Completion.CompletedHasEnds | infrastructure/src/persistence/migration/dynamic/executor.rs:63-80 | a new link table without an `owner_id` or `target_id` column stops the run |
| Completion.BlockedForGood | infrastructure/src/persistence/migration/dynamic/executor.rs:202-223 | once a table that stays refers to one that is to go, every further sync, however many, breaks off at the drop of such a table |
| Completion.AdditiveOnlyLosesNothing | infrastructure/src/persistence/migration/dynamic/diff.rs:57-141 | no prefix of an additive plan loses a table, column, foreign key or index |
| DomainSchema.NewRegistry | domain/src/schema/registry.rs:20-36 | for any types and relations, also with repeated ids, the loops that fill the sets keep the first of each id and the plural-name index the last of each name |
| DomainSchema.RegistryKeepsFirsts | domain/src/schema/registry.rs:20-36 | a type or a relation survives exactly when no earlier one has its id, the others being dropped silently; so the ids of the registry are distinct, and the plural-name index is that of its own types where type ids were not repeated |
| DomainSchema.ByNameKeys | domain/src/schema/registry.rs:20-46 | the index has the plural name of every type and leads each to a type of that name |
| DomainSchema.ByNameIsLast | domain/src/schema/registry.rs:20-46 | of the types with one plural name the index leads to the last |
| DomainSchema.SchemaRegistry.FindRelationForAttr | domain/src/schema/registry.rs:66-76 | a relation is found exactly when one answers to the attribute from either side |
| DomainSchema.AnsweringIsFirst | domain/src/schema/registry.rs:66-76 | of several relations that answer to an attribute the first is found |
| Builder.BuildDocumentTypeTables | infrastructure/src/persistence/migration/dynamic/builder.rs:70-479 | the tables of one type: entity table, mirror when it publishes, and a draft and a published link table per owned relation |
| Builder.BuildLinkTables | infrastructure/src/persistence/migration/dynamic/builder.rs:313-475 | only relations the type owns give link tables, the published one only when the owner publishes |
| Builder.BuildDesiredSchema | infrastructure/src/persistence/migration/dynamic/builder.rs:27-68 | the four groups collected over the plural names and inserted by name in order |
| BuiltSchema.NamesAreDistinct | infrastructure/src/persistence/migration/dynamic/builder.rs:27-68 | no two tables to be made share a name, so inserting by name drops none |
| BuiltSchema.SchemaIsMade | infrastructure/src/persistence/migration/dynamic/builder.rs:27-68 | a table is in the schema exactly when it is that of a type, of a publishing type's mirror, of a relation, or of a relation with a publishing owner |
| BuiltSchema.Conservation | infrastructure/src/persistence/migration/dynamic/builder.rs:27-68 | the number of tables is types plus publishing types plus relations plus relations with a publishing owner, in any iteration order |
| BuiltSchema.OrderIrrelevant | infrastructure/src/persistence/migration/dynamic/builder.rs:27-68 | any two iteration orders of the hash map give the same tables |
| BuiltSchema.BuilderBuilds | infrastructure/src/persistence/migration/dynamic/builder.rs:27-68 | what the builder returns is a schema as the convergence and completion results require it |
| BuiltSchema.EveryAttributeHasColumn | infrastructure/src/persistence/migration/dynamic/builder.rs:156-185 | in the table of a type and in its mirror every attribute has exactly one column: of its type's SQL type, nullable exactly when not required, unique exactly when declared so; or, where its name is that of a system column, the system column |
| BuiltSchema.BlogTables | infrastructure/src/persistence/naming/mod.rs:17-84 | an example spelled out: names of tables, mirrors, indexes and foreign keys, and their definitions, for a collection with a unique attribute and a singleton |
| BuiltSchema.BlogLinks | infrastructure/src/persistence/naming/provider.rs:135-160 | the same for the link tables of a has-one relation between them |
| RowColumns.EntityRowsFit | infrastructure/src/persistence/migration/dynamic/builder.rs:82-185 | the columns of a type's table are those that the repository's statements name, each there once, of a type that takes the row's value, null only for optional attributes, with the id as primary key |
| RowColumns.MirrorRowsFit | infrastructure/src/persistence/migration/dynamic/builder.rs:187-296 | the same for the mirror, whose publisher may be null |
| RowColumns.LinkRowsFit | infrastructure/src/persistence/migration/dynamic/builder.rs:332-370 | a link table has the two columns that are inserted and selected, both in its primary key |
| BuiltSchema.BuiltWellFormed | infrastructure/src/persistence/migration/dynamic/builder.rs:70-479 | every index is on its own table and on columns that the table has |
| BuiltSchema.BuiltClosed | infrastructure/src/persistence/migration/dynamic/builder.rs:298-457 | every foreign key leads to a table of the schema of an earlier creation phase and to its id, so the foreign-key graph has no cycle |
| Upgrade.UpgradeCompletes | infrastructure/src/persistence/migration/dynamic/sync.rs:39-60 | moving a database from one registry's schema to another's completes exactly when every table that stays keeps its targets and every added column has a type the database takes |
| Upgrade.TurningMirrorOffBlocks | infrastructure/src/persistence/migration/dynamic/builder.rs:422-457 | switching draft-and-publish off for a relation's target while its owner keeps it: over any number of syncs each one breaks off at the drop of a table that a kept table refers to |
| Upgrade.UpgradeRealises | infrastructure/src/persistence/migration/dynamic/diff.rs:66-138 | after a completed upgrade the database has the new schema's foreign keys exactly when no kept table was to change its own |
| Upgrade.EveryReleaseCompletes | infrastructure/src/persistence/migration/dynamic/sync.rs:39-60 | over any history of releases that leave kept tables' foreign keys alone and add no column of a type the database refuses, every sync completes and the database realises the last release |
| Upgrade.FirstRelease | infrastructure/src/persistence/migration/dynamic/sync.rs:39-60 | the first sync of an empty database completes exactly when the database takes every column type of the schema, and then realises the schema |
| Upgrade.TypesTakenByDigits | infrastructure/src/schema_loader/loader.rs:259-265 | it takes them all if every decimal attribute has between one and a thousand digits, and only then, attributes named like a system column apart |
| Upgrade.NoDigitsNoDatabase | infrastructure/src/schema_loader/loader.rs:259-265 | a decimal attribute of precision 0, which the loader lets through, makes the first sync break off |
| Upgrade.FreshDatabaseNeedsTwoSyncs | infrastructure/tests/dynamic_ddl_test.rs:359-368 | the diff after the first sync is empty, as expected there, exactly for a registry without relations, singleton types and unique attributes |
| Attainability.IndexesAre | infrastructure/src/persistence/migration/dynamic/builder.rs:140-480 | the indexes of every table of the schema, told from what the table is made for: singleton, unique attributes, has-one owner, link target, and no others |
| Attainability.AttainableIffReachable | infrastructure/src/persistence/migration/dynamic/introspector.rs:160-172 | a registry's schema is attainable exactly when no table is on the system list, no unique attribute has column `pkey` or one ending in `_pkey`, no two tables ask for one index name, and no system table's index holds one |
| Attainability.UnreachableNeverSettles | infrastructure/src/persistence/migration/dynamic/sync.rs:39-60 | otherwise no number of syncs, complete or not, ends with an empty diff |
| Attainability.CollidingAttributesUnreachable | infrastructure/src/persistence/naming/mod.rs:62-64 | unique attributes of two types whose tables and columns run together to one index name make the names unreachable |
| Attainability.WellNamedYetUnreachable | infrastructure/src/persistence/naming/mod.rs:62-64 | a registry with ordinary names that does so: `role-name` of `user` and `name` of `user-role` |
| Attainability.ReservedAttributeUnreachable | infrastructure/src/persistence/migration/dynamic/introspector.rs:167-170 | so does a unique attribute whose index introspection takes for that of a primary key |
| Collisions.NamesCollide | infrastructure/src/persistence/naming/mod.rs:62-75 | two index requests of different tables have one name exactly when they are unique attributes of two types that run together with their tables, or a mirror's attribute `x-link-target` and the target index of the link table for `published-x` of the same type (or `link-target` and `published`) |
| Collisions.SharedNamesExactly | infrastructure/src/persistence/naming/mod.rs:62-75 | so two tables ask for one index name exactly when the registry has such a pair of unique attributes or such a publishing type |
| Collisions.ReachableExactly | infrastructure/src/persistence/migration/dynamic/introspector.rs:160-172 | which registries a sync can settle, told from table names, attribute ids and relation attributes alone |
| ServerStarts.AcceptsIsAdditive | infrastructure/src/cli/runner.rs:66-79 | the server's start is let through by the additive policy exactly when no table, column or visible index name of the database would be lost; its plan is then one of the permissive policy |
| ServerStarts.AcceptedStartCompletes | infrastructure/src/cli/migrate.rs:40-59 | an accepted start completes exactly when the database takes the types of the new columns, and the same schema is then accepted again |
| ServerStarts.TwoStartsSettle | infrastructure/src/cli/runner.rs:66-79 | two starts with one accepted schema are both accepted and complete, and leave nothing to do exactly when its names are attainable |
| ServerStarts.StartsAcceptedIffGrowing | infrastructure/src/cli/runner.rs:66-79 | any history of starts is accepted throughout exactly when names only grow from each release to the next (index names of a table once it has had two starts); all starts then complete, and the database ends with the tables and columns of the last release and the indexes of the tables that its predecessor had |
| ServerStarts.FreshStarts | infrastructure/src/cli/runner.rs:66-79 | so from an empty database; started twice with one release it is settled |
| Validator.NoSilentSkip | domain/src/schema/field_definition.rs:57-76 | on a value of the field's type the evaluator passes over exactly the constraints that the loader refuses for that type |
| Validator.NoSilentSkipInText | domain/src/schema/validator.rs:13-60 | the same for the text evaluator and localized texts |
| Validator.BoundsAreInclusive | domain/src/schema/validator.rs:13-110 | minimum and maximum together accept exactly the closed interval, for lengths, integers and decimals |
| Validator.BreaksIsRefuses | domain/src/schema/validator.rs:13-110 | the evaluators refuse a value exactly when it is of the constraint's own type and out of its bound, a text or uid by its length or by the engine's answer |
| Validator.ValidIsAccepted | domain/src/schema/validator.rs:112-192 | field type by field type, which values a field accepts: texts, uids and localized texts of permitted length that match, numbers within inclusive bounds and their size, any value of the other types |
| Validator.ValidIffNoViolation | domain/src/schema/validator.rs:112-192 | declarative validity holds exactly when the list of possible violations is empty |
| Validator.ValidateContent | domain/src/schema/validator.rs:112-192 | the loops report each violation exactly once and nothing else; no error is reported exactly when every attribute is declared and every declared one accepts its value |
| Validator.ConvertRawConstraints | infrastructure/src/schema_loader/loader.rs:271-419 | a field is refused exactly when an entry is not for its type or cannot be read; otherwise every requested constraint is taken over once |
| Validator.RequestsMeanWhatIsWritten | infrastructure/src/schema_loader/loader.rs:271-419 | and together they let through exactly the lengths, integers and decimals between the written bounds, both included, and the texts that the written patterns match |
| Codec.AsI16 | infrastructure/src/persistence/query/codec.rs:158-161 | the cast to i16 keeps the value exactly on its range |
| Codec.AsI32 | infrastructure/src/persistence/query/codec.rs:162-164 | the cast to i32 keeps the value exactly on its range |
| Codec.CodecLossless | infrastructure/src/persistence/query/codec.rs:22-179 | every type-correct value encodes without error, and encoding, storing in the column the builder made and reading gives it back exactly when it fits: no U+0000 in any text, 255 characters for uids and emails, the declared digits, dates and times in the database's range, whole microseconds |
| Codec.ThroughKeeps | infrastructure/src/persistence/query/codec.rs:22-179 | what comes back of any type-correct value, and what is refused: a time is cut to the microsecond, a decimal rounded to its scale within its digits, a uid or email cut after 255 characters if blanks follow, everything else comes back as it is or is refused |
| Codec.MicrosCut | infrastructure/src/persistence/query/document.rs:145-166 | the kept time is the one whole number of microseconds less than one away, between the given time and the start of 2000 |
| Codec.NumericRounds | infrastructure/src/persistence/migration/dynamic/builder.rs:496-498 | the kept decimal is a whole number of units of its last place, at most half a unit away, halves away from zero, with no more than the declared digits |
| Codec.RangesInYears | infrastructure/src/persistence/migration/dynamic/builder.rs:485-505 | the ranges of the date and timestamp columns in calendar years |
| Codec.EncodedIfTypeCorrect | infrastructure/src/persistence/query/codec.rs:22-132 | emails, URLs, localized texts and JSON are encoded for their own field type only |
| Codec.StoredValueIsStored | infrastructure/src/persistence/query/codec.rs:134-179 | whatever is encoded and accepted by a column is a value the column can hold |
| Codec.ReadThenStore | infrastructure/src/persistence/query/codec.rs:22-179 | reading a column never fails, and encoding and storing what was read gives the same column value again |
| ReadBack.ValidContentSurvives | domain/src/schema/validator.rs:112-192 | validated content is stored without loss exactly when every value fits; it then has no null where one is required, comes back filled with nulls, and validates again |
| Survival.SurvivesExactly | domain/src/schema/validator.rs:13-110 | every valid value that the column accepts reads back valid exactly when: for a decimal field, each of its own bounds does; for a uid field, cutting blanks after character 255 keeps texts valid; for any other field, always |
| Survival.CutKeptByLengths | infrastructure/src/persistence/migration/dynamic/builder.rs:485-505 | for a uid field without a pattern that means: no minimum length above 255, or contradictory lengths |
| Survival.LeastPriceIsLost | infrastructure/src/persistence/migration/dynamic/builder.rs:496-498 | Decimal(10,2) with minimum 0.001: the value 0.001 is valid, is stored as 0, and is then not valid |
| Instance.DocumentInstance.SetRelations | domain/src/content/instance.rs:58-70 | replaces the list by the targets in first-occurrence order and changes nothing else |
| Instance.DocumentInstance.ConnectRelations | domain/src/content/instance.rs:73-84 | appends the targets not yet there, keeping the old order |
| Instance.DocumentInstance.DisconnectRelations | domain/src/content/instance.rs:87-92 | removes exactly the given targets, and adds no entry for an absent attribute |
| Instance.DocumentInstance.Publish | domain/src/content/instance.rs:100-117 | moves to published with the next revision, touches the document, and returns that revision |
| Instance.DocumentInstance.Unpublish | domain/src/content/instance.rs:120-135 | succeeds exactly on a published document, remembers its revision and leaves a draft unchanged |
| Instance.AppendedIsUnion | domain/src/content/instance.rs:73-84 | connecting is an ordered union: old list as a prefix, exactly the union of elements, no duplicates introduced |
| Instance.AppendedInStages | domain/src/content/instance.rs:73-84 | connecting twice is connecting the concatenation |
| Instance.WithoutIsDifference | domain/src/content/instance.rs:87-92 | disconnecting is the set difference and introduces no duplicates |
| Instance.DisconnectUndoesConnect | domain/src/content/instance.rs:73-92 | disconnecting what was connected undoes it exactly when none of it was there before |
| Instance.PublicationHistory | domain/src/content/instance.rs:100-141 | over any life of a document the n-th publication is revision n, the version counts the changes that took effect, and revisions stay below the version until the version wraps |
| DocumentStore.DocumentStore.Upsert | infrastructure/src/persistence/query/document.rs:128-199 | the working row is inserted or updated exactly when not-null constraints and the unique indexes that are live on its table allow it; an existing row keeps its creation time |
| DocumentStore.DocumentStore.PublishedUpsert | infrastructure/src/persistence/query/document.rs:306-393 | the same for the mirror row and the mirror's own live indexes, with revision, publication time and publisher, who defaults to the owner |
| DocumentStore.BatchInsert | infrastructure/src/persistence/query/document.rs:220-239 | a batch insert with ON CONFLICT DO NOTHING into a cleared link table keeps all targets, or the first one where a unique index on the owner is live |
| DocumentStore.DocumentStore.SaveDraftLinks | infrastructure/src/persistence/repositories/document_instance_repository.rs:502-538 | the working links of every owned relation are replaced; it fails exactly when a kept target does not exist |
| DocumentStore.DocumentStore.SavePublishedLinks | infrastructure/src/persistence/repositories/document_instance_repository.rs:554-592 | the published links are replaced relation by relation; what an ignored failure does to the transaction is followed to its end |
| DocumentStore.DocumentStore.DeleteMirror | infrastructure/src/persistence/repositories/document_instance_repository.rs:593-606 | unpublishing removes the mirror row and every published link that leans on it |
| DocumentStore.DocumentStore.SaveDocument | infrastructure/src/persistence/repositories/document_instance_repository.rs:473-612 | the whole transaction: its result and the four tables after it, unchanged on any error |
| DocumentStore.DocumentStore.DeleteDocument | infrastructure/src/persistence/repositories/document_instance_repository.rs:614-638 | one deletion and its cascades; fails exactly for an unknown type |
| DocumentStore.DocumentStore.FindById | infrastructure/src/persistence/repositories/document_instance_repository.rs:54-192 | reads the document of a row: attributes, links of every owned relation in ascending order, publication state from the mirror |
| StoreInvariants.CascadeIsGreatest | infrastructure/src/persistence/migration/dynamic/builder.rs:422-457 | deletion leaves the largest part of the store without the document in which every reference holds |
| StoreInvariants.UnpublishIsGreatest | infrastructure/src/persistence/migration/dynamic/builder.rs:422-457 | unpublishing leaves the largest part of the store without the mirror row in which every reference holds |
| StoreInvariants.SaveKeepsSound | infrastructure/src/persistence/repositories/document_instance_repository.rs:473-612 | one save of any document, accepted or not, keeps every invariant of the tables, in both failure modes and whichever unique indexes are live |
| StoreInvariants.DeleteKeepsSound | infrastructure/src/persistence/repositories/document_instance_repository.rs:614-638 | one deletion keeps them too |
| StoreInvariants.ReachableIsSound | infrastructure/src/persistence/repositories/document_instance_repository.rs:473-638 | so every store reached by saves and deletes from a sound one, such as the empty one, has them: references, agreement with mirrors, and the row constraints, one target per owner and published links among working links as far as the live indexes go |
| StoreInvariants.PublicFilter | infrastructure/src/persistence/repositories/document_instance_repository.rs:585-591 | in every reachable store a published link leads from a published document to one that is published or whose type never is, and it is a working link unless only the working links of its relation are held to one target |
| StoreInvariants.MirrorAgreement | infrastructure/src/persistence/query/document.rs:306-393 | in every reachable store a mirror row exists exactly for the documents marked published, with the same attribute columns |
| StoreInvariants.LockedStaysUnique | infrastructure/src/persistence/query/document.rs:169-172 | in every reachable store two rows of one table never agree in a column with a live unique index: one row at most for a singleton whose index is live |
| StoreInvariants.SecondSingletonIffUnlocked | infrastructure/tests/document_repository_test.rs:434-469 | a second document of a singleton type that would be saved without that index is refused, and changes nothing, exactly when the singleton's index is live; it never updates the first, as expected there |
| StoreInvariants.DuplicateIffUnlocked | infrastructure/src/persistence/query/document.rs:128-199 | the same for a value that another document has in an attribute |
| StoreInvariants.MirrorTakesIt | infrastructure/src/persistence/query/document.rs:306-393 | in a sound store the mirror never refuses a row the working table took, as long as it has no index live that the working table has not |
| StoreInvariants.AbortedExactlyWhen | infrastructure/src/persistence/repositories/document_instance_repository.rs:585-591 | a transaction ends aborted but unreported exactly when the first relation whose published links fail is the last one the type owns |
| StoreSchema.IntactIsForeignKeys | infrastructure/src/persistence/migration/dynamic/builder.rs:298-457 | the references the store keeps are exactly the foreign keys of the schema the builder makes |
| StoreSchema.ForeignKeysAlwaysHold | infrastructure/src/persistence/migration/dynamic/builder.rs:298-457 | no run of saves and deletes breaks a foreign key of the built schema |
| StoreSchema.EveryKeyCascades | infrastructure/src/persistence/migration/dynamic/builder.rs:298-457 | each of them deletes with what it refers to |
| LiveIndexes.AsksByIndex | infrastructure/src/persistence/migration/dynamic/builder.rs:140-480 | on which columns each table of the schema asks for a unique index: the singleton column, unique attributes, the owner of a has-one relation |
| LiveIndexes.RowConstraintsAreIndexes | infrastructure/src/persistence/migration/dynamic/executor.rs:113-128 | the row constraints of the store are exactly the unique indexes of the built schema that are live |
| LiveIndexes.IndexesAlwaysHold | infrastructure/src/persistence/repositories/document_instance_repository.rs:473-638 | no run of saves and deletes breaks a unique index that is live |
| LiveIndexes.NewIndexesKeepSound | infrastructure/src/persistence/migration/dynamic/sync.rs:39-60 | indexes may change between runs: the store stays sound exactly when its rows meet the new ones and its published links stay among the working ones |
| LiveIndexes.NewTableHasNoIndex | infrastructure/src/persistence/migration/dynamic/diff.rs:58-62 | a table that a sync creates has no index after it, whether or not the sync completes |
| LiveIndexes.FirstSyncLocksNothing | infrastructure/src/persistence/migration/dynamic/diff.rs:58-62 | so after the first sync of a fresh database no unique index of the schema is live |
| LiveIndexes.SecondSyncLocksAll | infrastructure/src/persistence/migration/dynamic/sync.rs:39-60 | after two syncs, if the names are attainable, exactly the unique indexes that the schema asks for are live |
| LiveIndexes.IndexesOverReleases | infrastructure/src/persistence/migration/dynamic/diff.rs:57-141 | over any history of releases every index on a managed table is, definition and all, one that the last release asks for there |
| LiveIndexes.FirstSyncRefusesNoRow | infrastructure/src/cli/runner.rs:66-79 | in a store whose database was synchronised once, as the server does when it starts, every document whose attributes can be stored and whose targets exist is stored, be it a second singleton, one with a taken unique value or one with several has-one targets; except, where a failed statement aborts the transaction, a publication with a published link that cannot be inserted: it changes nothing, and is acknowledged all the same exactly when only the last relation's links fail |
| LiveIndexes.SecondSyncRefusesSingleton | infrastructure/tests/document_repository_test.rs:434-469 | after two syncs a second singleton is refused and changes nothing |
| IndexCreation.StartMeetsRows | infrastructure/src/persistence/migration/dynamic/executor.rs:113-128 | over tables with rows a start creates its missing indexes exactly when the rows take every one of them, and then leaves nothing to do; otherwise it breaks off, the indexes not taken stay missing, and tables and columns stay right |
| IndexCreation.SecondSyncMeetsRows | infrastructure/src/persistence/migration/dynamic/sync.rs:39-60 | the second sync of a fresh database goes through exactly when the rows stored since the first meet the constraints that its indexes bring |
| IndexCreation.BlockedByRows | infrastructure/src/cli/runner.rs:66-79 | as long as the rows do not take a missing index every start with that schema is accepted by the policy and breaks off, however many there are |
| IndexCreation.SecondSingletonBlocksStarts | infrastructure/src/cli/runner.rs:66-79 | so a second document of a singleton type, which a fresh database saves, keeps the server from starting for as long as there are two |
| ReadBack.ReadAfterWrite | infrastructure/src/persistence/repositories/document_instance_repository.rs:54-192 | after a successful save the document reads in its normal form (columns' values, missing attributes null, kept targets ascending, first creation time, owner as author and editor, drafts without a last revision), or the save was acknowledged and lost |
| ReadBack.AbortingPublication | infrastructure/src/persistence/repositories/document_instance_repository.rs:585-608 | where a failed statement aborts its transaction a publication is refused by the mirror's indexes, takes effect, is lost though acknowledged, or is refused, each exactly under its stated condition |
| ReadBack.AcceptedSave | infrastructure/src/persistence/repositories/document_instance_repository.rs:473-612 | where it is skipped, a save whose working row and links are accepted is refused exactly by the mirror's own indexes, so not at all while those are among the working table's |
| ReadBack.LoadThenSave | infrastructure/src/persistence/repositories/document_instance_repository.rs:54-612 | saving what was loaded leaves mirrors and working links as they are, and rows too exactly for types with draft-and-publish or rows not marked published |
| ReadBack.LoadThenSaveReached | infrastructure/src/persistence/repositories/document_instance_repository.rs:54-612 | so for every document of every store that saves and deletes reach |
| ReadBack.RevisionsRestart | infrastructure/src/persistence/repositories/document_instance_repository.rs:165-169 | a document saved as a draft comes back without a revision, so its next publication is number one again |
| ReadBack.SaveFrame | infrastructure/src/persistence/repositories/document_instance_repository.rs:473-612 | a save changes how no other document reads |
| ReadBack.DeleteFrame | infrastructure/src/persistence/repositories/document_instance_repository.rs:614-638 | a deletion changes how another document reads in nothing but the lists the deleted one was in |
| WhatIsSaved.SaveSaves | infrastructure/src/persistence/repositories/document_instance_repository.rs:473-612 | a save that reports success either was rolled back unreported or has this effect: the row with version, owner, publication flag, kept creation time and times cut to the microsecond; working links of the lists; the mirror row and published links, or their withdrawal; and nothing else |
| WhatIsSaved.SavedIsFound | infrastructure/src/persistence/repositories/document_instance_repository.rs:54-192 | and the document is then found, each attribute as its column keeps it, lists ascending, owner, times, version and publication state told from what was saved |
| WhatIsSaved.AttachedShowsSaved | infrastructure/src/persistence/repositories/document_instance_repository.rs:411-446 | populating a relation shows the saved attributes and audit trail too |
| WhatIsSaved.FoundIffThere | infrastructure/src/persistence/repositories/document_instance_repository.rs:54-88 | a lookup fails exactly for an unknown type and finds a document exactly when its row is there |
| WhatIsSaved.AcceptableIsComplete | infrastructure/src/persistence/repositories/document_instance_repository.rs:473-552 | what the working tables ask of a document: nothing required missing, every value storable, no clash in a locked column, and every target there |
| WhatIsSaved.SavedIffComplete | infrastructure/src/persistence/repositories/document_instance_repository.rs:473-612 | a document that is not being published is saved exactly when it meets that |
| Enrichment.FetchAttribute | infrastructure/src/persistence/repositories/document_instance_repository.rs:341-464 | one batch for one attribute gives every parent exactly what a lookup of its own link rows gives, in row order |
| Enrichment.FetchRelations | infrastructure/src/persistence/repositories/document_instance_repository.rs:318-471 | the batches of all attributes, unknown ones passed over; never an error in a sound store |
| Enrichment.TakeFor | application/src/services/documents.rs:112-122 | moving one document's children out of the map takes all of them and nothing else |
| Enrichment.Enrich | application/src/services/documents.rs:93-128 | every document gets what its own lookup would give, unless its id came earlier in the page: then it gets nothing; and everything attached is what a lookup by id finds, as a draft without relations |
| Enrichment.AttachedIsStored | infrastructure/src/persistence/repositories/document_instance_repository.rs:411-446 | attached documents are of the type that the attribute leads to and show the attributes and audit trail that are stored |
| Enrichment.LookupFinds | infrastructure/src/persistence/repositories/document_instance_repository.rs:446-464 | the lookup finds each existing child of the document once |
| Enrichment.LookupIsJoin | infrastructure/src/persistence/repositories/document_instance_repository.rs:341-464 | in a sound store the lookup is the join: each child once, and no other |
| Enrichment.OwnerInverseDuality | domain/src/schema/registry.rs:66-76 | between two types, enriching a page of owners attaches a target to an owner exactly when enriching a page of targets attaches that owner to that target |
| Enrichment.PopulateShowsTargets | infrastructure/src/persistence/repositories/document_instance_repository.rs:347-361 | populating an owner's attribute shows what it links to exactly when the relation leads to another type |
| Enrichment.SavedTargetsAreSeen | infrastructure/src/persistence/repositories/document_instance_repository.rs:502-538 | after a save, populating such a relation shows exactly the targets that were kept |
| DocumentsService.ApplyAction | application/src/services/documents.rs:137-195 | one action changes only its own list, and changes nothing when refused |
| DocumentsService.AllowedIsMayAct | application/src/services/documents.rs:137-190 | an action is accepted exactly for an attribute that names a relation from its owner's side, unless a has-one list would lead to two documents |
| DocumentsService.MutatedIsActedOn | application/src/services/documents.rs:131-199 | each list after the actions by its members: set to the targets, joined by them, without them, or gone; the others as they were |
| DocumentsService.ValidateAndApplyRelations | application/src/services/documents.rs:131-199 | whatever order the hash map gives, the actions succeed alike and every attribute ends as its own action leaves it |
| DocumentsService.MutatedIsUnique | application/src/services/documents.rs:131-199 | there is one such outcome |
| DocumentsService.Service.Create | application/src/services/documents.rs:276-339 | the command's effect and its error, guard by guard, with the promise of `CreateKeepsPromise` |
| DocumentsService.Service.Update | application/src/services/documents.rs:341-391 | the same for updates |
| DocumentsService.Service.Delete | application/src/services/documents.rs:393-415 | the same for deletions |
| DocumentsService.Service.Transition | application/src/services/documents.rs:417-499 | the same for publishing and unpublishing |
| DocumentsService.CreateKeepsPromise | application/src/services/documents.rs:276-339 | when a create succeeds and which error it gives otherwise; it stores a draft, version 1, of its creator, with the given content and the lists its actions make, and touches nothing else |
| DocumentsService.UpdateKeepsPromise | application/src/services/documents.rs:341-391 | when an update succeeds; it replaces the attributes it names, acts on the lists, counts the version on, notes editor and time, and leaves all else |
| DocumentsService.DeleteKeepsPromise | application/src/services/documents.rs:393-415 | a delete succeeds exactly when the port answers and takes writes, the document is there and the caller is permitted; the document is then gone and the others are as they were |
| DocumentsService.TransitionKeepsPromise | application/src/services/documents.rs:417-499 | publishing gives the next revision, time and publisher; unpublishing keeps the revision in mind and the editor as it was; both count the version on and leave content, relations and creation |
| ServiceRuns.ServedIsSafe | application/src/services/documents.rs:276-499 | after any sequence of commands every stored document is valid, its relation lists are its own, duplicate-free and within their kind, only publishing types have published documents, and singletons are single |
| ServiceRuns.FailedCommand | application/src/services/documents.rs:276-391 | a failed command leaves the documents alone, except when only fetching related documents failed after the save: then it has the full effect of the command without that request |
| ServiceRuns.CommandFrame | application/src/services/documents.rs:276-499 | a command touches no document but its own |
| ServiceRuns.UpdateIsPartial | application/src/services/documents.rs:341-391 | an update keeps what it does not name, replaces what it names, takes each action on the list that was there, and never publishes or unpublishes |
| ServiceOnTables.NormalFormIsSafe | infrastructure/src/persistence/repositories/document_instance_repository.rs:54-192 | a safe document reads back safe if the rules of its fields survive their columns: valid, with its own lists within their kind, and published only where its type publishes |
| ServiceOnTables.SingletonGuardIsHasRows | infrastructure/src/persistence/repositories/document_instance_repository.rs:640-662 | the service's guard against a second singleton, over documents, is the repository's query for a row of the type |
| ServiceOnTables.StepKeepsTablesSafe | application/src/services/documents.rs:276-499 | one command served from the SQL tables, be its save refused or lost or its deletion cascading, whichever indexes are live, leaves every row readable as a safe document and singletons single |
| ServiceOnTables.DeletedFromTables | infrastructure/src/persistence/repositories/document_instance_repository.rs:614-638 | a delete command served from the tables takes the row, its mirror row and every link from it or to it, exactly when it succeeds, and nothing else |
| ServiceOnTables.StoredIsRead | application/src/services/documents.rs:276-499 | what any other command stores on the port is what it saves in the tables, and can be read there unless the save was refused or lost |
| ServiceOnTables.ServedTablesAreSafe | application/src/services/documents.rs:276-499 | so after any sequence of commands over the SQL repository, whatever they write, if the rules of every field survive its column |
| ServiceOnTables.ServedSafeIffSurvives | application/src/services/documents.rs:276-499 | and only then: all runs are safe exactly when the rules of every field of every type that can have documents survive their columns |
| ServiceOnTables.InvalidFieldBlocksUpdates | application/src/services/documents.rs:341-391 | while a document holds an invalid value every update that leaves it alone is refused |
| ServiceOnTables.CheapItemIsStuck | application/src/services/documents.rs:341-391 | an item created with the least valid price is from then on refused every update that does not change the price |
| ServiceRuns.RevisionsCountPublications | application/src/services/documents.rs:417-499 | on the port the revision of a stored document is the number of its publications since it was created, through any unpublishing, and stays below its version until that wraps |

## Left out

- SQL text, sqlx and sea-query: statements are modelled by their effect on tables.
- Row data under DDL other than the creation of unique indexes (`IndexCreation`), such as adding a required column to a table with rows, and drift of column types, index definitions and foreign keys, which the diff does not compare.
- Size limits of values and of index entries; the range of the system's own times; live unique indexes on columns that no release asked for.
- Identifiers longer than 63 bytes, which PostgreSQL truncates; the shared namespace of tables and indexes; indexes that belong to constraints, which cannot be dropped alone; indexes of primary keys.
- A unique index that a foreign key depends on, which PostgreSQL does not drop: the builder's foreign keys all lead to primary keys, so this concerns databases that the pipeline did not make.
- Versions of PostgreSQL before 15, which also refuse a decimal whose scale exceeds its precision.
- Reserved SQL keywords as names, and the file layout the loader reads.
- Attributes named like a system column: the builder keeps the system column, and the model's rows do not mix the two.
- Parsing and sanitising of emails, URLs, UUIDs, decimals and dates: values hold the parsed or sanitised form.
- Codec.ReadThenStore: a text saved unvalidated into an email or URL column reads back as an email or URL, where the source would fail to parse it; validated documents never hold one.
- Codec.CodecLossless: a value of another kind than its column's is refused, where PostgreSQL converts some of them.
- Texts of validation errors, and their order among locales and undeclared attributes, which follow a hash map.
- DocumentsService.ValidateAndApplyRelations: which of several faulty actions is reported depends on the hash map; the model has one error for all.
- Catalog.Database.Introspect: column types, nullability and index columns of introspected tables are placeholders, because the diff never looks at them.
- Completion.SyncCompletes: foreign keys of kept tables are taken as they are; the diff never changes them.
- Lists with pagination, filters and counts (`find_by_type`, `count`, `find`), and the publication state they show.
- The in-memory repository of the service's unit tests, which keys documents by id alone.
- Permission matching, roles, access requests, HTTP handlers, DTO and JSON conversion, tokens, configuration, command line, health checks: plumbing or case tables.
- Concurrent writers: a save checks no version, so transactions are taken one after the other.
- The attribute name that every relation entry repeats: a list in the model holds target ids under that name.
