# A Dafny model of the Datamapper DMZ core

Datamapper DMZ is an object-relational mapper for CodeIgniter. Model classes declare their
fields, validation rules and `has_one` / `has_many` relationships. The library turns them
into database-backed objects. It resolves relationships to joins, builds WHERE / LIKE / ORDER BY
clauses and SQL function expressions, validates and saves objects, and keeps a stored snapshot
of each object so that an update sends only the changed columns.

This project models the deterministic part of that library as pure Dafny functions over
immutable values, and proves properties about them. The database is an abstract table store
(`Store`). The inflector (`singular` / `plural`), identifier protection, value escaping, label
lookup, the table's column list and custom rule callbacks are uninterpreted parameters held in
an environment (`Context.Env`). PHP values are a small tagged type (`PhpValues.Value`: null,
integer, string, boolean). The model states explicitly where the source compares with `==`
(`LooseEq`) and where with `===` (plain equality).

| file | module | what it models |
|---|---|---|
| results.dfy | Results | success / failure results and options |
| strings.dfy | Strings | string helpers: find, explode / implode, trims, case, integer text |
| values.dfy | PhpValues | PHP values, `empty()`, `isset()`, loose `==`, `in_array` |
| dicts.dfy | Dicts | PHP ordered arrays (keys in insertion order) |
| models.dfy | Models | model descriptors, relation records, validation entries |
| store.dfy | Store | the abstract table store: select, count, insert, update, delete |
| context.dfy | Context | the registry of models and the uninterpreted collaborators |
| tablename.dfy | TableNames | `add_table_name` |
| query.dfy | Query | the query builder state: select, joins, WHERE with groups, LIKE, ORDER BY |
| relations.dfy | Relations | relationship properties, join-table naming, join emission, deep paths, `include_related`, `_handle_related` |
| sqlfunc.dfy | SqlFunctions | `func`, `_process_function_arg`, `_func`, `_field_func`, `_subquery` |
| entities.dfy | Entities | the error object, `_to_array`, `_to_object`, `_process_query`, get rules, `clear`, `exists`, `refresh_all` |
| counting.dfy | Counting | `count` and `_count_related` |
| validation.dfy | Validation | the validation engine and the built-in and related rules |
| persistence.dfy | Persistence | the field diff and write of `save` |
| links.dfy | Links | `_save_itfk`, `_save_relation`, `_remove_other_one_to_one`, `_delete_relation`, `delete` |
| paging.dfy | Paging | the arithmetic of `get_paged` |
| magic.dfy | Magic | `__call` name parsing, extension lookup, `__get` of a relation |
| streaming.dfy | Streaming | `DM_DatasetIterator` and `get_iterated` |
| init.dfy | ModelInit | the constructor's normalisation of a model class |

Where the code evidently does something its authors did not intend, the model keeps the code's
behaviour in an `...AsWritten` member, exhibits the discrepancy in a lemma, and uses a corrected
member elsewhere (see "## Findings").

## Model

| member | source | states |
|---|---|---|
| TableNames.QualifyPiece | src/25_activerecord.php:37-47 | a piece is left-trimmed; it is prefixed with `table.` exactly when its leading word is `*` or one of the model's fields |
| TableNames.QualifyAll | src/25_activerecord.php:29-47 | one qualified piece per comma-separated piece, in order |
| TableNames.AddTableName | src/25_activerecord.php:23-51 | text that contains `.` or `(` comes back unchanged |
| TableNames.StarQualified | src/25_activerecord.php:38-43 | `*` comes back as `table.*` |
| TableNames.BareWord | src/25_activerecord.php:29-47 | a lone bare word comes back as `table.word` when it is a field, and unchanged otherwise |
| TableNames.AccumulateHasChar | src/25_activerecord.php:31-48 | every character of every piece appears in the rebuilt list |
| TableNames.AccumulateNonEmpty | src/25_activerecord.php:31-36 | once the text built is non-empty in PHP's sense, each further piece is appended after `, ` |
| TableNames.AccumulateFromEmpty | src/25_activerecord.php:30-36 | with no piece equal to `0`, the rebuilt list is the pieces from the first non-empty one on, joined by `, ` |
| TableNames.QualifyNone | src/25_activerecord.php:37-47 | when no piece names a field, qualifying each piece is only left-trimming it |
| TableNames.ReSplitTrims | src/25_activerecord.php:29-37 | exploding `a, b, c` at commas and left-trimming gives back the trimmed, comma-free pieces |
| TableNames.SecondPass | src/25_activerecord.php:26-48 | a list rebuilt from trimmed pieces that hold no comma, `.` or `(`, name no field and are not `0` has no `.` or `(` itself, and a second pass reproduces it exactly |
| TableNames.IdempotentWhenNothingNamed | src/25_activerecord.php:23-51 | when no piece names a field and none is `0`, qualifying twice is qualifying once |
| TableNames.AddTableNameIdempotent | src/25_activerecord.php:23-51 | qualifying an already qualified list changes nothing, provided no piece is the text `0` |
| TableNames.ZeroPieceGlues | src/25_activerecord.php:33-36 | the list `0,w` loses its separator, because `empty("0")` holds, giving `0w`; when `0w` is a field a second pass then qualifies it, so the `0` proviso of idempotence is needed |
| Query.PrependType | src/25_activerecord.php:611-619 | right after a group opens the connective is dropped and the flag lowered; otherwise the connective passes unchanged; nothing else in the builder changes |
| Query.GroupStart | src/25_activerecord.php:544-553 | a group opening with the `NOT ` part is appended, with no connective when it is the first WHERE entry or directly follows another opening; the group flag is raised; SELECT, joins, ORDER BY and joined aliases are untouched |
| Query.GroupStartConnected | src/25_activerecord.php:544-553 | opening a group with a non-empty connective keeps a well-connected builder well connected |
| Query.NotGroupStartAsWritten | src/25_activerecord.php:572-575 | not_group_start as written opens a NOT group joined by OR after an earlier condition, with no connective when first or after another opening |
| Query.NotGroupStart | src/25_activerecord.php:572-575 | corrected not_group_start opens a NOT group joined by AND after an earlier condition, with no connective when first or after another opening |
| Query.NotGroupStartOrs | src/25_activerecord.php:572-586 | after a condition, not_group_start as written produces exactly what or_not_group_start produces (an `OR NOT` group), while the corrected version opens an `AND NOT` group that differs from it |
| Query.GroupEnd | src/25_activerecord.php:594-599 | a group close is appended, the group flag is lowered, and the other parts of the query are untouched |
| Query.GroupEndConnected | src/25_activerecord.php:594-599 | closing a group keeps a well-connected builder well connected |
| Query.RenameSingle | src/25_activerecord.php:675-687 | a single key comes out of the renaming loop under its qualified name with its value, or unchanged when qualifying leaves it loosely equal |
| Query.RenameQualified | src/25_activerecord.php:679-687 | keys that already contain a `.` are left as they are by the renaming loop |
| Query.AddClauses | src/25_activerecord.php:689-691 | one condition is appended per key, in key order, with the key's value; the first WHERE entry of the query gets no connective and every later one gets the given connective; the rest of the query is unchanged |
| Query.AddClausesConnected | src/25_activerecord.php:689-691 | appending conditions with a non-empty connective keeps the WHERE list connected |
| Query.EmptyConnectiveDisconnects | src/25_activerecord.php:689-691 | two or more conditions added with the empty connective leave the second one without a connective, so the list is not connected |
| Query.WhereAsWritten | src/25_activerecord.php:673-695 | as written, where() keeps the earlier WHERE entries, adds one entry per renamed key, clears the group flag and leaves SELECT, joins and ORDER BY alone |
| Query.AsWrittenDropsSecond | src/25_activerecord.php:673-695 | as written, right after a group opens, a where() with two or more keys leaves the second condition without AND/OR |
| Query.WhereInGroupLosesConnective | src/25_activerecord.php:673-695 | in `or_group_start()->where(array('t.a' => x, 't.b' => y))` the code as written leaves the builder disconnected, while the corrected Where keeps it well connected |
| Query.Where | src/25_activerecord.php:673-695 | where() keeps the earlier WHERE entries, adds one entry per renamed key, clears the group flag and leaves SELECT, joins and ORDER BY alone |
| Query.TwoStagesConnected | src/25_activerecord.php:689-691 | a first condition that has a connective wherever one is needed, followed by the rest with a non-empty connective, keeps the list connected |
| Query.WhereConnected | src/25_activerecord.php:636-695 | where() and or_where() keep a well-connected builder well connected: inside a group only the first condition gives up its connective |
| Query.WhereAgrees | src/25_activerecord.php:673-695 | outside a group, or with at most one key, the code as written and the corrected Where build the same query |
| Query.WhereOneAppends | src/25_activerecord.php:673-695 | where() with one key appends exactly one condition: the key as add_table_name leaves it, its value, and no connective when it is the first WHERE entry or directly follows a group opening, the given one otherwise |
| Query.WhereIn | src/25_activerecord.php:779-787 | exactly one IN-list entry is appended, for the qualified key with the values and the NOT flag, carrying the connective its position calls for; the group flag is cleared |
| Query.WhereInConnected | src/25_activerecord.php:779-787 | where_in() with a non-empty connective keeps a well-connected builder well connected |
| Query.LikePattern | src/25_activerecord.php:978-989 | `before` gives `%v`, `after` gives `v%`, and any other side gives `%v%` |
| Query.LikeTerm | src/25_activerecord.php:969-976 | the case-insensitive form wraps the protected field in `UPPER(...)` and upper-cases the value; otherwise the field is used as it is; both end in `<not> LIKE` and carry the side's pattern |
| Query.LikeEach | src/25_activerecord.php:969-992 | the LIKE loop keeps the earlier WHERE entries and the other parts of the query; no field changes nothing; any field clears the group flag |
| Query.LikeEachConnected | src/25_activerecord.php:969-992 | each LIKE field goes through a one-key where(), so the loop keeps a well-connected builder well connected |
| Query.Like | src/25_activerecord.php:949-996 | like() and its variants keep the earlier WHERE entries as a prefix |
| Query.LikeConnected | src/25_activerecord.php:949-996 | every like/not_like/or_like/ilike variant keeps a well-connected builder well connected |
| Query.DbSelect | src/25_activerecord.php:396 | the SELECT list keeps its earlier entries and gains only non-empty pieces; nothing else in the query changes |
| Query.SelectStar | src/25_activerecord.php:390-400 | `select('*')` appends the single entry `table.*`, and afterwards the SELECT list still leaves room for the default ordering |
| Query.SelectOne | src/25_activerecord.php:396 | a piece with no comma and no surrounding blanks is appended to the SELECT list unchanged |
| Query.JoinOnce | src/35_relations.php:210-280 | afterwards the alias is recorded as joined; an alias already joined changes nothing; a new alias adds exactly one LEFT OUTER JOIN and one record |
| Query.OrderBy | src/25_activerecord.php:1086-1092 | one ORDER BY entry is appended: the qualified field with the direction; WHERE and SELECT are untouched |
| Query.DefaultOrderList | src/25_activerecord.php:1120-1127 | the default ordering gives one entry per default_order_by entry, in order |
| Query.DefaultOrders | src/25_activerecord.php:1120-1127 | the loop appends the default ordering to ORDER BY and changes nothing else |
| Query.HandleDefaultOrderBy | src/25_activerecord.php:1101-1129 | the default ordering is added exactly when default_order_by is non-empty, ORDER BY is empty, and SELECT is empty or holds `*`, `table.*` or its protected form; otherwise the query is unchanged; WHERE and SELECT are never touched |
| Query.DefaultOrderQualifiedOnce | src/25_activerecord.php:1101-1129 | when the default ordering applies, entry j is the field qualified once with its direction, although the code qualifies it twice |
| Relations.RelatedProperties | src/35_relations.php:30-87 | a plain name resolves to its own declaration when it is a has_many or has_one; otherwise it is NULL without the singular retry, and with it succeeds exactly when the singular is related; a path is resolved step by step (`Relations.TwoStepProperties`) |
| Relations.LocalProperties | src/35_relations.php:54-86 | a has_many or has_one name resolves to its declaration under that name; with no match and no singular retry the result is NULL; with the retry it succeeds exactly when the singular form is related, under the singular name, and is a fatal error otherwise |
| Relations.RelatedModel | src/35_relations.php:145 | stepping through a name succeeds only for a related name, and then gives the declared class's model |
| Relations.TwoStepProperties | src/35_relations.php:33-53 | for `a/b`: a fatal miss at `a` fails; NULL at `a` or `b` gives NULL; a hit at both gives b's declaration under the path rebuilt from the names actually found, singular forms included |
| Relations.RelationshipTable | src/35_relations.php:904-944 | this model's table when this side has_one the field and holds `<join_other_as>_id`; otherwise the other table when the other side has_one other_field and holds `<join_self_as>_id`; otherwise the synthesised join table |
| Relations.NameOrderStrict | src/35_relations.php:930-934 | of two names that are not loosely equal, exactly one sorts before the other |
| Relations.OrderedPairSymmetric | src/35_relations.php:930-934 | the ordered pair `a_b` is the same whichever name is given first |
| Relations.JoinTableSymmetric | src/35_relations.php:922-943 | with equal prefixes and distinguishable names, a relationship and its mirror declaration on the other model name the same join table |
| Relations.RelationshipTableSymmetric | src/35_relations.php:889-944 | unless both sides claim an in-table key, both sides of a relationship store it in the same table |
| Relations.AliasesFor | src/35_relations.php:174-185 | the joined table and join table are aliased by their own names only when the class equals the field name and the tables differ; otherwise `<field>_` is put in front; the deep-path prefix comes first in both cases |
| Relations.AliasedColumns | src/35_relations.php:510-531 | every accepted column appears as `alias.column AS <app>column`, and every entry produced comes from an accepted column; there are never more entries than columns |
| Relations.JoinRelationship | src/35_relations.php:235-267 | afterwards the join table's alias is recorded; an alias already joined changes nothing; otherwise one LEFT OUTER JOIN on `<this>.id = <alias>.<join_self_as>_id` is added and recorded; WHERE and ORDER BY are untouched |
| Relations.AddRelatedHop | src/35_relations.php:150-283 | a hop succeeds exactly when the field is related and its class is known; it leaves WHERE and ORDER BY alone and reports the related model as the target |
| Relations.HopRecords | src/35_relations.php:210-280 | after a hop, every alias it joined is recorded in the query's list of joined aliases |
| Relations.HopNoNewJoin | src/35_relations.php:210-280 | a hop whose aliases are already recorded adds no join and no record |
| Relations.HopJoinsOnce | src/35_relations.php:150-283 | resolving the same relationship a second time in one query succeeds, gives the same alias and adds no join |
| Relations.IdOnlySkipsTarget | src/35_relations.php:202-273 | with the id shortcut, a key on this side gives `<this>.<other>_id` and joins nothing; a key on the other side gives `<alias>.id`; a join table gives `<join alias>.<other>_id` and joins at most the join table |
| Relations.PathPieces | src/35_relations.php:127-129 | `a/b` contains a `/` and explodes into exactly `[a, b]` |
| Relations.AddRelatedTable | src/35_relations.php:110-147 | the field is lower-cased; a plain field joins exactly when it is a has_many or has_one whose class is known; a path joins only when its first step is related |
| Relations.DeepHops | src/35_relations.php:127-146 | the hop loop over a path succeeds only when its first step is related here with a known class; WHERE is kept (`Relations.DeepHopsKeepWhere`) |
| Relations.DeepTwoHops | src/35_relations.php:133-147 | for a two-step path, the first hop runs from this table without the id shortcut, and the second runs from the first alias with the `a_` prefix and the caller's shortcut; a failed first hop fails the whole path |
| Relations.TwoHopPath | src/35_relations.php:124-147 | `_add_related_table` on a lower-case `a/b` is exactly the two hops: `a` from this table without the shortcut, then `b` from a's alias with the `a_` prefix |
| Relations.AddRelatedTableKeepsWhere | src/35_relations.php:110-283 | joining a related table, deep or not, leaves the WHERE list unchanged |
| Relations.DeepHopsKeepWhere | src/35_relations.php:133-147 | a chain of hops leaves the WHERE list unchanged |
| Relations.HasOneChain | src/35_relations.php:482-492 | a successful walk means the first step is a has_one of this model |
| Relations.PropertyMap | src/35_relations.php:513-531 | every accepted column is mapped from its new name back to itself, and every new name in the map comes from an accepted column |
| Relations.SelectIncluded | src/35_relations.php:510-547 | with no column left nothing changes; otherwise the SELECT gains the joined `alias.column AS new` pieces, and the instantiation map is recorded exactly when asked for, under the path; it maps every kept column, a colliding `id` included, and nothing else |
| Relations.IncludeRelated | src/35_relations.php:457-551 | success requires that the name (or its singular) resolves, that every step is a has_one, and that the path can be joined; WHERE is untouched |
| Relations.IncludeRelatedNeedsHasOne | src/35_relations.php:484-489 | include_related on a related name that is not a has_one is an error |
| Relations.HandleRelated | src/20_main.php:1389-1414 | with no parent nothing changes and the query proceeds; a parent that names no relationship is a fatal error; an empty parent name or id resets the query and reports failure (_get_relation, src/35_relations.php:625-631); otherwise the earlier conditions are bracketed and exactly one condition follows them, holding the parent's id |
| Relations.HandleRelatedConnected | src/35_relations.php:633-641 | restricting to the parent keeps a well-connected builder well connected: the earlier conditions sit in their own brackets and the new one follows with AND |
| Relations.BracketConnected | src/35_relations.php:634-637 | putting brackets around a connected WHERE list keeps it connected |
| SqlFunctions.FieldRef | src/25_activerecord.php:132-156 | `@field` without a path is this model's field, table-qualified and protected; no reference adds a where condition |
| SqlFunctions.TextArg | src/25_activerecord.php:118-160 | a verbatim string (an operator in a formula, `*`, a quoted string) is copied as it is; anything else not starting with `@` is escaped; the where conditions are untouched |
| SqlFunctions.ProcessArg | src/25_activerecord.php:90-167 | processing an argument never adds a where condition |
| SqlFunctions.FormulaFrom | src/25_activerecord.php:93-109 | processing a formula never adds a where condition |
| SqlFunctions.CallText | src/25_activerecord.php:70-87 | a call's text starts with the name and an opening parenthesis and ends with a closing one |
| SqlFunctions.ArgsFrom | src/25_activerecord.php:77-84 | one text per argument is collected, in order, after those already collected; the first collected is the first argument processed from the current query |
| SqlFunctions.Func | src/25_activerecord.php:70-87 | func() never adds a where condition |
| SqlFunctions.ArgsFromKeeping | src/25_activerecord.php:77-84 | with arguments that add no join, the collected texts are the earlier ones followed by each argument's processed text, and the query is unchanged |
| SqlFunctions.FuncOfArgs | src/25_activerecord.php:70-87 | func('NAME', args...) with arguments that add no join is `NAME(`, the processed texts separated by `, `, then `)`, for any number of arguments |
| SqlFunctions.FormulaFromPlain | src/25_activerecord.php:93-109 | after a non-empty start, each further part that adds no join and has a non-empty text is appended after one space |
| SqlFunctions.FormulaOfParts | src/25_activerecord.php:93-109 | a formula whose parts add no join and have non-empty texts is those texts separated by single spaces, for any number of parts |
| SqlFunctions.BracketStripped | src/25_activerecord.php:123-130 | a bracketed string goes in as it is, without its brackets, inside a formula or out |
| SqlFunctions.OperatorOnlyInFormula | src/25_activerecord.php:111-160 | an operator is copied only inside a formula; as a plain argument it is escaped like any value |
| SqlFunctions.FieldReference | src/25_activerecord.php:132-155 | `@field` is this model's field, table-qualified and protected, and the query is unchanged |
| SqlFunctions.ParentReference | src/25_activerecord.php:139-143 | `@parent/x` stays a `${parent}.x` reference for the enclosing query to fill in |
| SqlFunctions.RelatedReference | src/25_activerecord.php:144-150 | `@a/b/prop` joins the path `a/b` as _add_related_table does and reads `prop` from the alias it returns; a failing join fails the argument |
| SqlFunctions.RelatedFieldRef | src/25_activerecord.php:146-149 | the same, for the reference after the `@` |
| SqlFunctions.SplitLast | src/25_activerecord.php:146-147 | exploding `x/last`, where `last` has no separator, gives the pieces of x and then `last`, so array_pop yields the property |
| SqlFunctions.TwoFields | src/25_activerecord.php:70-87 | func('NAME', '@a', '@b') is `NAME(<a>, <b>)` with both fields qualified and protected |
| SqlFunctions.FormulaOfOperands | src/25_activerecord.php:93-109 | a formula's operands are joined by single spaces with operators copied: ['@a', '+', n] is `<a> + n` |
| SqlFunctions.SpecialClause | src/25_activerecord.php:365-377 | a query name containing `where_in` calls the builder named by removing every `_in` from it, with ` IN ` after the field; otherwise a name containing `where_not_in` calls the builder named by removing every `_not_in`, with ` NOT IN ` after the field; any other builder is called as it is; a missing third argument defaults to FALSE |
| SqlFunctions.InBuilder | src/25_activerecord.php:366-368 | `where_in` calls `where` and `or_where_in` calls `or_where`, with ` IN ` after the field and FALSE as the third argument when none is given |
| SqlFunctions.NotInBuilder | src/25_activerecord.php:369-371 | `where_not_in` calls `where` and `or_where_not_in` calls `or_where`, with ` NOT IN ` after the field; the `where_in` test does not catch them |
| SqlFunctions.FuncClause | src/25_activerecord.php:179-202 | fewer than two arguments fail with the source's message; select adds `func(...) AS alias` to the SELECT list; other builders get the call text as the field and the last argument as the value, keeping any joins the call added |
| SqlFunctions.FieldFuncClause | src/25_activerecord.php:214-223 | fewer than two arguments fail with the source's message; otherwise the first is the field compared with the call |
| SqlFunctions.ParentIsTable | src/25_activerecord.php:327-329 | a `${parent}.x` reference in a subquery is read from this model's table |
| SqlFunctions.SubqueryClause | src/25_activerecord.php:235-279 | no argument, or a select with one, fails with the source's message; a select adds `(subquery) AS alias`; any other builder gets a call and leaves the query as it was |
| SqlFunctions.FieldAgainstSubquery | src/25_activerecord.php:264-277 | where_subquery(field, $subquery): the field is qualified and compared with the subquery's SQL, the third argument defaulting to FALSE |
| Counting.CountSourceOf | src/20_main.php:1087-1121 | the count resolves the relation named after the parent, without trying its singular, and succeeds exactly when that relation is declared and its class is known; it reads the relationship table of that relation, and the parent's own table is used unless a self-referencing has_one keeps its key the other way |
| Counting.CountSourceStrategy | src/20_main.php:1105-1121 | when the counted model's table holds the key, the count reads that table and not the parent's; when the parent holds it (outside the self-referencing case), the parent's table; a join table of another name is never the parent's |
| Counting.Narrowing | src/20_main.php:1122-1135 | a non-empty exclusion list adds `where_not_in` on the key column, a non-empty related id adds an equality on it, and every condition names that one column |
| Counting.ParentPlan | src/20_main.php:1107-1136 | a related count reads the relationship table, selects first by `id = parent` and `<self>_id IS NOT NULL` on the parent's table, else by `<other>_id = parent`, and then adds only conditions on the key column: one exclusion when ids are given and one equality when a related id is |
| Counting.CountPlanAsWritten | src/20_main.php:1085-1149 | without a parent the plan is the model's own table narrowed by `id`; with one it is built exactly when the relationship back to the parent resolves, and it narrows by `<join_self_as>_id` |
| Counting.CountPlanOf | src/20_main.php:1085-1149 | corrected: the same plan, but narrowing by `id` when the counted model's own table holds the key |
| Counting.Count | src/20_main.php:1085-1180 | corrected count: it succeeds exactly when its plan's table exists and has every column the plan names, and then is the number of that table's rows satisfying every condition |
| Counting.CountAsWritten | src/20_main.php:1085-1180 | count() as written: it succeeds exactly when its own plan can be built and names an existing table and columns, and then is the number of rows that plan selects |
| Counting.CountAgrees | src/20_main.php:1122-1135 | the corrected and the as-written count agree whenever nothing is excluded or matched, and wherever the two key columns coincide |
| Counting.CountOwnTable | src/20_main.php:1138-1149 | without a parent, a row is counted exactly when its id is not among the excluded ids |
| Counting.CountAsWrittenNamesMissingColumn | src/20_main.php:1110-1127 | as written, excluding ids when the counted model's own table holds the key names a column that table lacks, so the count fails |
| Counting.CountExcludesById | src/20_main.php:1110-1127 | corrected, the same count succeeds and excludes by `id` |
| Counting.CountPassed | src/35_relations.php:1011-1044 | _count_related_objects reports as many ids as it counts |
| Counting.CountOne | src/35_relations.php:1027-1041 | a passed object named like the compared relation counts once, with its id, exactly when it exists |
| Counting.CountItemsSum | src/35_relations.php:1014-1025 | an array's count is its first element's count plus the rest's, each element named by its string key or the enclosing name |
| Counting.UniqueIdsTexts | src/35_relations.php:973 | array_unique keeps exactly the id texts it is given, each once |
| Counting.UniqueIdsFrom | src/35_relations.php:973 | every kept id comes from the input, and there are no more of them |
| Counting.UniqueIdsCovers | src/35_relations.php:973 | every input id has its text among the kept ones |
| Counting.UniqueIdsDistinct | src/35_relations.php:973 | no two kept ids have the same text |
| Counting.UniqueIdsEmpty | src/35_relations.php:973 | the result is empty exactly when the input is |
| Counting.PassedTally | src/35_relations.php:969-974 | nothing passed counts nothing; otherwise as many ids as the count |
| Counting.CountRelated | src/35_relations.php:959-996 | _count_related, on count() as written: a success means the relation name resolved, and it never counts fewer than the matching passed objects |
| Counting.CountRelatedCorrected | src/35_relations.php:959-996 | the same on the corrected count |
| Counting.CountRelatedAgrees | src/35_relations.php:973-993 | the two agree when no passed object is excluded from the stored count, and wherever the key columns coincide |
| Counting.StoredCountDecides | src/35_relations.php:976-993 | once the relation resolves, the result depends on the stored count alone |
| Counting.CountRelatedSkipsStore | src/35_relations.php:976-993 | a new object, or a has_one with a passed match, counts only the passed objects |
| Counting.CountRelatedAddsStored | src/35_relations.php:976-993 | an existing object adds the stored relations other than the passed ones, counted back from the related model by count() as written with the passed ids excluded, and fails exactly when that count fails |
| Validation.Returned | src/20_main.php:910-942 | a rule counts as failed exactly when its method returned a string or exactly FALSE |
| Validation.FirstMatch | src/45_val_rules.php:139-143 | get_where(..., 1, 0) yields nothing exactly when no row holds the conditions, and otherwise the first such row in table order |
| Validation.UniqueRule | src/45_val_rules.php:135-156 | an empty value is always unique, and the rule never changes the object's properties |
| Validation.UniquePairRule | src/45_val_rules.php:168-189 | a pair with an empty half is always accepted, and the rule never changes the object's properties |
| Validation.TrimRule | src/45_val_rules.php:348-352 | an empty value is left alone; any other value becomes the trimmed text of its string form |
| Validation.BooleanRule | src/45_val_rules.php:259-262 | the field becomes its truth value, and every other property is unchanged |
| Validation.RelatedVerdict | src/40_val_related.php:23-55 | related required passes iff the count is non-zero; related min_size iff the count is at least the size; related max_size iff at most the size |
| Validation.RunRule | src/20_main.php:888-940 | a related field's rule runs as `related_<rule>` on the unchanged properties; any other rule keeps its own name |
| Validation.FindLast | src/20_main.php:960 | strrpos: the position found holds the needle and no later one does; no position is found exactly when the needle occurs nowhere |
| Validation.ErrorLine | src/20_main.php:942-952 | a string the rule returned is the message; otherwise the language line, else the fixed fallback naming the rule |
| Validation.FallbackNamesRule | src/20_main.php:946-950 | with no returned string and no language line, the message is the fixed sentence naming the rule and ending with a full stop |
| Validation.RunChain | src/20_main.php:885-978 | with no rules left the chain passes, leaving the properties as they are |
| Validation.RunRules | src/20_main.php:885-978 | the same for the rules of one field, dispatched rule by rule |
| Validation.FailureIgnoresLaterRules | src/20_main.php:977 | once a rule fails, appending more rules changes nothing: they never run |
| Validation.PassingRulesCompose | src/20_main.php:885-978 | when every rule passes, further rules run on from the properties the passing ones left |
| Validation.RunChainShift | src/20_main.php:885-978 | running a chain past its first part is running its second part |
| Validation.CheckField | src/20_main.php:862-980 | checking one field records at most one message, appended after the errors already recorded, and records nothing else |
| Validation.CheckFields | src/20_main.php:857-981 | the fields are checked in declaration order; at most one message per field is appended, and earlier errors are kept |
| Validation.Validate | src/20_main.php:841-987 | a validated object is returned unchanged; otherwise it becomes validated, is valid exactly when no error is recorded, with at most one error per validation entry, and its stored values are untouched |
| Validation.SkipValidation | src/20_main.php:999-1004 | skip_validation sets both the validated and the valid flag to the argument and changes nothing else |
| Validation.SkippedStaysValid | src/20_main.php:841-853 | after skip_validation() validate() is a no-op and the object stays valid |
| Validation.ValidateIdempotent | src/20_main.php:841-853 | validating a validated object changes nothing |
| Validation.NoRulesNoErrors | src/20_main.php:857-866 | with no rules anywhere, validate() records no error, leaves the properties alone and the object is valid |
| Validation.UnchangedFieldSkipped | src/20_main.php:868-871 | a non-related field still holding its stored value is not checked at all |
| Validation.BlankOptionalSkipped | src/20_main.php:874-880 | an optional field left unset or '' is not checked unless its rules say required or always_validate |
| Validation.FailureRecorded | src/20_main.php:942-977 | a failing rule's message is recorded against its field and appended to all, wrapped in the configured prefix and suffix |
| Validation.BuiltInDispatch | src/20_main.php:920-924 | a rule the ORM implements itself runs that implementation, whatever hooks exist |
| Validation.MinSizeBuiltIn | src/45_val_rules.php:106-110 | min_size returns TRUE unless the value is below the size, an array parameter being larger than any scalar |
| Validation.MaxSizeBuiltIn | src/45_val_rules.php:120-123 | max_size returns TRUE unless the value is above the size |
| Validation.MinSizeFailsBelow | src/45_val_rules.php:106-110 | on an integer field with an integer size, min_size fails exactly when the value is below the size |
| Validation.MaxSizeFailsAbove | src/45_val_rules.php:120-123 | on an integer field with an integer size, max_size fails exactly when the value is above the size |
| Validation.MatchesFailsUnlessIdentical | src/45_val_rules.php:64-67 | matches fails exactly when the field is not identical (`!==`) to the other field, and changes no property |
| Validation.ValidMatchFailsUnlessListed | src/45_val_rules.php:244-247 | valid_match with a list fails exactly when the value is not loosely in the list, and changes no property |
| Validation.AlwaysValidateInert | src/45_val_rules.php:22-24 | always_validate never fails and changes no property |
| Validation.UniqueAcceptsOwnRow | src/45_val_rules.php:135-156 | unique accepts a value whose first holder in the table is this very object |
| Validation.UniqueRejectsTaken | src/45_val_rules.php:135-156 | unique rejects a non-empty value whose first holder in the table is another object |
| Validation.TrimRuleIdempotent | src/45_val_rules.php:348-352 | running the trim rule twice is running it once |
| Validation.BooleanRuleIdempotent | src/45_val_rules.php:259-262 | running the boolean rule twice is running it once |
| Validation.AlternativesOfTwo | src/20_main.php:954-964 | two alternatives read "a or b" in a message, provided the second has no comma |
| Validation.ParamShownOfTwo | src/20_main.php:954-971 | an array parameter of two values is shown as "a or b" when that text does not name a validated field |
| Validation.RelatedRequiredByPassedObject | src/40_val_related.php:23-26 | a required has_one relation is satisfied by a passed existing object named after it, without consulting the store |
| Persistence.Stamp | src/20_main.php:304-314 | `updated` takes the timestamp whenever it is a declared field; `created` only when declared and still empty; every other property is unchanged |
| Persistence.Changed | src/20_main.php:335-342 | a declared field is sent on update exactly when its value is not identical to the stored one, and with its current value |
| Persistence.Populated | src/20_main.php:372-379 | a declared field is inserted exactly when it is set, with its value, so no NULL is inserted |
| Persistence.WriteRow | src/20_main.php:328-397 | with no declared fields nothing is written and the save reports no row result; otherwise the row write reports success |
| Persistence.Persist | src/20_main.php:328-399 | after a successful write every declared field's stored value equals its current value, and the public force flag is cleared while the internal one is kept |
| Persistence.SavePlain | src/20_main.php:283-427 | a save returning FALSE leaves the store as it was; the public force flag is cleared and the internal one kept on every path |
| Persistence.SaveAsNew | src/20_main.php:265-269 | save_as_new() saves with the internal force flag set |
| Persistence.InvalidSavesNothing | src/20_main.php:289-292 | a save failing validation writes nothing, returns FALSE, and leaves the validated object with the public flag cleared |
| Persistence.SavedIsClean | src/20_main.php:328-399 | a valid save of an object with declared fields returns TRUE and leaves no declared field differing from its stored value |
| Persistence.UpdateSendsChanged | src/20_main.php:332-362 | on the update path exactly the non-identical fields are sent, by id, in one UPDATE |
| Persistence.OnlyUpdatedReverted | src/20_main.php:345-352 | when only `updated` differs it is put back to its stored value and nothing is written |
| Persistence.InsertTakesId | src/20_main.php:369-388 | on the insert path one INSERT of the set fields is sent, no NULL among them, and the object takes the insert id |
| Persistence.ForcedInsertSticks | src/20_main.php:265-269 | save_as_new() never clears the internal flag it sets, so the next plain save inserts again instead of updating |
| Links.StampUpdate | src/20_main.php:559-568 | update() sets `updated` to the timestamp exactly when `updated` is a declared field, and leaves every other column of the data as it was |
| Links.StampUpdateLikeSave | src/20_main.php:559-568 | the stamp update() adds agrees with the one save() applies on every column but `created` |
| Links.PairRow | src/35_relations.php:697 | the join-table row holds exactly the two key columns, the object's id under the other key and this object's id under this key when the two differ |
| Links.PairConds | src/35_relations.php:700 | looking up or deleting the join row asks, for each key of that row and for nothing else, that the column equal the row's value |
| Links.PairSelects | src/35_relations.php:700 | a row is selected exactly when its other key holds the object's id and, when the two keys differ, its own key holds this object's id |
| Links.OthersPointing | src/35_relations.php:810-814 | the reset selects the rows pointing at the object, and excludes this object's own row exactly when this object exists |
| Links.RemoveOtherOneToOne | src/35_relations.php:794-816 | nothing happens when the object does not exist |
| Links.OnlyThisRowPoints | src/35_relations.php:794-816 | after the reset of a one-to-one key, the only row of this table that can still point at the object is this object's own |
| Links.JoinLink | src/35_relations.php:695-761 | a join-table link never changes this object in memory |
| Links.SaveRelation | src/35_relations.php:658-782 | `_save_relation` returns TRUE only when both objects exist and the relation resolves with a known class; the per-branch behaviour is stated by `Links.SaveRelationNeedsBoth`, `Links.ExistingPairNoWrite`, `Links.ManyToOneMovesRow` and `Links.JoinLink` |
| Links.SaveRelationNeedsBoth | src/35_relations.php:763-781 | relating to an object that does not exist, or from one, writes nothing, returns FALSE and records `dm_save_rel_noobj` or `dm_save_rel_nothis` against the relation |
| Links.ExistingPairNoWrite | src/35_relations.php:700-760 | a pair already in the join table is reported saved with no write |
| Links.ManyToOneMovesRow | src/35_relations.php:705-725 | has_many to has_one: when the object already has a join row, that one row is re-pointed at this object by one UPDATE rather than a second row added |
| Links.SaveItfk | src/20_main.php:437-480 | _save_itfk never leaves more objects to relate than it was given |
| Links.ItfkStep | src/20_main.php:441-478 | each element either stays in the list or leaves it; an object whose relation does not keep its key on this row always stays |
| Links.ItfkKeeps | src/20_main.php:437-480 | the objects left to relate are the ones already there followed by elements of the input, in order, and include every object whose relation does not keep its key on this row |
| Links.AsArray | src/20_main.php:318-324 | a single passed object is wrapped into an array |
| Links.Save | src/20_main.php:283-427 | save() with relations clears the public force flag |
| Links.SaveReporting | src/20_main.php:283-427 | the corrected save() clears the public force flag as well |
| Links.SaveHidesRelationFailure | src/20_main.php:402-426 | as written, a relation that could not be saved still lets save() return TRUE, where the corrected save() returns FALSE |
| Links.SaveReportsRelations | src/20_main.php:402-426 | corrected, save() returns TRUE exactly when the row write succeeded and every relation was saved |
| Links.SaveRelated | src/20_main.php:492-512 | a single object is related only if both it and this object exist; an empty array relates nothing and reports TRUE; for arrays see `Links.SaveRelatedAllOrNothing` |
| Links.SaveRelatedAllOrNothing | src/20_main.php:492-512 | _save_related_recursive reports TRUE only when every element, related from the state the elements before it left, reported TRUE |
| Links.ItfkTakesKey | src/20_main.php:459-476 | a has_one whose key is on this row: an object already stored there stays in the list and nothing is written; a different one has its id written into this row, the other rows pointing at it reset, and leaves the list |
| Links.DeleteRelation | src/35_relations.php:830-875 | without both ids nothing is written and FALSE is returned; the three branches with both ids are stated by `Links.DeleteRelationClearsOwnKey`, `Links.DeleteRelationClearsOtherKey` and `Links.DeleteRelationRemovesPair` |
| Links.DeleteRelationClearsOwnKey | src/35_relations.php:848-854 | when the key is this object's `<join_other_as>_id` column, that column is set to NULL and this object saved; the result is TRUE whatever the save reported (:871), fails only when the save fails, and a refused save leaves the store as it was |
| Links.DeleteRelationClearsOtherKey | src/35_relations.php:855-859 | when the key is on the object's table, the object's `<join_self_as>_id` is set to NULL and the object saved under its own model; this object is unchanged and the result is TRUE whatever the save reported (:871) |
| Links.DeleteRelationRemovesPair | src/35_relations.php:860-871 | a join-table relation is removed by deleting exactly its pair row, after which no such row is left, and TRUE is returned |
| Links.DeleteEach | src/20_main.php:699-737 | deleting the relations to a list returns TRUE only when every element can be deleted: an object with an id, or an array one level down |
| Links.DeleteItem | src/20_main.php:708-727 | one element reports TRUE only when it is an object with an id or an array one level down |
| Links.DeleteObject | src/20_main.php:637-754 | deleting an object without an id does nothing and returns FALSE |
| Links.DeleteRemovesRow | src/20_main.php:641-696 | deleting an object sends the DELETE of its own row first, returns TRUE and leaves the object cleared, no longer existing |
| Links.UnlinkOne | src/20_main.php:659-684 | unlinking one relation of a deleted object fails when its class is unknown, keeps the set of tables, and makes at most one write: an UPDATE setting the `<join_self_as>_id` column to NULL on the related table, or a DELETE from the relationship table, each only where that column equals this id |
| Links.UnlinkAll | src/20_main.php:651-686 | unlinking every relation of one kind in declaration order keeps the set of tables; that it only appends to the write log is `Links.UnlinkAllAppends` |
| Links.UnlinkAllAppends | src/20_main.php:651-688 | removing the links of a deleted object only appends to the write log |
| Links.DeleteEmptyListSucceeds | src/20_main.php:699-737 | delete() on an empty array deletes nothing and returns TRUE |
| Entities.ErrorMessage | src/20_main.php:1277-1290 | with an empty field or message nothing changes; otherwise the wrapped message is appended to all and to the string and becomes that field's message, other fields' messages untouched |
| Entities.ToArray | src/50_common.php:76-91 | the array holds declared fields only, with their values; every declared field is present unless `validate` skips an unset one; without `validate` and with distinct fields the keys are the fields in order |
| Entities.LoadRow | src/50_common.php:182-193 | every row column is copied; a declared field the row lacks (or holds as NULL) reads NULL; other properties are untouched |
| Entities.ForceInts | src/50_common.php:196-202 | every intval-tracked field that is set becomes intval of its value; unset tracked fields and all other properties are untouched |
| Entities.ForceIntsIdempotent | src/50_common.php:196-202 | forcing integers twice is forcing them once |
| Entities.GetRuleTarget | src/50_common.php:250-263 | the rules are skipped exactly when the field is unset and allow_null is not among them; otherwise they run on the field, or on `<field>_id` only for an unset has_one name |
| Entities.RunFieldRules | src/50_common.php:266-277 | allow_null never runs, every rule call is on the chosen field, and no more rules run than are declared |
| Entities.RunGetRules | src/50_common.php:240-277 | allow_null never runs; a first tracked field whose rules are skipped makes no call |
| Entities.StoreFields | src/50_common.php:315-318 | every declared field's stored copy becomes its current value; other stored values are kept |
| Entities.ApplyMatches | src/50_common.php:321-324 | each matched field ends equal to its stored copy; fields without a matches rule are untouched |
| Entities.Refresh | src/50_common.php:312-324 | after a refresh every declared field and every matched field equals its stored copy, and only matched fields change value |
| Entities.MatchesCopyPartner | src/50_common.php:321-324 | without chained matches, each matched field ends with its partner's value from before the refresh |
| Entities.ToObject | src/50_common.php:179-209 | a loaded object reads unchanged: every declared field equals its stored copy |
| Entities.LoadedFromRow | src/50_common.php:179-209 | without get-rules or matches, the object holds the row's values for its fields (intval for tracked ones) and every other row column as it came |
| Entities.NextIndex | src/50_common.php:141 | `$all[] =` uses a key above every existing key, and never below 0 |
| Entities.Objects | src/50_common.php:123-133 | every later row becomes a fresh object of the model, loaded from that row |
| Entities.ProcessQuery | src/50_common.php:104-159 | with no rows only the snapshot is refreshed; otherwise the first row loads into this object and that object is in `all` under its key |
| Entities.ProcessQueryAll | src/50_common.php:104-144 | without all_array_uses_ids a query of n rows leaves exactly n objects in `all` keyed 0 .. n-1, this object first, then each later row's object in order |
| Entities.AddItemsReindexed | src/50_common.php:139-142 | appending objects to a list keyed 0 .. n-1 continues the numbering |
| Entities.Clear | src/20_main.php:1013-1049 | clear() empties `all`, the errors and the joined aliases, drops the iterator, nulls every declared field without a matches rule, and leaves every field equal to its stored copy |
| Entities.ClearNullsFields | src/20_main.php:1022-1048 | when the matches rules pair declared fields, every declared field is NULL after clear() |
| Entities.MatchesKeepNull | src/50_common.php:321-324 | matching declared fields to declared fields keeps all of them NULL when all were NULL |
| Entities.Exists | src/20_main.php:1215-1220 | a set id decides existence by being non-empty; without one, any loaded row counts |
| Entities.ClearedDoesNotExist | src/20_main.php:1013-1049 | a cleared object does not exist, provided `id` is a declared field that no matches rule sets |
| Entities.WithIds | src/20_main.php:814-820 | the kept objects are exactly those of the list with a non-empty id |
| Entities.Reindexed | src/20_main.php:818 | `$all[] =` from empty stores the list under 0 .. n-1, each object at its position |
| Entities.RefreshAll | src/20_main.php:808-828 | refresh_all() returns TRUE exactly when `all` is non-empty, and then keeps the objects with an id, renumbered from 0 in order; otherwise nothing changes |
| Entities.RefreshAllSettles | src/20_main.php:808-828 | afterwards every object in `all` has an id, and refreshing again keeps the same list |
| Magic.TrimUnderscores | src/15_magic.php:179 | trim($s, '_') leaves no underscore at either end |
| Magic.FirstWatched | src/15_magic.php:161-173 | the fragment chosen is the first in the watched list that occurs in the name; none is chosen exactly when no watched fragment occurs |
| Magic.Call | src/15_magic.php:155-209 | a name containing a watched fragment goes to that fragment's handler (`_` plus the fragment trimmed of underscores); otherwise the call succeeds exactly when an extension defines the method, the model's own before the shared ones, and fails naming the method and class |
| Magic.BothIsLocalOrGlobal | src/15_magic.php:220-229 | looking in both places finds a method exactly when the local or the global lookup does |
| Magic.LocalExtensionWins | src/15_magic.php:191-200 | a method defined by both the model's and the shared extensions is the model's own |
| Magic.MiddleFragment | src/15_magic.php:173-180 | `prefix<fragment>suffix`, both sides non-empty, no earlier fragment present and the fragment occurring once, calls the handler with the prefix and then the suffix before the arguments |
| Magic.LeadingFragment | src/15_magic.php:181-185 | `save_<rest>` has nothing before the fragment, so `_save` gets the name with the fragment removed and the arguments unchanged |
| Magic.NewRelated | src/15_magic.php:86-98 | a relation name gives a new object of the related class whose parent is (other_field, this id); any other name gives none; an unknown class fails |
| Magic.GetRelatedAsWritten | src/15_magic.php:99-106 | as written, the object is populated exactly when (this object exists and it is a has_many with auto-population on) or it is a has_one with auto-population on |
| Magic.GetRelated | src/15_magic.php:99-106 | corrected, the object is populated exactly when this object exists and the relation's kind has auto-population on |
| Magic.Get | src/15_magic.php:86-120 | a relation is instantiated and populated as the source's condition is written, with the model's own auto-populate switches; a name that is no relation and has no other singular form gives NULL |
| Magic.HasOnePopulatesUnsaved | src/15_magic.php:99-106 | as written, a has_one of an object that does not exist is populated when has_one auto-population is on, where the corrected __get does not populate it |
| Magic.UnsavedNeverPopulates | src/15_magic.php:99-106 | corrected, an object that does not exist never populates a relation |
| Magic.ExistingAgrees | src/15_magic.php:99-106 | for an object that exists, the corrected condition and the one as written agree |
| Magic.GetWithoutAutoPopulating | src/15_magic.php:131-141 | the related object is never populated, the model's switches end as they were, and the object is the one __get would create |
| Streaming.NewIterator | src/75_streaming.php:41-52 | the iterator buffers the rows and counts them, starts at position 0, and its scratch object starts as a copy of the parent |
| Streaming.Get | src/75_streaming.php:73-79 | get() returns the iterator's own scratch object, cleared and then loaded, with every field equal to its stored copy; the rows, count, position and parent are untouched |
| Streaming.Run | src/75_streaming.php:58-108 | any sequence of calls leaves the buffered rows, the count and the parent as they were; the position is the number of next() calls since the last rewind() |
| Streaming.CountNeverChanges | src/75_streaming.php:100-108 | count() and result_count() stay the number of rows buffered at construction, whatever was called |
| Streaming.RewindRestarts | src/75_streaming.php:86-94 | after rewind() the key is 0, and the iterator is valid exactly when there is a row |
| Streaming.ValidMeansRow | src/75_streaming.php:63-94 | valid() holds exactly when the key is below the number of rows, and next() moves the key on by one |
| Streaming.Visit | src/75_streaming.php:58-94 | a loop from the current position yields one item per remaining row and ends invalid; for a plain model item k holds row pos + k |
| Streaming.ForEach | src/75_streaming.php:58-94 | foreach yields exactly one item per buffered row; for a plain model item k holds row k |
| Streaming.CurrentLoadsRow | src/75_streaming.php:58-61 | for a plain model, current() holds the row at the current position |
| Streaming.ConsLoads | src/75_streaming.php:73-79 | items hold the rows from `start` on exactly when the first holds row `start` and the rest hold the following rows |
| Streaming.LoadsEach | src/75_streaming.php:73-79 | items that hold the rows from the first on are no more than the rows, and item k holds row k |
| Streaming.WalkTwice | src/75_streaming.php:86-94 | a second foreach yields as many items as the first, and for a plain model the same field values |
| Streaming.ParentUntouched | src/75_streaming.php:73-79 | loading items never touches the parent object |
| Streaming.GetIterated | src/20_main.php:150-163 | get_iterated() hands the iterator a copy without the query-related list, at position 0, and result_count() then reports the buffered rows |
| Streaming.GetIterator | src/15_magic.php:274-280 | getIterator() returns the attached dataset iterator exactly when there is one, otherwise the objects of `all` in key order |
| Streaming.IteratedCountsAgree | src/20_main.php:1198-1204 | after get_iterated(), result_count() equals the number of items getIterator() walks over |
| ModelInit.ClassKey | src/10_init.php:22-27 | the key is the one cached for the class when there is one; otherwise the class's singular form is computed and recorded, and the cache holds the key afterwards |
| ModelInit.ClassKeyStable | src/10_init.php:22-27 | a second lookup of the same class gives the same key and leaves the cache as it is |
| ModelInit.ModelName | src/10_init.php:29-33 | a declared model name that is non-empty in PHP's sense is kept; otherwise the class key is used |
| ModelInit.FillDefaults | src/10_init.php:58-64 | every default with a non-empty value ends up set and non-empty; a non-empty configured value is kept; a key no default names is kept |
| ModelInit.FillDefaultsValue | src/10_init.php:58-62 | a default whose key is missing or empty in the configuration ends up holding exactly the default value, the keys of the defaults being distinct |
| ModelInit.TableName | src/10_init.php:121-127 | the table starts with the prefix: the declared table after the prefix, or the pluralised class name when none is declared |
| ModelInit.ValidationNames | src/10_init.php:138-144 | one storage key per validation element, in order: its string key or its own `field` entry |
| ModelInit.FoldValidation | src/10_init.php:136-165 | the keyed validation holds exactly the elements' storage keys, and the get_rules list has at most one name per element |
| ModelInit.FoldValidationLastWins | src/10_init.php:138-153 | when no later element has the same name, an element's name is present and carries that element's entry |
| ModelInit.FoldGetRules | src/10_init.php:155-158 | the get_rules list holds the name of every element whose get_rules entry is non-empty, and no other name |
| ModelInit.FoldMatches | src/10_init.php:160-164 | the `matches` map has an entry for the name of every element with a set `matches` rule, and for no other name |
| ModelInit.FoldMatchesLastWins | src/10_init.php:160-164 | that entry is the target of the last element of that name with a `matches` rule |
| ModelInit.WithIdEntry | src/10_init.php:166-175 | afterwards an `id` entry exists; existing entries are kept; an existing `id` entry changes nothing; otherwise an `integer` rule for `id` is appended last |
| ModelInit.IntvalFields | src/10_init.php:178-192 | a has_one key column is tracked exactly when it is a declared field and has no get_rules, on it or on the relation: every field found is such a column of some has_one, and every such column is found |
| ModelInit.AddColumns | src/10_init.php:194-209 | every column gets an entry; existing entries are kept unchanged; nothing beyond the old entries and the columns appears; a new entry has no rules |
| ModelInit.NormalizeRelation | src/10_init.php:218-245 | a plain class name gets other_field and join_self_as set to the model and join_other_as set to the field; in an options array each missing key takes its default: the field, the model, other_field, the field |
| ModelInit.RelationNames | src/10_init.php:215-246 | every element that has a storage name contributes it |
| ModelInit.FoldRelations | src/10_init.php:212-260 | existing validation entries are kept; the stored relationships are exactly the elements' names; each relationship whose label is non-empty has a validation entry |
| ModelInit.FoldRelationsLastWins | src/10_init.php:215-246 | when no later element has the same name, the relationship is stored with that element's normalised declaration |
| ModelInit.Localize | src/10_init.php:306-316 | the same entries in the same order, each with its label replaced by the localised one and every other part kept |
| ModelInit.Normalize | src/10_init.php:128-262 | the validation has `id`, every column and every declared element's name; `id` gets the integer rule unless it is declared; has_one and has_many hold exactly the declared relationship names |
| ModelInit.IntvalTracking | src/10_init.php:129-192 | `id` comes first, and every other tracked field is a declared field; with no declared fields only `id` is tracked |
| ModelInit.Construct | src/10_init.php:22-262 | the descriptor has the computed table, the declared fields followed by the table's columns, and the model name from the class key; its integer tracking is the has_one scan; the cache is updated as the class-key lookup says |
| Paging.FloorDiv | src/20_main.php:200 | PHP's `floor($a / $b)`: the greatest integer whose multiple of the divisor does not pass the dividend, for either sign of the divisor |
| Paging.CeilDiv | src/20_main.php:201 | for a positive divisor, PHP's `ceil($a / $b)`: the least integer whose multiple of the divisor reaches the dividend |
| Paging.RowsAt | src/20_main.php:211-223 | the rows a LIMIT/OFFSET query returns: never more than the total; for a valid offset and size, the page size or what is left after the offset, whichever is smaller, and never negative |
| Paging.RequestedPage | src/20_main.php:184-190 | the page is at least 1; a page number below 1 becomes 1; by rows, a row at or after 0 lies on the page returned, between `size * (page - 1)` and `size * page` |
| Paging.Info | src/20_main.php:220-234 | there is a next page exactly when the page is before the last; there is a previous page exactly when the page starts after row 0; previous figures never go below page 1 or row 0, and next figures never pass the last page or the last row |
| Paging.PagedAsWritten | src/20_main.php:179-234 | a zero page size is taken as a failure (see Left out); otherwise the figures record the total and page size; `last_row` is `size * floor(total / size)` and the page count `ceil(total / size)`; a request starting at or past `last_row` is reported as the last page starting at `last_row`, any other as the page asked, starting at `size * (page - 1)` |
| Paging.EmptyIsPageZero | src/20_main.php:197-234 | with no rows, every request reports page 0 of 0 at row 0, with no rows and no next page |
| Paging.PastEndLandsAfterLastPage | src/20_main.php:200-208 | as written, 100 rows in pages of 50 with page 3 requested gives page 2 starting at row 100, which holds no rows and is not where page 2 starts |
| Paging.LastPageRow | src/20_main.php:200-208 | with rows, the last page starts at `size * (ceil(total / size) - 1)`, at or after row 0 and before the total; with no rows it is row 0 |
| Paging.Paged | src/20_main.php:179-234 | corrected get_paged: fails exactly when the page size is zero (taken as a failure, see Left out); the figures it reports are stated by `Paging.PagedIsConsistent` |
| Paging.PagedIsConsistent | src/20_main.php:179-234 | corrected, with rows: the page reported is between 1 and the page count, starts at `size * (page - 1)` inside the rows, holds at least one row, and has a next page exactly when rows remain after it |
| Paging.RowIsOnItsPage | src/20_main.php:184-191 | paging by rows, an existing row lies on the page reported |

## Left out

- SQL execution: the database is the abstract `Store`. Rendering of SQL text, `field_data`, `insert_id` (a counter in the store), `free_result` and `check_last_query` are not modelled.
- The inflector (`singular`, `plural`), `protect_identifiers`, `escape`, label localisation and `lang->line` are uninterpreted functions in `Context.Env`. Facts that depend on their results are stated in terms of those functions.
- Timestamps: `_get_generated_timestamp` reads the clock, so the timestamp is a parameter. One value is used for the whole call.
- Transactions (src/30_transactions.php) are pass-throughs to the database and are not part of this model. `save` and `delete` are modelled without the transaction wrapper.
- Extension loading, autoloading, production-cache file I/O and library assignment (src/10_init.php:84-115, 277-300, 376-631; src/50_common.php:336-393) are plumbing and are not part of this model.
- `__get` for `db` and `form_validation`, `__clone`, and the caching of a created related object on the parent are about object identity and connections. They are left out.
- `_parse_subquery_object` rewrites the compiled SQL with PCRE regular expressions. The model takes the subquery as its SQL text and keeps only the final `${parent}` substitution.
- Date and regex rules (`min_date`, `max_date`, `valid_date*`, `alpha_*_dot`) and the prep rules (`xss_clean`, `prep_url`, `prep_for_form`, `encode_php_tags`, `strip_image_tags`) wrap PHP and CodeIgniter functions. Together with model-defined and helper rules, they go through an uninterpreted rule callback.
- Rule methods that a subclass overrides are not distinguished from the built-in ones.
- Get rules: `_run_get_rules` is modelled for its skip logic; running one rule is an uninterpreted callback.
- `include_related` with an object argument, and the `_instantiations` row building in `_to_object` that it triggers, build object graphs. They are left out; only the field/alias mapping is modelled.
- `_related` escapes `${parent}` and extra query parts; this is not modelled. `where_related` is modelled only for the call `_handle_related` makes (one relation, `id`, one value).
- `_handle_related` writes its grouping brackets as raw `( ` and ` )` entries. The model writes them as the group markers `Open` and `Close`.
- `count` ignores prior WHERE clauses other than its own, and `COUNT(DISTINCT ...)`; these are not modelled.
- `update`, `update_all` and `delete_all` are modelled only through the timestamp stamping they share (`Links.StampUpdate`).
- `save` and `delete` also change the in-memory state of the related objects passed to them. The model returns only this object and the store.
- `clear` also unsets cached related objects held as properties; the model keeps only fields, `all`, errors and the related-query record.
- `get` population is modelled as a flag on the created related object, not as a query run.
- Magic.Get: the singular form of an unknown name is looked up only as a relation. In PHP, reading it may instead return a set property or re-enter `__get` and singularise again.
- `get_paged`: `intval` of the page argument is taken as already done (the page is an integer). The count query is a parameter (the total). `items_on_page` assumes that count is consistent with the page query.
- Streaming: the scratch object's identity is modelled by returning it together with the state (the object returned is the state's scratch object). The clone's database reset is not modelled. Items are snapshots. An index outside the buffered rows reads as an empty row. `clear` on the scratch object keeps its non-field properties.
- Floating-point values and PHP's numeric-string comparison of floats are not modelled; numbers are integers.
- TableNames.AddTableNameIdempotent: requires that no comma-separated piece is the text `0`. PHP's `empty('0')` makes such a piece glue onto the next one, and a second pass then differs (`TableNames.ZeroPieceGlues`).
- Links.DeleteItem: for an array nested inside an array with no relation name, PHP reads `->model` of the array, which is NULL; the model looks up the empty name instead. Either way no link is deleted and the result is FALSE unless the lookup fails.
- Paging.PagedAsWritten: a zero page size is taken as a failure, which is what PHP 8 does when it throws on division by zero. Under PHP 5 and 7 the division only warns, and get_paged goes on with FALSE or INF figures. The model does not follow that path.
- Paging.Paged: a zero page size is a failure for the same reason as in `Paging.PagedAsWritten`.
- Entities.ErrorMessage: in PHP the per-field message is a property of the error object itself. A field named `string` or `all` therefore collides with the object's own properties. For `string`, the text becomes the message appended to itself, and the earlier text is lost. For `all`, the array is replaced by a string, so the next append to `all` is fatal. The model keeps per-field messages apart from `all` and the text. `Validation.FailureRecorded` inherits this.
- `_delete_relation` also unsets the cached related property on this object. Cached properties are not part of the model.

## Findings

| source | as written | input that shows it | evidently intended | confidence | as-written member | corrected member |
|---|---|---|---|---|---|---|
| src/25_activerecord.php:673-695 | `_where` computes the connective once, before its loop over the keys. Right after `group_start` that connective is empty, so every key of a multi-key array gets no AND/OR | `group_start()` then `where(['a.x' => 1, 'a.y' => 2])`: the second condition follows the first with no connective (`Query.WhereInGroupLosesConnective`) | only the first condition in the group goes without a connective; the rest take the given AND/OR | high, not executed | Query.WhereAsWritten | Query.Where (proved connected by Query.WhereConnected) |
| src/25_activerecord.php:572-575 | `not_group_start` passes `'OR '`, the same arguments as `or_not_group_start` | any query with a condition, then `not_group_start()`: the group opens with `OR NOT`, as `or_not_group_start()` would (`Query.NotGroupStartOrs`) | an `AND NOT` group, as its name and every other `or_`/plain pair in the file imply | high, not executed | Query.NotGroupStartAsWritten | Query.NotGroupStart (Query.NotGroupStartOrs shows it differs from the OR form) |
| src/20_main.php:1110-1127 | when the key lives on the counted model's own table, `count($exclude_ids)` excludes by `<this model>_id`, a column that table does not need to have | a has_many / has_one pair keyed in the counted model's table, counted with a non-empty exclude list: the condition names a missing column and the query fails (`Counting.CountAsWrittenNamesMissingColumn`) | exclude by `id`, which identifies the counted rows in that table | medium, not executed | Counting.CountAsWritten | Counting.Count (Counting.CountExcludesById proves it succeeds) |
| src/20_main.php:402-426 | `save($object)` ignores the result of `_save_related_recursive`, so a relation that could not be saved still leaves `save()` returning TRUE | a valid object saved together with a related object that does not exist: no link is written, yet `save()` is TRUE (`Links.SaveHidesRelationFailure`) | the return value also reflects the relationships saved | medium, not executed | Links.Save | Links.SaveReporting (Links.SaveReportsRelations) |
| src/20_main.php:200-208 | a page at or past `last_row = page_size * floor(total / page_size)` is moved to row `last_row` and called page `total_pages`. When the total is a multiple of the page size, that row is past the end | 100 rows, page size 50, page 3: page 2 is reported, starting at row 100, with no items (`Paging.PastEndLandsAfterLastPage`) | move to the start of the last page, `page_size * (total_pages - 1)` | high, not executed | Paging.PagedAsWritten | Paging.Paged (Paging.PagedIsConsistent) |
| src/15_magic.php:102-103 | in the auto-populate test PHP's `&&` binds tighter than the logical or written after it, so `exists()` guards only the has_many half, and a has_one is auto-populated for an object that was never saved | an object with no id, a has_one relation and has_one auto-population on: reading the relation runs a `get()` (`Magic.HasOnePopulatesUnsaved`) | auto-populate only when the object exists, as the comment above the condition says | high, not executed | Magic.GetRelatedAsWritten | Magic.GetRelated (Magic.UnsavedNeverPopulates) |

`__get` (`Magic.Get`) keeps the condition as written, as the source does. The corrected condition is `Magic.GetRelated`, and `Magic.ExistingAgrees` shows that the two agree for every object that exists.
