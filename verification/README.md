# Ad-Orchestrator data layer in Dafny

Ad-Orchestrator keeps all of its server state in one JSON document of named
collections: users, campaigns, assets, approvals, approval steps, the
activity log and a few more. Every route handler reaches that state through
a small pseudo-SQL interpreter:

- `getTableName` finds the collection a statement text names;
- `queryOne`, `queryAll` and `execute` carry out a fixed set of statement
  shapes against that collection;
- `transaction` runs a callback and saves.

The interpreter reads statements through a handful of regular expressions
and `includes` tests. It does not parse SQL. Much of what the statement
texts say is therefore never carried out:

- literal assignments are not written;
- `VALUES` literals do not take a column;
- filters on list queries are ignored;
- a where clause followed by a newline is not recognised.

This project models that interpreter exactly, and models each handler
built on it as the sequence of interpreter calls the handler issues. The
handlers come from three files:

- the multi-step approval workflow;
- the dashboard counts;
- the asset routes.

The modules are:

- `Js` (js.dfy): the JavaScript semantics the code relies on. This covers
  dynamically typed values, truthiness, strict equality, `||`, the
  `typeof v === 'string' ? parseInt(v) : v` id coercion, `parseInt`,
  `toLowerCase`, `trim`, `includes`, `startsWith` and `split`.
- `Patterns` (patterns.dfy): each regular expression of the interpreter as
  a scanner, paired with a predicate saying what a match is. Each scanner
  is proved to return the match a backtracking engine selects:
  - the leftmost start;
  - greedy quantifiers take the longest run, lazy ones the shortest.
- `Database` (database.dfy):
  - the store, as collections of records plus the `_nextId` counters;
  - the statement record `Stmt`, holding exactly what the expressions
    extract;
  - `queryOne`, `queryAll`, `execute` and `transaction`;
  - the load-time counter recomputation and the admin seed;
  - the id discipline `WellFormed`: ids strictly increase and stay below
    their counter.
- `Approvals`, `Dashboard` and `Assets`: the handlers. Each statement text
  a handler passes is taken apart by hand into its `Stmt`, and the
  reasoning is written beside the constant. Lemmas named
  `StatementsDispatch` prove that each such `Stmt` reaches the branch of
  the interpreter that the handler relies on.

The store is an immutable value, and every call is a pure function from a
store to a new store and a result. The clock is a parameter `now`, in
milliseconds. A stored timestamp is `Time(ms)`, which stands for the ISO
text `toISOString` produces.

## Model

| member | source | states |
|---|---|---|
| Js.Or | server/routes/assets.js:86-87 | the JavaScript or-operator yields its left operand when that is truthy and its right operand otherwise |
| Js.CoerceId | server/db/database.js:161 | a non-text id passes unchanged; text becomes a number or NaN; an ISO timestamp text becomes its leading year |
| Js.LowerChar | server/db/database.js:117 | lower-casing changes only ASCII capitals, into lower-case letters; it keeps every character in or out of `\w`, `\s` and the line terminators |
| Js.Lower | server/db/database.js:117 | the lower-cased text has the same length and is lower-cased character by character |
| Js.Trim | server/db/database.js:194 | the trimmed text is a contiguous slice of the input that neither starts nor ends with white space, and everything cut off on either side of it is white space |
| Js.IncludesMeansOccurs | server/db/database.js:120 | `includes` holds exactly when the needle occurs at some position |
| Js.Split | server/routes/assets.js:88 | `split(',')` gives at least one piece, no piece contains the separator, and joining the pieces gives the text back |
| Js.SplitJoin | server/routes/assets.js:88-89 | splitting a join of separator-free pieces gives those pieces back, empty pieces included |
| Js.SplitTrim | server/db/database.js:194 | `split(sep).map(trim)` has one trimmed piece per piece of the split |
| Js.ParseInt | server/db/database.js:213 | `parseInt` gives a number or NaN, never anything else |
| Js.ParseIntNatToString | server/db/database.js:161 | an id sent as decimal text is parsed back to the same number |
| Patterns.RunReaches | server/db/database.js:106 | a run of one character class from `i` reaches `j` exactly when `j` is within the longest such run |
| Patterns.TableCaptureAtComplete | server/db/database.js:106 | the table expression can match at a position in only one way: the one the scanner reports |
| Patterns.TableScan | server/db/database.js:106 | the match reported is a match of the expression and none starts earlier; no match at all is reported as none |
| Patterns.TableName | server/db/database.js:105-108 | `getTableName` yields a non-empty word of `\w` characters, and yields null exactly when the expression matches nowhere |
| Patterns.Backtrack | server/db/database.js:125 | backtracking the greedy white space run and then growing the lazy capture finds a tail match, and no candidate tried earlier has one |
| Patterns.LazyCaptureAtSpec | server/db/database.js:125 | at a given keyword position the capture chosen has the longest white space run and then the shortest capture; no match there means none reported |
| Patterns.LazyScan | server/db/database.js:221 | the match reported has the least start, then the greatest capture start, then the least capture end |
| Patterns.WhereClause | server/db/database.js:125 | the where capture is the text of a match of the where expression (the keyword, white space, a lazy capture, then `order`, `limit` or the end), and is none exactly when no match exists |
| Patterns.SetClause | server/db/database.js:221 | the set capture is the text of a match of `set\s+(.+?)\s+where`, and is none exactly when no match exists |
| Patterns.EqCaptureAtComplete | server/db/database.js:154 | the equality head can match at a position in only one way: the one the scanner reports |
| Patterns.EqColumn | server/db/database.js:154 | the column is a non-empty `\w` word captured by a match of `where\s+(\w+)\s*=\s*\?`, and is none exactly when no match exists |
| Patterns.ParenCaptureAtComplete | server/db/database.js:193 | the parenthesis expression at a position matches only up to the first `)` |
| Patterns.ParenGroup | server/db/database.js:193 | the column list is non-empty text free of `)`, and is none exactly when no parenthesised group exists |
| Database.FindIndex | server/db/database.js:214 | the index found passes the test and no earlier record does; none means no record passes |
| Database.Filter | server/db/database.js:250 | the kept records are exactly the records that pass the test, and there are no more of them than before |
| Database.FilterAppend | server/db/database.js:250 | filtering a concatenation filters each part |
| Database.FilterSelects | server/db/database.js:250 | a filter keeps each passing record once, at increasing stored positions, and strikes out every failing one |
| Database.AssignOf | server/db/database.js:228-233 | a SET pair names the trimmed text before `=`, and is a placeholder exactly when the trimmed text after `=` exists and contains `?` |
| Database.VerbOf | server/db/database.js:187-256 | the command word is insert, update, delete or select exactly when the trimmed lower-cased text starts with that word; the four words exclude each other, so the order of the tests does not matter |
| Database.Parse | server/db/database.js:117-224 | the statement record holds the table name; the command word `VerbOf` reads; the `count(*)` and `where` tests on the lower-cased text; the trimmed where capture, none exactly when the where expression does not match; the equality column; the trimmed comma pieces of the first parenthesised group, empty without one; and the SET pairs of the set capture, none exactly when the set expression does not match |
| Database.CountedRows | server/db/database.js:120-150 | without `where`, a where capture or a parameter every record counts; otherwise a record counts exactly when it is stored and passes the shape's test: status, or else type, strictly equal to the first parameter, or the SLA test, or any record for another shape |
| Database.CountedRowsInOrder | server/db/database.js:120-150 | with a where capture and a parameter, the counted rows are the stored rows with those the shape rejects struck out, each counted once, so the count is the number of stored rows the shape accepts |
| Database.ShapeOf | server/db/database.js:130-138 | no contract of its own: the shape the where capture selects, whose meaning `CountedRows` and `CountedRowsInOrder` state |
| Database.SlaKeeps | server/db/database.js:139-145 | no contract of its own: the SLA row test, which `CountedRows` states through `CountsRow` |
| Database.CountsRow | server/db/database.js:129-146 | no contract of its own: the row test of each shape, used by the contracts of `CountedRows` and `CountedRowsInOrder` |
| Database.Matches | server/db/database.js:157-165 | no contract of its own: the strict-equality test of the lookup, with `id` values parsed; `LookupIn` and `FindById` state what it finds |
| Database.LookupIn | server/db/database.js:153-166 | the record returned is in the collection, passes the strict-equality test, and no record stored before it passes; null exactly when the collection is missing or no record passes |
| Database.FirstIn | server/db/database.js:169 | the fall-through returns the first record, or null exactly when the collection is missing or empty |
| Database.CountAll | server/db/database.js:256-259 | the unfiltered count is the collection size, or null exactly when the collection is missing |
| Database.QueryOneStmt | server/db/database.js:113-170 | a missing name or collection gives null; `count(*)` gives the size of the counted rows; an equality head with a parameter gives the first match; anything else gives the first record |
| Database.QueryOne | server/db/database.js:113-115 | a text naming no collection, or an absent one, gives null; the other clause only hands the parsed statement to `QueryOneStmt`, so what a text does is `QueryOneStmt`'s contract read through `Parse`'s |
| Database.QueryAllTable | server/db/database.js:175-180 | a list query returns every record of the collection in stored order, or nothing when it is missing |
| Database.QueryAll | server/db/database.js:175-180 | `queryAll` depends only on the table name: no predicate, ordering, limit or parameter is consulted |
| Database.Bound | server/db/database.js:200 | a bound parameter is never undefined: a missing one becomes null |
| Database.Bind | server/db/database.js:199-201 | no contract of its own: the positional binding, stated by `BindFacts` |
| Database.Stamp | server/db/database.js:203-204 | no contract of its own: a date filled only when unset, stated by `NewRecordFacts` |
| Database.NewRecord | server/db/database.js:196-204 | no contract of its own: the record an insert builds, stated by `NewRecordFacts` and `NewRecordField` |
| Database.BindFacts | server/db/database.js:199-201 | binding adds exactly the listed columns, keeps other fields, and gives each column the parameter at the position of its last occurrence |
| Database.NewRecordFacts | server/db/database.js:196-204 | a new record has exactly the id, the two dates and the listed columns, with both dates set |
| Database.NewRecordField | server/db/database.js:199-201 | column `i` gets parameter `i` by position, or null, whatever literals the text has |
| Database.NextId | server/db/database.js:196 | the id handed out is the counter, which moves by exactly one; without a counter the id is NaN |
| Database.Insert | server/db/database.js:191-210 | an insert appends exactly one record under the counter's id and reports `changes: 1`; a missing collection throws, but the counter has already moved |
| Database.WritesPlaceholders | server/db/database.js:224-238 | an assignment list writes exactly the columns of its placeholder assignments |
| Database.AssignedKeeps | server/db/database.js:227-239 | a column no placeholder assignment names keeps its value |
| Database.AssignedWrites | server/db/database.js:226-238 | the last placeholder assignment of a column writes the parameter at its position among the placeholders, unless that parameter is undefined |
| Database.Assigned | server/db/database.js:226-239 | no contract of its own: the SET loop, stated by `WritesPlaceholders`, `AssignedKeeps` and `AssignedWrites` |
| Database.UpdateElsewhere | server/db/database.js:212-245 | an update changes no collection other than the one it names |
| Database.Update | server/db/database.js:212-245 | an update never adds or drops collections or counters; a missing collection throws; on a present collection the reply is `changes: 0` exactly when no record has the parsed last parameter as id or the set expression does not match, and then the store is unchanged |
| Database.UpdateEffect | server/db/database.js:212-245 | the first record whose id matches the last parameter, and only it, gets its placeholders applied and `updated_at` refreshed; `changes: 1` |
| Database.Delete | server/db/database.js:247-254 | a delete keeps exactly the records whose id differs from the parsed first parameter, in order, and reports how many went |
| Database.Keeps | server/db/database.js:248-250 | no contract of its own: the delete test, stated by `Delete`, `KeepsAllBut` and `RemoveEffect` |
| Database.ExecuteStmt | server/db/database.js:185-262 | no table name gives `changes: 0` and no change; otherwise the verb picks the insert, update, delete or count branch; any other statement changes nothing |
| Database.Execute | server/db/database.js:187-189 | a text naming no collection gives `changes: 0` and leaves the store unchanged; the other clause only hands the parsed statement to `ExecuteStmt`, so what a text does is `ExecuteStmt`'s contract read through `Parse`'s and `VerbOf`'s |
| Database.UniqueIds | server/db/database.js:196 | in a well-formed collection two records with the same id are the same record |
| Database.FindById | server/db/database.js:160-162 | in a well-formed collection the id lookup finds the record carrying that id |
| Database.FilterIncreasing | server/db/database.js:250 | deleting keeps ids increasing |
| Database.InsertKeepsWellFormed | server/db/database.js:196-206 | an insert that does not bind `id` keeps the store well-formed, and the new id is not carried by any earlier record |
| Database.UpdateKeepsWellFormed | server/db/database.js:212-245 | an update that does not write `id` keeps the store well-formed |
| Database.DeleteKeepsWellFormed | server/db/database.js:247-254 | a delete keeps the store well-formed |
| Database.UpdateKeepsColumn | server/db/database.js:227-241 | an update changes no column but `updated_at` and the columns its placeholder assignments name |
| Database.InsertThenFind | server/db/database.js:191-210 | after an insert, looking up the id it returned finds the new record |
| Database.InsertThenDelete | server/db/database.js:247-254 | deleting the id an insert returned restores every collection; only the counter has moved on |
| Database.UpdateThenFind | server/db/database.js:212-245 | after an update by id, the id lookup returns the record with its placeholders applied and `updated_at` fresh |
| Database.IdNumber | server/db/database.js:45 | the id-or-zero fallback that the maximum reads is the numeric id, or 0 for a falsy id |
| Database.MaxId | server/db/database.js:45 | the maximum bounds every id and is attained by one of them; an empty collection gives 0; a NaN id gives none |
| Database.Recount | server/db/database.js:41-48 | each recomputed counter is the maximum id plus one |
| Database.Load | server/db/database.js:41-48 | a snapshot's counters are kept when present and recomputed otherwise |
| Database.LoadCountersAhead | server/db/database.js:41-48 | a recomputed counter is above every numeric id of its collection, and is 1 for an empty collection |
| Database.LoadWellFormed | server/db/database.js:41-48 | a snapshot with increasing numeric ids loads, under recomputed counters, as a well-formed store |
| Database.Seed | server/db/database.js:78-103 | the seed adds the admin user under the next users id exactly when no user has the admin address; without a users collection it throws |
| Database.SeedIdempotent | server/db/database.js:79-81 | seeding twice is seeding once, and afterwards an admin exists |
| Database.SeedKeepsWellFormed | server/db/database.js:84-85 | the seed keeps the store well-formed |
| Approvals.StatementsDispatch | server/routes/approvals.js:117-162 | each statement text of the approval routes reaches its intended interpreter branch; the step lookup and the pending count read only `approval_id` and the first parameter |
| Approvals.Default | server/routes/approvals.js:66 | a destructuring default replaces `undefined`, and only it, by the default text: an absent `workflow_type` becomes `sequential` and an absent `priority` `normal` |
| Approvals.Deadline | server/routes/approvals.js:74-79 | the SLA deadline is null exactly when `sla_hours` is falsy, and otherwise the timestamp `sla_hours` hours after now |
| Approvals.ApprovalParams | server/routes/approvals.js:85 | no contract of its own: the seven bound values, stated by `ApprovalRecordFields` |
| Approvals.Create | server/routes/approvals.js:64-107 | a missing or empty approver list is 400 with no store change; success is 201 with the first stored approval; anything else is 500 |
| Approvals.Created | server/routes/approvals.js:100-105 | after the transaction the reply is 500 exactly when a statement threw, and the store is the one the transaction left |
| Approvals.ApprovalRecordFields | server/routes/approvals.js:82-85 | positional binding shifts the approval columns: `status` holds the approver count, `current_step` the deadline, `total_steps` the priority, `sla_deadline` the submitter, and `priority` and `submitted_by` are null |
| Approvals.StepRecordFields | server/routes/approvals.js:91-94 | a step record holds its id, the approval id, its number and its approver, and a null status |
| Approvals.InsertSteps | server/routes/approvals.js:90-95 | no contract of its own: the step loop, stated by `InsertStepsShape`, `InsertStepsRows` and `InsertStepsWellFormed` |
| Approvals.CreateWork | server/routes/approvals.js:72-98 | no contract of its own: the create callback, stated by `CreateUnfolds`, `CreatedStore` and `CreateThrowKeepsApproval` |
| Approvals.InsertStepsShape | server/routes/approvals.js:90-95 | the step loop completes, touches no other collection, and moves the step counter once per approver |
| Approvals.InsertStepsWellFormed | server/routes/approvals.js:90-95 | the step loop keeps the store well-formed |
| Approvals.InsertStepsRows | server/routes/approvals.js:90-95 | the step loop keeps earlier steps and appends one step per approver, in order, under consecutive ids |
| Approvals.CreateUnfolds | server/routes/approvals.js:72-102 | a create inserts the approval, runs the step loop with the new id, and replies 201 with the first stored approval |
| Approvals.CreateShape | server/routes/approvals.js:72-102 | a create appends exactly one approval, moves the approval counter by one and the step counter by the approver count, leaves other collections alone, and replies with the first approval rather than the new one |
| Approvals.CreateThrowKeepsApproval | server/db/database.js:267-276 | the transaction undoes nothing on a throw: when the steps collection is missing, create replies 500 and the approval inserted before the throw stays stored, with its counter moved |
| Approvals.CreatedStore | server/routes/approvals.js:82-95 | the approval insert followed by the step loop leaves the store that `CreateShape` describes |
| Approvals.CreateWellFormed | server/routes/approvals.js:72-98 | a create keeps the store well-formed |
| Approvals.CreateSteps | server/routes/approvals.js:89-95 | a create's steps are numbered 0 to N-1, in approver order, under consecutive ids, linked to the new approval id |
| Approvals.Respond | server/routes/approvals.js:164-172 | the reply is 403 exactly when the callback refused and 500 exactly when it threw; the store is the one the transaction left |
| Approvals.Approve | server/routes/approvals.js:113-173 | 404 exactly when no approval matches the id; 404 and 403 leave the store unchanged; success is 200 |
| Approvals.Reject | server/routes/approvals.js:179-229 | 404 exactly when no approval matches the id; 404 and 403 leave the store unchanged; success is 200 |
| Approvals.ApproveWork | server/routes/approvals.js:123-164 | no contract of its own: the approve callback, stated by `ApproveWorkKeepsColumns`, `ApproveWithoutStep` and `Approve` |
| Approvals.RejectWork | server/routes/approvals.js:189-220 | no contract of its own: the reject callback, stated by `RejectWorkKeepsColumns`, `RejectWritesStep` and `RejectWithoutStep` |
| Approvals.Settle | server/routes/approvals.js:144-163 | no contract of its own: count, then close or advance, stated by `SettleKeepsColumns` |
| Approvals.Close | server/routes/approvals.js:151-159 | no contract of its own: closing the approval and its asset, stated by `CloseKeepsColumns` and `CloseKeepsSteps` |
| Approvals.Advance | server/routes/approvals.js:160-162 | no contract of its own: moving the approval on, stated by `AdvanceKeepsColumns` |
| Approvals.LiteralSetsWriteNothing | server/routes/approvals.js:151-162 | the close, asset and advance updates write no column, since none of their assignments has a placeholder |
| Approvals.StepSetsWrite | server/routes/approvals.js:137-141 | the approve step update writes only `comments`; the reject step update writes only `comments` and `rejection_reason` |
| Approvals.CloseKeepsColumns | server/routes/approvals.js:151-159 | closing the approval and its asset changes no column but `updated_at` |
| Approvals.AdvanceKeepsColumns | server/routes/approvals.js:162 | advancing changes no column but `updated_at` |
| Approvals.SettleKeepsColumns | server/routes/approvals.js:144-163 | counting and then closing or advancing changes no column but `updated_at` |
| Approvals.ApproveWorkKeepsColumns | server/routes/approvals.js:123-164 | the approve callback changes no column but `comments` and `updated_at` |
| Approvals.ApproveKeepsColumns | server/routes/approvals.js:123-164 | approve changes no column but `comments` and `updated_at`, in any collection |
| Approvals.RejectWorkKeepsColumns | server/routes/approvals.js:189-220 | the reject callback changes no column but `comments`, `rejection_reason` and `updated_at` |
| Approvals.RejectKeepsColumns | server/routes/approvals.js:189-220 | reject changes no column but `comments`, `rejection_reason` and `updated_at` |
| Approvals.TextStepMissing | server/routes/approvals.js:125-130 | when no step links by text, a text id finds no step |
| Approvals.ApproveWithoutStep | server/routes/approvals.js:132-134 | without a step to find, approve replies 403 or 404 and changes nothing |
| Approvals.RejectedStep | server/routes/approvals.js:203-208 | the reject step update writes `comments || null`, `rejection_reason || null` and the current `updated_at`, and keeps every other field |
| Approvals.RejectWritesStep | server/routes/approvals.js:189-220 | when a step is found, reject rewrites exactly the first step of the approval with those values and leaves every other step as it was |
| Approvals.CloseKeepsSteps | server/routes/approvals.js:210-219 | closing the approval and its asset leaves the steps as they were |
| Approvals.RejectWithoutStep | server/routes/approvals.js:198-200 | without a step to find, reject replies 403 or 404 and changes nothing |
| Approvals.ApproveTextIdForbidden | server/routes/approvals.js:113-134 | with the URL id as text and no text links, approve always replies 403 or 404 and changes nothing |
| Approvals.RejectTextIdForbidden | server/routes/approvals.js:179-200 | with the URL id as text and no text links, reject always replies 403 or 404 and changes nothing |
| Approvals.CreateKeepsLinks | server/routes/approvals.js:87-95 | a create links its steps by the numeric id the insert handed out, never by text |
| Approvals.BulkOne | server/routes/approvals.js:245-270 | an id yields `approved` exactly when both its approval and a step are found, and otherwise yields nothing and changes nothing |
| Approvals.BulkLoop | server/routes/approvals.js:245-270 | there is at most one result per id |
| Approvals.BulkApprove | server/routes/approvals.js:235-277 | 400 exactly when the id list is missing or empty, with no change; otherwise a result list no longer than the ids |
| Approvals.BulkLoopPicks | server/routes/approvals.js:243-272 | the results approve a subsequence of the ids, in input order |
| Approvals.BulkLoopElsewhere | server/routes/approvals.js:245-270 | the bulk loop changes no collection but `approval_steps`: approvals and assets stay as they were |
| Approvals.BulkLoopKeepsColumns | server/routes/approvals.js:245-270 | the bulk loop changes no column but `comments` and `updated_at` |
| Approvals.BulkOneEffect | server/routes/approvals.js:250-262 | one bulk step rewrites exactly the first step of that approval: `comments` and `updated_at` change, everything else stays |
| Approvals.BulkApproveEffect | server/routes/approvals.js:235-277 | a bulk approve answers with approvals of a subsequence of the ids, changes no column but `comments` and `updated_at`, and leaves every collection but `approval_steps`, the approvals included, unchanged |
| Approvals.LinksInvariant | server/routes/approvals.js:64-277 | create, approve, reject and bulk approve all preserve "no step links by text", so the text-id routes stay refused |
| Approvals.Queue | server/routes/approvals.js:10-58 | the queue lists every approval in stored order, whatever the filters, each with the steps of every approval |
| Approvals.History | server/routes/approvals.js:283-298 | the history is every step of every approval, whatever the id |
| Dashboard.Stat | server/services/dashboardService.js:16 | a count read with optional chaining and a fallback to 0 is a non-negative number, and 0 for a missing collection |
| Dashboard.StatIsSize | server/services/dashboardService.js:16-42 | a count statement whose filter the interpreter cannot apply counts the whole collection |
| Dashboard.DashboardStats | server/services/dashboardService.js:6-49 | every one of the fourteen figures is a non-negative count, a missing collection included; which count each is, is stated by `CampaignStatsAreSizes`, `AssetStatsAreSizes`, `ApprovalStatsAreSizes` and `UserStatsAreSizes` |
| Dashboard.CampaignStatsAreSizes | server/services/dashboardService.js:15-19 | all four campaign counts equal the number of campaigns |
| Dashboard.AssetStatsAreSizes | server/services/dashboardService.js:21-25 | all four asset counts equal the number of assets |
| Dashboard.ApprovalStatsAreSizes | server/services/dashboardService.js:27-38 | the three approval status counts and the SLA warnings all equal the number of approvals |
| Dashboard.UserStatsAreSizes | server/services/dashboardService.js:40-42 | both user counts equal the number of users |
| Dashboard.RecentActivity | server/services/dashboardService.js:54-67 | the activity feed is the whole activity log in stored order, whatever the limit |
| Assets.StatementsDispatch | server/routes/assets.js:93-109 | each asset statement reaches its intended interpreter branch; the `a.id = ?` lookup falls through to the first record |
| Assets.AssetType | server/routes/assets.js:76-82 | the type is `image` exactly for `image/` MIME types, `video` exactly for `video/`, and `document` otherwise |
| Assets.AssetTypeIsTopLevel | server/routes/assets.js:77-82 | every subtype of image or video is classified under its top-level type, which prefixes the MIME type |
| Assets.Pieces | server/routes/assets.js:88-89 | a falsy list field gives no pieces; text gives one trimmed piece per comma-separated piece; any other truthy value throws |
| Assets.PiecesJoin | server/routes/assets.js:88-89 | splitting a comma-joined list of trimmed, comma-free pieces gives the list back |
| Assets.Metadata | server/routes/assets.js:84-90 | the title falls back to the original file name, the description to empty text, and the lists are the split pieces; none exactly when a list field throws |
| Assets.Upload | server/routes/assets.js:68-117 | no file is 400 with no change; a throwing list field is 500 with no change; success is 201 with a record that is now stored, the collection one longer |
| Assets.UploadParams | server/routes/assets.js:96-107 | no contract of its own: the ten bound values, stated by `UploadRecordFields` |
| Assets.UploadRecordFields | server/routes/assets.js:93-107 | the uploaded record holds exactly its id, the dates and the ten columns, each bound to its parameter, with the URL under `/uploads/` and status `uploaded` |
| Assets.UploadUnfolds | server/routes/assets.js:93-112 | an upload inserts its record and replies with what the lookup by the returned id finds |
| Assets.InsertedAssetFound | server/routes/assets.js:109 | in a well-formed store the lookup by the returned id finds the inserted record |
| Assets.UploadEffect | server/routes/assets.js:68-117 | an upload appends exactly one record under the next id, moves that counter by one, and replies 201 with that record |
| Assets.UploadKeepsWellFormed | server/routes/assets.js:93-107 | an upload keeps the store well-formed |
| Assets.UploadThenList | server/routes/assets.js:17-117 | after an upload the listing is the earlier listing followed by the new asset |
| Assets.Fallback | server/routes/assets.js:166-167 | a field that is not undefined wins; an undefined one falls back to the stored value |
| Assets.EditParams | server/routes/assets.js:165-170 | no contract of its own: the four bound values, stated by `EditedFields` |
| Assets.Edit | server/routes/assets.js:149-191 | 404 exactly when the id finds no asset, with no change; otherwise 200 or 500; collections and counters are never added or dropped |
| Assets.Put | server/db/database.js:233-236 | one placeholder assignment writes its column unless the value is undefined, and touches nothing else |
| Assets.EditAssigned | server/routes/assets.js:161-170 | the update writes its first three parameters to campaign, status and metadata, in that order |
| Assets.Edited | server/routes/assets.js:161-170 | no contract of its own: the stored asset after the update, stated by `EditedFields` |
| Assets.EditedFields | server/routes/assets.js:161-170 | campaign and status take the request value when given and keep the stored one otherwise; metadata takes the serialised request metadata when given; `updated_at` is stamped; nothing else changes |
| Assets.EditUnfolds | server/routes/assets.js:149-186 | the update replaces the asset the id finds by its edited version and replies with the record read back |
| Assets.EditEffect | server/routes/assets.js:149-191 | an update changes exactly the asset the id finds, as `EditedFields` says, and replies 200 with it |
| Assets.Remove | server/routes/assets.js:197-221 | 404 exactly when the id finds no asset, with no change; otherwise only the assets collection changes |
| Assets.FilterDropsOne | server/db/database.js:250 | a filter that rejects exactly record `k` leaves the other records in order |
| Assets.KeepsAllBut | server/db/database.js:248-250 | in a collection of increasing ids, the delete test rejects the record the id finds and keeps every other |
| Assets.RemoveUnfolds | server/routes/assets.js:199-216 | a delete that finds the asset filters the collection by the delete test and replies with the deletion message |
| Assets.RemoveEffect | server/routes/assets.js:197-221 | in a well-formed store a delete removes exactly the asset the id finds, and the others keep their order |
| Assets.RemoveNewest | server/routes/assets.js:197-221 | deleting by the decimal text of the newest asset's id removes just that asset |
| Assets.CoerceDecimal | server/db/database.js:248 | the decimal text of an id coerces back to that id |
| Assets.UploadThenRemove | server/routes/assets.js:93-214 | deleting an upload by its id restores every collection; only the counter has moved on |
| Assets.Show | server/routes/assets.js:123-143 | as written, `GET /:id` replies with the first asset whatever the id, and 404 only when there is no asset |
| Assets.ShowAnswersFirstAsset | server/routes/assets.js:125 | on a store of two assets, asking for the second one's id returns the first |
| Assets.ShowById | server/routes/assets.js:123-143 | as intended, `GET /:id` replies 404 exactly when no asset has the id, else with an asset carrying that id |
| Assets.ShowByIdFinds | server/routes/assets.js:123-138 | in a well-formed store the intended lookup returns the asset the id reaches |
| Assets.Listing | server/routes/assets.js:17-62 | the listing is every asset in stored order, whatever the filters |

## Left out

- File persistence: `saveDatabase` is a no-op and the snapshot is not
  read from disk. Only the counter rule applied after parsing is kept
  (`Load`).
- JSON text. The upload takes the serialiser as a parameter `encode`, and
  the update receives the request metadata already serialised. Parsing
  stored metadata for the response (server/routes/assets.js:49-55,
  110, 132-136, 175-182) is not modelled, so replies carry the stored
  record.
- The deletion of the uploaded file from disk (server/routes/assets.js:205-211)
  and the download route that follows the delete route.
- bcrypt. The seed takes the password hash as a parameter.
- JWT and multer. The request user and the uploaded file are
  parameters.
- `logActivity` (server/services/dashboardService.js:72-83). It is an
  asynchronous fire-and-forget insert, and none of the modelled handlers
  calls it.
- Express plumbing. A reply is the first response a handler sends. The
  second response that approve and reject attempt after sending 403 from
  inside the transaction is not modelled.
- Object aliasing. `queryAll` and `queryOne` hand out the stored objects
  themselves, so a handler's writes onto a result change the store:
  - server/routes/approvals.js:50 writes `steps` onto every stored
    approval;
  - server/routes/assets.js:51, 110, 133 and 176-181 replace a stored
    asset's `metadata` text with the parsed object. A later `JSON.parse`
    of that object throws, and the catch of assets.js:53-54 (or 134-136)
    then stores `{}` as that asset's metadata. For example, after an
    upload the next `GET /api/assets` blanks the new asset's metadata.

  Records are values here, and these write-backs are not modelled: the
  listing and the lookups leave the store unchanged, and the upload and
  the update leave the serialised text stored.
- Clocks. Each request reads one instant `now`, although the source calls
  `new Date()` afresh for each timestamp.
- Numbers are unbounded integers: no fractions, no floating point, no
  precision loss.
- `toLowerCase` is modelled for ASCII letters only. Every statement text
  in the modelled files is ASCII.
- Statement texts are not run through `Parse` inside the handlers. Each
  one is written out as the `Stmt` the scanners would produce, and the
  derivation is given in a comment beside it. `Parse` and the scanners
  are proved correct separately.
- The queue and list filters are not parameters of `Queue` and
  `Listing`. They only append text after the table name, which the
  interpreter never reads.
- The catch blocks that turn an unexpected throw into 500 are modelled
  only where a modelled statement can throw. That happens when a
  collection is missing or a `null` result is dereferenced. The other
  catch blocks cannot be reached in the model.
- Create takes `sla_hours` as an integer, 0 standing for every falsy
  value, and `approvers` as a list or nothing. Text `sla_hours` and
  non-array `approvers` are not modelled.
- The bulk route's `Array.isArray` test is folded into the option type of
  `ids`: a non-array body field is modelled as a missing one.
- Database.IdNumber: treats every text id as NaN. `Math.max` would
  convert numeric text to a number, but every id in this model is stored
  by the counter as a number.
- Js.TimeOf: treats text that is not a stored `Time` value as an
  invalid date. `new Date` on arbitrary text is not modelled.
- Database.Store: a collection without a counter stands for a NaN
  counter, since `undefined++` and `NaN++` both leave NaN behind.
- `transaction` is modelled as `Database.Transaction`, without a contract
  of its own. It returns the callback's result and undoes nothing. Its
  callers' lemmas state what it leaves behind: `Approvals.CreateShape` on
  success, `Approvals.CreateThrowKeepsApproval` on a throw.
- Approvals.Deadline: adds `sla_hours` hours of 3 600 000 ms each. The
  source adds them to the local wall-clock hour (`setHours(getHours() +
  sla_hours)`), which differs by the offset change when the interval
  crosses a daylight-saving change. Time zones are not modelled.

## Findings

| source | as written | input that shows it | evidently intended | confidence | as-written member | corrected member |
|---|---|---|---|---|---|---|
| server/routes/assets.js:125 | `GET /:id` queries with `WHERE a.id = ?`; the interpreter's equality head needs a bare word before `=`, so the lookup falls through to the first asset | a store with assets of ids 0 and 5, and `GET /5`: the reply is asset 0 | reply with the asset whose id the URL names, 404 when there is none | not executed | Assets.Show, Assets.ShowAnswersFirstAsset | Assets.ShowById, Assets.ShowByIdFinds |
