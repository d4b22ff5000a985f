# Irish Rail realtime ETL — a verified model of its core

The pipeline pulls live train positions, station metadata and per-train
stop movements from the Irish Rail realtime XML API. It then:

- maps each XML answer to a table of records;
- cleans the columns;
- derives a delay, a current location, a train category, a route class and
  a resolved train type;
- writes each table to the warehouse under a per-table policy;
- runs once per invocation, choosing its jobs from the clock or from a
  command-line argument.

This project models that core in Dafny and proves what each step promises.

Each core source file has a module:

| file | module | models |
|---|---|---|
| `frame.dfy`, `wrappers.dfy`, `strings.dfy` | `Frame`, `Wrappers`, `Strings` | a DataFrame as a column set plus rows of cells; Option/Result; the Python string operations used (`upper`, `lower`, `strip`, `in`, `int`, `str`) |
| `train_types.dfy` | `TrainTypes` | the three train-type classifiers (code, route, message) and the precedence resolver `add_train_types` |
| `helper_functions.dfy` | `HelperFunctions` | delay and location extraction (the two location regexes as explicit matchers with leftmost-match search), train category, route classification, `add_extra_fields`, and the process-wide train-type cache as a class |
| `cleaning.dfy` | `Cleaning` | the column cleaners, the null and duplicate filters, and the coercions with an abstract per-value parser |
| `parse.dfy` | `Parse` | `parse_xml_to_df` over an abstract element tree |
| `insert.dfy` | `Insert` | the warehouse as a class with one method per write policy, and the upsert on (TrainCode, TrainDate, LocationOrder) |
| `schedule.dfy` | `Schedule` | which jobs an invocation runs, and the stop-on-first-failure rule |

Conventions:

- A cell is `Option<Value>`, where `None` is pandas' missing value.
- A frame's column set is kept apart from its rows. The `'X' in df.columns` tests, the KeyError on a missing column and `df.empty` all depend on the column set.
- The clock (`datetime.now()`, `pd.Timestamp.now()`) is a parameter.
- So are the date and time parsers, and whether an ETL job succeeds.

Where the code and its own documentation disagree, the model follows the code:

- **Location, "Arrived".** The docstring of `extract_current_location` (`scripts/helper_functions.py:28`) gives "Arrived Dundalk next stop Newry" → "Dundalk". The regexes exclude a lower-case `n` from the captured place. So the code gives None for that message, and also for "Arrived Connolly".
- **Location, "Departed".** "Departed Dundalk next stop Newry" also gives None under the code. The model proves all three outcomes.
- **Empty batches at load time.** Only `_upsert_train_movements` returns early on an empty batch (`scripts/insert.py:71-72`). An empty `stations` batch still replaces the table. An empty `current_trains` batch still deletes today's rows. The model follows the code.
- **Duplicate removal.** `drop_duplicates` keeps the first row of each key, in input order. The model proves that order against a reference list of first positions. It also covers an empty frame, missing subset columns and an empty subset.

## Model

| member | source | states |
|---|---|---|
| TrainTypes.TypeFromCode | scripts/train_types.py:8-42 | a missing or empty code is Unknown; otherwise the first letter of the upper-cased, stripped code picks DART, Intercity, Freight, E_Code_Unknown, Commuter or Special by the prefix table, and any other letter gives Unknown |
| TrainTypes.TypeOfLetter | scripts/train_types.py:20-42 | a letter with a type is a prefix of the table with that type, and every prefix letter of the table gets its own type; D, A, P and E are tested before C, M and L |
| TrainTypes.CodeIgnoresCase | scripts/train_types.py:16 | the code classifier gives the same type for a code and its lower- or upper-cased form |
| TrainTypes.TypeFromRoute | scripts/train_types.py:47-102 | Unknown exactly when an end is missing; the result is one of the six route types |
| TrainTypes.RoutePrecedence | scripts/train_types.py:57-102 | the route rules in order: a Belfast/Dublin pair in either direction is Enterprise before any other rule, then two DART stations, then city-to-terminal Intercity, then a Dublin terminal at either end is Commuter, otherwise Regional |
| TrainTypes.RouteSymmetric | scripts/train_types.py:61-99 | swapping origin and destination does not change the route type |
| TrainTypes.TypeFromMessage | scripts/train_types.py:106-123 | the message type is DART, Enterprise, Intercity or Unknown; Unknown exactly when the message is missing or names none of the three; the upper-cased message is tested for DART, then ENTERPRISE, then INTERCITY, and the first keyword it contains decides, each case stated both ways |
| TrainTypes.Resolve | scripts/train_types.py:150-170 | the route type wins unless Unknown; then the code type; E_Code_Unknown never survives; when neither route nor code gives a type, the result is the message type, or Unknown without a message column |
| TrainTypes.ResolveCellsIsResolve | scripts/train_types.py:150-170 | the column-by-column masking on cells agrees with the value-level precedence rule |
| TrainTypes.AddTrainTypes | scripts/train_types.py:127-172 | an empty frame is returned as it is; otherwise every row gets a train_type, the row count and the other cells are kept, and a well-formed frame stays well-formed |
| TrainTypes.TypeRowResolves | scripts/train_types.py:136-170 | a row's train_type is the resolution of the classifiers of the columns the frame has |
| TrainTypes.ResolvedTypesAreAllButECode | scripts/train_types.py:163-165 | the types a resolution can end in are exactly all types but E_Code_Unknown |
| TrainTypes.AddTrainTypesResolves | scripts/train_types.py:150-170 | no row of the result has E_Code_Unknown as its train type |
| TrainTypes.RouteTypeIsPrimary | scripts/train_types.py:151-157 | when origin and destination are present and the route type is not Unknown, it is the train type |
| TrainTypes.CodeA101 | scripts/train_types.py:23-24 | code "A101" is Intercity |
| TrainTypes.BelfastDublinRoute | scripts/train_types.py:57-68 | Belfast Central to Dublin Connolly is Enterprise |
| TrainTypes.EnterpriseOverridesCode | scripts/train_types.py:150-157 | an Enterprise route overrides an Intercity code |
| TrainTypes.ConnollyMalahideIsDart | scripts/train_types.py:71-84 | Connolly to Malahide is DART |
| TrainTypes.TraleeHeustonIsIntercity | scripts/train_types.py:87-96 | Tralee to Heuston is Intercity |
| HelperFunctions.ExtractDelay | scripts/helper_functions.py:7-23 | a missing or empty message gives 0; otherwise the result is the signed value of the leftmost position where the delay pattern matches, and 0 when it matches nowhere |
| HelperFunctions.DelayAtAnnotation | scripts/helper_functions.py:16-20 | an annotation "(N mins late)" with any signed N is read back as N |
| HelperFunctions.ExtractDelayOfAnnotation | scripts/helper_functions.py:16-20 | when the pattern matches nowhere before an annotation, that annotation gives its delay, whatever other brackets precede it: writing and reading a delay round-trips |
| HelperFunctions.NoBracketNoEarlierDelay | scripts/helper_functions.py:16-17 | text without "(" holds no match of the delay pattern |
| HelperFunctions.BracketWithoutNumber | scripts/helper_functions.py:16-17 | a "(" followed by neither a sign nor a digit starts no match |
| HelperFunctions.PlatformExample | scripts/helper_functions.py:16-20 | "(Platform 2) (5 mins late)" gives 5: an earlier bracket that is no annotation is skipped |
| HelperFunctions.NoParenthesisNoDelay | scripts/helper_functions.py:22-23 | a message without "(" gives 0 |
| HelperFunctions.LateExample | scripts/helper_functions.py:10 | "A105 08:00 - Belfast to Dublin (5 mins late)" gives 5 |
| HelperFunctions.EarlyExample | scripts/helper_functions.py:15-20 | "(-3 mins late)" gives -3 |
| HelperFunctions.NoDelayExample | scripts/helper_functions.py:22-23 | "No delay info" gives 0 |
| HelperFunctions.DepartedAt | scripts/helper_functions.py:36 | a "Departed" capture never contains a lower-case n |
| HelperFunctions.DepartedAtIsMatch | scripts/helper_functions.py:36 | the matcher agrees with the regex `Departed ([^n]+) next stop` at a position: it finds a match when one exists and captures the greedy run |
| HelperFunctions.DepartedMatchIs | scripts/helper_functions.py:36 | a regex match at a position is what the matcher returns there |
| HelperFunctions.DepartedAtFront | scripts/helper_functions.py:36-39 | "Departed X next stop …" with X free of lower-case n captures X at the start |
| HelperFunctions.ArrivedTailIsRegex | scripts/helper_functions.py:42 | the tail test is the regex's `(?:\s+next stop` alternative `$)`: one or more whitespace characters then "next stop", or the end of the message |
| HelperFunctions.SpacedNextStopIs | scripts/helper_functions.py:42 | the whitespace scan holds exactly when some run of whitespace characters at that position is followed by "next stop" |
| HelperFunctions.ArrivedAt | scripts/helper_functions.py:42 | an "Arrived" capture never contains a lower-case n |
| HelperFunctions.ArrivedAtIsMatch | scripts/helper_functions.py:42 | what the matcher returns is a match of the lazy "Arrived" regex, whose capture is followed by whitespace and "next stop" or by the end |
| HelperFunctions.ArrivedAtIsShortest | scripts/helper_functions.py:42 | the lazy capture is no longer than any match at that position |
| HelperFunctions.ArrivedAtEnd | scripts/helper_functions.py:42 | "Arrived X" with X free of lower-case n and of whitespace captures X through the end-of-message alternative |
| HelperFunctions.DeparturesAtMost | scripts/helper_functions.py:36-37 | when the only "De" of a message starts no match, `re.search` finds no "Departed" match anywhere |
| HelperFunctions.ArrivalsAtMost | scripts/helper_functions.py:42-43 | when the only "A" of a message starts no match, `re.search` finds no "Arrived" match anywhere |
| HelperFunctions.ExtractLocation | scripts/helper_functions.py:25-47 | a missing or empty message gives None; a location is stripped text without a lower-case n |
| HelperFunctions.LocationIsDeparted | scripts/helper_functions.py:36-39 | the leftmost "Departed" match wins and is stripped |
| HelperFunctions.LocationIsArrived | scripts/helper_functions.py:41-45 | with no "Departed" match, the leftmost "Arrived" match wins |
| HelperFunctions.LocationIsNone | scripts/helper_functions.py:47 | with neither match the location is None |
| HelperFunctions.ArrivedNoLocation | scripts/helper_functions.py:35-47 | "Arrived " then a place not starting with A, whose second letter is a lower-case n and with no A or D after its first letter, gives no location: the excluded n blocks both patterns |
| HelperFunctions.DepartedNoLocation | scripts/helper_functions.py:35-47 | "Departed " then a place not starting with A, whose second letter is a lower-case n and with no A or D after its first letter, gives no location |
| HelperFunctions.DepartedCorkExample | scripts/helper_functions.py:35-39 | "Departed Cork next stop Mallow" gives Cork |
| HelperFunctions.ArrivedCorkExample | scripts/helper_functions.py:41-45 | "Arrived Cork" gives Cork |
| HelperFunctions.ArrivedDundalkHasNoLocation | scripts/helper_functions.py:28-47 | "Arrived Dundalk next stop Newry" gives None, unlike the docstring |
| HelperFunctions.ArrivedConnollyHasNoLocation | scripts/helper_functions.py:41-47 | "Arrived Connolly" gives None |
| HelperFunctions.DepartedDundalkHasNoLocation | scripts/helper_functions.py:35-47 | "Departed Dundalk next stop Newry" gives None |
| HelperFunctions.TrainCategory | scripts/helper_functions.py:49-57 | "N/A" exactly for a missing or empty code, otherwise the code's first character |
| HelperFunctions.ClassifyRoute | scripts/helper_functions.py:59-85 | Unknown exactly when an end is missing; Regional exactly when neither end names a Dublin-area keyword; Intercity only with a major city at an end; Dublin_Commuter only without one |
| HelperFunctions.ClassifyRouteSymmetric | scripts/helper_functions.py:66-77 | swapping the ends does not change the class |
| HelperFunctions.EnterpriseRouteClass | scripts/helper_functions.py:70-82 | an Enterprise route is Intercity or Dublin_Commuter, and Intercity when it names Belfast |
| HelperFunctions.RegionalRouteType | scripts/helper_functions.py:84-85 | a Regional route class has route type DART or Regional |
| HelperFunctions.CommuterRouteIsDublinArea | scripts/helper_functions.py:69-82 | a Commuter route type is a Dublin-area class |
| HelperFunctions.ConnollyCorkIsIntercity | scripts/helper_functions.py:74-80 | Dublin Connolly to Cork is Intercity |
| HelperFunctions.ConnollyMalahideIsCommuter | scripts/helper_functions.py:74-82 | Dublin Connolly to Malahide is Dublin_Commuter |
| HelperFunctions.CorkTraleeIsRegional | scripts/helper_functions.py:84-85 | Cork to Tralee is Regional |
| HelperFunctions.TraleeHeustonDisagree | scripts/helper_functions.py:76-82 | Tralee to Heuston has train type Intercity but route class Dublin_Commuter, since TRALEE is not in this city list |
| HelperFunctions.ExtraRow | scripts/helper_functions.py:97-113 | a row gains the derived columns the frame supports plus enhanced_at, and keeps its other cells |
| HelperFunctions.AddExtraFields | scripts/helper_functions.py:87-115 | an empty frame is returned as it is; otherwise the row count and the other cells are kept, the columns gain the derived ones and enhanced_at, and a well-formed frame stays well-formed |
| HelperFunctions.ExtraFieldsOfRow | scripts/helper_functions.py:98-113 | each derived cell is the extractor applied to the row's source cells |
| HelperFunctions.ExtraFieldsDelay | scripts/helper_functions.py:99 | a message whose first match of the delay pattern is an annotation for n minutes gets n in delay_minutes |
| HelperFunctions.LearnRowsKeeps | scripts/helper_functions.py:133-134 | learning never forgets a cached code |
| HelperFunctions.LearnRowsClean | scripts/helper_functions.py:130 | the cache never holds an empty type |
| HelperFunctions.LearnRowsLastWins | scripts/helper_functions.py:133-134 | for a code, the last learnable row of the batch decides its cached type |
| HelperFunctions.LearnRowsUntouched | scripts/helper_functions.py:133-134 | codes the batch does not carry keep their cached type |
| HelperFunctions.TrainTypeCache.constructor | scripts/helper_functions.py:118 | the cache starts empty |
| HelperFunctions.TrainTypeCache.Update | scripts/helper_functions.py:120-134 | the loop leaves the cache equal to the batch's learnable rows folded into the old cache; frames that are empty or lack a column change nothing |
| HelperFunctions.TrainTypeCache.Lookup | scripts/helper_functions.py:150 | `map`: the cached type, or missing |
| HelperFunctions.TrainTypeCache.Enrich | scripts/helper_functions.py:139-157 | empty frames and frames without TrainCode pass through; a present TrainType is kept; a missing one is filled from the cache; other cells are kept |
| HelperFunctions.EnrichIdempotent | scripts/helper_functions.py:148-155 | enriching twice is enriching once |
| HelperFunctions.EnrichUsesLearnedType | scripts/helper_functions.py:120-155 | after learning from a batch, a row with a missing type gets the type the batch taught for its code |
| Cleaning.CleanColumns | scripts/cleaning.py:66-72 | the per-column loop keeps the column set, the row count and each row's keys |
| Cleaning.ForEachColumn | scripts/cleaning.py:66-72 | the loop's state is the reference loop's: the table after the columns handled, and the first missing column |
| Cleaning.CleanColumnsIsCleaned | scripts/cleaning.py:66-72 | with an idempotent rule, the loop rewrites exactly the columns before the first missing one and reports that one |
| Cleaning.CleanColumnsIdempotent | scripts/cleaning.py:66-72 | running a cleaner with an idempotent rule twice gives its first result |
| Cleaning.CleanColumnsKeeps | scripts/cleaning.py:85-91 | cells of unlisted columns are kept; a rule that keeps missing values keeps every missing cell |
| Cleaning.CleanColumnsMissing | scripts/cleaning.py:70-71 | a column is reported missing exactly when some listed column is absent, and the reported one is absent |
| Cleaning.StripCellIdempotent | scripts/cleaning.py:71 | stripping twice is stripping once |
| Cleaning.UnbreakUnbroken | scripts/cleaning.py:90 | after the replacement no newline and no backslash-n pair is left |
| Cleaning.UnbreakUnchanged | scripts/cleaning.py:90 | text without line breaks is unchanged by the replacement |
| Cleaning.LinebreakCell | scripts/cleaning.py:90 | a cleaned value is text without line breaks, or missing |
| Cleaning.LinebreakCellIdempotent | scripts/cleaning.py:90 | removing line breaks twice is removing them once |
| Cleaning.ToStringCell | scripts/cleaning.py:36 | missing stays missing; any value becomes its text |
| Cleaning.CoerceCell | scripts/cleaning.py:15 | a missing value stays missing; a value that does not parse becomes missing |
| Cleaning.RemoveWhitespace | scripts/cleaning.py:66-72 | `remove_whitespace` is the loop with the strip rule |
| Cleaning.RemoveLinebreaks | scripts/cleaning.py:85-91 | `remove_linebreaks` is the loop with the line-break rule |
| Cleaning.ObjectToString | scripts/cleaning.py:31-37 | `object_tostring` is the loop with the string rule |
| Cleaning.ObjectToParsed | scripts/cleaning.py:10-26 | `object_to_date` and `object_to_time` are the loop with a coercing parser |
| Cleaning.LinebreaksRemoved | scripts/cleaning.py:85-91 | every listed cell holds text without line breaks, or is missing |
| Cleaning.WhitespaceRemoved | scripts/cleaning.py:66-72 | every listed cell is stripped text or missing, and a text cell becomes its stripped text |
| Cleaning.CoercionNeverAborts | scripts/cleaning.py:10-26 | an unparsable value becomes missing, with nothing raised and no row lost |
| Cleaning.KeepPresent | scripts/cleaning.py:81 | the kept rows come from the input and have the column present |
| Cleaning.RemoveNulls | scripts/cleaning.py:76-82 | the loop's result is the reference filter, with Failure naming the first missing column |
| Cleaning.NonNullIsCompletes | scripts/cleaning.py:76-82 | with every column present, exactly the rows complete in the listed columns are kept, in order; an absent listed column makes it fail, naming the first listed column the table lacks |
| Cleaning.CompletesSelects | scripts/cleaning.py:76-82 | every kept row is a complete input row, and every complete input row is kept |
| Cleaning.CompletesIdempotent | scripts/cleaning.py:76-82 | dropping nulls again drops nothing |
| Cleaning.Dedup | scripts/cleaning.py:100 | surviving rows come from the input and their keys are unseen |
| Cleaning.RemoveDuplicates | scripts/cleaning.py:95-100 | an empty frame passes through; absent subset columns fail, all named; an empty subset fails; a non-empty subset of present columns succeeds; a success keeps the columns and had a non-empty, present subset; on a frame with rows it holds exactly the rows at the reference first positions, in input order |
| Cleaning.FirstPositions | scripts/cleaning.py:100 | the reference for keep='first': every position whose row is the first with its key, in strictly increasing order, and no other |
| Cleaning.DedupInOrder | scripts/cleaning.py:100 | the duplicate filter returns the input rows at the reference first positions, in input order |
| Cleaning.DedupDistinct | scripts/cleaning.py:100 | no two surviving rows share a key |
| Cleaning.DedupKeys | scripts/cleaning.py:100 | every key of the input survives |
| Cleaning.DedupKeepsFirst | scripts/cleaning.py:100 | the survivor of each key is its first row |
| Cleaning.DedupOfDistinct | scripts/cleaning.py:100 | rows whose keys are distinct and unseen all survive, in order |
| Cleaning.DedupIdempotent | scripts/cleaning.py:100 | removing duplicates again removes nothing |
| Cleaning.RemoveDuplicatesKeepsFirst | scripts/cleaning.py:95-100 | with a non-empty subset of present columns the call succeeds, and the result is the input rows at the first position of each key, in input order; so keys are distinct, every key is kept and the first row of each key survives |
| Parse.Find | scripts/parse.py:24 | `find` returns the first direct child with the tag, or none when no child has it |
| Parse.Field | scripts/parse.py:24-25 | a field is text or missing |
| Parse.RecordOf | scripts/parse.py:22-25 | a record has exactly the field map's keys, each the text of the first child with the mapped tag |
| Parse.FindAll | scripts/parse.py:21 | `findall` returns direct children with the record tag |
| Parse.Records | scripts/parse.py:20-27 | the frame is well formed |
| Parse.BuildRow | scripts/parse.py:22-25 | the inner loop builds the record for the element |
| Parse.ParseXmlToFrame | scripts/parse.py:8-27 | the nested loops produce the reference frame |
| Parse.FindAllSplit | scripts/parse.py:21 | `findall` keeps document order |
| Parse.FindAllKeepsMatches | scripts/parse.py:21-26 | every child with the record tag yields a record, identical ones included |
| Parse.FindAllIgnoresOthers | scripts/parse.py:6-21 | children with any other tag, e.g. in another namespace, are ignored |
| Parse.RecordsShape | scripts/parse.py:21-26 | one record per matching child, in order, with the field map's keys; each field is the first mapped child's text, or missing |
| Parse.PartialRecordIsAllMissing | scripts/parse.py:23-25 | a record with no mapped children gives all missing values |
| Parse.NoRecordsNoColumns | scripts/parse.py:27 | no matching record gives a frame with neither rows nor columns |
| Insert.FindKey | scripts/insert.py:97 | the index of a batch row with the key, or none when the batch lacks it |
| Insert.Overwrite | scripts/insert.py:88-99 | the update columns take the incoming values; other cells are kept |
| Insert.Upserted | scripts/insert.py:94-100 | the table keeps its rows and gains at most the batch |
| Insert.UpsertKeepsKeysUnique | scripts/insert.py:94-100 | at most one row per key after the upsert |
| Insert.UpsertKeySet | scripts/insert.py:94-100 | the keys after are the old keys and the batch keys |
| Insert.UpsertLeavesOthers | scripts/insert.py:94-100 | a row whose key the batch lacks is untouched, in its place |
| Insert.UpsertOverwrites | scripts/insert.py:88-99 | a conflicting row takes every update column from the batch, keeps its key and its other cells |
| Insert.UpsertInserts | scripts/insert.py:95-96 | a batch row with a new key is inserted |
| Insert.UpsertLeavesOneRow | scripts/insert.py:94-100 | after the upsert a batch key is held by exactly one row, which has the incoming values |
| Insert.UpsertIdempotent | scripts/insert.py:94-100 | upserting a batch twice equals upserting it once |
| Insert.WithoutDay | scripts/insert.py:41-42 | kept rows come from the table and are not dated today |
| Insert.WithoutDayKeepsOthers | scripts/insert.py:41-42 | every row not dated today survives; the number deleted is the count of today's rows |
| Insert.Warehouse.constructor | scripts/insert.py:23 | the warehouse starts with the given tables |
| Insert.Warehouse.ReplaceStations | scripts/insert.py:31-34 | the stations table becomes the batch |
| Insert.Warehouse.ReplaceToday | scripts/insert.py:36-51 | today's rows are deleted and the batch appended, an empty batch included; a missing table fails with nothing changed |
| Insert.Warehouse.UpsertMovements | scripts/insert.py:67-108 | an empty batch changes nothing; a batch with only key columns (an empty SET clause) and a missing table fail with nothing changed; otherwise the table becomes the upsert of the batch; the key stays unique |
| Insert.Warehouse.Append | scripts/insert.py:58-61 | the batch is appended, or becomes the table when it is new |
| Insert.Warehouse.InsertData | scripts/insert.py:25-65 | the policy follows the table name, and the new table is stated for each: stations becomes the batch; current_trains loses today's rows and gains the batch; train_movements is unchanged for an empty batch, fails for a batch of key columns only, and is otherwise upserted; any other table is appended to or created; a failure changes nothing; other tables are untouched |
| Schedule.ScheduledJobs | scripts/schedule.py:15-32 | at most one job: stations exactly at 02:00, movements exactly on other quarter hours, current trains exactly on other five-minute marks, none otherwise |
| Schedule.Dispatch | scripts/schedule.py:45-66 | no argument defers to the clock; "trains" runs current trains, "movements" train movements, "stations" stations, "all" all three in that order (after lower-casing); any other argument is an unknown type carrying the lower-cased name |
| Schedule.RunAll | scripts/schedule.py:34-43 | the exit status is 0 or 1 |
| Schedule.Invoke | scripts/schedule.py:45-66 | an unknown argument starts nothing and exits 1; otherwise the planned jobs run |
| Schedule.RunAllStopsAtFirstFailure | scripts/schedule.py:34-43 | the started jobs are a prefix of the plan; exit 0 exactly when all succeed; on exit 1 the last started job is the first failure |
| Schedule.ScheduledRunStartsAtMostOne | scripts/schedule.py:22-32 | a clock-driven run starts at most one job |
| Schedule.StationsWinAtTwo | scripts/schedule.py:22-27 | 02:00 runs stations, 03:00 runs movements |
| Schedule.AllStopsAfterFailure | scripts/schedule.py:56-59 | "ALL" plans the three jobs in order, and a failing first job stops the rest |
| Schedule.DispatchIgnoresCase | scripts/schedule.py:48 | only the lower-cased argument matters |
| Schedule.UnknownArgumentFails | scripts/schedule.py:60-63 | an unknown argument starts nothing and exits 1 |

## Left out

- I/O is not part of this model: HTTP fetching, the SQL engine, connections, commits, temporary tables, row counts and all printing and logging. The warehouse is an in-memory map from table name to table.
- The clock is a parameter: `datetime.now()`, `pd.Timestamp.now()` and the `enhanced_at` stamp.
- Date and time parsing (`pd.to_datetime`, with format inference or `'%H:%M:%S'`) is a parameter `parse`. A result of None stands for NaT.
- `object_to_float` and `fetch_timestamp` are left out. The first is floating point; the second reads the clock.
- Strings: `upper`/`lower` act on ASCII letters only; Python's Unicode case mapping is not modelled. `strip` and `\s` use the full `str.isspace` set.
- Strings.IsDigit: ASCII digits only. Python's `\d` and `int()` also accept other Unicode decimal digits, so "(٥ mins late)" gives 5 in Python but 0 in the model.
- Cleaning.StripCell and Cleaning.LinebreakCell: a non-text cell becomes missing, as pandas' `.str` methods do in a column that holds some strings. A column with no string value at all makes `.str` raise; that error is not modelled.
- Loading: the database's schema checks are not modelled. These are column or type mismatches on append, and `INSERT … SELECT *` positional column matching in the upsert. Appending keeps the stored column set.
- Insert.Warehouse.UpsertMovements: requires batch keys to be distinct, because Postgres rejects a second touch of the same row within one `ON CONFLICT DO UPDATE`. Null key values (rejected by the primary key) are not modelled.
- Insert.Upserted: row order in a SQL table carries no meaning. The model keeps stored rows in place and appends new rows in batch order.
- Insert.Warehouse.ReplaceToday: a failed delete (the table does not exist yet) is modelled as a failure that changes nothing. Other connection errors are not modelled.
- Cleaning.RemoveDuplicates: follows pandas `drop_duplicates` as used here:
  - a frame with no rows or no columns is returned first;
  - absent subset columns raise;
  - an empty subset, which pandas cannot compare on, is an error.
  The exact pandas exception types are not modelled.
- Cleaning.ForEachColumn: when a column is missing, the columns before it have already been rewritten in place. The model returns that partial table, but does not model that the caller's frame object is shared with it.
- HelperFunctions.TrainTypeCache: the module-level dictionary is one object passed to its users, not a global.
- Schedule: the ETL jobs and their contents (`pipeline.py`) are left out; whether a job succeeds is a parameter. `sys.exit` is modelled as the run's exit status. Log messages are left out.
- `get_train_type_summary` (printing counts) and the commented-out loaders in `insert.py` are left out.
