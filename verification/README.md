# robsd: a verified model

robsd builds and tests OpenBSD. This project models the parts of it where much depends on details:
the hash map and the arena that its programs share, the expansion of `${name}` in configurations and
step files, the step file itself, the loop that runs steps and resumes after a failure or a crash, the
scheduling of parallel steps, and the two reports on regress runs. `dafny verify dfyconfig.toml` checks
everything.

Code that works in place is modelled in place: bucket chains are relinked on the heap, frames of the
arena are linked objects with byte arrays, the interpolator has one output buffer and one depth
counter, the lexer has cursors. Each such method is proved against a function on values, and the main
results are lemmas about these functions. The files, by component:

- `Arithmetic`: the overflow checks of libks, and shifts and masks on numbers.
- `HashTable` (values), `BucketChains`, `UtTable`, `HashMap` (code), `HashMapRuns`: the hash map, for any hash function.
- `Arena` (values), `ArenaScopes`, `ArenaRuns`, `ArenaRelease`, `ArenaStats` (what runs keep), `ArenaCode`; `Growth` and `Buffer`: containers that grow; `ArenaVector`: vectors in an arena.
- `Interpolate`, `Conf`, `Text`: expansion, its early stage in the configuration, and numbers as text.
- `Lexer`, `StepRows`, `StepParse`, `StepText`, `StepUpsert`, `StepKeyvals`, `StepFile`, `StepWrite`: the step file, from characters to `robsd-step -W` and `step_write`.
- `Runner` (transitions), `RunnerSafety`, `RunnerDecisions`, `RunnerEnd`, `RunnerCode`: the loop over steps in the modes without parallel steps.
- `Parallel` (transitions), `ParallelCode`, `RegressSteps`: the loop with parallel steps, `robsd-wait`, and the order of regress steps.
- `RegressLog`, `RegressBlocks`, `RegressHtml`, `SuiteOrder`: cutting and searching logs, and the table of runs.

Some results are about what the code does not do, with the exact condition where there is one:

- A row survives printing and parsing if and only if every field is set, no string holds a comma, newline,
  NUL or dollar sign, and only the log is empty: values are printed by interpolation, so a dollar sign in
  a value is expanded (`StepText.RoundTrip`). A call of `robsd-step -W` acts on the file as on a map if and
  only if the row that it makes survives and does not take the id of another row (`StepUpsert.WriteRefines`).
- Doubling the hash table reverses chains. A lookup is unchanged if and only if no two elements have the
  key (`HashTable.LookupAfterExpand`); `map_insert` does not look for the key, `find_suite` does.
- `map_insert` returns NULL when only the doubling fails, although the element is in the map
  (`HashMap.HashMap.Insert`).
- A template can be expanded at once if and only if both stages succeed and it is shallow: no reference,
  followed through the values of others, lies deeper than four levels (`Interpolation.StagedConverse`). There
  are templates that are too deep at once although both stages succeed (`Interpolation.DeepChain`).
- `arena_realloc` checks the scope only when the object moves. Growing an object of an outer scope in place
  is undone when the inner scope is left, if and only if its aligned end moved; and the next allocation takes
  bytes of it, if and only if it then reaches behind its old aligned end (`ArenaRelease.OuterReallocIsCutOff`,
  `ArenaRelease.NextAllocationOverlaps`).
- Once an arena is freed and scopes are left, the check of `arena_malloc` takes the scope around the innermost
  one for the innermost (`ArenaRelease.OnlyInnermostAllocates`).
- The comment of `ismarker_regress` and its code disagree: the code accepts `==== ====` and rejects lines
  with an equals sign behind a blank in the middle. The model follows the code
  (`RegressLog.IsMarkerRegress`, `RegressLog.MarkersDiffer`).
- A pass over parallel steps can be over with a job still running if and only if the last step that is not
  skipped is parallel and no `end` is run on the way (`Parallel.JobLeftIff`); with the `end` as the last step,
  only if it is skipped (`Parallel.SkippedEndLeavesJob`).
- Steps to skip are searched for with `grep -w` in the list of numbers and names, but skipped by name. A word
  that is found in one line takes effect if and only if it is the name (`RunnerSafety.SkipTakesEffectIff`): a
  step's number marks the step as skipped, and it runs all the same (`RunnerSafety.SkipByNumber`).
- The walk over columns compares times only. A run stands under its own invocation if and only if, at each
  time, the runs belong to the first invocations of that time (`RegressHtml.OwnIff`): if two architectures
  are invoked at the same time, a run can stand under the wrong one.
- A suite that one invocation has twice can be shown under another invocation, or make the walk leave the
  columns (`RegressHtml.TwiceMisaligned`).

## Model

| member | source | states |
|---|---|---|
| `Arithmetic.SignedAdd` | libks/arithmetic.c:20-26 | overflow is reported exactly when the sum is out of range, and else the sum is stored |
| `Arithmetic.SignedSub` | libks/arithmetic.c:28-34 | the same for differences |
| `Arithmetic.SignedMul` | libks/arithmetic.c:36-47 | the same for products, with C's truncating division in all sign cases |
| `Arithmetic.UnsignedAdd` | libks/arithmetic.c:49-54 | overflow exactly when the unbounded sum exceeds the maximum |
| `Arithmetic.UnsignedSub` | libks/arithmetic.c:56-61 | overflow exactly when the difference is negative |
| `Arithmetic.UnsignedMul` | libks/arithmetic.c:63-68 | overflow exactly when the product exceeds the maximum, for a second factor that is not zero |
| `Arithmetic.MaskIsRoundDown` | libks/arena.c:261 | masking with 2^n - 2^k rounds down to a multiple of 2^k |
| `HashTable.ExpandSplits` | libks/map.c:525-546 | doubling makes bucket b from old bucket b mod n: exactly its elements that hash to b, in reverse |
| `HashTable.ExpandKeepsWf` | libks/map.c:507-556 | after doubling the chains still partition the elements and there are 2^log2 buckets |
| `HashTable.AddKeepsWf` | libks/map.c:390-412 | adding an element, with or without doubling, keeps chains and application order a partition of each other |
| `HashTable.AddDoublesIff` | libks/map.c:405-410 | adding doubles the buckets exactly if doubling was not given up and the chain then has ten times as many elements as its multiplier and one more; where the buckets cannot be doubled, exactly then failure is reported |
| `HashTable.PrependStays` | libks/map.c:396-404 | an element is put in front of its chain, where a lookup finds it first, and no multiplier changes |
| `HashTable.AddStaysModest` | libks/map.c:405-410 | below 2^28 elements no threshold wraps around, and adding fails only if the chain of the element has come to ten elements |
| `HashTable.DeleteKeepsWf` | libks/map.c:435-482 | so does deleting one, and the counts stay exact |
| `HashTable.LookupAfterExpand` | libks/map.c:525-546 | after doubling a lookup finds the last match of the old chain; it is unchanged if and only if there are no two elements for the key |
| `HashTable.IdealIsCeiling` | libks/map.c:521-523 | the shift and mask compute items over new buckets, rounded up |
| `HashTable.ExpandStats` | libks/map.c:521-555 | after doubling the ideal length is that ceiling, the nonideal count is the sum of what chains have beyond it, and each multiplier is bracketed by its chain's length |
| `HashTable.ExpandGivesUp` | libks/map.c:551-554 | doubling is given up exactly when it leaves more than half of the elements beyond the ideal length for the second time in a row |
| `HashTable.TotalIsLength` | libks/map.c:462-482 | chain lengths add up to the number of elements in application order |
| `BucketChains.Move` | libks/map.c:529-545 | relinking one element in place does what placing it in its new chain does, counters included |
| `BucketChains.MoveChain` | libks/map.c:526-546 | walking an old chain moves each of its elements, in order |
| `BucketChains.MoveBuckets` | libks/map.c:525-546 | walking all old buckets relinks every element into chains that agree in both link directions |
| `BucketChains.UnlinkChain` | libks/map.c:462-482 | unlinking cuts exactly one element out of a doubly linked chain |
| `UtTable.UtHashTable.ExpandBuckets` | libks/map.c:507-556 | in place, the table becomes its doubling, or stays as it was on overflow or lack of memory |
| `UtTable.UtHashTable.AddToTable` | libks/map.c:390-412 | puts the element in front of its chain and doubles when the chain calls for it, as `HashTable.AddDoublesIff` says |
| `UtTable.UtHashTable.DelInBkt` | libks/map.c:461-482 | takes the element out of its chain and out of the count |
| `HashMap.HashMap.Insert` | libks/map.c:147-162 | appends a fresh element for the key, and says when nothing is returned although the element is there |
| `HashMap.HashMap.HashAdd` | libks/map.c:369-388 | makes the first table or appends to the order, then adds to the table |
| `HashMap.HashMap.AppendList` | libks/map.c:414-424 | links the element behind the tail, in both directions |
| `HashMap.HashMap.Find` | libks/map.c:558-577 | finds an element with the key if and only if there is one, and the one at the front of its chain |
| `HashMap.HashMap.Remove` | libks/map.c:199-213 | removes what a lookup finds, or nothing |
| `HashMap.HashMap.Delete` | libks/map.c:435-459 | takes the element out of the order and its chain, and keeps the order of the others |
| `HashMap.HashMap.DeleteInOrder` | libks/map.c:440-452 | relinks the neighbours, the head and the tail |
| `HashMap.HashMap.Free` | libks/map.c:123-137 | unlinks all elements in order, reading each successor before its element goes |
| `HashMap.MapIterator.Next` | libks/map.c:215-235 | hands out the elements in insertion order, once each |
| `HashMapRuns.RemoveCurrent` | libks/map.c:215-235 | removing the element handed out last leaves what is still to be handed out as it was |
| `HashMapRuns.FindOrInsert` | regress-html.c:191-204 | gives the element for the key, the one there is or else a new one behind all others; nothing is returned only where the buckets cannot be doubled and the chain of the key has come to ten elements |
| `HashMapRuns.WalkAndRemove` | libks/map.c:215-235 | a walk that removes any choice of the elements it is handed is handed every element once, in insertion order, and leaves exactly the others |
| `HashMapRuns.Execute` | libks/map.c:147-235 | over any run of insertions of missing keys, removals, lookups and walks with removals, the map is a list of elements with distinct keys, and each answer is an element of the list |
| `HashMapRuns.FewNeedNoBuckets` | libks/map.c:405-410 | a new map that never has ten elements has 32 buckets after any run, and no insertion is refused |
| `HashMapRuns.LastWriteWins` | libks/map.c:147-213 | after any run from empty a key stands for the element that was inserted last for it, unless it was removed since |
| `HashMapRuns.InsertionOrder` | libks/map.c:414-424 | after any run from empty the elements stand in the order in which they were inserted |
| `Interpolation.ParseRender` | interpolate.c:103-138 | a template of text and references is cut exactly at its references |
| `Interpolation.PlainText` | interpolate.c:95-154 | text without dollar signs stays as it is |
| `Interpolation.ReferenceText` | interpolate.c:95-154 | what a reference is replaced by: the expansion of its value one level down, a copy of itself if unknown names are ignored, or a failure |
| `Interpolation.BrokenText` | interpolate.c:103-127 | a dollar sign is an error exactly if no name in braces follows it; what comes before it is written |
| `Interpolation.NoLevels` | interpolate.c:84-88 | without a level left every text fails |
| `Interpolation.ExpandAppend` | interpolate.c:95-154 | the expansion of a concatenation is the concatenation of the expansions, up to the first failure |
| `Interpolation.FewerLevels` | interpolate.c:84-92 | fewer levels of nesting give the same result or fail for want of levels |
| `Interpolation.ShallowIff` | interpolate.c:84-92 | what expands on many levels expands on fewer if and only if no reference lies deeper |
| `Interpolation.Staged` | conf.c:364-379 | if a template expands, its early stage succeeds and expands to the same text |
| `Interpolation.StagedConverse` | conf.c:364-379 | a template expands if and only if both stages do and it is shallow; if both stages do, expanding at once gives the same text exactly for shallow templates, and for all on almost twice the levels |
| `Interpolation.StoreEarly` | conf-robsd-regress.c:305-313 | replacing a variable by the early stage of its value changes no expansion that succeeds |
| `Interpolation.ExpandTwice` | interpolate.c:95-154 | a successful result holds no dollar sign, so expanding it again in any environment changes nothing |
| `Interpolation.CycleFails` | interpolate.c:84-92 | a template that mentions a name of a cycle never expands |
| `Interpolation.DeepChain` | conf.c:364-379 | a chain of references that is too deep at once although both stages succeed |
| `Interpolation.Interpolate` | interpolate.c:79-93 | appends the expansion, and on success or a failure other than depth leaves the depth as it was |
| `Interpolation.InterpolateInner` | interpolate.c:95-154 | the loop over references appends what the recursive expander says, on the levels that are left |
| `Interpolation.InterpolateReference` | interpolate.c:101-147 | one turn of the loop: text, syntax errors, and the value of one reference |
| `Interpolation.PutValue` | interpolate.c:128-142 | unknown names fail, or are copied when lookup errors are ignored; known values are expanded one level down |
| `Conf.Config.InterpolateStr` | conf.c:298-307 | interpolates with the configuration as environment |
| `Conf.Config.VariableShows` | conf.c:230-237 | a name stands for the first variable that has it, as text |
| `Conf.Config.DefaultShows` | conf.c:239-271 | without a variable a name stands for the default of the first entry of the grammar with the name or a pattern that matches it |
| `Conf.Config.EarlyIff` | conf.c:312-329 | in the early stage a name stands for what it stands for otherwise if that first entry is early, and else for nothing |
| `Conf.Config.EarlyReference` | conf.c:364-379 | the early stage replaces a reference to an early name by its value and copies any other reference |
| `Conf.JoinTwo` | conf.c:350-358 | a list is its items in their order with one blank between any two |
| `Conf.Config.InterpolateEarly` | conf.c:364-379 | interpolates early variables only, copies all other references, and resets the early flag |
| `Conf.Config.EarlyThenFull` | conf.c:321-329 | a template can be interpolated if and only if it can be early and then fully and is shallow, with the same text |
| `Conf.Config.AppendEarly` | conf-robsd-regress.c:296-314 | appends a list and then stores the early stage of the name's value as a string, also for a name that has a value already; fails if that stage fails |
| `Conf.Config.AppendEarlyKeepsMeaning` | conf-robsd-regress.c:305-314 | storing the early stage changes the interpolation of no template that could be interpolated |
| `Text.StrtonumOfDecimal` | compat-strtonum.c:38-66 | a printed number in range is read back |
| `Text.StrtonumIff` | compat-strtonum.c:53-63 | a text is read as a number if and only if it is white space, a sign, zeros and the number as it is printed, with nothing behind it, and the number is in range |
| `Lexing.Input.Getc` | lexer.c:96-114 | hands out the characters, then NUL once, then an error |
| `Lexing.Input.Read` | step.c:546-583 | reads one token, stepping back over the character that ends a value, and fails for a value that the file does not end properly |
| `Lexing.Scan` | lexer.c:46-84 | turns the whole text into tokens, or fails |
| `Lexing.Lexer.Next` | lexer.c:136-147 | moves the cursor; the end of the file is never used up |
| `Lexing.Lexer.If` | lexer.c:179-189 | uses the next token up exactly if it is the one asked for |
| `StepRows.ParseTable` | step.c:474-544 | parsing the text of a table is reading the table line by line, empty values being skipped |
| `StepRows.RowOfLine` | step.c:499-544 | the token parser of a row agrees with the reading of a line, errors included |
| `StepParse.ParseAny` | step.c:100-172 | what any text means: a NUL ends it, an empty one has no rows, one without a newline at its end is refused, and every other one is a table that is read line by line |
| `StepParse.LineRefused` | step.c:499-544 | a line is refused if and only if its last value is empty, or some value has no column, no field, or cannot be stored |
| `StepParse.LineFields` | step.c:499-544 | each field is what the last value for it says, and the others are as they were |
| `StepParse.Defaults` | step.c:87-97 | a row starts with delta and skip 0 and an empty log, and every other field must be set |
| `StepParse.StoredIff` | step.c:616-650 | integer fields hold the numerals of 64 bits, and the others any text |
| `StepText.PrintRowOf` | step.c:394-421 | a storable row is printed as its values with commas and a newline |
| `StepText.ParsePrint` | step.c:251-291 | what is printed from storable rows parses to these rows |
| `StepText.ParsedStorable` | step.c:499-583 | every row read from a file without dollar signs can be written back |
| `StepText.RoundTrip` | step.c:251-291 | rows come back from the file they are printed to if and only if each is storable |
| `StepUpsert.SortedHolds` | step.c:293-297 | any sorting of rows with distinct ids gives the rows in strictly ascending order, none lost |
| `StepUpsert.WriteRefines` | robsd-step.c:266-278 | a call with any values acts on the file as on a map if and only if the row it makes can be read back and its id was free; it fails exactly if a value is refused or the row cannot be printed, and then leaves the file alone |
| `StepUpsert.GoodKeyvals` | robsd-step.c:266-278 | values without separators and dollar signs, and no key `step`: the call is accepted exactly if every field is set then, and acts as on a map |
| `StepKeyvals.Arguments` | step.c:434-461 | arguments are refused if and only if one gives no field a value that it can hold; each field is what the last argument for it says, and the others are as they were |
| `StepUpsert.RunRefines` | robsd-step.c:228-279 | over any run of calls with any values from an empty file, the file holds the rows of the map after each call, ids strictly ascending, if and only if no call makes a row that cannot be read back or takes a used id |
| `StepUpsert.PositionIsId` | robsd-step.c:205-208 | position k is row k if all ids up to k are there |
| `StepUpsert.PositionsFromEnds` | robsd-step.c:205-208 | position -k is the row that exactly k - 1 ids exceed, position k the row that exceeds exactly k - 1 ids, and there are no others |
| `StepFile.StepFile.StepSetField` | step.c:616-650 | sets one field of one step from text, or fails |
| `StepFile.StepFile.StepAlloc` | step.c:343-365 | a new step has the defaults of the optional fields |
| `StepFile.StepFile.ParseHeader` | step.c:474-497 | reads the columns |
| `StepFile.StepFile.ParseRow` | step.c:499-544 | reads a row in place, as the token parser says |
| `StepFile.StepFile.StepValidate` | step.c:665-684 | fails exactly if a required field is not set |
| `StepFile.StepFile.Parse` | step.c:100-172 | reads exactly the rows that the text means, or fails |
| `StepFile.StepFile.StepSerialize` | step.c:394-421 | appends the row as its template expands |
| `StepFile.StepFile.StepsWrite` | step.c:251-291 | sorts, and replaces the file only if all rows can be printed |
| `StepFile.StepFile.ActionWrite` | robsd-step.c:266-278 | finds or adds the row, sets its fields from left to right, and writes |
| `StepFile.StepFile.StepsRead` | robsd-step.c:197-213 | the first step with a name, or the step at a position from either end, as `StepUpsert.PositionsFromEnds` says |
| `StepWrite.StepWriteIsPut` | util.sh:1118-1160 | one call of step_write with storable values does not fail and puts exactly its row into the file; a new row needs the time |
| `StepWrite.StepWriteRow` | util.sh:1118-1160 | the file is then the map of before with exactly one row changed or added, which has every value that was given; a log or time that was not given stays |
| `StepWrite.StepEvalIs` | robsd-step.c:205-208 | what the step loop reads at a position from either end is the row that robsd-step shows there |
| `StepWrite.NextReadsFromEnd` | util.sh:1392-1410 | step_next looks at the rows that robsd-step shows at positions -1, -2 and so on |
| `Runner.GetPut` | util.sh:1151-1159 | putting a row changes the lookup of its own id only |
| `Runner.Positions` | util.sh:1189-1229 | ids 1 to k stand at positions 1 to k if they are all there |
| `Runner.GrepIff` | util.sh:1350-1361 | a word is found in a line exactly if it stands there with no letter, digit or underscore beside it |
| `RunnerDecisions.OneDecision` | util.sh:983-1053 | in every state of every run exactly one decision of the shell code is possible, and it is the one stated: what skips, runs, ends, goes on, reboots, stops, fails and tries again |
| `RunnerDecisions.KillStops` | util.sh:1048-1052 | once a kill came while a step ran or had just run, the invocation starts no other step and records no end |
| `RunnerDecisions.RebootStops` | util.sh:1043-1046 | after the reboot step nothing but the end of the invocation can follow if a reboot is configured, and nothing but the next step if none is |
| `RunnerDecisions.GoesOn` | util.sh:983-1053 | behind any other step that succeeded the loop goes on, unless a kill came |
| `RunnerEnd.EndRecordsTotal` | util.sh:1019-1036 | in every run the duration recorded for the end is the sum over all other steps that are not skipped |
| `RunnerEnd.CleanBuild` | util.sh:983-1053 | a build in which every step succeeds and no kill comes runs all steps once and in order, records each, and ends with the sum of their times |
| `RunnerSafety.RunKeeps` | util.sh:958-1089 | the invariant of every state of every run, with crashes, kills, failures, retries and resumptions anywhere |
| `RunnerSafety.ResumeSafety` | util.sh:983-1053 | in every file that a run can leave, all steps below one that was started are skipped or succeeded |
| `RunnerSafety.EndMeansAllPassed` | util.sh:1014-1036 | a recorded end means that every step was skipped or succeeded |
| `RunnerSafety.RowsAreThere` | util.sh:1307-1314 | while step k runs, rows 1 to k are there and stand at their positions |
| `RunnerSafety.SkipIs` | util.sh:984-989 | skipping goes by name, yet it hits exactly the step whose row is skipped under its name |
| `RunnerSafety.SkipTakesEffectIff` | robsd:84-91 | a word found in the line of one step marks that step as skipped, and the step is left out if and only if the word is its name |
| `RunnerSafety.SkipByNumber` | util.sh:1350-1361 | the number of a step is found in its line only, so it is accepted, but the step is not left out |
| `RunnerSafety.ResumeReady` | util.sh:1384-1414 | step_next names a step before which all steps are passed, and which may be run |
| `RunnerSafety.NeverAgain` | util.sh:983-1041 | no step is started that succeeded before or is skipped |
| `RunnerSafety.PassedStays` | util.sh:983-1053 | a step that is passed stays so, whatever happens, unless its skip is written again under another word |
| `RunnerSafety.RetrySelects` | util.sh:1078-1088 | in every run, after exit code 125 the step that gave it is the one selected next |
| `RunnerSafety.RetryIs` | util.sh:589-620 | looking a step up by position for a retry finds its own duration |
| `RunnerSafety.RetriesAddUp` | util.sh:1307-1332 | after any number of attempts in a row the recorded duration is the sum of all of them |
| `RunnerCode.Machine.NextStep` | util.sh:1384-1414 | the loop over rows from the last one computes step_next |
| `RunnerCode.Machine.TotalDuration` | util.sh:677-690 | the loop by position sums the durations of the steps that are not skipped and not the end |
| `RunnerCode.Machine.StepExecJob` | util.sh:1305-1342 | runs one step between its two writes; its code is the step's exit status, or 125 if the hook says so, and is what the second write records with the accumulated duration |
| `RunnerCode.Machine.RunStep` | util.sh:1038-1052 | runs a step and goes on exactly as the lock, a reboot and the exit status say |
| `RunnerCode.Machine.RobsdExecSteps` | util.sh:983-1053 | every step it takes is a transition; it returns 0 after the end, a skipped end or a configured reboot, 1 after a kill, and else the status of the last attempt; an end comes with the lock still held; with a lock and attempts that succeed it returns 0 |
| `RunnerCode.Machine.TryAgain` | util.sh:1082-1084 | after 125, step_next gives the step that ended with it |
| `RunnerCode.Machine.Robsd` | util.sh:1078-1088 | goes on until no step asks to be tried again, returns no 125, and otherwise what `RobsdExecSteps` returns |
| `RunnerCode.Machine.StepId` | util.sh:1347-1361 | the numbers of exactly the steps in whose lines the word stands, in order |
| `RunnerCode.Machine.WriteSkips` | robsd:84-91 | marks steps as skipped; fails exactly if some word is in no line or in several |
| `RunnerCode.Machine.Invoke` | robsd:58-98 | a new or resumed invocation, with its skips, is a run of the transition system and leaves a safe file; it is refused exactly if there is no step to go on with or a word is in no line or in several, and succeeds if all attempts do |
| `Parallel.AtMostNcpu` | util.sh:992-1003 | never more jobs run than there are processors |
| `Parallel.SyncRunsAlone` | util.sh:1004-1041 | a step that is not parallel, the end included, runs while no job does |
| `Parallel.StartedInOrder` | util.sh:983-1053 | steps are started in the order of the list, each at most once in a pass |
| `Parallel.NothingLeftBehind` | util.sh:1005-1052 | a pass that is over leaves no job, unless the last step that is not skipped is parallel and no end is run |
| `Parallel.JobLeftIff` | util.sh:983-1053 | some pass leaves a job if and only if the last step that is not skipped is parallel and no end is run |
| `Parallel.SkippedEndLeavesJob` | util.sh:983-990 | with one end, as the last step: if and only if it is skipped and the last step before it that is not skipped is parallel |
| `Parallel.WhatIsNext` | util.sh:983-1053 | what the shell does next is decided in every state: it waits for one job only if there are as many as processors, for all only before a step that is not parallel, and goes on exactly if no kill came |
| `Parallel.NeverStuck` | util.sh:983-1053 | once all jobs have ended, the shell can always go on |
| `Parallel.KillStops` | util.sh:1048-1052 | after a kill no more than the step that the shell had come to is started |
| `Parallel.AllProcessors` | util.sh:992-1003 | as many parallel steps as there are processors run at the same time |
| `ParallelCode.Machine.RobsdWait` | robsd-wait.c:71-93 | removes at least one process that ended, or with -a all, keeps the order of the others, and never removes one that runs |
| `ParallelCode.Machine.HandleEvents` | robsd-wait.c:142-173 | removes exactly the processes of the events |
| `ParallelCode.Machine.StartJob` | util.sh:993-1003 | waits only if the queue is full, then starts a job |
| `ParallelCode.Machine.WaitForJobs` | util.sh:1005-1010 | the barrier: no job is left in the queue |
| `ParallelCode.Machine.AfterStep` | util.sh:1048-1052 | goes on exactly if no kill came, and else waits for all jobs and returns 1 |
| `ParallelCode.Machine.RunAlone` | util.sh:1038-1042 | runs a step that is waited for and returns what it returns if that is not 0 |
| `ParallelCode.Machine.RobsdExecSteps` | util.sh:983-1053 | every decision is a transition; it returns 0 if the pass was not cut short, 1 after a kill, and else what the failed step returned |
| `RegressSteps.GetSteps` | conf-robsd-regress.c:116-178 | fixed steps, parallel suites, other suites, fixed steps, each in its order |
| `RegressSteps.NoSuiteLost` | conf-robsd-regress.c:138-168 | every suite is there as often as it was configured |
| `RegressSteps.ParallelTogether` | conf-robsd-regress.c:138-168 | the parallel steps are exactly one block, before the suites that are not |
| `RegressSteps.SuitesTwo` | conf-robsd-regress.c:143-168 | the suites of either kind stand in the order in which they are configured |
| `RegressSteps.FixedInPlace` | conf-robsd-regress.c:132-176 | the other steps stand before and behind them at their places |
| `Arena.SecondPushSucceeds` | libks/arena.c:544-569 | once a frame was added, taking the bytes from it does not fail, whatever the poison |
| `Arena.DoubledIff` | libks/arena.c:548-554 | the doubling loop gives up exactly if no number of doublings is enough and can be represented |
| `Arena.DoubledLeast` | libks/arena.c:548-554 | and otherwise with the least number of doublings that is enough |
| `Arena.AlignIs` | libks/arena.c:256-267 | an aligned address is the first multiple of eight that leaves room for the poison |
| `Arena.MallocFails` | libks/arena.c:543-569 | allocation fails exactly if the last frame has no room and no number of doublings of the frame size reaches size, record and poison |
| `Arena.MallocPlace` | libks/arena.c:541-569 | an object goes to the end of the last frame if that has room, and else behind the record of one new frame of the least size that is enough |
| `Arena.MallocCounts` | libks/arena.c:310-340 | what an allocation adds to the statistics |
| `Arena.ReallocFastIff` | libks/arena.c:586-614 | an object stays where it is exactly if it does not grow, or ends the last frame and this has room |
| `ArenaScopes.AllocKeeps` | libks/arena.c:532-569 | allocating keeps all objects inside their frames, behind the frame's record, at multiples of eight and without a common byte, and keeps all their bytes |
| `ArenaScopes.ReallocKeeps` | libks/arena.c:586-637 | so does reallocating an object of the innermost scope, in place or moved; the object keeps its bytes in use |
| `ArenaScopes.ReallocFails` | libks/arena.c:616-637 | a reallocation fails exactly if the object must move and its new size cannot be allocated |
| `ArenaScopes.StoreKeeps` | libks/arena.c:310-340 | storing into an object changes no other |
| `ArenaScopes.Disjoint` | libks/arena.c:310-340 | no byte belongs to two objects |
| `ArenaRuns.NewArenaValid` | libks/arena.c:385-413 | a new arena satisfies the invariant |
| `ArenaRuns.StepKeeps` | libks/arena.c:436-499 | every operation keeps the invariant |
| `ArenaRuns.StepFails` | libks/arena.c:532-637 | an operation ends the program exactly where it must allocate and neither the last frame nor a new one has room |
| `ArenaRuns.StepKeepsObjects` | libks/arena.c:436-637 | every operation keeps place and bytes of each object that it does not name and that survives |
| `ArenaRuns.RunKeeps` | libks/arena.c:436-637 | after any run all objects are inside, aligned and disjoint |
| `ArenaRuns.RunKeepsObjects` | libks/arena.c:436-637 | over any run, an object that no operation names and whose scope is not left keeps its place and its bytes |
| `ArenaRuns.LeaveRestores` | libks/arena.c:452-470 | leaving a scope restores frames, fill and current statistics, and leaves exactly the objects of before |
| `ArenaRuns.ScopeRestores` | libks/arena.c:436-499 | the same over any run inside the scope, with scopes nested in it; objects of before hold the same bytes unless the run stored into them |
| `ArenaStats.RunCounted` | libks/arena.c:269-294 | after any run the statistics count the frames and scopes that there are, and each maximum is the highest value at any time of the run |
| `ArenaStats.NewArenaCounted` | libks/arena.c:385-413 | they do in a new arena |
| `ArenaRelease.RunAccounted` | libks/arena.c:690-700 | in every run each cleanup has run once or is pending once, and pending ones are in reverse order of registration |
| `ArenaRelease.ScopeRunsCleanups` | libks/arena.c:447-449 | leaving a scope, after any run inside it, has run exactly the cleanups registered since it was entered, each once, and left the others pending |
| `ArenaRelease.FreeBeforeOrAfter` | libks/arena.c:415-434 | whether the arena is freed before or after its scopes are left, in the end all frames and the arena are released and each cleanup has run exactly once |
| `ArenaRelease.EveryRunFinishes` | libks/arena.c:385-471 | so it is after every run of every new arena |
| `ArenaRelease.OnlyInnermostAllocates` | libks/arena.c:501-529 | the check of scopes lets exactly the innermost one allocate, or the one around it once the arena is freed |
| `ArenaRelease.RunNumbered` | libks/arena.c:474-499 | in every run scopes have the numbers the check goes by, also after the arena is freed |
| `ArenaRelease.OuterReallocIsCutOff` | libks/arena.c:586-614 | an outer object that was grown in place inside a scope still lies inside its frame after the scope if and only if its aligned end did not move |
| `ArenaRelease.NextAllocationOverlaps` | libks/arena.c:586-614 | the next allocation takes bytes of it if and only if it reaches behind its old aligned end |
| `ArenaRelease.CutOffHappens` | libks/arena.c:586-614 | there is such an arena |
| `ArenaCode.Arena.AlignAddress` | libks/arena.c:256-267 | the mask form rounds up to eight and adds the poison |
| `ArenaCode.Arena.Push` | libks/arena.c:310-340 | takes bytes if they fit, cuts the alignment off at the frame's end, and counts |
| `ArenaCode.Arena.FrameAlloc` | libks/arena.c:356-383 | links a new frame after taking its record from it |
| `ArenaCode.Arena.MallocChecked` | libks/arena.c:541-569 | pushes, or doubles the frame size, adds a frame and pushes again |
| `ArenaCode.Arena.ReallocFast` | libks/arena.c:586-614 | shrinks, or grows in place the object that the last frame ends with |
| `ArenaCode.Arena.Realloc` | libks/arena.c:616-637 | the fast path, or a new place and a copy of the bytes in use |
| `ArenaCode.Arena.ScopeEnter` | libks/arena.c:474-499 | remembers frame, fill, statistics and number of the scope |
| `ArenaCode.Arena.ScopeLeave` | libks/arena.c:436-471 | runs the cleanups, pops frames, cuts the last one and restores the statistics |
| `ArenaCode.Arena.Free` | libks/arena.c:415-434 | drops the reference, or releases all |
| `Growth.Vector.Reserve` | libks/vector.c:208-247 | makes room and keeps the contents, with the least doubling that is enough as capacity; fails exactly if no doubling is enough and can be represented |
| `Growth.RoomIff` | libks/vector.c:208-240 | room is refused if and only if the length cannot be represented, or no number of doublings of the capacity is enough and can be represented in bytes; a vector that grows takes the least that is enough |
| `Growth.Vector.Alloc` | libks/vector.c:135-159 | appends one element and keeps the others |
| `Growth.Vector.Pop` | libks/vector.c:161-169 | removes the last element |
| `Growth.Vector.Copy` | libks/vector.c:100-116 | a separate vector with the same contents |
| `ArenaVector.GrowInArena` | libks/vector.c:217-240 | growing through arena_realloc keeps record and elements although only the bytes in use are named as old size |
| `ArenaVector.CallKeeps` | libks/vector.c:118-169 | reserving, appending or removing does to a vector in an arena what it does to a list, fails exactly where the capacity cannot be had, and changes no other object |
| `ArenaVector.CallExits` | libks/vector.c:217-240 | a call ends the program exactly if the vector must grow and the arena cannot give the block |
| `ArenaVector.RunIsList` | libks/vector.c:118-247 | over any run of calls a vector in an arena is the plain list, however often it moves, and all other objects keep their bytes |
| `Buffer.Buffer.Reserve` | libks/buffer.c:331-364 | makes room and keeps the contents, with the least doubling that is enough or no more than needed; fails exactly if no doubling can be represented |
| `Buffer.Buffer.Puts` | libks/buffer.c:152-162 | appends the text, or changes nothing |
| `Buffer.Buffer.Pop` | libks/buffer.c:250-257 | removes at most what is there |
| `Buffer.Buffer.Str` | libks/buffer.c:234-242 | hands the text over, ended by one NUL, and leaves the buffer empty |
| `Buffer.GetLine.Next` | libks/buffer.c:299-322 | the next line, until there is none |
| `Buffer.UnlinesOfLines` | libks/buffer.c:299-322 | joining the lines gives the text back up to a final newline |
| `Buffer.LinesOfUnlines` | libks/buffer.c:299-322 | lines come back from the text that they make |
| `RegressLog.RegressLogTrim` | regress-log.c:115-159 | one pass writes the lines without the traces at either end |
| `RegressLog.TrimIsMiddle` | regress-log.c:115-159 | exactly the lines from the first to the last that is no trace |
| `RegressLog.TrimTwice` | regress-log.c:115-159 | trimming twice is trimming once |
| `RegressBlocks.TrimmedIs` | regress-log.c:115-159 | a trimmed log is exactly the lines from the first to the last that does not begin with a plus sign, each up to its first NUL |
| `RegressLog.IsMarkerRegress` | regress-log.c:170-193 | the exact lines that the code takes for markers |
| `RegressLog.MarkersDiffer` | regress-log.c:167-193 | a line only the code accepts, and one only its comment describes |
| `RegressBlocks.MarkerIff` | regress-log.c:161-200 | the exact lines that start over |
| `RegressBlocks.FoundIff` | regress-log.c:203-226 | the exact lines that each flag finds |
| `RegressLog.RegressLogParse` | regress-log.c:42-95 | one pass reports, for each line found, what lies between it and the marker or the found line before it |
| `RegressLog.BlocksAreBlocks` | regress-log.c:59-90 | one block for each line found, which it ends with; no other line of it is found, and only the first can be a marker |
| `RegressBlocks.BlocksGo` | regress-log.c:59-90 | the i-th block is that of the i-th line found, and goes back to the nearest marker, to the line behind the nearest one found, or to the first line |
| `RegressBlocks.ReportTwo` | regress-log.c:74-88 | blocks are reported in their order with an empty line between any two, and before the first one if asked |
| `RegressBlocks.BodyIs` | regress-log.c:59-66 | what is searched are the lines from the first one that is no trace on |
| `RegressHtml.RenderSuite` | regress-html.c:821-837 | the walk over columns and runs, and when it would leave the columns |
| `RegressHtml.AlignedIff` | regress-html.c:821-837 | with both sorted, all runs stand under columns with their times if and only if there are enough columns of each time |
| `RegressHtml.TableAligned` | regress-html.c:574-580 | if no invocation has a suite twice, every run of a suite is shown, under an invocation of its time, whatever order equal times get |
| `RegressHtml.OwnIff` | regress-html.c:821-837 | every run stands under its own invocation if and only if, at each time, the runs are those of the first invocations of that time, in their order |
| `RegressHtml.TableOwn` | regress-html.c:574-580 | if moreover no two invocations have the same time, every run stands under its own |
| `RegressHtml.TwiceMisaligned` | regress-html.c:821-837 | otherwise it need not be |
| `RegressHtml.RunsOfTwo` | regress-html.c:500-535 | a suite has the runs of all invocations, in their order |
| `RegressHtml.RunsOfOne` | regress-html.c:500-535 | an invocation adds a run for each step with the name of the suite, and none for another |
| `SuiteOrder.SortSuites` | regress-html.c:587-619 | all suites once: failing ones first, by failures and name, then passing ones, then those that are not about regress |
| `SuiteOrder.StrLeIff` | regress-html.c:118-127 | names are compared at the first character in which they differ |

## Left out

- Memory from malloc, and storage for vectors and buffers, is always available in the model; only the map takes its failures as parameters.
- The hash function is any function of the key, and keys are compared as a whole; HASH_JEN, key sizes and pointer alignment of elements are not modelled.
- `HashTable.ExpandStats`: counters are 32 bits wide, so the number of elements and the ideal length together must stay below 2^32.
- `Arithmetic.UnsignedMul`: a second factor of zero is excluded, since the fallback divides by it.
- Statistics of the arena are unbounded numbers, and tracing, poisoning of memory and valgrind are left out except for the poison bytes between objects.
- `ArenaRuns.RunKeeps`: reallocations go through the innermost scope and name objects of it; what happens otherwise is stated by `ArenaRelease.OuterReallocIsCutOff`. Allocating after `arena_free` is not part of the runs.
- `arena_calloc`, `arena_sprintf` and the string copies, which are an allocation and a store, are not modelled one by one.
- `Interpolation.Staged`: lookups do not change the configuration; `${rdomain}`, which counts up on every reference, is left out.
- Files, line numbers in messages, `interpolate_file`, and the parsing of configurations are left out; the configuration is a list of variables and a grammar table that is a parameter.
- `StepFile.StepFile.StepsWrite`: writing the file works once it is opened, and any sorting stands for qsort; with equal ids any order may result.
- `RunnerCode.Machine.StepId`: grep takes the word for a regular expression; the model searches for the word itself, and expects that no word to skip is empty.
- `HashMapRuns.Execute`: memory is always available in runs, and keys are inserted only where they are missing, as callers do; `HashMap.HashMap.Insert` states what happens otherwise.
- `RunnerSafety.RunKeeps`: names in the step list other than the last are not `end`, and step_write does not fail, which `StepWrite.StepWriteIsPut` shows for storable values.
- Taking the lock is one action, and a kill is only seen between steps, as in the code.
- `Parallel.AtMostNcpu`: there is at least one processor, and robsd-wait works; the code would not stop at a queue length it starts above.
- The reboot in the modes with parallel steps, which have no such step; the rows that parallel jobs write, and resuming in the modes with parallel steps, where step_next looks at the last row only.
- `duration_prev`, mail, reports, cvs, diffs, cleaning and the step scripts themselves.
- `RegressLog.RegressLogTrim`: logs are shorter than 2^31 bytes, as the code casts a length to int.
- HTML text, file names and the status of a run in the regress report; only the places of runs are modelled.
