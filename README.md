# cloudfiles-troubleshooter: the option parser and the clean-up commands

This project models two pieces of the cloudfiles-troubleshooter command-line
tool in Dafny and proves properties of them.

1. **The option parser** (src/OptionParser.cs), with the settings base class
   built on it (src/CommandSettings.cs). The parser:
   - keeps a case-insensitive table of named handlers;
   - resolves a key by exact lookup first, then by abbreviation (`FindSlow`);
   - scans the arguments with a three-state machine (Argument, Switch,
     KeyValue), handing a pending value to a handler that answered NeedMore;
   - returns the positional leftovers.

   The settings class registers the Confirm and WhatIf switches and sets its
   two flags from their handlers.
2. **The Prune and Clean commands, in both generations.** The legacy ones are
   src/PruneCommand.cs and src/CleanCommand.cs, which parse their own
   arguments. The Spectre-based ones are src/Commands/PruneCommand.cs and
   src/Commands/CleanCommand.cs, which validate, then execute. Each command:
   - selects its targets;
   - rejects an empty selection;
   - walks the targets in order, asking a global question and then
     per-step questions when Confirm is on;
   - suppresses the calls that change the system under WhatIf;
   - isolates a failing target so the loop goes on.

Calls into the operating system become events appended to a trace (module
`Effects`). What those calls answer is an input of the model:
- whether a path exists;
- whether a connect succeeds;
- what the shell knows about a folder;
- whether Unregister returns;
- what each question is answered (`Answers`, indexed by question number);
- what a glob matches.

The properties are statements about that trace: which calls happen, in
which order, and which never happen.

Modules:
- `Text`: ASCII case folding, whitespace, `bool.Parse`, dash and separator scanning.
- `OptionParsing`: OptionParser.cs.
- `ParserProperties`: lemmas about the parser.
- `Settings`: CommandSettings.cs.
- `Effects`: trace events, the connection discipline, answers consumed in order.
- `LegacyPrune`: src/PruneCommand.cs.
- `LegacyClean`: src/CleanCommand.cs.
- `Cleaning`: the matcher and the unregistration loop both Clean commands share.
- `PruneCommands`: src/Commands/PruneCommand.cs.
- `CleanCommands`: src/Commands/CleanCommand.cs.

Where the code behaves in a way its help text or comments do not suggest, the
model follows the code:
- The legacy Clean registers its include handler under `"-Include"`. The
  parser strips every leading dash before the lookup, so no argument can
  reach that handler.
- The legacy Clean's `ConsumeRemaining` drops the positional patterns.
- Together, these mean the legacy Clean never gets an include pattern
  (`LegacyClean.NoIncludePatterns`).
- The legacy Prune reads neither Confirm nor WhatIf (`LegacyPrune.WhatIfDoesNotProtect`).
- `FindSlow` returns an entry only when the entries behind it in the
  candidate list have all dropped out. So with `[Confirm, WhatIf]`
  registered, `--W` is unknown while `--C` resolves
  (`ParserProperties.AbbreviationIsOrderDependent`).

## Model

| member | source | states |
|---|---|---|
| Text.UpperString | src/OptionParser.cs:81 | upper-cases each character and keeps the length, as char.ToUpperInvariant does for ASCII letters |
| Text.UpperStringIsIgnoreCase | src/OptionParser.cs:8 | for an upper-case t, upper-casing s gives t exactly when s equals t ignoring case |
| Text.HelpWord | src/PruneCommand.cs:14 | `ToUpperInvariant() is "HELP"` holds exactly when the word is "help" in any case |
| Text.TrimDashes | src/OptionParser.cs:35 | the result is a suffix of the token, does not start with a dash, and only dashes were removed |
| Text.IndexOfSeparator | src/OptionParser.cs:36 | finds the first ':' or '=' and no earlier one, or reports that there is none |
| Text.TrimStart | src/CommandSettings.cs:44 | removes exactly the leading white space that bool.Parse ignores |
| Text.TrimEnd | src/CommandSettings.cs:44 | removes exactly the trailing white space that bool.Parse ignores |
| Text.ParseBool | src/CommandSettings.cs:44 | bool.Parse: "true"/"false" ignoring case and surrounding white space, otherwise a failure |
| Text.ParseBoolRoundTrip | src/CommandSettings.cs:44 | parsing "True" or "False" gives back the boolean |
| OptionParsing.ExactLookup | src/OptionParser.cs:66 | a hit is a table entry equal to the key ignoring case; a miss means no entry is |
| OptionParsing.Keep | src/OptionParser.cs:76-84 | one round of FindSlow keeps only entries, in order, that are long enough and agree at that index |
| OptionParsing.SplitOption | src/OptionParser.cs:35-45 | strips all leading dashes; without a separator the key is the rest; with one, the key is the text before the first separator and the value the text after it |
| OptionParsing.OptionParser.constructor | src/OptionParser.cs:8 | a parser starts with an empty handler table |
| OptionParsing.OptionParser.AddOption | src/OptionParser.cs:10-13 | adds the entry and returns true exactly when no key equal ignoring case exists; otherwise the table is unchanged |
| OptionParsing.OptionParser.FindSlow | src/OptionParser.cs:70-93 | the nested reverse loop over a copy of the table returns what the abbreviation function `Abbreviation` returns |
| OptionParsing.OptionParser.FindOptionHandler | src/OptionParser.cs:64-69 | exact lookup first, abbreviation matching only when it misses |
| OptionParsing.OptionParser.ScanOption | src/OptionParser.cs:32-54 | one option token: split, resolve, fail on an unknown key, call the handler as KeyValue or Switch |
| OptionParsing.OptionParser.Parse | src/OptionParser.cs:15-62 | the state-machine loop computes the scan function `ParseArgs`: leftovers, handler calls and errors |
| ParserProperties.ExactMatchWins | src/OptionParser.cs:66-68 | with distinct names, an entry equal to the key ignoring case is always the one resolved, whatever abbreviations exist |
| ParserProperties.CandidateMember | src/OptionParser.cs:73-84 | after n rounds the candidates are exactly the entries at least as long as the key that agree with it on the first n characters |
| ParserProperties.KeepCandidates | src/OptionParser.cs:76-84 | one more round narrows the candidates of round n to those of round n + 1 |
| ParserProperties.AbbreviationSound | src/OptionParser.cs:73-88 | an abbreviation hit is a table entry at least as long as the non-empty key, agreeing with it ignoring case on every index examined, and the sole candidate at that point |
| ParserProperties.AmbiguousAbbreviation | src/OptionParser.cs:81-92 | when two entries both have the key as a case-insensitive prefix, abbreviation lookup returns nothing |
| ParserProperties.AbbreviationIsOrderDependent | src/OptionParser.cs:76-88 | with [Confirm, WhatIf], "C" and "Cxyz" resolve to Confirm, "Wh" to WhatIf, and "W" to nothing |
| ParserProperties.DashNamesUnreachable | src/OptionParser.cs:35 | a key without a leading dash never resolves to an entry whose name starts with a dash |
| ParserProperties.DashNamedHandlerNeverCalled | src/OptionParser.cs:35 | a handler registered only under dash-prefixed names is never called, whatever the arguments |
| ParserProperties.Positionals | src/OptionParser.cs:55-58 | holds only argument tokens that do not start with a dash |
| ParserProperties.RemainingArePositional | src/OptionParser.cs:17 | the leftovers are a subsequence of the non-dash tokens in their original order |
| ParserProperties.RemainingExactWithoutNeedMore | src/OptionParser.cs:55-58 | when no handler answers NeedMore, the leftovers are exactly the non-dash tokens in order |
| ParserProperties.CallsAnswered | src/OptionParser.cs:27 | every recorded call is one whose handler returned normally |
| ParserProperties.DashesOnlyIsUnknown | src/OptionParser.cs:46-49 | a token made only of dashes has the empty key and fails as an unknown option |
| ParserProperties.NeedMoreTakesNextToken | src/OptionParser.cs:24-31 | after a Switch call answered NeedMore, the next token goes to the same handler as KeyValue, even one starting with a dash; a reply other than Continue is "Bad value" |
| ParserProperties.PendingAtEndIsAccepted | src/OptionParser.cs:50-53 | input ending while a value is pending returns normally |
| ParserProperties.OptionCallShape | src/OptionParser.cs:37-50 | an option token calls its handler as KeyValue with the value after the separator, or as Switch with no value |
| ParserProperties.SplitOptionValue | src/OptionParser.cs:38-42 | the value is the text after the first separator of the dash-stripped token |
| Settings.FlagReply | src/CommandSettings.cs:37-69 | a Confirm or WhatIf handler never asks for the next token; it throws exactly for a KeyValue call whose value is blank or not a boolean |
| Settings.FlagValue | src/CommandSettings.cs:37-69 | a bare switch sets the flag; after a call that returned, the flag is true exactly for a bare switch or a value parsing to true |
| Settings.ValueReply | src/CleanCommand.cs:102-112 | a one-value handler asks for the next token exactly on a bare switch, and throws exactly on a blank value |
| Settings.DerivedCalls | src/CommandSettings.cs:23-32 | every kept call is one that went to the derived class's own handler |
| Settings.DerivedCallsComplete | src/CommandSettings.cs:23-32 | every call that went to the derived class's own handler is kept |
| Settings.DerivedCallsAppend | src/CommandSettings.cs:23-32 | the derived handler's calls keep their order: those of an earlier stretch of calls come before those of a later one |
| Settings.SuppliedValueFromCall | src/PruneCommand.cs:142-143 | every value a derived handler accepted comes from a KeyValue call carrying it |
| Settings.BaseNamesRegistrable | src/CommandSettings.cs:11-15 | "Confirm" and "WhatIf" are non-blank and distinct ignoring case, so both registrations succeed |
| Settings.CommandSettings.constructor | src/CommandSettings.cs:7-15 | both flags start false and the table holds exactly Confirm then WhatIf |
| Settings.CommandSettings.Register | src/CommandSettings.cs:23-32 | a null or blank name fails first, a name already present ignoring case fails next, otherwise it is appended |
| Settings.CommandSettings.Parse | src/CommandSettings.cs:17-21 | the flags end as the Confirm/WhatIf calls of the scan set them; the leftovers are handed back exactly; a handler's exception ends the parse |
| Settings.PositionalsOnly | src/CommandSettings.cs:34-35 | arguments without option tokens come back unchanged as leftovers, and no handler is called |
| Settings.BareFlagDoesNotConsumeNext | src/CommandSettings.cs:46-51 | a bare `--Confirm`/`--WhatIf` sets its flag and answers Continue, so the next token is a leftover |
| Settings.FlagWithBadValue | src/CommandSettings.cs:39-45 | `--Flag:v` with a blank v or one bool.Parse rejects throws |
| Settings.FlagWithValue | src/CommandSettings.cs:39-45 | `--Flag:v` with a valid v records one KeyValue call with v |
| Settings.FlagSetToValue | src/CommandSettings.cs:44 | that call sets the flag to v parsed as a boolean |
| Settings.FlagAfterOne | src/CommandSettings.cs:37-69 | a call changes only its own flag |
| Settings.SplitFlagValue | src/OptionParser.cs:35-43 | `--name:v` splits into the key name and the value v |
| LegacyPrune.PruneCommandSettings.constructor | src/PruneCommand.cs:121-128 | the base options, then SyncRoots; no roots; both flags off |
| LegacyPrune.SyncRootReply | src/PruneCommand.cs:135-150 | ParseSyncRoot asks for the next token exactly on a bare switch, and throws exactly on a value that is blank or that `new DirectoryInfo` refuses |
| LegacyPrune.FirstRejected | src/PruneCommand.cs:130-133 | the index of the first leftover `new DirectoryInfo` refuses: every earlier one is accepted, and the length when none is refused |
| LegacyPrune.PruneCommandSettings.AddSyncRoot | src/PruneCommand.cs:147-150 | a path `new DirectoryInfo` refuses raises InvalidPath and adds nothing; any other path is appended |
| LegacyPrune.PruneCommandSettings.ConsumeRemaining | src/PruneCommand.cs:130-133 | `ForEach(AddSyncRoot)`: the leftovers before the first refused one are appended in order, and that one's exception ends the loop |
| LegacyPrune.PruneCommandSettings.Parse | src/PruneCommand.cs:19-20 | the roots are the SyncRoots values followed by the accepted leftovers; flags as the scan sets them; the scan's exception or a refused leftover's is returned |
| LegacyPrune.AnyPresent | src/PruneCommand.cs:53 | true exactly when some root exists |
| LegacyPrune.Execute | src/PruneCommand.cs:50-119 | computes `ExecuteSpec`: the two refusals, otherwise every root's events in order and exit code 0 |
| LegacyPrune.Run | src/PruneCommand.cs:12-25 | help, or parse then execute, as `RunSpec` says: an exception from Parse, including a refused path, is raised before Execute runs |
| LegacyPrune.RunShowsHelp | src/PruneCommand.cs:14-17 | help is shown exactly for no arguments or a first argument equal to "help" in any case |
| LegacyPrune.DerivedValuesAccepted | src/PruneCommand.cs:142-149 | under any option table, every value ParseSyncRoot returned normally for is a path `new DirectoryInfo` accepts |
| LegacyPrune.SuppliedRootsValid | src/PruneCommand.cs:142-149 | every root supplied through `--SyncRoots` is non-blank and accepted by `new DirectoryInfo` |
| LegacyPrune.CollectedRootsAccepted | src/PruneCommand.cs:123-150 | SyncRoots only ever holds paths `new DirectoryInfo` accepts, even when Parse ends in an exception |
| LegacyPrune.RejectedLeftoverRaises | src/PruneCommand.cs:19-21 | a refused leftover makes Run raise InvalidPath for it, so Execute never runs |
| LegacyPrune.EmptyLeftoverRaises | src/PruneCommand.cs:130-149 | `prune A ""` raises InvalidPath for the empty string, and A is not pruned |
| LegacyPrune.LeftoversAreRootsInOrder | src/PruneCommand.cs:130-133 | the leftovers keep their order and never start with a dash; when none is refused, the roots are the option values followed by all of them |
| LegacyPrune.SyncRootValueRejected | src/PruneCommand.cs:142-149 | `--SyncRoots` with a blank value, or one `new DirectoryInfo` refuses, fails in the handler |
| LegacyPrune.SyncRootsTakesNextToken | src/PruneCommand.cs:137-144 | `--SyncRoots v` takes the next token as a root, and the later positionals follow it up to the first refused one |
| LegacyPrune.ExecuteRejects | src/PruneCommand.cs:52-56 | raises for an empty list, raises when no root exists, and otherwise exits 0 |
| LegacyPrune.PruneAllSplit | src/PruneCommand.cs:58-116 | the trace is each root's events in order; a skipped or failing root does not stop the later ones |
| LegacyPrune.ConnectedRootOrder | src/PruneCommand.cs:66-115 | a connected root yields connect, placeholder update, disconnect, shell unregistration (when registered), filesystem unregistration, in that order |
| LegacyPrune.PrunePaired | src/PruneCommand.cs:66-97 | every connect is matched by the disconnect of the same path before the next connect |
| LegacyPrune.FsUnregisteredExactly | src/PruneCommand.cs:60-75 | CfUnregisterSyncRoot is called for a path exactly when it is listed, exists and connects |
| LegacyPrune.NeverPrompts | src/PruneCommand.cs:50-119 | this Execute asks no question |
| LegacyPrune.WhatIfDoesNotProtect | src/PruneCommand.cs:50-119 | with `--WhatIf` set, an existing root is still unregistered |
| LegacyClean.CleanCommandSettings.constructor | src/CleanCommand.cs:88-95 | the base options, then "-Include"; an empty matcher; both flags off |
| LegacyClean.CleanCommandSettings.ReplayIncludeCalls | src/CleanCommand.cs:102-112 | each accepted value becomes an include pattern, in order |
| LegacyClean.CleanCommandSettings.Parse | src/CleanCommand.cs:18-19 | flags as the scan sets them; the include patterns are the values the include handler got; leftovers are dropped |
| LegacyClean.RemoveUnmatched | src/CleanCommand.cs:50-51 | keeps exactly the roots the matcher accepts, in order |
| LegacyClean.Execute | src/CleanCommand.cs:48-86 | computes `ExecuteSpec`: refuses an empty selection, otherwise runs the loop |
| LegacyClean.Run | src/CleanCommand.cs:11-24 | help, or parse then execute, as `RunSpec` says |
| LegacyClean.RunShowsHelp | src/CleanCommand.cs:13-16 | help is shown exactly for no arguments or a first argument equal to "help" in any case |
| LegacyClean.IncludeNeverCalled | src/CleanCommand.cs:94 | no argument list ever calls the handler registered as "-Include" |
| LegacyClean.NoIncludePatterns | src/CleanCommand.cs:97-100 | so the matcher never receives a pattern |
| LegacyClean.ExecuteRejectsEmpty | src/CleanCommand.cs:50-52 | refuses exactly when no root's name matches, otherwise exits 0 |
| LegacyClean.CleanNeverUnregisters | src/CleanCommand.cs:50-52 | with a matcher that matches nothing while empty, any non-help invocation raises |
| Cleaning.Matcher.AddInclude | src/Commands/CleanCommand.cs:63 | appends one include pattern |
| Cleaning.Matching | src/Commands/CleanCommand.cs:66-67 | the selection is no longer than the roots and every selected name matches |
| Cleaning.MatchingMembers | src/Commands/CleanCommand.cs:66-67 | a root is selected exactly when it is current and its display name matches |
| Cleaning.MatchingAppend | src/Commands/CleanCommand.cs:66-67 | the selection keeps enumeration order |
| Cleaning.MatchingEmpty | src/Commands/CleanCommand.cs:68-70 | the selection is empty exactly when no display name matches |
| Cleaning.UnregisterAll | src/Commands/CleanCommand.cs:28-55 | the loop computes `CleanSpec` and returns 0 |
| Cleaning.CleanRootPicks | src/Commands/CleanCommand.cs:35-52 | for one root: Unregister only when past its question and not WhatIf; the line when past its question and the call returned or WhatIf; the report when the call threw |
| Cleaning.CleanRootsCalls | src/Commands/CleanCommand.cs:38-45 | Unregister is called for the roots past their questions, in order, unless WhatIf |
| Cleaning.CleanRootsLines | src/Commands/CleanCommand.cs:42-47 | the "Unregistered" line is written for each root past its question whose call returned, and for each such root under WhatIf |
| Cleaning.CleanRootsFailures | src/Commands/CleanCommand.cs:49-52 | a root whose call threw is reported with its name, id and path, and the loop goes on |
| Cleaning.Gated | src/Commands/CleanCommand.cs:38-41 | without Confirm every root gets past its question |
| Cleaning.GatedMembers | src/Commands/CleanCommand.cs:38-41 | under Confirm a root gets past exactly when its own question is answered yes; a no skips only that root |
| Cleaning.AnnouncedUnderWhatIf | src/Commands/CleanCommand.cs:47 | under WhatIf every root past its question is announced |
| Cleaning.CleanWhatIfChangesNothing | src/Commands/CleanCommand.cs:42-45 | under WhatIf the loop changes nothing |
| Cleaning.CleanWithoutConfirmAsksNothing | src/Commands/CleanCommand.cs:38 | without Confirm the loop asks nothing |
| Cleaning.CleanDeclinedAtStart | src/Commands/CleanCommand.cs:28-31 | a no to the first question ends the command with no call, line or report |
| Cleaning.CleanSpecPicks | src/Commands/CleanCommand.cs:28-55 | past the first question, the calls, lines and reports are those of the roots past their own questions |
| Cleaning.CleanWhatIfNoMutation | src/Commands/CleanCommand.cs:42-45 | under WhatIf, Unregister is never called |
| Cleaning.CleanWithoutConfirm | src/Commands/CleanCommand.cs:28-45 | without Confirm nothing is asked and, unless WhatIf, every selected root is unregistered in order |
| CleanCommands.CleanCommand.constructor | src/Commands/CleanCommand.cs:14 | no selection before Validate |
| CleanCommands.CleanCommand.Validate | src/Commands/CleanCommand.cs:58-71 | every pattern becomes an include; the stored selection is the matching current roots; the error exactly when it is empty |
| CleanCommands.CleanCommand.Execute | src/Commands/CleanCommand.cs:16-56 | runs the loop over the stored selection and returns 0 |
| CleanCommands.CleanUnregistersSelection | src/Commands/CleanCommand.cs:60-67 | without Confirm and WhatIf, Unregister is called for exactly the matching roots in enumeration order, and nothing is asked |
| CleanCommands.CleanWhatIfAnnouncesOnly | src/Commands/CleanCommand.cs:42-47 | under WhatIf nothing changes, yet each selected root past its question is announced |
| PruneCommands.ValidateSettings | src/Commands/PruneCommand.cs:201-206 | the "Include-filter cannot be used without Recurse." error exactly when Include is non-empty and Recurse is off |
| PruneCommands.MatcherFor | src/Commands/PruneCommand.cs:129-134 | a matcher exists exactly when Recurse is on and Include is non-empty, and it holds the Include patterns |
| PruneCommands.ShouldInclude | src/Commands/PruneCommand.cs:157-170 | an included entry is a directory that is a sync root; without a matcher every such directory is included |
| PruneCommands.ShouldRecurse | src/Commands/PruneCommand.cs:172-175 | the walk never descends into an entry it includes; without a matcher a directory is either included or descended into |
| PruneCommands.Listed | src/Commands/PruneCommand.cs:157-170 | every entry yielded from a listing is a non-skipped directory the matcher accepts that is a sync root |
| PruneCommands.Queued | src/Commands/PruneCommand.cs:172-175 | every directory descended into is not a sync root |
| PruneCommands.BfsIsDfs | src/Commands/PruneCommand.cs:143-148 | the queue-based enumeration yields the same entries as a depth-first reference walk |
| PruneCommands.BfsYields | src/Commands/PruneCommand.cs:157-170 | every enumerated entry passes ShouldInclude |
| PruneCommands.NeverDescendsIntoSyncRoot | src/Commands/PruneCommand.cs:172-175 | apart from the root, every directory read is a non-skipped directory that is not a sync root, and only with Recurse |
| PruneCommands.ListedMembers | src/Commands/PruneCommand.cs:157-170 | an entry of a listing is yielded exactly when it passes |
| PruneCommands.BfsMembers | src/Commands/PruneCommand.cs:143-170 | an entry is yielded exactly when it passes and is listed in a directory the walk reads |
| PruneCommands.WithoutRecurseOnlyTheRoot | src/Commands/PruneCommand.cs:138-140 | without Recurse only the root's own listing is read |
| PruneCommands.Enumerate | src/Commands/PruneCommand.cs:143-148 | the enumerator loop computes the reference enumeration |
| PruneCommands.ListDirectory | src/Commands/PruneCommand.cs:146-147 | one directory: the entries it yields and the directories it queues, in listing order |
| PruneCommands.Paths | src/Commands/PruneCommand.cs:155 | one full path per yielded directory, in order |
| PruneCommands.PruneCommand.constructor | src/Commands/PruneCommand.cs:20 | no selection before Validate |
| PruneCommands.PruneCommand.Validate | src/Commands/PruneCommand.cs:127-153 | collects every argument's sync roots in order and stores them; "No sync roots specified" exactly when none; an argument that names no directory, or names a file, throws before the field is assigned |
| PruneCommands.FailureStays | src/Commands/PruneCommand.cs:141-149 | an argument that names nothing, or names a file, ends the collection with the enumerator's exception, whatever follows |
| PruneCommands.CollectedOnlyDirectories | src/Commands/PruneCommand.cs:141-149 | the collection succeeds only when every argument names a directory |
| PruneCommands.FileArgumentThrows | src/Commands/PruneCommand.cs:141-149 | `prune f.txt d` with f.txt a file ends in the enumerator's exception for f.txt, so nothing under d is collected |
| PruneCommands.CollectedAreSyncRoots | src/Commands/PruneCommand.cs:157-170 | every collected path is a sync root |
| PruneCommands.AskThenCall | src/Commands/PruneCommand.cs:67-81 | asks when Confirm is on and makes the call unless declined or WhatIf |
| PruneCommands.PruneOne | src/Commands/PruneCommand.cs:38-121 | one root's events and how many questions it asked |
| PruneCommands.PruneCommand.Execute | src/Commands/PruneCommand.cs:22-125 | the loop computes `ExecuteSpec` and returns 0 |
| PruneCommands.InOrderSnoc | src/Commands/PruneCommand.cs:36-122 | one more root appends its events, its questions numbered after the earlier ones |
| PruneCommands.GateEvents | src/Commands/PruneCommand.cs:67-81 | a gated call happens exactly when Confirm is off or answered yes, and WhatIf is off |
| PruneCommands.GateGuarded | src/Commands/PruneCommand.cs:67-81 | under Confirm the gated call comes right after a yes |
| PruneCommands.RootStepsPaired | src/Commands/PruneCommand.cs:44-86 | for one root every connect is followed by its disconnect, even when the flags question is declined |
| PruneCommands.ExecutePaired | src/Commands/PruneCommand.cs:54-86 | the whole trace keeps connect and disconnect paired |
| PruneCommands.RootStepsReplies | src/Commands/PruneCommand.cs:36-122 | one root asks exactly the questions counted for it, consuming the answers in order |
| PruneCommands.ExecuteConsumesAnswers | src/Commands/PruneCommand.cs:31-122 | the questions asked consume the answers in order from the first; without Confirm nothing is asked |
| PruneCommands.AfterDisconnectReplies | src/Commands/PruneCommand.cs:88-121 | after the disconnect, under Confirm, two questions are asked when the shell has the folder registered and the first is answered yes, one otherwise, consuming the answers in order; none without Confirm |
| PruneCommands.ShellDeclinedSkipsFilesystem | src/Commands/PruneCommand.cs:95-98 | a no to the shell question ends the root: neither Unregister nor CfUnregisterSyncRoot follows |
| PruneCommands.FlagsDeclinedEndsRoot | src/Commands/PruneCommand.cs:67-86 | a no to the flags question leaves connect, the question and disconnect only, with one question asked |
| PruneCommands.PruneDeclinedAtStart | src/Commands/PruneCommand.cs:31-34 | a no to the first question ends Execute with no change and no connection |
| PruneCommands.RootStepsWhatIf | src/Commands/PruneCommand.cs:71-121 | under WhatIf one root changes nothing |
| PruneCommands.ExecuteWhatIfNoMutation | src/Commands/PruneCommand.cs:71-121 | under WhatIf none of CfUpdatePlaceholder, Unregister or CfUnregisterSyncRoot is issued |
| PruneCommands.ExecuteConfirmGuarded | src/Commands/PruneCommand.cs:67-121 | under Confirm every change comes right after a yes |
| PruneCommands.ExecuteAsLegacy | src/Commands/PruneCommand.cs:22-125 | without Confirm and WhatIf the trace is exactly the legacy Prune's |
| Effects.ConnectIsFollowedByDisconnect | src/Commands/PruneCommand.cs:54-86 | in a paired trace every connect is followed by the disconnect of that path before any other connect or disconnect |

## Left out

- Console output is not modelled. This covers the root listings, messages, help text and the exact wording of prompts. The only output kept is the "Unregistered" line and the failure report that the Clean loop writes for each root (src/Commands/CleanCommand.cs:47-51). Prompts are the `Asked` events.
- src/Program.cs is not modelled. It holds the dispatch between commands and the Spectre.Console.Cli machinery that runs Validate before Execute. The Spectre commands' settings are given as values (`PruneSettings`, `CleanSettings`), and `AppCommandSettings.Validate` is taken to succeed because its source is not part of this model.
- The Cloud Filter API, CreateFile, StorageFolder and StorageProviderSyncRootManager become trace events and oracles (`Host`, `unregisters`, `fs`, `isSyncRoot`). Their results beyond those oracles are not modelled. CfUpdatePlaceholder's HRESULT is ignored, as the code ignores it.
- A CreateFile or CfUpdatePlaceholder that throws inside the newer Prune's try/finally is not modelled. The disconnect in `finally` would still run, but the exception would leave Execute.
- The newer Prune swallows exceptions from the shell lookup. A lookup that throws is `LookupThrows`, which behaves like no registration. An Unregister that throws in that try block would also be swallowed and would skip nothing, so it changes no event and is not a separate input.
- Glob matching (`Matcher.Match`) is an input (`Glob`, `PathGlob`). Its pattern language is not modelled.
- Directory enumeration is a finite tree oracle (`Node`). Hidden and System entries are one `skipped` flag. IgnoreInaccessible and reparse points are not modelled.
- An argument directory that is missing, or a path that names a file, makes the enumerator throw. These are modelled as the outcomes `DirectoryNotFound` and `DirectoryNameInvalid`. The exception types are not modelled.
- Case folding is ASCII-only (`Upper`). White space for `IsNullOrWhiteSpace` and `bool.Parse` is a fixed subset of Unicode white space.
- `Task` wrapping and `GetAwaiter().GetResult()` become plain return values.
- LegacyClean.RemoveUnmatched: it filters a sequence and returns the result, rather than removing from a `List` in place. The order and contents it produces are the same.
- `new DirectoryInfo(value)` in the legacy Prune is modelled only by the values it refuses (`RejectedPath`). These are a value that is empty or made of spaces only, and one that holds a NUL character, which are the ArgumentException cases of .NET's full-path normalisation on Windows. The normalisation itself is not modelled, so a root is connected, reported and unregistered under the text it was given rather than its `FullName`.
- The handler table is taken to enumerate in insertion order. `[.. _handler]` (src/OptionParser.cs:72) copies a `Dictionary`, whose enumeration order .NET does not document, but which is insertion order for a dictionary nothing is removed from. `ParserProperties.AbbreviationIsOrderDependent` and the `--W` example above depend on this.
- The oracles `Host`, `unregisters`, `fs` and `isSyncRoot` answer the same way for a path every time, so they do not see the tool's own effects. A root listed twice (given twice, or found under two overlapping recursive arguments) is connected and unregistered twice in the model, where the system would see the second attempt after the first had already removed it.
- PruneCommands.ShouldInclude: the matcher is given the SyncRoots argument as written as its root directory (`Walk.root`, set by `WalkFor`). The source passes `entry.RootDirectory` (src/Commands/PruneCommand.cs:164), the normalised full path of that argument. Since the glob is an input, the two differ only in the text the glob receives.
- src/System/IO/PathInternal.cs and src/Commands/IAppCommand.cs are not part of this model.
