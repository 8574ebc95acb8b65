# Verified models of the Alibaba Cloud CLI

A Dafny project that models the parts of the command-line client where a mistake would be hard to see, and proves what
they are for. `dafny verify dfyconfig.toml` checks all of it. Most files model one Go file or one half of it:

| file | models |
|---|---|
| `Levenshtein.dfy` | the edit-distance tables, the two-row form, the backtrace and the similarity ratio |
| `References.dfy`, `SchemaSearch.dfy`, `ResponseSchema.dfy` | `$ref` parsing (sections 3 and 4 of RFC 6901), the three-colour search over component schemas, the two response projections |
| `PackedMeta.dfy`, `PackedDir.dfy`, `PackWriter.dfy` | the packed metadata file system: byte layout, lookup, directory listing, and the generator that writes the pack |
| `TokenRefresher.dfy`, `RefresherSafety.dfy`, `RefresherRuns.dfy`, `RefresherOutcomes.dfy` | the token refresher and the proxy requests, as a transition system over any number of goroutines |
| `CommandSplit.dfy` | the splitter of process commands, for Unix (section 2.2 of the POSIX Shell Command Language) and Windows |
| `LegacyNames.dfy`, `LegacyParameters.dfy` | names of legacy parameters in both directions, the top-level list and the required-parameter check |
| `Flags.dfy`, `Parser.dfy` | flags, flag sets, and the argument parser with its open flag |
| `HelpPolicy.dfy` | the projection of Help objects onto a line budget |
| `Text.dfy` | string order, sorting and first occurrences, used by the others |

Code that updates variables is modelled by methods with loops and by classes, and proved against functions; the lemmas
say what these functions mean. Errors and panics are values.

Where the code does something else than its documentation or its callers may expect, the model follows the code, and a
lemma says exactly when the expectation holds:

- The table is a table of least costs exactly if insertions and deletions cost 1, since row and column 0 count plain
  indices (`TableIsLeastCostIffUnitInsDel`). Even then the backtrace is right exactly if substitutions are not free or
  no rune matches the one at the same place (`BacktraceIsOptimalIff`).
- Unescaping is undone by escaping exactly for segments as RFC 6901 has them; the code accepts other text too
  (`EscapeUndoesUnescapeIffSegment`).
- A directory listing is strictly increasing, and agrees with Stat, exactly if no file is also a directory with a path
  sorted in between (`ListingIsExact`; `SplitPackExists` writes a pack where it does not). The listing of the top directory names two directories that
  exist only if the pack has something below `metadatas` (`TopListingIffPresent`).
- The required-parameter check and the top-level list agree exactly if repeated v1 body parameters agree with each other
  (`CheckMatchesListIff`): the list keeps the last one, the check looks at the first.
- The lookup of a legacy name takes an empty suffix, though the comment on it asks for one that is not empty, exactly for
  lists without children that are not flat RPC arrays (`EmptySuffixIsAcceptedIff`).
- A bare value arrives at the flag field without a key, which is meant for it, exactly if it is empty
  (`BareValueArrivesIffEmpty`); spelled with the empty key every value arrives (`KeyedValueArrives`).
- After a merge of flag sets a form of the command's own flags still leads to its flag exactly if no merged flag has it
  (`OwnFormStaysIff`); otherwise a persistent flag of the parent command hides the command's own (`ParentHidesOwn`).
- With no attempt allowed, the retry loop of the profile would report success without having saved
  (`RetrySaveProfile`); both callers allow three.

## Model

| member | source | states |
|---|---|---|
| `Levenshtein.DistanceForStrings` | cli/levenshtein.go:87-124 | the two-row form returns the last cell of the full table, for all inputs and all costs |
| `Levenshtein.MatrixForStrings` | cli/levenshtein.go:164-198 | the matrix is the table of cells, for all inputs and all costs |
| `Levenshtein.NoScriptIsCheaper` | cli/levenshtein.go:164-198 | no edit script from the first i to the first j runes costs less than cell (i, j) |
| `Levenshtein.CheapestScript` | cli/levenshtein.go:164-198 | some edit script costs exactly the cell |
| `Levenshtein.CellIsLeastCost` | cli/levenshtein.go:164-198 | every cell is the least cost over all edit scripts of its prefixes |
| `Levenshtein.TableIsLeastCostIffUnitInsDel` | cli/levenshtein.go:99-110 | that holds for all inputs if and only if insertions and deletions cost 1 |
| `Levenshtein.BacktraceIsOptimal` | cli/levenshtein.go:242-256 | the backtrace from any cell is an edit script that turns one prefix into the other, labels matches and substitutions truly, and costs the least |
| `Levenshtein.FreeSubstitutionHidesMatch` | cli/levenshtein.go:242-256 | with free substitutions the backtrace never reports a match |
| `Levenshtein.FreeBacktrace` | cli/levenshtein.go:242-256 | with free substitutions the trace costs the difference of the lengths, and fits the strings iff no rune matches the one at the same place |
| `Levenshtein.BacktraceIsOptimalIff` | cli/levenshtein.go:242-256 | under unit costs the trace is a fitting script of least cost, for any two strings, iff substitutions are not free or no rune matches the one at the same place |
| `Levenshtein.EditScriptForStrings` | cli/levenshtein.go:202-211 | under unit costs the returned script turns source into target at the distance on exactly these conditions, and then no other script is cheaper |
| `Levenshtein.ReplayGivesTarget` | cli/levenshtein.go:202-211 | running a script over the source gives the target |
| `Levenshtein.DistanceIsAMetric` | cli/levenshtein.go:63-124 | with unit costs and a positive substitution cost the distance is not negative, zero iff equal, symmetric, and obeys the triangle inequality |
| `Levenshtein.DefaultOptionsAreOrdinary` | cli/levenshtein.go:63-70 | the default options are such options: insertions and deletions cost 1, substitutions 2, and runes match iff they are equal |
| `Levenshtein.DistanceCountsOutsideLCS` | cli/levenshtein.go:63-124 | with a substitution cost of 2 or more the distance is the lengths less twice that of a longest common subsequence |
| `Levenshtein.RatioForStrings` | cli/levenshtein.go:135-155 | the ratio computed from the matrix is that of the distance |
| `Levenshtein.RatioIsShare` | cli/levenshtein.go:144-155 | whatever the costs, the ratio is the share of the lengths that the distance leaves, and 0 for two empty strings |
| `Levenshtein.RatioMeasuresSimilarity` | cli/levenshtein.go:144-155 | the ratio times the length of both strings is that length less the distance; it lies between 0 and 1, and is 1 iff the strings are equal and not empty |
| `References.UnescapeUndoesEscape` | canonicalmeta/response_schema.go:394-400 | unescaping gives back every escaped name |
| `References.EscapeUndoesUnescapeIffSegment` | canonicalmeta/response_schema.go:394-400 | escaping gives back exactly the segments: no slash, and every tilde begins an escape |
| `References.UnescapeOrderMatters` | canonicalmeta/response_schema.go:394-396 | replacing in the other order would not undo the escape |
| `References.LocalIffNamedBehindPrefix` | canonicalmeta/response_schema.go:380-392 | a reference is local if and only if it has the prefix and a name that is not empty behind it |
| `References.LocalComponentNameOfSchemaRef` | canonicalmeta/response_schema.go:380-392 | the reference built for a name leads back to it, also with a path below it |
| `References.WalkFindsEveryRef` | canonicalmeta/response_schema.go:356-378 | the walk reports exactly the string values of the `$ref` members at any depth |
| `References.RefOfPart` | canonicalmeta/response_schema.go:356-378 | what a part of a tree refers to, the tree refers to |
| `References.SchemaReferencesMeaning` | canonicalmeta/response_schema.go:338-354 | the names are those of the local references, the warnings are for the other ones, neither with duplicates |
| `References.WarningIsKindAndQuotedRef` | canonicalmeta/response_schema.go:117-131 | two warnings are the same if and only if they have the same kind and the same quoted reference |
| `SchemaSearch.Search.Visit` | canonicalmeta/response_schema.go:112-144 | one visit changes states, components and warnings as the function VisitName says, and terminates |
| `SchemaSearch.Search.VisitAll` | canonicalmeta/response_schema.go:136-151 | so does a visit of several names in order |
| `SchemaSearch.WarningCollector.Add` | canonicalmeta/response_schema.go:431-437 | a value is added, or is known already |
| `SchemaSearch.WarningCollector.Values` | canonicalmeta/response_schema.go:445-450 | the values are the first occurrences in the order they were added, without duplicates |
| `SchemaSearch.VisitNameKeepsInvariant` | canonicalmeta/response_schema.go:112-144 | a visit keeps the invariant of the search: the schemas in progress form a walk, finished ones are closed under references and cut by reports wherever they would form a cycle, reports are sound |
| `SchemaSearch.BackEdgeClosesCycle` | canonicalmeta/response_schema.go:115-118 | a reference to a schema in progress closes a cycle |
| `SchemaSearch.CyclicIffUnenteredCycle` | canonicalmeta/response_schema.go:112-144 | a visit that enters a schema reports it as cyclic if and only if there is a cycle through it that meets no schema entered before |
| `SchemaSearch.VisitedIsNotReported` | canonicalmeta/response_schema.go:112-144 | a schema that has been left is not reported as cyclic any more |
| `SchemaSearch.CloseFindsReachable` | canonicalmeta/response_schema.go:96-151 | the search keeps exactly the defined schemas that are reachable, reports exactly the reachable undefined ones, a node of every reachable cycle and only nodes of cycles, and every reference that is not local |
| `ResponseSchema.ProjectResponseSchema` | canonicalmeta/response_schema.go:64-158 | selecting, searching and collecting warnings in place give the document that the function ResponseSchema describes |
| `ResponseSchema.ProjectResponseSection` | canonicalmeta/response_schema.go:163-234 | the same for the response section |
| `ResponseSchema.SelectionIsExact` | canonicalmeta/response_schema.go:64-321 | said of the metadata: the status is 200, else the smallest other success code, else default; the schema is that of the first content type that has one, in the order JSON, JSON suffixes, others, else that of the response itself; exactly what is an error in the responses |
| `ResponseSchema.ComponentsErrorIff` | canonicalmeta/response_schema.go:90-104 | the components are an error if and only if the selected schema has a local reference and the component schemas cannot be read |
| `ResponseSchema.SectionIsWhole` | canonicalmeta/response_schema.go:163-190 | the section is the whole of the responses, and fails if and only if they are no object, or have a local reference while the component schemas cannot be read |
| `ResponseSchema.FirstMediaSchemaIsFirst` | canonicalmeta/response_schema.go:297-305 | of a list of content types the first schema is taken; all before it have none |
| `ResponseSchema.SelectedResponseIsBest` | canonicalmeta/response_schema.go:245-281 | 200 is preferred to the other success codes, the smallest of them to default |
| `ResponseSchema.ContentTypesAreOrdered` | canonicalmeta/response_schema.go:283-321 | all content types are tried, JSON first, then JSON suffixes, then the others, each group in order |
| `ResponseSchema.SelectedSchemaIsPart` | canonicalmeta/response_schema.go:283-311 | the selected body schema is a part of the responses tree (which one is said by SelectionIsExact) |
| `ResponseSchema.SchemaIsExact` | canonicalmeta/response_schema.go:64-158 | components and warnings of the projected body schema are exactly those of its closure, each warning once; every cycle in the closure meets a reported name |
| `ResponseSchema.SectionIsExact` | canonicalmeta/response_schema.go:163-234 | so are those of the projected response section |
| `ResponseSchema.SchemaComponentsAreInSection` | canonicalmeta/response_schema.go:64-234 | every component of the first projection is in the second, with the same definition |
| `PackedMeta.LayoutIffSectionsFit` | bundledmeta/meta.go:205-233 | a pack is accepted if and only if its sections fit, and is then the header and the four sections in a row |
| `PackedMeta.SearchFindsBoundary` | bundledmeta/meta.go:249-254 | the binary search ends at a boundary, without any assumption on the order |
| `PackedMeta.LowerBoundSplitsNames` | bundledmeta/meta.go:249-254 | in a sorted pack the lower bound separates the names before from those at or after |
| `PackedMeta.PrefixIsContiguous` | bundledmeta/meta.go:120-136 | what is sorted between a prefix and a string with that prefix has it too |
| `PackedMeta.LookupFindsExactlyTheNames` | bundledmeta/meta.go:165-186 | a name is found if and only if it is in the pack, with the fields of its entry |
| `PackedMeta.IsDirIffSomethingBelow` | bundledmeta/meta.go:188-203 | except for the two fixed names, a name is a directory if and only if some path lies below it |
| `PackedMeta.MissingIffNeitherFileNorDir` | bundledmeta/meta.go:80-163 | a name does not exist if and only if it is neither a path of the pack nor a directory; what is a file is not called a directory, and only files can be read |
| `PackedMeta.StatSizeIsReadLength` | bundledmeta/meta.go:80-163 | what can be read has the size that was stated |
| `PackedMeta.RangeTestIsExact` | bundledmeta/meta.go:80-110 | in wrapping 64-bit arithmetic the range test rejects exactly the entries that do not lie in the blob |
| `PackedDir.PackedMetadataFS.LoadLayout` | bundledmeta/meta.go:205-233 | the layout is parsed once and kept |
| `PackedDir.ListChildren` | bundledmeta/meta.go:120-140 | the loop of the listing computes ListFrom |
| `PackedDir.PackedMetadataFS.ReadDir` | bundledmeta/meta.go:112-147 | the listing of a directory is the sorted list of ListFrom, or the error |
| `PackedDir.MissingIffNoDir` | bundledmeta/meta.go:112-126 | a listing fails, as not existing, if and only if the name is no directory |
| `PackedDir.RunIsContiguous` | bundledmeta/meta.go:120-136 | paths with the same child are neighbours unless a split lies between them |
| `PackedDir.PassIsExact` | bundledmeta/meta.go:120-140 | the pass adds every immediate child, one of them twice if and only if there is a split, and that is also when an entry is marked as a directory though there is a file |
| `PackedDir.ListingIsExact` | bundledmeta/meta.go:112-147 | the listing has exactly the immediate children; it increases strictly iff there is no split, and agrees with Stat on every entry iff there is no split |
| `PackedDir.NoSplitWhereFilesAreNoDirs` | bundledmeta/meta.go:112-147 | there is no split where no path is both a file and a directory |
| `PackedDir.SplitIsPossible` | bundledmeta/meta.go:120-140 | in every pack of three such paths a child is listed twice and Stat contradicts an entry |
| `PackedDir.SplitPackExists` | bundledmeta/meta.go:112-147 | there is such a pack, and the generator writes it |
| `PackedDir.TopListingIffPresent` | bundledmeta/meta.go:113-118 | the fixed listing of the top is right if and only if neither fixed name is a file and something lies below metadatas |
| `PackedDir.OpenDir.ReadDir` | bundledmeta/meta.go:315-325 | pages follow each other without gap or overlap, and the end is reported once all entries were returned |
| `PackWriter.Uint64OfPut` | bundledmeta/cmd/packmeta/main.go:156-166 | little-endian numbers are read back |
| `PackWriter.WriteBlocks` | bundledmeta/cmd/packmeta/main.go:63-85 | the loop of the generator writes the blocks that BlocksOf says |
| `PackWriter.Pack` | bundledmeta/cmd/packmeta/main.go:39-105 | the pack is header, dictionary, entries, paths and blob of the sorted files |
| `PackWriter.PackIsValid` | bundledmeta/cmd/packmeta/main.go:39-105 | files with different names that fit the fields give a pack that is accepted and sorted |
| `PackWriter.PackedFilesAreReadBack` | bundledmeta/cmd/packmeta/main.go:39-105 | round trip: reading from the written pack gives every file back, and no other name is found |
| `TokenRefresher.RetrySaveProfile` | mcpproxy/mcp_server.go:1214-1226 | saved if and only if one of the allowed attempts succeeds or none is allowed; gives up exactly once, after the last attempt |
| `TokenRefresher.SavingFollowsRetry` | mcpproxy/mcp_server.go:1085-1096 | the saving steps of the transition system end as that loop does with three attempts |
| `RefresherSafety.StepFollows` | mcpproxy/mcp_server.go:398-586 | what every step of every goroutine does to the lock, the flags, the counters, the profile, the channel and the tokens fits its place in the code; and to every place, the ends of a wait included, a step leads only from the places and under the conditions that the code has |
| `RefresherSafety.OthersKept` | mcpproxy/mcp_server.go:975-1104 | a step of one goroutine keeps what holds of every other one |
| `RefresherSafety.PhaseKept` | mcpproxy/mcp_server.go:978-1083 | the number of goroutines in a phase stays what the flag says |
| `RefresherSafety.InvariantThroughout` | mcpproxy/mcp_server.go:704-1294 | every state of every run satisfies the invariant of lock, flags, counters, profile and tokens (what the outcome of a call means is said by SuccessMeans and FailureMeans) |
| `RefresherRuns.FlagMeansOneAtWork` | mcpproxy/mcp_server.go:978-1258 | refreshing is set if and only if a goroutine is between setting and clearing it, and then only one; the same for reauthorizing |
| `RefresherRuns.LockIsReleasedOnce` | mcpproxy/mcp_server.go:975-1294 | the lock is held exactly where the code holds it, is never released without being held, and has been released as often as taken everywhere else, failed saves included |
| `RefresherRuns.HolderIsNeverBlocked` | mcpproxy/mcp_server.go:975-1104 | who holds the lock can always go on, and who keeps a flag set waits for nothing but the lock |
| `RefresherRuns.ProfileIsWhole` | mcpproxy/mcp_server.go:1078-1083 | while the lock is free, access token, refresh token and expiry of the profile are one issue |
| `RefresherRuns.IssuesAreGranted` | mcpproxy/mcp_server.go:1012-1083 | everything recorded after the start was granted as one answer to the goroutine that asked for it and later stored it; a refresh counts the expiry from the time of storing, an authorization takes it as it is |
| `RefresherRuns.TokensWereStored` | mcpproxy/mcp_server.go:704-740 | every token in the channel, taken from it or put into it was in the profile with this expiry, and every token sent upstream was in the profile |
| `RefresherRuns.TotalsAddUp` | mcpproxy/mcp_server.go:398-586 | in every state the total is the successes, the errors, the filtered requests and those not tallied yet; the active count is that of the active requests |
| `RefresherRuns.TotalsSettle` | mcpproxy/mcp_server.go:398-586 | once no request is under way the counters add up and none is active |
| `RefresherRuns.RequestIsTalliedOnce` | mcpproxy/mcp_server.go:398-586 | a request makes at most two upstream sends, the second only after a 401; it is tallied at most once, as a success iff its last answer is below 400, and exactly once when it is finished, unless it was filtered |
| `RefresherRuns.UsedTokenWasValid` | mcpproxy/mcp_server.go:704-728 | a token is used without a refresh only after this goroutine has checked this token and found it valid, and without anything in between |
| `RefresherOutcomes.SuccessMeans` | mcpproxy/mcp_server.go:903-1294 | in every run a call that returns success joined another one while what it renews was valid; or waited, and in its last look the flag was down, the lock free and the expiry beyond the one it had seen; or failed three times, never for good, with an access token still valid; or stored, saved and sent the issue it was granted |
| `RefresherOutcomes.FailureMeans` | mcpproxy/mcp_server.go:975-1294 | a call that returns an error timed out waiting; or was denied the authorization; or failed to refresh for good or with an expired access token; or stored an issue that three attempts did not save |
| `RefresherOutcomes.CallTells` | mcpproxy/mcp_server.go:975-1294 | at every point of a call, what the goroutine has found, asked for and done in this very call |
| `RefresherOutcomes.CallHasReason` | mcpproxy/mcp_server.go:506-967 | every call has its reason in the last step before: the status 401, with a refresh iff the refresh token is valid; a stale token; or one that expires within 13 or 7 minutes |
| `RefresherOutcomes.SecondTryIsEarned` | mcpproxy/mcp_server.go:506-552 | a request is sent again only after the call for its status 401 returned success |
| `RefresherOutcomes.AwaitedTokenIsRefreshed` | mcpproxy/mcp_server.go:730-741 | a request waits for a token only right after its own refresh returned success |
| `CommandSplit.SplitProcessCommandForOS` | config/command_split.go:40-148 | the loop over indices, flags and builder computes Split |
| `CommandSplit.SpellingDecides` | config/command_split.go:40-148 | how the spelling of a command ends decides what the splitter returns |
| `CommandSplit.SplitFollowsGrammar` | config/command_split.go:40-148 | the arguments returned are exactly those the quoting grammar gives the trimmed command, and the first is not empty |
| `CommandSplit.SplitErrorsFollowGrammar` | config/command_split.go:41-148 | each error has its exact condition: no argument or an empty first one; on Unix a spelling that ends in a backslash; a spelling that ends in a quote without its end |
| `CommandSplit.TrimSpaceCuts` | config/command_split.go:40-45 | what is trimmed off is white space, and what is left neither begins nor ends with any |
| `CommandSplit.BlankIsWhiteSpace` | config/command_split.go:132-140 | what separates arguments, by code points |
| `CommandSplit.SplitUndoesQuoting` | config/command_split.go:40-148 | round trip: splitting the quoted and joined arguments gives them back, whatever they contain |
| `LegacyNames.View.LegacyChildren` | canonicalmeta/legacy_view.go:262-333 | there are children if and only if LegacyHasChildren says so, and they are less deep |
| `LegacyNames.FindIffDenotes` | canonicalmeta/legacy_view.go:599-649 | the lookup returns a view if and only if the name denotes it |
| `LegacyNames.GeneratedNameDenotes` | canonicalmeta/legacy_view.go:658-674 | every generated name denotes the view it was generated for, behind any prefix and at any depth |
| `LegacyNames.GeneratedNameIsFound` | canonicalmeta/legacy_view.go:595-674 | round trip: the lookup resolves every generated name to its view |
| `LegacyNames.CanonicalNames` | canonicalmeta/legacy_view.go:262-330 | which public parameters are named with an index, by type, style and element: arrays of objects by their fields, other arrays unless flat or JSON text; flat ones only in an RPC query |
| `LegacyNames.V1Names` | canonicalmeta/legacy_view.go:262-330 | v1 parameters are named by their sub-parameters behind an index, or with an index if they are arrays neither flat nor JSON text |
| `LegacyNames.FlatArrayIsNamed` | canonicalmeta/legacy_view.go:599-680 | a flat array without fields is listed as X.1 and found under X and every index in an RPC query, else listed as X and found under X alone |
| `LegacyNames.DecimalIsIndexIff` | canonicalmeta/legacy_view.go:609-615 | the indices of flat RPC arrays are the decimal numbers from 1 to the largest 64-bit integer |
| `LegacyNames.EmptySuffixIsAcceptedIff` | canonicalmeta/legacy_view.go:589-649 | among well-named parameters a name with a bare dot is resolved to the parameter iff it is a list without children and no flat RPC array |
| `LegacyNames.EmptySuffixOfOne` | canonicalmeta/legacy_view.go:589-649 | for a single parameter the same holds whatever its name is |
| `LegacyParameters.LegacyTopLevelParameters` | canonicalmeta/legacy_view.go:453-555 | the list has, in strict name order, exactly the views that IsListed describes in terms of the metadata: which occurrence of a name, at which position, whether a flat RPC array, a top body or a wildcard |
| `LegacyParameters.FlatQueryArrayIsNamed` | canonicalmeta/legacy_view.go:535-546 | a flat query array is listed as X.1 and found under every index iff the API has the RPC style, in any case; else it is listed as X and found under X alone |
| `LegacyParameters.V1ViewIsFirst` | canonicalmeta/legacy_view.go:458-485 | a v1 parameter is listed by its first occurrence, unless its name is excluded |
| `LegacyParameters.PublicViewIsFirst` | canonicalmeta/legacy_view.go:490-512 | a public parameter is listed by its first occurrence |
| `LegacyParameters.BodyViewIsLast` | canonicalmeta/legacy_view.go:514-533 | a v1 body parameter replaces what was there, so the last one stays |
| `LegacyParameters.CheckLegacyRequiredParameters` | canonicalmeta/legacy_view.go:681-757 | a name is reported iff nothing is assigned to it and the parameter that decides is required and no list, said in terms of the metadata; the loops report what Missing selects, in order |
| `LegacyParameters.ListedDemand` | canonicalmeta/legacy_view.go:453-555 | which parameter decides whether a listed name must be assigned |
| `LegacyParameters.CheckedDemand` | canonicalmeta/legacy_view.go:681-757 | which parameter decides whether a name is reported missing |
| `LegacyParameters.CheckMatchesListIff` | canonicalmeta/legacy_view.go:453-757 | check and list agree, whatever is assigned, if and only if there is a v1 list or repeated body parameters agree |
| `LegacyParameters.DistinctBodiesAgree` | canonicalmeta/legacy_view.go:681-757 | they agree when no body name is repeated |
| `LegacyParameters.RepeatedBodyIsNotReported` | canonicalmeta/legacy_view.go:520-527 | a body parameter that is required the second time only is listed as required and not reported |
| `Flags.SplitStringWithPrefix` | cli/parser.go:237-244 | the text is cut at the first splitter |
| `Flags.BareValueArrivesIffEmpty` | cli/flag.go:277-294 | a bare value assigns the empty text to the first field without a key, so it arrives iff it is empty |
| `Flags.KeyedValueArrives` | cli/flag.go:277-294 | a value behind a key, which may be empty, arrives at the first field with this key and changes no other |
| `Flags.Flag.SetIsAssigned` | cli/flag.go:205-223 | what an occurrence does to a flag, or the error of a repeated one |
| `Flags.Flag.Assign` | cli/flag.go:259-274 | what a value does to a flag and its fields |
| `Flags.FlagSet.Add` | cli/flag_set.go:42-51 | the flag is added under all its forms; the program stops if and only if one is taken or repeated, or the flag has fields without being repeatable |
| `Flags.FlagSet.AddByName` | cli/flag_set.go:54-66 | a new flag is added and found by the name exactly if all its forms are free; the error is that the name is taken, or the program stops |
| `Flags.FormsOfFlag` | cli/flag.go:185-202 | the forms of a flag are its name and aliases with two dashes and its letter with one |
| `Flags.UnknownFormsAre` | cli/flag_set.go:54-66 | an unknown name that ends in -FILE has the form without the ending too, any other name has one form |
| `Flags.FlagSet.Put` | cli/flag_set.go:148-159 | a flag that is not in the set is added and takes its forms over |
| `Flags.FlagSet.MergeWith` | cli/flag_set.go:129-145 | the merged set is the own flags and then the applying flags of the other set; the program stops if and only if the own flags share a form or have fields they may not have |
| `Flags.MergedFormLeads` | cli/flag_set.go:129-159 | after a merge a form leads to the last merged flag that has it, else where it led |
| `Flags.OwnFormStaysIff` | cli/flag_set.go:129-159 | a form of the own set leads where it led iff no merged flag has it |
| `Flags.ParentHidesOwn` | cli/context.go:183-189 | a persistent flag of the parent with a form of the command's own flag takes the form over |
| `ArgumentParser.Context.DetectFlag` | cli/context.go:219-246 | a name is found exactly if it is known, or an unknown flag is there for a plugin or can be added; which flag that is |
| `ArgumentParser.Context.DetectFlagByShorthand` | cli/context.go:248-275 | the same for a letter, which is filed as a long name; it never stops the program |
| `ArgumentParser.Parser.ParseCommandArg` | cli/parser.go:202-234 | which tokens are flags, which are values, and exactly which are errors |
| `ArgumentParser.Parser.ReadNext` | cli/parser.go:90-156 | exactly which tokens are refused; any other is one more event, and flags, open flag and result are what the events make them (which flag is open, and what a token goes to, is said by PlainTokenGoesTo); without unknown flags nothing could go on where a token is refused |
| `ArgumentParser.Parser.ReadNextArg` | cli/parser.go:51-64 | reads up to the next argument, where no flag is open, and to the end if there is none; without unknown flags it fails only where no event goes on |
| `ArgumentParser.Parser.ReadAll` | cli/parser.go:74-88 | on success every token has been read as one event, the result is the arguments among them in order, and a token without a dash behind a known form is the value of that flag unless it takes none; without unknown flags it succeeds iff some run accounts for every token |
| `ArgumentParser.Parser.OpenFlagNeedsValue` | cli/parser.go:121-153 | an open flag is repeatable, or takes a value and has none |
| `ArgumentParser.Parser.TokenIsAccountedFor` | cli/parser.go:90-234 | each token read is an argument, a value of the flag open there, or an occurrence, as the token and the known forms say |
| `ArgumentParser.Parser.KnownFormIsOccurrence` | cli/parser.go:202-234 | a known form, alone or with a text behind an equals sign or a colon, is an occurrence of its flag with that text |
| `ArgumentParser.Parser.PlainTokenGoesTo` | cli/parser.go:121-153 | a token without a dash is the value of the flag just given or fed, exactly if that flag is repeatable, or takes a value and has none; else it is an argument |
| `ArgumentParser.Parser.TokenBehindForm` | cli/parser.go:121-153 | behind a known form of a flag without a value it is the value of that flag, unless the flag takes none |
| `ArgumentParser.Parser.DashWordBehindLongForm` | cli/parser.go:158-197 | a word with a single dash that is no known form is the value of the declared flag whose long form stands before it |
| `ArgumentParser.GivenFlagWaits` | cli/flag.go:226-239 | by mode: which flags given without a value wait for one |
| `ArgumentParser.FedFlagWaits` | cli/flag.go:226-239 | by mode: which flags wait for more after a value |
| `ArgumentParser.MayOccurIff` | cli/flag.go:205-223 | a flag may occur iff no open flag lacks its value, it may be repeated or was not given, and it takes the value that the token brings |
| `ArgumentParser.ValueIsLastText` | cli/flag.go:205-274 | the value of a flag is the text it was given last, or the one it had |
| `ArgumentParser.LastMentionGivesValue` | cli/flag.go:205-274 | for an unknown flag that may be repeated, a repetition without a text takes the value away |
| `ArgumentParser.RunIsDetermined` | cli/parser.go:90-234 | as long as no unknown flag is created, there is only one way to read the tokens |
| `ArgumentParser.RunIsLongest` | cli/parser.go:90-234 | without unknown flags a run that cannot go on is at least as long as any other |
| `ArgumentParser.RepeatableCollectsValues` | cli/flag.go:259-274 | the values of a repeatable flag are exactly its inline and following values in order |
| `ArgumentParser.GivenIffMentioned` | cli/flag.go:205-274 | a flag counts as given iff it was before or an event mentions it |
| `ArgumentParser.OccursOnce` | cli/flag.go:205-223 | a flag that may not be repeated occurs at most once |
| `HelpPolicy.OnlyAIModeTruncates` | openapi/help_policy.go:79-90 | Help is cut if and only if AI mode is on and not everything is asked for |
| `HelpPolicy.ProjectDefaultHelpObjects` | openapi/help_policy.go:103-155 | without truncation everything is shown; with it the required objects and the longest fitting prefix of the others, marked as truncated iff fewer are shown |
| `HelpPolicy.Room` | openapi/help_policy.go:112-119 | the budget is 100 unless another one is given, less the reserved lines, and never negative |
| `HelpPolicy.RequiredKeepOrder` | openapi/help_policy.go:103-155 | required and optional objects are those at the places that hold one, in order |
| `HelpPolicy.SelectionIsDetermined` | openapi/help_policy.go:103-155 | that describes exactly one selection, which is everything iff everything fits or there is nothing optional |

## Left out

- Levenshtein: 64-bit overflow of costs and cells, and the floating-point rounding of the ratio; `WriteMatrix` and `LogMatrix`.
- References: JSON text, including duplicate keys and Go's case-insensitive matching of field names; trees are taken as parsed. `%q` quoting in warnings is a constructor, as two names have one quoted form only if they are equal.
- SchemaSearch: references of all component schemas are computed before the search instead of on the visit, which cannot be told apart as the reading of a parsed tree does not fail.
- PackedMeta: zstd (an arbitrary partial function), `path.Clean`, file handles other than the directory one, and `sync.Once`.
- PackedDir.OpenDir.ReadDir: `offset+n` is not bounded by 64 bits.
- PackWriter.Pack: training of the dictionary and reading of the files; files with equal names, which the generator never has, keep their order.
- TokenRefresher: what the OAuth server, the upstream server, the disk and the timers answer is arbitrary; the number of waits is not bounded, and nothing is claimed about progress, such as whether a sender of a token is blocked for long. The fatal-error channel, the refresher's own statistics and the health log are not modelled, nor is the stop of the ticker.
- TokenRefresher: sections under the read lock are one step, possible while nobody holds the write lock; the counters do not wrap at 64 bits.
- TokenRefresher: the channel may hold an older token than the profile, and no lemma denies it; nor is it said which of a refresh and an authorization that overlap is stored last.
- CommandSplit: invalid UTF-8. A command that ends in an escaped blank is trimmed first, so the grammar speaks of the trimmed command.
- LegacyNames: the position that a view reports for fields and sub-parameters, types, descriptions, examples and constraints of views; `LegacyBodyFields`.
- LegacyParameters: views are values here, so the pointers to metadata that views share are not modelled; `strings.ToLower` for letters outside ASCII, and the wording of the error.
- Flags.FlagSet.AddByName: suggestions, categories, required flags and `checkFields`; the error of `assignField` is dropped by its caller and so is not modelled.
- ArgumentParser.Context: `EnterCommand`, which replaces the flags after an argument was read; the contracts speak of the tokens that are read with one set of flags, so a sub-command has a parser of its own for the remaining tokens. Names are in characters, where the code takes bytes.
- ArgumentParser.Parser.ReadAll: which flags an error leaves assigned is not said; that it succeeds exactly if there is a run for all tokens is said for commands without unknown flags, while with them only every single token has its exact condition.
- HelpPolicy: 64-bit overflow of the budget, and what the objects are.
- Commands, configuration, HTTP, plugins, credentials, pricing, Help rendering and messages in other languages: mostly branch by branch, without a property that spans them.
