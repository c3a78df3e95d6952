# Spur command-line tools: a verified model

Spur is a Slurm-compatible batch scheduler. This project models the parts of its
command-line tools (`crates/spur-cli`) that decide things without doing I/O, together with
the host-list notation of `spur_core` that they print and read, and proves what users and
scripts rely on: what is printed can be read back, options given in several places have one
defined winner, an update command means the same in any order, a table neither drops nor
doubles anything, and the client-side protocols keep their promises over every sequence of
answers they may get.

`dafny verify dfyconfig.toml` checks everything.

| file | what it models |
|---|---|
| `Text.dfy`, `Padding.dfy`, `Sorting.dfy` | splitting and trimming, decimal and zero-padded numerals, stable sorting |
| `Submitline.dfy`, `DirectiveLine.dfy` | quoting an argument list into one shell line, and two ways of splitting it again |
| `FormatEngine.dfy`, `RowLayout.dfy` | `%[#][.][-]width spec` format strings; aligned and delimited rows |
| `SbatchOptions.dfy` | command line, environment and `#SBATCH` directives layered into one set of options |
| `WaitForJob.dfy`, `Keepalive.dfy`, `InteractiveSession.dfy` | `sbatch --wait`, the keepalive of an allocation, an interactive session |
| `KeyValue.dfy`, `PartitionUpdate.dfy`, `JobUpdate.dfy` | `scontrol update` |
| `NodeInfo.dfy`, `SinfoFilter.dfy`, `Grouping.dfy`, `SinfoListing.dfy` | `sinfo`: the split filter, grouping, the tables |
| `ExportEnv.dfy`, `NetworkAddress.dfy`, `UsageReport.dfy`, `Coordinators.dfy` | `--export`, IPv4 prefixes, `sreport`, `sacctmgr` |
| `HostRanges.dfy`, `Hostlist.dfy`, `HostlistLoops.dfy`, `HostlistProduct.dfy`, `HostlistExpansion.dfy`, `HostGroups.dfy`, `HostlistRoundTrip.dfy`, `HostlistNames.dfy`, `HostlistCriterion.dfy`, `NaturalOrder.dfy`, `HostlistOrder.dfy` | host lists such as `node[001-003,005]` |

Loops and objects of the source are Dafny methods and classes, each proved equal to a
function of its input or of its history; the laws are then proved of those functions. What
the outside world answers (the controller, the agent, the terminal, the environment) is an
arbitrary input. Functions of the Rust library that depend on Unicode tables are parameters
of which nothing is assumed (`Text.Library`).

## Where the code does less than it says

Each of these is proved in both directions: the law holds exactly under the stated condition.

- `shell_split` does not undo `render`: it does so exactly when no argument is empty and none
  holds a single quote (`Submitline.ShellSplitRoundTrip`). The word splitting of a POSIX shell always does.
- `compress` is documented to always round-trip through `expand`. A list does so, and has no name that holds
  `[`, exactly when every name is non-empty, has no comma, no `[` and no surrounding white space, no two
  names share a prefix that holds `]`, and there are at most a million (`HostlistCriterion.RoundTrip`). A
  single name does so exactly when it is not empty, has no comma, no `[` and no surrounding white space
  (`HostlistNames.OneName`).
- Merging directives into the command line is not always one last-wins parse of both: `--parsable`
  and `--wrap` in a directive are dropped, and an option that may be given only once may be given
  once in each place (`SbatchOptions.MergeRefinesOneParse`).
- A row of `sinfo -R` shows the time of its first node; that is the time of another node in the row
  exactly when both or neither have a recorded time, because an unset time and time zero share a
  key (`SinfoListing.ReasonRowsTellTheTruth`, `SinfoListing.ZeroTimeSharesARow`).
- A partition update is refused when it both sets and clears the grace time, but not when it does so with
  the preemption exempt time: an accepted request does that exactly when both keys are given and the last
  clear is a yes (`PartitionUpdate.ExemptTimeSetAndCleared`, `PartitionUpdate.ExemptTimeExample`).
- Columns line up for all values exactly when every field before them cuts its value to at most its
  width (`RowLayout.ColumnsLineUp`).

The directories that `sreport` lists name each account, and each user and account, once
(`crates/spurctld/src/accounting/db.rs`, lines 61-62, 78-85 and 1883-1897), so the clauses of
`UsageReport.Report` for a directory without repeats apply: the rows add up to the total line and the
percentages to 100. For any directory a server might send, the job column adds up exactly when the report is
restricted or no key named twice has jobs, and the percentages exactly when it is restricted or no CPU time
is shown twice.

A width in a format string is accumulated in a 32-bit integer. The workspace does not turn overflow
checks on, so the model wraps as an optimised build does.

## Model

| member | source | states |
|---|---|---|
| Submitline.PosixRoundTrip | crates/spur-cli/src/submitline.rs:7-26 | a POSIX word splitter (sections 2.2.1 and 2.2.2 of the Shell Command Language, IEEE Std 1003.1) splits the rendered line into exactly the arguments, for every argument list, and refuses any line with an active character, so nothing is expanded or redirected |
| Submitline.RenderInjective | crates/spur-cli/src/submitline.rs:7-22 | different argument lists give different lines |
| Submitline.PosixReadsQuoted | crates/spur-cli/src/submitline.rs:14-22 | a quoted argument, plain or with embedded quotes or empty, is one word with that value |
| Submitline.QuotedWhenNeeded | crates/spur-cli/src/submitline.rs:7-26 | an argument is left as it is if and only if it is not empty and holds no character that needs quoting |
| DirectiveLine.ShellSplit | crates/spur-cli/src/sbatch.rs:572-594 | any line made of words separated by blanks, each word any run of bare, single-quoted and double-quoted pieces, splits into the values of its words in order, quotes removed and empty words dropped |
| DirectiveLine.SplitsIntoValues | crates/spur-cli/src/sbatch.rs:572-594 | the same of the splitter as a function: inside either quote, blanks and the other quote are kept as they are |
| Submitline.SplitRunOnlyAppends | crates/spur-cli/src/sbatch.rs:572-594 | from any state, closed words and collected characters are never taken back, and no empty word is produced |
| Submitline.ShellSplitRoundTrip | crates/spur-cli/src/sbatch.rs:572-594 | splitting undoes rendering if and only if no argument is empty or holds a single quote |
| FormatEngine.ScanField | crates/spur-cli/src/format_engine.rs:65-126 | for every combination of `#`, `.`, `-`, digits and specifier: the field read is the one those say, and the iterator is left just after the specifier |
| FormatEngine.ParseFormat | crates/spur-cli/src/format_engine.rs:42-135 | every result is normal, and a printed normal token list is parsed back to that list |
| FormatEngine.SpecifierMeans | crates/spur-cli/src/format_engine.rs:65-126 | the width is the number as a 32-bit number, negated by `#` or `-`; its sign is the alignment, `#` always aligns left; `.` cuts only when there is a number |
| FormatEngine.WrittenInRange | crates/spur-cli/src/format_engine.rs:82-104 | a number that fits in 32 bits is the width as written, and `-` aligns to the left unless it is zero |
| FormatEngine.SpecifierIsAField | crates/spur-cli/src/format_engine.rs:42-135 | in a format string every specifier is one field token between the literal before it and the parse of what follows |
| FormatEngine.CutOffSpecifier | crates/spur-cli/src/format_engine.rs:42-135 | a string that ends inside a specifier loses the specifier and keeps the literal before it |
| FormatEngine.RoundTrip | crates/spur-cli/src/format_engine.rs:42-135 | parsing a printed normal token list gives the list back |
| FormatEngine.ParseFromNormal | crates/spur-cli/src/format_engine.rs:42-135 | every parse is normal: no empty or adjacent literals, truncation only to the width, width the magnitude of a 32-bit number of its sign |
| FormatEngine.ParsesAreNormal | crates/spur-cli/src/format_engine.rs:42-135 | a token list is normal if and only if some format string parses to it |
| FormatEngine.WrapI32 | crates/spur-cli/src/format_engine.rs:92-104 | the 32-bit two's-complement number congruent to the argument modulo 2^32, the argument itself in range |
| RowLayout.Cell | crates/spur-cli/src/format_engine.rs:272-292 | a cell is as long as the larger of the width and the cut value; the cut value is a prefix of the value, at the end its alignment asks for, and the rest is blanks |
| RowLayout.FormatRow | crates/spur-cli/src/format_engine.rs:239-253 | a row is the concatenation of its cells and literals, trimmed at the end |
| RowLayout.FormatHeader | crates/spur-cli/src/format_engine.rs:256-269 | a header line is laid out as a row of its headings |
| RowLayout.ColumnStart | crates/spur-cli/src/format_engine.rs:239-269 | column k of a line starts where the text of the earlier tokens ends |
| RowLayout.ColumnsLineUp | crates/spur-cli/src/format_engine.rs:239-292 | column k starts at the same offset for all values if and only if every earlier field cuts to at most its width |
| RowLayout.HeaderLinesUp | crates/spur-cli/src/format_engine.rs:256-292 | then the heading of column k starts at the same offset as its values |
| RowLayout.JoinFields | crates/spur-cli/src/format_engine.rs:375-399 | a parsable line is the field values joined with the delimiter, closed by one if asked |
| RowLayout.DelimitedRoundTrip | crates/spur-cli/src/format_engine.rs:324-399 | splitting a parsable line gives the values back if and only if there is a cell and no value holds the delimiter |
| RowLayout.DelimitedTable | crates/spur-cli/src/format_engine.rs:324-399 | header and rows of a parsable table split into the same number of cells |
| SbatchOptions.MergeResolved | crates/spur-cli/src/sbatch.rs:483-569 | the field-by-field merge is `Merged`: command line first, then directives, pairs of spellings as one option, lists appended |
| SbatchOptions.ParseConcat | crates/spur-cli/src/sbatch.rs:343-357 | one parse of two lists is the second laid over the first, or an error exactly when either fails or a once-only option is in both |
| SbatchOptions.MergeRefinesOneParse | crates/spur-cli/src/sbatch.rs:343-569 | parsing apart and merging agrees with one last-wins parse of directives then command line on every option except `--parsable` and `--wrap` of a directive; equal if and only if neither is there; the one parse fails exactly on a once-only clash |
| SbatchOptions.EnvFirstIsFirst | crates/spur-cli/src/env_defaults.rs:21-34 | the first alias that is set and not empty wins |
| SbatchOptions.ApplyAliases | crates/spur-cli/src/sbatch.rs:370-466 | in whatever order the options are visited, those not on the command line take their environment value if there is one |
| SbatchOptions.ResolveEnv | crates/spur-cli/src/sbatch.rs:370-466 | the environment layer over the merge, with the list and pair options |
| SbatchOptions.ResolveSbatchArgs | crates/spur-cli/src/sbatch.rs:343-357 | in terms of the options given, in order: refused if and only if a once-only option is given twice in one place; every single-valued option is its last value in the highest layer that gives it; the requeue pair follows the last of `--requeue` and `--no-requeue` on the command line, else in the directives; the node choice and `--gres` likewise; the accumulating lists hold the directives' entries and then the command line's, in order |
| SbatchOptions.ParsesWhenOnceOnly | crates/spur-cli/src/sbatch.rs:343-357 | a list of options parses if and only if no once-only option is given twice |
| SbatchOptions.ParsedRequeue | crates/spur-cli/src/sbatch.rs:483-569 | after a parse `--requeue` or `--no-requeue` is on exactly as the last of the two says |
| SbatchOptions.ParsedSets | crates/spur-cli/src/sbatch.rs:343-357 | after a parse every single-valued option has the last value given to it |
| SbatchOptions.ScalarPrecedence | crates/spur-cli/src/sbatch.rs:343-466 | every single-valued option is what the command line gave, else its first non-empty alias, else the directive, else the default |
| SbatchOptions.GresPrecedence | crates/spur-cli/src/env_defaults.rs:90-103 | the same for the comma-separated `--gres`, whose environment value is split and trimmed |
| SbatchOptions.ParseChoosesLastNodes | crates/spur-cli/src/sbatch.rs:513-516 | of `--nodelist` and `--nodefile` in one list only the last remains |
| SbatchOptions.NodesPrecedence | crates/spur-cli/src/sbatch.rs:343-516 | at most one of the two is set, and it comes from the highest layer that gave either |
| WaitForJob.Wait | crates/spur-cli/src/sbatch.rs:1056-1137 | for every reply sequence the wait stops at the first reply that ends it and prints at most one warning; a completed job exits with its code, a failed one with its code if positive and else 1, anything else with 1; exit code 0 if and only if the job completed with code 0; ending on a failure that may be requeued takes an earlier one with no sign of life in between; two terminal replies with no sign of life in between end it by the second |
| WaitForJob.WireStates | crates/spur-cli/src/sbatch.rs:1056-1137 | the wire states that end a job, those that show it alive, and those a requeue may undo |
| Keepalive.KeepaliveEndpoints | crates/spur-cli/src/interactive.rs:114-121 | there is always at least one endpoint to try |
| Keepalive.EndpointsAreDialable | crates/spur-client/src/lib.rs:20-34 | a list with any entry yields only addresses with a scheme |
| Keepalive.EndpointsInOrder | crates/spur-client/src/lib.rs:20-34 | the entries of a comma-separated list are tried in order, each as written if it names a scheme and over plain HTTP if not |
| Keepalive.Task.constructor | crates/spur-cli/src/interactive.rs:36-46 | a task starts with the given client, the parsed endpoints and no warning |
| Keepalive.Task.Once | crates/spur-cli/src/interactive.rs:79-110 | on success the client is the same one or that of the first endpoint in order to connect and answer; on failure it is unchanged, every endpoint was dialled, and the error is the last rebuilt client's or else the first |
| Keepalive.Task.Run | crates/spur-cli/src/interactive.rs:43-64 | over any run the warnings equal the number of maximal failure streaks, and the client held is the one that answered at the last failover |
| Keepalive.FirstServing | crates/spur-cli/src/interactive.rs:79-110 | the chosen endpoint serves and none before it does |
| Keepalive.LastErrorDecides | crates/spur-cli/src/interactive.rs:79-110 | the error reported is that of the last endpoint to connect and refuse, or the held client's if none did |
| Keepalive.HeldSinceFailover | crates/spur-cli/src/interactive.rs:43-110 | with no failover since tick i, the client held is that of the failover before it, or the first one |
| InteractiveSession.Session.constructor | crates/spur-cli/src/interactive.rs:303-344 | the init message is the first thing sent |
| InteractiveSession.Session.Turn | crates/spur-cli/src/interactive.rs:348-438 | one turn keeps the sender exactly while standard input is open, and states the whole new session |
| InteractiveSession.Session.Drive | crates/spur-cli/src/interactive.rs:348-438 | over every event sequence: what the agent got and what the screen shows are those functions of the events taken, the session ends at the first event that ends it, and with an exit code if and only if that event is the agent's exit status with that code |
| InteractiveSession.NothingSentAfter | crates/spur-cli/src/interactive.rs:400-431 | nothing is sent after end of input or after the agent hangs up |
| InteractiveSession.KeystrokesArriveInOrder | crates/spur-cli/src/interactive.rs:303-438 | the agent gets exactly the bytes read and the window sizes taken before input stopped, each in order, and no second init |
| InteractiveSession.SentWhileOpen | crates/spur-cli/src/interactive.rs:400-431 | while input is open every byte read and every window size is sent |
| KeyValue.LastValuesComeFromParams | crates/spur-cli/src/scontrol.rs:1861-1917 | the value kept for a key is that of some parameter for it |
| KeyValue.OrderIsIrrelevant | crates/spur-cli/src/scontrol.rs:1837-1956 | parameters with distinct keys leave the same values in any order |
| KeyValue.OverriddenIsIrrelevant | crates/spur-cli/src/scontrol.rs:1837-1956 | a parameter whose key comes again later leaves no trace |
| PartitionUpdate.UpdateRequest | crates/spur-cli/src/scontrol.rs:1837-1956 | sent if and only if every parameter is accepted, there is a name, and the grace time is not both set and cleared; every one of the twenty fields is then stated from the last value of its own key, and unset when the key is not given |
| PartitionUpdate.KeyNames | crates/spur-cli/src/scontrol.rs:1861-1917 | which parameter name reaches which field |
| PartitionUpdate.ReadOf | crates/spur-cli/src/scontrol.rs:1861-1866 | a parameter is accepted if and only if its name, whatever its case, is known and its value is valid for it |
| PartitionUpdate.ValuesAccepted | crates/spur-cli/src/scontrol.rs:1861-1917 | the values each parameter accepts: a number, a node limit, a boolean, a no, or anything |
| PartitionUpdate.AssignTracksLast | crates/spur-cli/src/scontrol.rs:1861-1917 | each assignment keeps the mutable fields equal to what the last values say, aliases and clear flags included |
| PartitionUpdate.OrderIndependent | crates/spur-cli/src/scontrol.rs:1837-1956 | permuting parameters with distinct canonical keys changes neither success nor the request |
| PartitionUpdate.LastWins | crates/spur-cli/src/scontrol.rs:1837-1956 | an accepted parameter whose key comes again later can be removed |
| PartitionUpdate.NeverSetAndCleared | crates/spur-cli/src/scontrol.rs:1861-1956 | no request both sets and clears the node limit, or the grace time |
| PartitionUpdate.ExemptTimeSetAndCleared | crates/spur-cli/src/scontrol.rs:1861-1956 | an accepted request both sets and clears the preemption exempt time if and only if both keys are given and the last clear is a yes |
| PartitionUpdate.ExemptTimeExample | crates/spur-cli/src/scontrol.rs:1861-1956 | `PreemptExemptTime=5 ClearPreemptExemptTime=1` is accepted with both |
| JobUpdate.ParseUpdate | crates/spur-cli/src/scontrol.rs:1667-1748 | sent if and only if every parameter is accepted and the last values are a node and nothing about a job, or a job, a change to it and nothing about a node; every field is then stated from the last value of its own key |
| JobUpdate.KeyNames | crates/spur-cli/src/scontrol.rs:1667-1738 | which parameter name, aliases included, reaches which field |
| JobUpdate.AssignTracksLast | crates/spur-cli/src/scontrol.rs:1667-1738 | each assignment keeps the mutable fields equal to what the last values say |
| JobUpdate.OrderIndependent | crates/spur-cli/src/scontrol.rs:1667-1748 | permuting parameters with distinct keys changes neither success nor the target |
| JobUpdate.LastWins | crates/spur-cli/src/scontrol.rs:1667-1748 | an accepted parameter whose key comes again later can be removed |
| JobUpdate.NothingIsDropped | crates/spur-cli/src/scontrol.rs:1667-1748 | an accepted update uses every parameter: a node update holds no job parameter and a job update no node parameter |
| SinfoFilter.ParseTokens | crates/spur-cli/src/sinfo.rs:200-234 | the token loop yields the filter of the tokens if all are known, else an error |
| SinfoFilter.ParseFilter | crates/spur-cli/src/sinfo.rs:200-234 | a missing option and `all` mean no filter; otherwise there must be a token and all must be known |
| SinfoFilter.StateFrom | crates/spur-core/src/node.rs:211-217 | a token names the first state, in wire order, whose short or full name it is, and no state if it is neither of any |
| SinfoFilter.OverlayTokens | crates/spur-cli/src/sinfo.rs:161-170 | the tokens that name an overlay, and no other |
| SinfoFilter.LabelsAskFor | crates/spur-cli/src/sinfo.rs:172-180 | an overlay token asks for an idle node that is in a reservation, in a maintenance reservation, or planned and in none |
| SinfoFilter.FilterMeansTokens | crates/spur-cli/src/sinfo.rs:161-261 | the filter keeps a node if and only if some token asks for it |
| SinfoFilter.SplitFilterIsExact | crates/spur-cli/src/sinfo.rs:236-261 | server request then client filter shows exactly the nodes asked for by state or overlay, and the request is never the show-everything one |
| SinfoFilter.UnfilteredShowsAll | crates/spur-cli/src/sinfo.rs:236-261 | no filter shows every node |
| Grouping.GroupBy | crates/spur-cli/src/sinfo.rs:265-274 | the loop fills the sorted map `Grouped` |
| Grouping.GroupedIsPartition | crates/spur-cli/src/sinfo.rs:265-274 | keys strictly ascend, no group is empty, each group is the in-order list of the items with its key, and every item's key has a group |
| Grouping.GroupedKeepsAll | crates/spur-cli/src/sinfo.rs:265-274 | every item is in exactly one group, as often as it was given |
| Grouping.LessAtDifference | crates/spur-cli/src/sinfo.rs:265-274 | keys are ordered by their first difference, a proper prefix first |
| SinfoListing.NodeOriented | crates/spur-cli/src/sinfo.rs:284-298 | the node-oriented loop produces `NodeRows` |
| SinfoListing.NodeRowsAre | crates/spur-cli/src/sinfo.rs:284-298 | a row is printed if and only if it shows a given node under one of its partitions, or under the empty name if it has none |
| SinfoListing.NodeRowsCount | crates/spur-cli/src/sinfo.rs:284-298 | there are as many rows as nodes have partitions, and one for each node in no partition |
| SinfoListing.PartitionOriented | crates/spur-cli/src/sinfo.rs:299-321 | the partition-oriented loop produces `PartitionRows` |
| SinfoListing.PartitionRowsAccount | crates/spur-cli/src/sinfo.rs:299-321 | every partition has a row; its rows show different states, in order; each holds, in order, all the partition's nodes in the state it shows; together they hold exactly the partition's nodes, each as often as it is given |
| SinfoListing.PartitionRowsHold | crates/spur-cli/src/sinfo.rs:299-321 | a node is in some row of a partition if and only if it was given and is in the partition |
| SinfoListing.ReasonKeyIsFaithful | crates/spur-cli/src/sinfo.rs:328-357 | keys are equal if and only if reason, user, time in seconds and displayed state are, even when the reason holds the separator |
| SinfoListing.ReasonRowsHold | crates/spur-cli/src/sinfo.rs:328-357 | a node is in some row if and only if it was given and is down, drained, draining or failing |
| SinfoListing.ReasonRowsTellTheTruth | crates/spur-cli/src/sinfo.rs:487-506 | the reason, user and state cells of a row are right for every node in it, and the time cell exactly when both or neither time is recorded |
| SinfoListing.ZeroTimeSharesARow | crates/spur-cli/src/sinfo.rs:328-357 | two nodes that make one row, whose time cells differ for every rendering |
| ExportEnv.ResolveExportEnv | crates/spur-cli/src/export_env.rs:20-50 | the token loop over the seeded map yields `ExportedEnv` |
| ExportEnv.LastTokenDecides | crates/spur-cli/src/export_env.rs:33-49 | a variable has the value of the last token that sets it, else its seed value |
| ExportEnv.UnsetVariables | crates/spur-cli/src/export_env.rs:20-68 | a variable no token sets is carried over if the specification begins with ALL or the variable is the scheduler's own, and is absent otherwise |
| ExportEnv.SetVariables | crates/spur-cli/src/export_env.rs:20-50 | a variable has the value given by the last token that sets it, unless the specification is the word ALL |
| ExportEnv.TokenSets | crates/spur-cli/src/export_env.rs:33-49 | `VAR=value` sets its variable to the value; `VAR` sets it to the source's value if there is one and nothing otherwise |
| ExportEnv.RestrictedExport | crates/spur-cli/src/export_env.rs:20-68 | the environment of a specification that is not and does not begin with ALL depends only on the scheduler variables other than credentials and on the names listed bare |
| ExportEnv.CredentialsAreNotCarried | crates/spur-cli/src/export_env.rs:20-68 | under such a specification a credential reaches the job if and only if a token sets it |
| NetworkAddress.MaskIs | crates/spur-cli/src/net.rs:515-528 | the shifted mask is 2^32 less the size of the network, prefix 0 included |
| NetworkAddress.AndHighOnes | crates/spur-cli/src/net.rs:515-528 | anding bit by bit with ones above k zeros clears exactly the k low bits |
| NetworkAddress.NetworkIsFloor | crates/spur-cli/src/net.rs:515-528 | the network is the address rounded down to a multiple of its size, and the address lies in it (section 3.1 of RFC 4632) |
| NetworkAddress.SameNetwork | crates/spur-cli/src/net.rs:515-528 | two addresses share a network if and only if their prefix bits agree |
| NetworkAddress.NetworkOfNetwork | crates/spur-cli/src/net.rs:515-528 | masking by p and then q is masking by the smaller |
| NetworkAddress.JoinRoute | crates/spur-cli/src/net.rs:287 | a joining node routes a network of its prefix that holds the node itself; refused only for a bad address or a prefix above 32 |
| UsageReport.Aggregate | crates/spur-cli/src/sreport.rs:359-365 | the accumulated map has the used keys, each with the exact sum of its entries |
| UsageReport.Totals | crates/spur-cli/src/sreport.rs:366-367 | the total over the map, in any order of its keys, is the total over the entries |
| UsageReport.ListDirectory | crates/spur-cli/src/sreport.rs:382-389 | one exact row per directory entry, adding up to the usage of the listed keys and of the repeats |
| UsageReport.AddMissing | crates/spur-cli/src/sreport.rs:390-396 | then every used key has a row and no key gets a second one |
| UsageReport.Report | crates/spur-cli/src/sreport.rs:359-419 | the rows are for the used keys and the keys listed, each with its whole usage; restricted or without repeats the keys strictly ascend, the rows add up to the total and the percentages to 100; in general the job column adds up if and only if restricted or no repeated key has jobs, and the percentages if and only if no CPU time is shown again |
| UsageReport.CollectRows | crates/spur-cli/src/sreport.rs:382-397 | the rows add up to the total and to what the repeats show again, in key order |
| UsageReport.NamesAreOrdered | crates/spur-cli/src/sreport.rs:397 | the names of the report by account are totally ordered |
| UsageReport.PairsAreOrdered | crates/spur-cli/src/sreport.rs:450-527 | the user and account pairs of the other report are totally ordered, so `Report` covers it too |
| UsageReport.RepeatedJobs | crates/spur-cli/src/sreport.rs:381-396 | no jobs are shown again if and only if no repeated directory entry has any |
| UsageReport.NothingRepeated | crates/spur-cli/src/sreport.rs:381-396 | a directory without repeats shows nothing again |
| UsageReport.NamedTwice | crates/spur-cli/src/sreport.rs:381-396 | a directory that named a key twice would have its whole usage shown again |
| UsageReport.PercentagesOf | crates/spur-cli/src/sreport.rs:398-404 | when some CPU was used the exact percentages add up to 100 if and only if no CPU time is shown again |
| Coordinators.CoordinatorColumns | crates/spur-cli/src/sacctmgr.rs:1633-1660 | an account is listed under a user iff the user is listed under the account iff the assignment is there; every list strictly ascends |
| Coordinators.TidyIs | crates/spur-cli/src/sacctmgr.rs:1651-1660 | sorting and dropping neighbours that repeat gives the same names strictly ascending |
| HostRanges.CoalesceRanges | crates/spur-core/src/hostlist.rs:162-180 | numbers that print differently coalesce into ranges that print exactly those numbers, in the same order, and no two neighbouring ranges could join |
| HostRanges.NeighboursStayApart | crates/spur-core/src/hostlist.rs:162-180 | no single range prints what two neighbouring ranges print |
| HostRanges.WidthEquivIsExact | crates/spur-core/src/hostlist.rs:200-220 | two numbers are given a common width if and only if some width prints both as written, and the width given does |
| HostRanges.ExtendRange | crates/spur-core/src/hostlist.rs:200-220 | when the width rule lets a number continue a range, the longer range prints as the old one and the number, whichever width it picks |
| Hostlist.SplitTopLevel | crates/spur-core/src/hostlist.rs:304-322 | the loop splits at the commas outside brackets, stray closing brackets ignored |
| HostlistLoops.GroupHosts | crates/spur-core/src/hostlist.rs:97-111 | the loop sorts hosts into bare names and number groups in order of first appearance |
| HostlistLoops.CompressHosts | crates/spur-core/src/hostlist.rs:82-157 | the whole of `compress` computes `Compress` |
| HostlistLoops.ExpandInto | crates/spur-core/src/hostlist.rs:350-433 | a term of any number of brackets, with any text before, between and after them, gives the product of its brackets in order, the leftmost varying slowest, unless that passes the cap; it is an error if some dashed item is not an ascending range |
| HostlistLoops.ExpandPattern | crates/spur-core/src/hostlist.rs:26-54 | a comma-separated list of such terms, with blanks around them, gives their products in order without empty names, unless that passes the cap or some range does not read |
| HostlistProduct.ExpandProduct | crates/spur-core/src/hostlist.rs:350-433 | the product law for one term after any text, onto any results so far |
| HostlistProduct.PiecesRefused | crates/spur-core/src/hostlist.rs:330-433 | a dashed item that is not two 64-bit numbers in ascending order refuses the term, whichever bracket it is in |
| HostlistProduct.ExpandMeans | crates/spur-core/src/hostlist.rs:26-54 | the product law for a whole pattern, and its only errors |
| HostlistProduct.PartCompletes | crates/spur-core/src/hostlist.rs:393-426 | counting a range before it is made refuses nothing that would have fitted |
| HostlistProduct.ItemBounds | crates/spur-core/src/hostlist.rs:330-347 | a bracket item is a range exactly when it has a dash; its bounds are the numbers around the first dash and its width the length of the first |
| HostlistProduct.NumberIsRead | crates/spur-core/src/hostlist.rs:338-343 | digits, perhaps after a plus, read as their value if it fits in 64 bits and not otherwise |
| HostlistProduct.OtherIsNotRead | crates/spur-core/src/hostlist.rs:338-343 | nothing else reads as a number |
| HostlistProduct.ExpandUnclosed | crates/spur-core/src/hostlist.rs:376-386 | an opening bracket that is never closed is an error |
| HostlistProduct.SplitTopTerms | crates/spur-core/src/hostlist.rs:304-322 | a pattern splits at the commas between its terms and at none inside brackets |
| HostlistExpansion.SplitNameIsExact | crates/spur-core/src/hostlist.rs:281-293 | a split name is its prefix followed by its number at its width, leading zeros included |
| HostlistExpansion.RangeItemIsExact | crates/spur-core/src/hostlist.rs:295-347 | a printed range is read back as the numbers it was printed from, at its width |
| HostlistExpansion.SplitRendered | crates/spur-core/src/hostlist.rs:304-322 | a printed pattern splits at top level into exactly its terms |
| HostlistExpansion.ExpandOfSound | crates/spur-core/src/hostlist.rs:26-54 | a pattern printed from terms expands to the names of the terms in order, or is refused when they exceed the cap |
| HostlistExpansion.ExpandOfUnsound | crates/spur-core/src/hostlist.rs:350-390 | a bracket after a prefix that holds `]` makes the whole pattern an error |
| HostGroups.NumericTermsAre | crates/spur-core/src/hostlist.rs:97-111 | the numeric terms are exactly the prefixes in use, each once, with the numbers of its hosts |
| HostlistRoundTrip.TermsNameTheHosts | crates/spur-core/src/hostlist.rs:82-157 | the terms name every host exactly once |
| HostlistCriterion.RoundTrip | crates/spur-core/src/hostlist.rs:26-157 | for every list, in any term order, every host comes back exactly once and no name holds `[` if and only if every name is clean, no two share a prefix that holds `]`, and there are at most a million |
| HostlistCriterion.ExpandedIsTidy | crates/spur-core/src/hostlist.rs:26-54 | a pattern of plain text and printed brackets expands only to non-empty names without commas and without surrounding white space |
| HostlistRoundTrip.SharedCloseFails | crates/spur-core/src/hostlist.rs:350-390 | clean names two of which share a prefix that holds `]` give a pattern that is refused |
| HostlistNames.ExpandSingleExtends | crates/spur-core/src/hostlist.rs:350-433 | expanding only appends, keeps to the cap, and every name from a bracket is shorter than its pattern |
| HostlistNames.ExpandIsCapped | crates/spur-core/src/hostlist.rs:350-433 | no pattern expands past the cap, however its brackets multiply |
| HostlistNames.OneName | crates/spur-core/src/hostlist.rs:26-157 | one name survives compressing and expanding if and only if it is clean |
| HostlistNames.ClosedPrefixFails | crates/spur-core/src/hostlist.rs:72-157 | two clean names that share a prefix holding `]` give a pattern that does not expand |
| NaturalOrder.Natural | crates/spur-core/src/hostlist.rs:230-266 | the scanning loops compute the natural comparison, which is dictionary order of the strings' keys |
| NaturalOrder.RunsCompareByValue | crates/spur-core/src/hostlist.rs:236-255 | digit runs of any length compare by value, then by length, without overflow |
| NaturalOrder.NaturalAtFront | crates/spur-core/src/hostlist.rs:230-266 | at the front of two strings: nothing before something, other characters by code, numbers by value and then by length, and equal fronts are passed over |
| NaturalOrder.NaturalIsDictionary | crates/spur-core/src/hostlist.rs:230-274 | natural comparison is dictionary order of keys |
| NaturalOrder.NaturalOrderIsTotal | crates/spur-core/src/hostlist.rs:230-274 | the comparison reverses when its arguments do, and says equal only of equal strings |
| NaturalOrder.NaturalOrderIsTransitive | crates/spur-core/src/hostlist.rs:230-274 | the comparison is transitive |
| HostlistOrder.TermsAscend | crates/spur-core/src/hostlist.rs:143-150 | the terms of a pattern strictly ascend, a bare name before the numbers of the same prefix |
| HostlistOrder.TermLessMeans | crates/spur-core/src/hostlist.rs:143-150 | terms are in the natural order of their names or prefixes, and a bare name comes before the numbered hosts of that prefix |
| HostlistOrder.SortedNumsOf | crates/spur-core/src/hostlist.rs:130-132 | the sorted numbers of a prefix depend only on the set of hosts |
| HostlistOrder.OrderIndependent | crates/spur-core/src/hostlist.rs:72-157 | the pattern depends only on the set of hosts, not on their order or repeats |
| HostlistOrder.PatternIdentifiesHosts | crates/spur-core/src/hostlist.rs:72-157 | for clean lists that can be expanded, two patterns are equal if and only if the sets of hosts are |

## Left out

- gRPC calls, authentication, signals, raw terminal mode, timers and Ctrl-C: their outcomes are inputs.
- clap's own parsing: options arrive as events, in order; positional arguments and value validation are not modelled.
- Scanning a script for `#SBATCH` and `#PBS` lines, and choosing the job's body.
- `parse_named_format`, `parse_format2` and the choice of an output style are not modelled.
- FormatEngine.WrapI32: a build with overflow checks would stop at a width out of range instead of wrapping.
- RowLayout.Cell: lengths are in characters; the source cuts at bytes, which is the same for ASCII values.
- WaitForJob.Wait: the delay between polls is not modelled, only the order of the replies.
- Keepalive.Task.Run: the timer and the cancellation of the background loop are not modelled; a run is any finite number of ticks.
- InteractiveSession.Session.Drive: the bounded channel to the agent is unbounded here, and a write to the terminal that fails half way shows nothing.
- PartitionUpdate.UpdateRequest: `to_lowercase`, number and time parsing are arbitrary functions, and only success or failure is kept of an error.
- `detect_entity` and the other subcommands of `scontrol`.
- SinfoListing.ReasonKeyIsFaithful: times are whole seconds; the nanoseconds of a timestamp are not in the key and not in the model.
- UsageReport.PercentagesOf: seconds are exact reals, so the rounding of `f64` is not modelled.
- Coordinators.CoordinatorColumns: stops before the names are joined with commas.
- NetworkAddress.NetworkIsFloor: the textual form of an IPv4 address is not parsed.
- HostlistCriterion.RoundTrip: does not say that a list of two or more names one of which holds `[` never round-trips; `HostlistNames.OneName` says it of one name.
- Submitline.PosixRoundTrip: is about splitting a line into words; that a shell may take a first word such as `A=1` or `if` for an assignment or a reserved word is not modelled.
- HostlistLoops.ExpandInto: the check after each name that the cap was not passed is omitted, since by `HostlistNames.ExpandSingleExtends` it can never fire; only success or failure is kept of an error.
- HostlistProduct.ExpandMeans: the text outside brackets holds no bracket; that a `]` ahead of a bracket is an error is `HostlistExpansion.ExpandOfUnsound`.
- `expand_bounded`, `expand_first` and `count` of the host lists.
- Hostlist.SplitTopLevel: works on characters; the source slices the string at the same places by byte offset.
- The controller, the agents, the scheduler and the replicated log.
