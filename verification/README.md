# The tool_wave core, modelled in Dafny

tool_wave answers questions about simulation waveforms. A server opens a waveform file, builds
tables of scopes and signals, and answers requests that arrive as JSON lines. On a compute farm
the server runs as a worker behind a proxy on the login host, and the two talk over pipes. The
project models three parts and proves what each is for.

**Queries.** `Waveform`, `Edges` and `RangeRadix` query one signal through a cursor that only
moves one value change at a time, and `WholeSignals` says what that comes to without a select;
`Radix`, `RadixDigits` and `RadixLoss` convert four-state values and select bits; `Database`,
`Indices`, `Composite`, `Reading`, `SelectedReads`, `CompositeRange`, `CompositeEdges` and
`PackedStruct` resolve names and put composite signals together from their parts; `StructBits` says what their bits
and bit selects are, `Grounding` and `Endless` which reads never come to an end; `ScopeTree`,
`ScopeForest`, `ScopeNesting`, `DeclaredNames` and `OpenedFile` build the tables from the
reader's callbacks; `Walks` and `Glob` list scopes and search signals.

**Messages.** `JsonText` is a reader and printer on values, `JsonParsing` the classes of the
source proved against it, `JsonStability`, `JsonRoundTrip` and `JsonLaws` its laws. `Protocol`,
`StatusRewrite`, `ClientViews`, `Transport`, `SessionRecords` and `CText` cover envelopes,
textual edits, what a client recovers, the hex codec, command splitting, session records and
the C conversions; `Sha256` and `Sha256Words` the fingerprint.

**The proxy.** `ProxyProtocol` is a machine of single steps with its safety theorem;
`ProxyProcess` and `ServerLoop` are the loops of the proxy, the worker and the socket server;
`ProxyRuns` proves them to be runs of that machine under any interleaving with the worker, and
`WorkerRuns` that the machine's worker does what its loop does; `ProxyProgress` shows that runs
can complete.

Objects of the source that change are classes with the same fields; their methods are proved
against functions on values, and the laws are lemmas about those functions. Table order,
recv, send, read and poll results, timeouts and hash order are parameters, so each theorem
holds for all of them.

What the environment is taken to do: value changes are in order of time and not later than the
file's last time (`Recorded`); seeking lands on the last change at or before the tag, and before
the first change it fails or lands on change 0 (`SeekIndex`); what the job submission prints
before the ready line is whole lines without an opening brace, and the backend is one of the
two known ones (`Sane`).

Of the tables nothing is assumed that the callbacks do not ensure, but for a nameless variable
(see "Left out"). A part without an entry can be a bit select of a composite, and reading it may
then never end. The point query is modelled for the reads that end (`Ends`), and which ones do
is a result. `Answerable` says that no part on the way is such a select, which is enough; range,
count and edge on composites always end.

## Model

| member | source | states |
|---|---|---|
| Waveform.Current | src_vwave/backend/ffr_backend.h:361-385 | the value under the cursor, projected when a bit select is asked for and converted; fails exactly when the select does not fit |
| Waveform.Point | src_vwave/backend/ffr_backend.h:549-562 | the point query agrees with the value in force at the clamped time, and carries the time that was asked for |
| Waveform.RangeQuery | src_vwave/backend/ffr_backend.h:563-584 | the cursor loop lists the first `limit` of all changes and counts all of them, for every limit including 0 |
| Waveform.RangeIsLossless | src_vwave/backend/ffr_backend.h:563-584 | a range is empty exactly when no change lies at or before begin; otherwise it starts at begin, is ordered, ends by end, lists no two equal values in a row for a select, and at every time of the range the change in force shows what the point query shows |
| Waveform.SomeChangeInForce | src_vwave/backend/ffr_backend.h:572-583 | at every time of a non-empty range exactly one listed change is in force |
| Waveform.Count | src_vwave/backend/ffr_backend.h:647-669 | the counting loop, including the `continue` that still moves the cursor, agrees with the recursive count from the seek position |
| Waveform.CountAgainstRange | src_vwave/backend/ffr_backend.h:563-584 | binary range total against count for every recording with a change at or before begin: equal exactly when the sought change is at begin or a select is silent at its first change behind begin, otherwise larger by one |
| WholeSignals.WholeCountIff | src_vwave/backend/ffr_backend.h:647-669 | for a whole signal the count is at most the number of changes in the range, and equal to it exactly when the change sought is the only one at begin or lies before it, or, if none is found, none is in the range |
| WholeSignals.WholeRangeListsAll | src_vwave/backend/ffr_backend.h:563-584 | the range of a whole signal lists the value in force at begin and behind it every change up to the end with its time and value |
| WholeSignals.SameTimeCountedOnce | src_vwave/backend/ffr_backend.h:651 | of three changes recorded at begin one is counted |
| WholeSignals.PointFails | src_vwave/backend/ffr_backend.h:549-562 | a point query fails to read exactly when the signal has no change by then and the seek is strict, and reports the signal as not found exactly when the select does not fit the value in force |
| WholeSignals.NegativeTimeReadsLast | src_vwave/backend/ffr_backend.h:79-80 | a negative time becomes a very late tag, and the query reads the last value |
| WholeSignals.LimitedIs | src_vwave/backend/ffr_backend.h:572-583 | of a list beyond the limit the first ones are given, with the number of all |
| Edges.ForwardEdgeIsExact | src_vwave/backend/ffr_backend.h:638-644 | a forward rising or falling edge is the first change later than t+1 with the target value, and nothing is found exactly when there is none; without a change at or before t the outcome is what the seek assumption gives |
| Edges.BackwardEdgeIsExact | src_vwave/backend/ffr_backend.h:633-637 | a backward rising or falling edge is always the last change earlier than t with the target value, and nothing is found exactly when there is none |
| Edges.ForwardToOneOrZero | src_vwave/backend/ffr_backend.h:630-644 | forward, a rising edge is the first change behind t+1 that shows "1", a falling edge the first that shows "0" |
| Edges.BackwardToOneOrZero | src_vwave/backend/ffr_backend.h:630-637 | backward, a rising edge is the last change earlier than t that shows "1", a falling edge the last that shows "0" |
| Edges.FindEdge | src_vwave/backend/ffr_backend.h:585-646 | the edge query of a signal or a bit select, all kinds and both directions, agrees with its recursive description |
| Edges.ForwardAnyIsFirstLater | src_vwave/backend/ffr_backend.h:622-628 | forward search for any edge: the first change later than t once the signal has a change by t; before that a strict seek finds nothing and a lenient one passes over the first change |
| Edges.BackwardAnyIsLastEarlierIff | src_vwave/backend/ffr_backend.h:622-628 | backward search for any edge of a whole signal: the last change earlier than t exactly when the change in force at t is at t itself and the one before it is earlier, or the two agree in time and value |
| Edges.BackwardAnyPassesOver | src_vwave/backend/ffr_backend.h:625 | changes at 0 and 10, searched backward from 15, give the one at 0 |
| Edges.PartialBackwardAnyEdge | src_vwave/backend/ffr_backend.h:420-454 | the loops of the special backward search of a select agree with its recursive description |
| Edges.PartialBackwardMeans | src_vwave/backend/ffr_backend.h:420-454 | on the recording: the search fails exactly when a change by t cannot be read; if the last change by t alters the select it finds the alteration before that one, otherwise the change before the last with an unknown value |
| Edges.PartialBackwardIsLastAlterationIff | src_vwave/backend/ffr_backend.h:420-454 | that is the last alteration of the select earlier than t exactly when the change in force alters the select at t itself and the alteration before it is earlier, or the select is unknown since the change that is found |
| CompositeEdges.CompositeEdge | src_vwave/backend/ffr_backend.h:601-621 | on all tables the search over the change times of a composite or a select of one, all kinds and both directions, agrees with its recursive description |
| CompositeEdges.CompositeEdgeIsExact | src_vwave/backend/ffr_backend.h:605-618 | both directions give the nearest matching one of the times at which a signal that is found from the start changes; when all are found, the value matches at no moment at all, forward from the first change behind t to the answer or the end of the file, backward from the first change behind the answer to t |
| CompositeEdges.CompositeToOneOrZero | src_vwave/backend/ffr_backend.h:605-618 | for composites, too, a rising edge is a time at which "1" is shown and a falling edge one at which "0" is, and no collected time nearer to t shows it |
| CompositeEdges.LateEdgeIsMissed | src_vwave/backend/ffr_backend.h:603-612 | a signal that is not found before its first change is searched past: the edge at 5 is reported as absent |
| Radix.Convert | src_vwave/backend/ffr_backend.h:455-485 | conversion into each radix, with the digit loops in place, agrees with the recursive description |
| Radix.DoubleInPlace | src_vwave/backend/ffr_backend.h:464-467 | the inner loop over the digits, from the last to the first, doubles the decimal number and gives the carry out |
| Radix.DecTextHead | src_vwave/backend/ffr_backend.h:462-470 | decimal text begins with a zero only when it is "0" |
| Radix.GroupTextLength | src_vwave/backend/ffr_backend.h:472-483 | octal and hexadecimal text has ceil(n/3) and ceil(n/4) digits |
| Radix.ConversionKeepsNumber | src_vwave/backend/ffr_backend.h:455-485 | for two-state values of any width the text in any radix denotes the same number as the bits |
| Radix.ConversionInjective | src_vwave/backend/ffr_backend.h:455-485 | two-state values of equal width have equal texts exactly when they are equal |
| RadixDigits.ConvertedDigits | src_vwave/backend/ffr_backend.h:471-484 | each octal or hexadecimal digit, over its three or four bits: X exactly for all x, x exactly for some x, Z exactly for all z, z exactly for some z without x, otherwise the digit of their number |
| RadixDigits.ConvertedDecimal | src_vwave/backend/ffr_backend.h:457-470 | decimal text is the number of a known value, and otherwise one of these letters, by the same rule over all bits |
| RadixLoss.LossyIffBlurred | src_vwave/backend/ffr_backend.h:457-461 | with unknown bits: another value of the same width has the same text exactly when the text holds a lower-case x or z |
| RadixLoss.ClearIsInjective | src_vwave/backend/ffr_backend.h:471-484 | a text without lower-case x and z comes from one value of the width only |
| RangeRadix.RangeIsMergedBinary | src_vwave/backend/ffr_backend.h:576-582 | for every recording, the range of a select in any radix is its binary range, converted, with runs of equal texts merged |
| RangeRadix.TotalAcrossRadices | src_vwave/backend/ffr_backend.h:576-582 | no radix lists more changes than binary; it lists as many exactly when no change of the recording behind the one in force at begin and by end alters the select without altering its text in that radix |
| RangeRadix.RadixCanHideAChange | src_vwave/backend/ffr_backend.h:579 | a recording whose change from 0x to 1x is listed in binary and missing in hexadecimal |
| RangeRadix.AlwaysSameTotalIff | src_vwave/backend/ffr_backend.h:563-584 | for a select that can be read throughout, all ranges have as many changes in a radix as in binary exactly when no change behind the first time of the recording alters the select without altering its text |
| RangeRadix.RangeIndependentOfRadix | src_vwave/backend/ffr_backend.h:576-582 | in particular totals do not depend on the radix while no selected value is blurred |
| RangeRadix.TwoStateNeverBlurred | src_vwave/backend/ffr_backend.h:455-485 | two-state values are never blurred, so the preceding row covers every two-state signal |
| Radix.ProjectSlice | src_vwave/backend/ffr_backend.h:81-92 | the bit loop gives the selected bits in order and throws exactly when an endpoint lies outside the value |
| Radix.SelectAllIsIdentity | src_vwave/backend/ffr_backend.h:81-92 | selecting the declared range gives the value back |
| Radix.SelectFailsIffOutside | src_vwave/backend/ffr_backend.h:81-92 | when the value has its declared width a select fails exactly when an endpoint lies outside the declared range |
| Radix.HexDigitIsSelect | src_vwave/backend/ffr_backend.h:471-484 | selecting commutes with digits: on a descending bus, x and z included, the hex text of [4k+3:4k] is the k-th hex digit from the right |
| Database.CompositeChildren | src_vwave/backend/ffr_backend.h:163-194 | the loops over the listed signals and over the table in hash order, and the sort, give the parts of a composite |
| Database.PartsMembers | src_vwave/backend/ffr_backend.h:163-183 | the parts are exactly the names listed under the path or spelled by longer keys, each once, each longer than the path |
| Database.SortPartsInOrder | src_vwave/backend/ffr_backend.h:184-192 | after sorting no part stands behind one that comes later by its index |
| Indices.ElementsInIndexOrder | src_vwave/backend/ffr_backend.h:184-192 | the elements of an array declared with two different indices stand by the numbers in their names: falling if the left index is the greater, rising otherwise |
| Indices.MembersAsListed | src_vwave/backend/ffr_backend.h:166-168 | the members of a structure stand first, in the order in which they are listed |
| Database.FindSignal | src_vwave/backend/ffr_backend.h:299-331 | the search through the table in whatever hash order finds what the order-free description names |
| Database.LookupChoosesLongest | src_vwave/backend/ffr_backend.h:299-331 | an exact key wins; otherwise the one longest key that has an id or parts and whose remaining suffix parses as a range is chosen; look-up fails exactly when there is no such key |
| Database.LookupIgnoresOrder | src_vwave/backend/ffr_backend.h:303-311 | two hash orders of the same tables give the same descriptor for every path |
| Indices.SelectAsWritten | src_vwave/backend/ffr_backend.h:299-319 | key[a:b] behind an entry with an id or parts, unless it is an entry itself, is the select of that entry from a to b, for all 32-bit a and b, counting from the declared or packed range |
| Indices.BitAsWritten | src_vwave/backend/ffr_backend.h:299-319 | with one index it is the select of that bit |
| Indices.BitsSelected | src_vwave/backend/ffr_backend.h:81-92 | the k-th bit of a select is the one with the k-th index on the way from its left to its right end |
| Indices.LookupSound | src_vwave/backend/ffr_backend.h:303-319 | what is found without an entry is a select of a shorter key that has an id or parts, with the ends the rest of the path reads as |
| Indices.WideIndexRefused | src_vwave/backend/ffr_backend.h:103-114 | an index beyond 32 bits is no range |
| Composite.PartHasLessRoom | src_vwave/backend/ffr_backend.h:195-215 | the measure that ends the recursion: a part of a composite leaves less room below the longest name |
| Reading.PointQuery | src_vwave/backend/ffr_backend.h:549-562 | the point query of any path, recursive through composites, gives the outcome of every read that ends |
| Reading.CompositeValue | src_vwave/backend/ffr_backend.h:195-204 | the texts of the parts in order, in braces with commas, for every read that ends; the first failing part decides the failure |
| Reading.DeeperIsSame | src_vwave/backend/ffr_backend.h:195-218 | what a read comes to does not depend on how deep it may go |
| Reading.CompositeBits | src_vwave/backend/ffr_backend.h:205-215 | the bits of all parts in order, through nested composites, for every read that ends; the first failing part decides the failure |
| Reading.AnswerableEnds | src_vwave/backend/ffr_backend.h:549-562 | when no part on the way is a bit select of a composite the read ends, with the text that the recursion over longer names describes |
| SelectedReads.RangeOfSignal | src_vwave/backend/ffr_backend.h:549-562 | reading key[a:b] of a signal gives, in any radix, the bits from a to b of what reading key gives, and fails as not found exactly when they do not fit |
| SelectedReads.BitOfSignal | src_vwave/backend/ffr_backend.h:549-562 | reading key[i] gives bit i of it |
| Endless.EndsIffWithinEntries | src_vwave/backend/ffr_backend.h:195-218 | for every path and table: a read ends exactly when it goes no deeper than there are entries in the table |
| Endless.ElementEndsIff | src_vwave/backend/ffr_backend.h:205-215 | a composite with an element that is a select of the composite itself is read to an end exactly when the reading fails in front of that element, and then the read fails |
| Endless.NeverEndsIffReadable | src_vwave/backend/ffr_backend.h:195-218 | if no part in front of that element leads back, the read never ends exactly when all of them can be read at that time |
| Endless.GuardedEnds | src_vwave/backend/ffr_backend.h:205-215 | an unreadable part in front of such an element ends every read with its failure |
| Grounding.ElementLeadsBackIff | src_vwave/backend/ffr_backend.h:299-331 | a bracketed part is looked up as a select of its own composite exactly when it has no entry and its index reads as a range |
| CompositeRange.CollectCompositeTimes | src_vwave/backend/ffr_backend.h:386-403 | the recursive collection of change times ends on all tables and agrees with its description |
| CompositeRange.CollectedIff | src_vwave/backend/ffr_backend.h:386-403 | the collection succeeds exactly when every part at any depth is found and is a composite entry, a readable signal or a select of one |
| CompositeRange.LeadingBackIsRefused | src_vwave/backend/ffr_backend.h:389-394 | a part that is a select of a composite makes the collection fail, as an unsupported type when it is reached |
| CompositeRange.CollectedIsAnswerable | src_vwave/backend/ffr_backend.h:404-412 | once the times have been collected every later read of the path ends |
| CompositeRange.TimesAre | src_vwave/backend/ffr_backend.h:386-403 | a time is collected exactly when a signal below, at any depth, that seeking to begin finds changes then inside the range; the times ascend |
| CompositeRange.CompositeRangeQuery | src_vwave/backend/ffr_backend.h:404-419 | on all tables lists the first `limit` of all changes of a composite or a select of one, and counts all of them |
| CompositeRange.CompositeRangeIsLossless | src_vwave/backend/ffr_backend.h:404-419 | whenever a composite range succeeds its times strictly increase and neighbours differ; it is empty exactly when no signal that seeking to begin finds changes in the range; if not, it starts at begin, every signal below is found, and at every time of the range it shows what the point query shows |
| CompositeRange.EmptyIffNothingChanges | src_vwave/backend/ffr_backend.h:404-419 | when every signal below has a change by begin the range is empty exactly when none changes in it |
| CompositeRange.LateChangeIsMissed | src_vwave/backend/ffr_backend.h:395 | a structure whose one signal first changes at 5 has an empty range from 0 to 10 under a strict seek, although the point query shows the new value |
| CompositeRange.AnyRange | src_vwave/backend/ffr_backend.h:563-584 | the range query of any path on all tables: composite, leaf or select, with the same prefix-and-total law |
| CompositeRange.AnyCount | src_vwave/backend/ffr_backend.h:647-669 | the count of any path on all tables; for composites it is the number of all changes, whatever the list limit |
| CompositeRange.QueriesFail | src_vwave/backend/ffr_backend.h:335-344 | range and count of an unknown path report it as not found, and those of an unsupported encoding as unsupported |
| PackedStruct.SignalTable.FinalizePackedStructRanges | src_vwave/backend/ffr_backend.h:280-298 | one pass over the table in hash order gives packed structures their ranges and changes nothing else |
| PackedStruct.NeverWider | src_vwave/backend/ffr_backend.h:280-298 | whatever the hash order no entry ends up wider than it really is, at any depth, and unpacked entries are exact |
| PackedStruct.ExactIffPartsCountRight | src_vwave/backend/ffr_backend.h:280-298 | a packed structure ends up with its real width exactly when every packed part visited later is one bit wide and every other part ends up exact; its range is [width-1:0] |
| PackedStruct.ExactIffInPlace | src_vwave/backend/ffr_backend.h:280-298 | the same unrolled to the leaves, as a condition on the tables and the hash order alone |
| PackedStruct.OrderMatters | src_vwave/backend/ffr_backend.h:282-297 | a packed structure in a packed structure: exact in one hash order, too narrow in the other |
| PackedStruct.InnerFirstIsExact | src_vwave/backend/ffr_backend.h:280-298 | in a hash order that visits inner packed structures first all widths are right, at any depth |
| PackedStruct.FlatIsExact | src_vwave/backend/ffr_backend.h:280-298 | a packed structure without packed parts gets its real width in every hash order |
| StructBits.BitsAreLeafBits | src_vwave/backend/ffr_backend.h:205-215 | the bits of any composite, packed or not, can be read exactly when every part at any depth is found and readable; they are the bits of the signals below, in order |
| StructBits.BitsAreSummedWidths | src_vwave/backend/ffr_backend.h:205-215 | when these signals read as declared, the bits of any composite are as many as they are wide together |
| StructBits.PackedWidth | src_vwave/backend/ffr_backend.h:280-298 | for a structure packed all the way down that sum is its real width |
| StructBits.PackedSelect | src_vwave/backend/ffr_backend.h:320-329 | a select of such a structure counts from the range it was given, right or not, and can be read exactly when it fits into the bits there are |
| StructBits.SelectReadableIffInside | src_vwave/backend/ffr_backend.h:320-329 | where the hash order has every packed part in place, such a select is readable exactly when both ends lie inside the real width |
| StructBits.ArraySelectReach | src_vwave/backend/ffr_backend.h:320-329 | a select of an unpacked array counts from the array's own range, but reaches as far as all elements together have bits |
| StructBits.ArraySelectCountsBits | src_vwave/backend/ffr_backend.h:81-92 | bit n of such a select is bit r of element e for n = e * width + r: indices count bits, not elements |
| ScopeTree.TreeReader.OnCallback | src_vwave/backend/ffr_backend.h:219-279 | every callback changes stacks and tables exactly as described, the early returns inside hidden scopes included |
| ScopeTree.TreeReader.AddArrayPrefixes | src_vwave/backend/ffr_backend.h:133-162 | the nodes entered for an array: one listed for one dimension, unlisted inner nodes for several, none where a range does not parse |
| ScopeTree.TreeReader.RangesIn | src_vwave/backend/ffr_backend.h:123-132 | the bracketed pieces of a name, up to an unclosed bracket |
| DeclaredNames.RangesUndoConcat | src_vwave/backend/ffr_backend.h:115-125 | a text put together from bracketed pieces is taken apart into these |
| ScopeForest.StepKeeps | src_vwave/backend/ffr_backend.h:219-279 | each callback keeps the tables a closed forest and takes nothing back that was listed or declared |
| ScopeForest.ClosedForest | src_vwave/backend/ffr_backend.h:219-279 | after any callbacks: listed children are keys of both scope tables, longer than their parent and listed once; listed signals are declared as listed and listed once |
| ScopeForest.NothingFromHiddenScope | src_vwave/backend/ffr_backend.h:226-231 | from a hidden scope nothing is listed or declared until it is closed, however deep the callbacks go |
| ScopeForest.DeclarationSurvives | src_vwave/backend/ffr_backend.h:257-277 | a variable declared outside hidden scopes is in the final table, with its own id if its name was new, and is then listed in its scope unless an unpacked array was open |
| ScopeForest.ScopeSurvives | src_vwave/backend/ffr_backend.h:221-231 | a scope opened outside hidden scopes is in both scope tables in the end, and listed under its parent if it was new |
| ScopeNesting.ScopeClosed | src_vwave/backend/ffr_backend.h:221-234 | for every balanced run of callbacks inside, closing a scope brings back the open scopes and their hidden flags |
| ScopeNesting.StructClosed | src_vwave/backend/ffr_backend.h:239-256 | likewise for structures, outside hidden scopes |
| ScopeNesting.ArrayClosed | src_vwave/backend/ffr_backend.h:235-238 | likewise for arrays |
| ScopeNesting.StacksBehind | src_vwave/backend/ffr_backend.h:219-279 | any tree of scopes, structures, arrays and variables leaves all stacks as they were, but for the structures inside hidden scopes, each of which takes one open structure away |
| ScopeNesting.StructsRestoredIff | src_vwave/backend/ffr_backend.h:239-256 | the open structures are the same behind a tree exactly when no structure lies in a hidden scope in it, or none was open |
| ScopeNesting.ParentBehind | src_vwave/backend/ffr_backend.h:157-160 | then what follows is entered under the parent from before |
| ScopeNesting.StructLost | src_vwave/backend/ffr_backend.h:240-256 | a structure in a hidden scope takes the structure around it off the stack |
| DeclaredNames.TableOfTrees | src_vwave/backend/ffr_backend.h:219-279 | the variable table behind a tree is the one before with the entries the tree declares, each under the name its place gives it, the first under a name winning |
| DeclaredNames.StructEntered | src_vwave/backend/ffr_backend.h:239-254 | a structure is entered without id or range, listed under its parent and then the parent |
| DeclaredNames.ScopeEntered | src_vwave/backend/ffr_backend.h:219-231 | a new scope is listed last under its parent, empty, and then the parent unless a structure is open |
| DeclaredNames.VariableShown | src_vwave/backend/ffr_backend.h:257-277 | a variable is shown under its own name, behind that of its structure if it is in one, and listed unless an unpacked array is open |
| DeclaredNames.ArrayEntered | src_vwave/backend/ffr_backend.h:126-142 | base[l:r] enters base with exactly this range, listed |
| DeclaredNames.InnerArrayEntered | src_vwave/backend/ffr_backend.h:143-162 | base[i][l:r] enters base[i] with exactly this range, unlisted |
| DeclaredNames.BusNameShown | src_vwave/backend/ffr_backend.h:263-266 | a bus name loses its declared range and nothing else |
| DeclaredNames.EscapedNameShown | src_vwave/backend/ffr_backend.h:261 | an escaped name ends in one blank |
| DeclaredNames.MemberIsPart | src_vwave/backend/ffr_backend.h:163-183 | what is declared inside a structure is one of the parts that the look-up finds |
| OpenedFile.OpenedTablesConsistent | src_vwave/backend/ffr_backend.h:537-540 | whatever callbacks come, in any hash order, the tables have the form the queries assume, and packed structures have no range yet |
| OpenedFile.DeclaredIsFound | src_vwave/backend/ffr_backend.h:257-277 | a visible variable with a new name is found by the queries with the id, range and encoding it was declared with, whatever callbacks follow |
| OpenedFile.OpenedPathsAnswerable | src_vwave/backend/ffr_backend.h:219-279 | after any callbacks every read of every path ends, if each bracketed element of a composite that a longer name spells has been entered too |
| OpenedFile.StrayElementNeverEnds | src_vwave/backend/ffr_backend.h:205-215 | after two callbacks that declare m[0][1] under an array m without m[0] no read of m or m[0] ends, at any time, as text or as bits |
| Glob.WildcardMatch | src_vwave/backend/backend.h:44-54 | the loop terminates, accepts only texts the pattern means, and on texts without a star accepts all of them |
| Glob.RunLoop | src_vwave/backend/backend.h:44-54 | for every text one backtracking point suffices: the loop decides exactly the relation in which a star that meets a literal star eats it |
| Glob.MissesPattern | src_vwave/backend/backend.h:47 | for every text with a star there is a pattern that means it and is missed |
| Glob.ExactIffStarFree | src_vwave/backend/backend.h:44-54 | the texts on which the matcher is right for every pattern are exactly those without a star |
| Walks.Scopes | src_vwave/backend/backend.h:73-86 | the recursive walk over a shared result agrees with its description; an unknown scope is reported |
| Walks.UnknownScopeReported | src_vwave/backend/backend.h:73-86 | exactly a named scope that is not in the tables is reported as unknown |
| Walks.ScopesIsPrefix | src_vwave/backend/backend.h:77-85 | on a scope the list is a prefix of the depth-bounded preorder, complete or at least 500 long, and at most 499 plus the depth long |
| Walks.EveryTopListed | src_vwave/backend/backend.h:81 | from the root every top scope is listed, in order, each followed by a prefix of its own preorder |
| Walks.Find | src_vwave/backend/backend.h:87-103 | signal search gives exactly the first 200 matches of the preorder walk twenty levels deep |
| Walks.SearchLimits | src_vwave/backend/backend.h:87-103 | at most 200 hits, and no scope deeper than twenty levels contributes |
| Walks.WalksAreSafe | src_vwave/backend/ffr_backend.h:543-545 | after any callbacks the walks never ask for a scope that is not in the tables |
| JsonParsing.JsonParser.Parse | src_common/json.h:95-102 | the position-and-maps parser accepts exactly the texts of the suffix reader and stores the same maps |
| JsonParsing.JsonParser.ParseStringVal | src_common/json.h:160-182 | reads a string value off the text as the suffix reader does, unterminated strings and odd escapes included |
| JsonParsing.JsonParser.ParseArray | src_common/json.h:228-240 | reads an array of strings, stopping where the source stops on malformed input |
| JsonParsing.JsonParser.SkipNestedObject | src_common/json.h:242-255 | skips a nested object, braces inside strings ignored |
| JsonParsing.JsonObject.SetArray | src_common/json.h:43-52 | appends one entry whose text is the rendering of the string array |
| JsonParsing.JsonObject.Dump | src_common/json.h:54-63 | prints all entries in order, which is the rendering of the object they came from |
| JsonStability.AcceptanceIsStable | src_common/json.h:184-226 | what is accepted stays accepted with the same maps whatever text follows it |
| JsonStability.NoStrictPrefixAccepted | src_common/json.h:184-226 | a text that is read to its end has no accepted strict prefix |
| JsonRoundTrip.AcceptedIffReadable | src_common/json.h:184-255 | a printed object is accepted exactly when its direct keys are non-empty and its direct arrays hold strings only; it is then read to the end |
| JsonRoundTrip.EveryMemberRecovered | src_common/json.h:160-255 | with distinct keys every string, integer, boolean, string array and nested object is recovered under its key and in no other map |
| JsonRoundTrip.NoOtherKeyRecovered | src_common/json.h:184-226 | no key appears that was not printed |
| JsonRoundTrip.NestedDumpRecovered | src_common/json.h:199-202 | a nested dump comes back verbatim and parses again, at any depth along any way down |
| JsonRoundTrip.PrintedObjectIsPrefixFree | src_common/json.h:184-255 | no strict prefix of a readable printed object is accepted |
| JsonLaws.EscapesPrinted | src_common/json.h:72-86 | quotes, backslashes, line ends and tabs are printed with a backslash, every other character as it is |
| JsonLaws.EscapesRead | src_common/json.h:160-182 | a backslash and n or t are read as a line end or tab, and any other character as itself |
| JsonLaws.LastMemberCounts | src_common/json.h:184-226 | when a key is repeated the value of its last member is kept |
| JsonLaws.BlanksInMember | src_common/json.h:184-226 | white space in front of a key, a colon or a value does not matter |
| JsonLaws.MembersFound | src_common/json.h:104-140 | numbers can be asked for as text and texts as the number they begin with |
| CText.StrtollSaturates | src_common/json.h:211-218 | the number reader takes the nearest 64-bit number for one that does not fit |
| CText.StrtollReadsIntText | src_common/json.h:211-218 | the number reader gives back every 64-bit integer the printer writes |
| Protocol.OkIsRendering | src_common/protocol.h:33-40 | the ok envelope is the rendering of an object with id, status and data, so the round trips apply to it |
| Protocol.ErrorIsRendering | src_common/protocol.h:42-54 | the error envelope is the rendering of an object with id, status and a nested error object |
| Transport.HexEncode | src_common/transport.h:19-28 | the encoder loop gives the prefix and two digits for each byte |
| Transport.HexDecode | src_common/transport.h:30-49 | the decoder accepts exactly plain text or an even number of hex digits behind the prefix |
| Transport.DecodeUndoesEncode | src_common/transport.h:19-49 | decoding what was encoded gives every byte string back |
| Transport.SplitCommand | src_common/lsf.h:22-43 | the loop with its quote state agrees with the fold over the characters |
| Transport.SplitUndoesJoin | src_common/lsf.h:22-43 | plain words joined by spaces come back as they were |
| Transport.SplitUndoesQuoting | src_common/lsf.h:22-43 | bare words and words between quote marks come back without the marks, whatever blanks and other marks they hold; only empty ones are lost |
| Transport.HexDigitsInEitherCase | src_common/transport.h:19-49 | digits are written in lower case and read in either |
| Transport.EncodedIsPlainWord | src_common/transport.h:19-28 | a hex payload is one plain word for the splitter |
| SessionRecords.SessionJson | src_vwave/common/session.h:88-96 | prints the session as an object of its ten members |
| SessionRecords.ParseSession | src_vwave/common/session.h:97-108 | reads a session, refusing a wrong or missing schema version |
| SessionRecords.SessionRoundTrip | src_vwave/common/session.h:88-108 | a session survives printing and parsing, whatever characters its strings hold |
| SessionRecords.SessionSurvivesCommandLine | src_common/transport.h:30-49 | the session survives hex encoding, any command line of plain words around it and splitting, and also plain transport |
| SessionRecords.DesignJson | src_vsignal/common/session.h:17-23 | prints the design session with its string array |
| SessionRecords.ParseDesign | src_vsignal/common/session.h:25-35 | reads a design session with its two error cases |
| SessionRecords.DesignRoundTrip | src_vsignal/common/session.h:17-35 | a design session survives exactly when it has a source and an argument; otherwise it is reported incomplete |
| SessionRecords.OtherVersionsRefused | src_vwave/common/session.h:97-108 | a record with another schema version, or without one, is refused whatever else it holds |
| StatusRewrite.ReplacePid | src_common/lsf.h:45-56 | the digit scan rewrites the number behind the first pid marker and nothing else |
| StatusRewrite.AddStatusFields | src_common/lsf.h:58-72 | inserts the printed members behind the first data marker |
| StatusRewrite.ReplacePidChangesOnlyPid | src_common/lsf.h:45-56 | on an ok status response whose other members are scalars only the pid member changes, even if string values contain the marker |
| StatusRewrite.AddStatusFieldsOnlyAdds | src_common/lsf.h:58-72 | on a non-empty data object the edit gives the response whose data has run mode and job members in front and is otherwise unchanged |
| StatusRewrite.StatusAddedEnvelope | src_common/lsf.h:58-72 | whatever its members, the edited response is the ok envelope around the edited data object |
| StatusRewrite.EditedDataReadableIffNonEmpty | src_common/lsf.h:70-71 | the edited data object can be parsed exactly when the original had a member; an empty one is left with a trailing comma |
| StatusRewrite.ErrorResponseUnchanged | src_common/lsf.h:45-72 | error responses pass both edits unchanged, whatever the message says |
| ClientViews.EveryViewOneLine | src_vwave/lsf_proxy.h:252-263 | whatever the request and the answer, the client gets one line |
| ClientViews.StatusViewRecovered | src_vwave/lsf_proxy.h:252-257 | from the response to a status request the parser recovers exactly the envelope and, from its data, the worker's members with the proxy's process id, the run mode and the job |
| ClientViews.OtherViewsUnchanged | src_vwave/lsf_proxy.h:252-263 | responses to other requests and errors come as the worker wrote them |
| ClientViews.AnswerRecovered | src_common/protocol.h:33-40 | from an answer the parser recovers the id, the status "ok" and the data |
| ClientViews.FailureRecovered | src_common/protocol.h:42-54 | from a failure it recovers the id, the status "error", and the code and message under their own keys |
| ClientViews.StatusFieldsAre | src_common/lsf.h:58-72 | run mode "lsf" is added, and the job id and name exactly when they are known |
| ClientViews.CommandsAre | src_vwave/lsf_proxy.h:252-263 | requests named shutdown and stdio.quit end the session, and only status is answered with the edited view |
| ClientViews.ReadyLineIs | src_vwave/lsf_proxy.h:127-130 | a message is the ready line exactly when its type and protocol say so |
| ClientViews.ReadyLineCarries | src_vwave/server/server_core.h:164-168 | the worker's first line is the ready line and carries its process id, version 1 and the backend |
| Sha256.Block | src_vwave/common/session.h:40-57 | the block function updates the hash in place as section 6.2.2 of FIPS 180-4 says |
| Sha256.FinishBuffer | src_vwave/common/session.h:67-70 | the padded rest of the message, in one block or two, length last |
| Sha256.LengthIsKept | src_vwave/common/session.h:70 | the eight length bytes denote the bit length, most significant byte first |
| Sha256.StreamIsStandard | src_vwave/common/session.h:58-71 | for every length below 2^61 bytes hashing full blocks and then the padded rest is hashing the padded message of section 5.1.1 |
| Sha256.Sha256File | src_vwave/common/session.h:25-75 | the streaming loop returns the digest of section 6.2 for every such length, and an error for a file that cannot be opened or read |
| Sha256.RoundConstants | src_vwave/common/session.h:28-36 | each round constant is the first 32 bits of the fractional part of the cube root of its prime (section 4.2.2) |
| Sha256.InitialHash | src_vwave/common/session.h:37-38 | each word of the initial hash is the first 32 bits of the fractional part of the square root of its prime (section 5.3.3) |
| Sha256Words.BigSigma0Bits | src_vwave/common/session.h:52 | bit i is on when an odd number of the bits i+2, i+13 and i+22, modulo 32, is (section 4.1.2) |
| Sha256Words.BigSigma1Bits | src_vwave/common/session.h:50 | likewise with 6, 11 and 25 |
| Sha256Words.SmallSigma0Bits | src_vwave/common/session.h:46 | likewise with 7, 18 and 3, the last one not beyond bit 31 |
| Sha256Words.SmallSigma1Bits | src_vwave/common/session.h:46 | likewise with 17, 19 and 10 |
| Sha256Words.ChBits | src_vwave/common/session.h:51 | each bit is chosen from two by the first |
| Sha256Words.MajBits | src_vwave/common/session.h:53 | each bit is that of the majority of three |
| Sha256Words.RoundUndone | src_vwave/common/session.h:49-55 | a round can be run backwards: it loses nothing of the working variables |
| Sha256Words.PaddedAsStandard | src_vwave/common/session.h:67-70 | the padded message is the message, a one bit, the least number of zeros and the length in bits, in whole blocks (section 5.1.1) |
| Sha256Words.HexWordSpells | src_vwave/common/session.h:72-74 | eight digits spell a word, most significant first |
| Framing.RenderOneLine | src_common/json.h:72-86 | a printed document never contains a line break |
| Framing.ReplyFramed | src_vwave/server/server_core.h:174-177 | every reply the worker can print is one non-empty line that is accepted and has no accepted strict prefix |
| ProxyProtocol.StepKeepsInv | src_vwave/lsf_proxy.h:135-156 | every single step of client, proxy, pipes and worker keeps the pairing invariant |
| ProxyProtocol.ReadyAligned | src_vwave/lsf_proxy.h:118-133 | the only line of the start-up stream taken for a message is the ready line, whole, however it is cut up |
| ProxyProtocol.Safety | src_vwave/lsf_proxy.h:252-264 | in every run, under any chunking, timeouts, signals and failures, the k-th delivered response is the worker's answer to the k-th request; a late or partial reply never reaches a later client |
| ProxyProcess.RemoteProcess.ReadLine | src_vwave/lsf_proxy.h:194-209 | the polling loop consumes exactly one line, a timed-out part of one, or fails beyond 4 MiB |
| ProxyProcess.WholeLineTaken | src_vwave/lsf_proxy.h:194-209 | a line of up to 4 MiB is taken when its end comes, what follows is left, and one byte more is refused |
| ProxyProcess.RemoteProcess.WriteAll | src_vwave/lsf_proxy.h:137-144 | partial and interrupted writes add up to the whole line, or a strict prefix of it was written and the call fails |
| ProxyProcess.RemoteProcess.Request | src_vwave/lsf_proxy.h:135-156 | writes the request line once and gives the outcome of waiting for a response, or one of the failures |
| ProxyProcess.RemoteProcess.WaitReady | src_vwave/lsf_proxy.h:118-133 | skips everything up to the worker's ready line and takes the process id from it |
| ProxyProcess.RemoteProcess.Dispatch | src_vwave/lsf_proxy.h:252-263 | answers a client with the edited or plain response and stops the server exactly for a shutdown request that was answered |
| ProxyRuns.LineIsMachineRun | src_vwave/lsf_proxy.h:194-209 | under any interleaving with the worker the line loop is a run of the machine and takes the same line |
| ProxyRuns.WriteIsMachineRun | src_vwave/lsf_proxy.h:137-144 | the writing loop is a run of the machine; it comes to wait exactly when the loop has written everything and stops exactly when it throws |
| ProxyRuns.ResponseIsMachineRun | src_vwave/lsf_proxy.h:145-155 | the waiting loop is a run of the machine: it delivers exactly when the loop returns a response and stops exactly when it throws |
| ProxyRuns.ReadyIsMachineRun | src_vwave/lsf_proxy.h:118-133 | waiting for the ready line is a run of the machine, idle exactly when the loop goes on |
| ProxyRuns.ServeAllIsMachineRun | src_common/server_loop.h:188-235 | serving any list of requests is a run of the machine that takes exactly these and delivers exactly the replies of the program |
| ProxyRuns.RunProxy | src_vwave/lsf_proxy.h:225-273 | the proxy from start to end: it starts exactly when the machine does; every reply shows the worker's answer to that very request; some run of the machine has dispatched what was served and delivered the replies |
| ProxyProcess.RunStdioLoop | src_vwave/server/server_core.h:162-178 | the worker prints the ready line and then one answer for each non-empty line, up to and including a shutdown |
| WorkerRuns.WorkerRunsItsLoop | src_vwave/server/server_core.h:162-178 | in every run of the machine the worker has served the whole lines it has read up to a shutdown, and what the proxy has taken, the pipe holds and the worker still has to write is the banner and what the loop prints for these lines |
| ServerLoop.ReadClientLine | src_common/server_loop.h:83-100 | the socket reader agrees with the recursive reader over the chunks |
| ServerLoop.ReadsOneLine | src_common/server_loop.h:83-100 | however the bytes are chunked it returns one line: all up to the first line end, or all there is, or at least the cap |
| ServerLoop.RequestIsLine | src_common/server_loop.h:83-100 | a request is the whole line a client sends unless it is longer than 4 MiB |
| ServerLoop.SendLine | src_common/server_loop.h:105-118 | partial and interrupted sends add up to the message and its line end, or a prefix was sent and the call fails |
| ServerLoop.EventLoop | src_common/server_loop.h:188-235 | requests are served in the order of arrival, none after a shutdown, a signal or a long idle time; the loop fails exactly at the first request that cannot be exchanged; the worker is sent exactly the served lines |
| ServerLoop.AllArriveInTime | src_common/server_loop.h:188-235 | every request line arrives as long as each turn begins less than the idle time after the last request was read |
| ServerLoop.NothingArrivesLate | src_common/server_loop.h:188-235 | the first turn that is not in time ends the loop, whatever comes behind it |
| ProxyProgress.ExchangeCompletes | src_vwave/lsf_proxy.h:135-156 | from every state that keeps the invariant and waits for a client, some run completes the exchange |
| ProxyProgress.StartupCompletes | src_vwave/lsf_proxy.h:235-247 | from the initial state some run reaches the first wait for a client |
| ProxyProgress.EveryoneCanBeServed | src_vwave/lsf_proxy.h:252-264 | for every list of requests some run answers them all, in order |

## Left out

- RangeRadix.RangeIndependentOfRadix: one direction; the exact conditions are `TotalAcrossRadices` for a range and `AlwaysSameTotalIff` for all ranges.
- Waveform.CountAgainstRange: for a range that can be read throughout; a select that fails part of the way makes both calls throw, possibly at different changes.
- Edges.ForwardEdgeIsExact: for searches that meet no unreadable change; whole digital signals never have one.
- Reading.PointQuery: for reads that end; on the others the source recurses until its stack is used up.
- WorkerRuns.WorkerRunsItsLoop: the worker of the machine waits for the end of a line; a last line without one, which the loop serves at the end of its input, is not a step of the machine.
- OpenedFile.OpenedTablesConsistent: leaves out a nameless variable at the top, which would be listed under its own name.
- Database.SortPartsInOrder: parts with equal indices keep their order here; the library sort leaves that order open.
- Radix.ProjectSlice: indices are unbounded integers; overflow of the 32-bit loop index is not modelled.
- StatusRewrite.ReplacePidChangesOnlyPid: for scalar members in front of pid; nested objects may contain the marker outside strings.
- Sha256.Sha256File: for longer files the length wraps in 64 bits as in the code, and no standard digest is defined.
- ProxyProtocol.Safety: the worker's answers are a function of the lines it has read, each an ok or an error envelope.
- ServerLoop.SendLine: a send call that reports zero bytes for ever is cut off when the calls run out.
- Real and string signal values, and the edge search of string signals: library formatting.
- CompositeEdges.CompositeEdgeIsExact: for a search that meets no unreadable value.
- Loading the vendor libraries, entry offsets, and failures inside the reader other than a failed seek.
- Sockets, select, clocks, processes, signals and run directories, beyond the steps and turns that stand for them.
- Request parameters, handlers other than the ones cited, compact name lists and the names shown for packed-struct selects.
- Diagnostics on the error stream, including the job number found there; the job number is a parameter.
- `has` and `get_bool` of the parser: single look-ups in the maps.
- Texts with a NUL character, which the matcher would cut off.
