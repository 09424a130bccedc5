# Models of the MongoDB build tooling

Dafny models of the algorithms in the Python tools under `mongodb-org-r3.4.21/buildscripts`
and `site_scons`, with proofs of what they promise.

- **Bracket matchers** (`Dyck`, `Lines`, `ForwardScan`, `BackwardScan`, `BracketTheorems`).
  cpplint matches brackets forward and backward over many lines while guessing at template
  angle brackets.  Both matchers and `_GetTextInside` are proved to compute the matching of a
  small bracket grammar over the whole text, whatever angle brackets are around, and to be
  inverse to each other.
- **Library dependencies** (`Walks`, `LibDeps`, `StableOrder`).  The memoised recursion over
  node objects with exploring flags returns exactly the reachable nodes, raises exactly on
  cycles, and its error lists a genuine cycle.
- **Deadlock search** (`Keys`, `LockGraph`, `DeadlockSearch`, `WaitsForGraph`).  The wait-for
  graph stays two-sided; the command that builds, prunes and searches it reports a deadlock
  exactly when there is one, provided the path list that the source shares between calls holds no
  key that an edge leads to.
- **Worker pool** (`WorkerPool`).  Safety, late starts and termination of `parallel_process` over
  every interleaving of its workers.
- **cpplint state machines** (`Preprocessor`, `IncludeOrder`, `Cleansing`, `Comments`,
  `StringCollapse` and `RawStrings`, whose results `StringForms` and `RawStringForms` read off the
  shape of the lines).
- **Cache, log and codes** (`CachePrune`, `LogBatches`, `ErrorCodes`).

`Options`, `Chars` and `Counting` hold what several modules share.

Methods carry the loops and the state changes of the source and are proved against functions;
the lemmas state what those functions mean.

Four properties one might expect do not hold of the code, and the exact condition is proved
instead:

- `detect_cycle` is wrong after an earlier search has found a cycle and left its path in the
  shared default list (`DetectCycle`, `SecondRunMisreports`).
- A line with a complete raw string followed by one left open keeps the complete one, because the
  pattern takes the last opening first (`OpenKeepsEarlier`, `FileKeepsEarlier`,
  `EarlierRawStringStays`).
- Lines of an `#else` branch do count when the file ends before its `#endif`
  (`AgreeExactlyWhenLive`, `UnclosedElseNotLive`).
- A successful upload after a failed one can send newer lines before older ones
  (`OrderIffOrderly`, `OrderIffNeverMixed`, `RetryMisorders`).

Where comments and code disagree the models follow the code: the raw-string syntax is in section
2.14.5 [lex.string] of ISO/IEC 14882:2011, not 2.14.15; log batches hold 2000 lines, not 100; and
include-order violations return a message, they do not raise.

`dafny verify dfyconfig.toml` checks the whole project.

## Model

| member | source | states |
|---|---|---|
| `Dyck.FindCloseIffMatched` | mongodb-org-r3.4.21/buildscripts/cpplint.py:1391-1443 | scanning forward with a plain bracket stack finds `q` exactly when the bracket pair (`p`, `q`) encloses text of the bracket grammar |
| `Dyck.FindOpenIffMatched` | mongodb-org-r3.4.21/buildscripts/cpplint.py:1516-1574 | the same for scanning backward |
| `Dyck.MatchUnique` | mongodb-org-r3.4.21/buildscripts/cpplint.py:1378-1612 | a bracket has at most one partner, in either direction |
| `ForwardScan.FindEndOfExpressionInLine` | mongodb-org-r3.4.21/buildscripts/cpplint.py:1378-1453 | the loop on one line, with its stack of brackets and tentative `<`, gives found, broken or the stack to carry on with |
| `ForwardScan.CloseExpression` | mongodb-org-r3.4.21/buildscripts/cpplint.py:1456-1497 | from `(`, `[` or `{` the answer is the place just past the match in the whole text, over any number of lines, and -1 exactly when there is none |
| `ForwardScan.EndStepPlain` | mongodb-org-r3.4.21/buildscripts/cpplint.py:1391-1450 | on a stack whose bottom is a bracket, every step (`<`, `<<`, `>`, `->`, `operator`, `;` included) is one step of plain matching |
| `ForwardScan.CloseIsMatch` | mongodb-org-r3.4.21/buildscripts/cpplint.py:1478-1497 | the angle-bracket guesses never change the answer: it is the match of the bracket grammar over the concatenated lines |
| `BackwardScan.FindStartOfExpressionInLine` | mongodb-org-r3.4.21/buildscripts/cpplint.py:1500-1574 | the backward loop on one line, including the extra character stepped over on some operators |
| `BackwardScan.FindStartStep` | mongodb-org-r3.4.21/buildscripts/cpplint.py:1516-1570 | one character of it: stepped over together with the one before, or treated as the step function says |
| `BackwardScan.SkippedIsNoBracket` | mongodb-org-r3.4.21/buildscripts/cpplint.py:1526-1537 | the character stepped over unseen is never a bracket |
| `BackwardScan.StartStepPlain` | mongodb-org-r3.4.21/buildscripts/cpplint.py:1517-1570 | on a stack whose bottom is a bracket, every step that is not a skip is one backward step of plain matching |
| `BackwardScan.ReverseCloseExpression` | mongodb-org-r3.4.21/buildscripts/cpplint.py:1577-1612 | from `)`, `]` or `}` the answer is the place of the match in the whole text, and -1 exactly when there is none |
| `BackwardScan.OpenIsMatch` | mongodb-org-r3.4.21/buildscripts/cpplint.py:1594-1612 | the backward guesses and skips never change the answer |
| `BracketTheorems.MatchedForward` | mongodb-org-r3.4.21/buildscripts/cpplint.py:1456-1497 | wherever two brackets match in the text, the forward matcher goes from one to just past the other |
| `BracketTheorems.MatchedBackward` | mongodb-org-r3.4.21/buildscripts/cpplint.py:1577-1612 | and the backward matcher from the other to the one |
| `BracketTheorems.CloseThenOpen` | mongodb-org-r3.4.21/buildscripts/cpplint.py:1456-1612 | matching forward, then backward from the bracket found, returns to the line and column of the start |
| `BracketTheorems.OpenThenClose` | mongodb-org-r3.4.21/buildscripts/cpplint.py:1577-1612 | matching backward, then forward from the bracket found, returns just past the start |
| `BracketTheorems.GetTextInside` | mongodb-org-r3.4.21/buildscripts/cpplint.py:4609-4641 | returns the text strictly between the pair that the other scanner finds on that text, and nothing exactly when that scanner finds no end |
| `BracketTheorems.FindPosition` | mongodb-org-r3.4.21/buildscripts/cpplint.py:4624-4638 | its loop, over a stack of expected closing brackets, stops just past the plain match or finds none |
| `LibDeps.GetLibdepsOf` | mongodb-org-r3.4.21/site_scons/libdeps.py:83-93 | under any exploration in progress: every cache is the exact closure of a node that hits no cycle; the flags come back as they were; the answer is the closure, or a cycle error still being collected or complete |
| `LibDeps.ComputeLibdeps` | mongodb-org-r3.4.21/site_scons/libdeps.py:95-119 | sets the flag around the exploration and clears it on both exits; a node met while flagged raises |
| `LibDeps.ExploreChildren` | mongodb-org-r3.4.21/site_scons/libdeps.py:105-116 | the loop over the direct dependencies, skipping empty ones, and the handler that puts the caller in front of an unfinished cycle |
| `LibDeps.GetLibdeps` | mongodb-org-r3.4.21/site_scons/libdeps.py:83-119 | with nothing being explored: raises exactly when the node is on or reaches a cycle, otherwise returns exactly the nodes reachable by one or more edges; all flags clear afterwards; the error lists a cycle with first equal to last, edges in between and otherwise distinct nodes |
| `LibDeps.Unwind` | mongodb-org-r3.4.21/site_scons/libdeps.py:112-115 | the cycle error as it leaves a caller stays a chain into the nodes being explored until it closes, and is then left alone |
| `LibDeps.RaiseAtExplored` | mongodb-org-r3.4.21/site_scons/libdeps.py:98-99 | a node met while it is being explored lies on a cycle |
| `Walks.ReachSetStep` | mongodb-org-r3.4.21/site_scons/libdeps.py:105-109 | what a node reaches is its direct dependencies and what they reach |
| `Walks.HitsCycleStep` | mongodb-org-r3.4.21/site_scons/libdeps.py:105-116 | a node hits a cycle exactly when one of its direct dependencies does |
| `StableOrder.SortedByStr` | mongodb-org-r3.4.21/site_scons/libdeps.py:63-71 | lists every node of the set once, ordered by name |
| `StableOrder.AtMostForm` | mongodb-org-r3.4.21/site_scons/libdeps.py:63-71 | names are compared at their first difference, a prefix coming first |
| `StableOrder.OneOrder` | mongodb-org-r3.4.21/site_scons/libdeps.py:63-71 | with different names the list does not depend on the order in which the set is visited |
| `StableOrder.TwoOrders` | mongodb-org-r3.4.21/site_scons/libdeps.py:63-71 | with two equal names it does: another list is as well ordered |
| `Keys.KeyIffSame` | mongodb-org-r3.4.21/buildscripts/gdb/mongo_lock.py:20-53 | two threads or locks share a graph key exactly when the source compares them equal |
| `Keys.KeyForm` | mongodb-org-r3.4.21/buildscripts/gdb/mongo_lock.py:31-52 | a key is the kind and the number in hexadecimal, padded to twelve digits |
| `LockGraph.WithEdgeSound` | mongodb-org-r3.4.21/buildscripts/gdb/mongo_lock.py:71-111 | an insertion adds exactly that edge and its ends, lists no successor twice and keeps the graph closed |
| `LockGraph.BuiltSound` | mongodb-org-r3.4.21/buildscripts/gdb/mongo_lock.py:233-267 | any sequence of waits gives a closed, duplicate-free graph between threads and locks with exactly the edges of the waits |
| `LockGraph.PrunedSound` | mongodb-org-r3.4.21/buildscripts/gdb/mongo_lock.py:80-95 | pruning nodes without an edge keeps every edge and the shape of the graph |
| `LockGraph.PrunedTwice` | mongodb-org-r3.4.21/buildscripts/gdb/mongo_lock.py:88-95 | pruning again changes nothing |
| `LockGraph.DeadlockAlternates` | mongodb-org-r3.4.21/buildscripts/gdb/mongo_lock.py:88-111 | every cycle of the built and pruned graph alternates threads and locks and has even length |
| `LockGraph.Graph.AddEdge` | mongodb-org-r3.4.21/buildscripts/gdb/mongo_lock.py:97-111 | the new dictionary is the old one with the edge inserted |
| `LockGraph.Graph.AddArrow` | mongodb-org-r3.4.21/buildscripts/gdb/mongo_lock.py:108-111 | a successor already listed is not listed again |
| `LockGraph.Graph.AddWait` | mongodb-org-r3.4.21/buildscripts/gdb/mongo_lock.py:233-235 | the two insertions of a holder finder extend the graph of the waits so far by one wait |
| `LockGraph.Graph.HasIncoming` | mongodb-org-r3.4.21/buildscripts/gdb/mongo_lock.py:80-86 | true exactly when some node lists the key |
| `LockGraph.Graph.RemoveNodesWithoutEdge` | mongodb-org-r3.4.21/buildscripts/gdb/mongo_lock.py:88-95 | keeps exactly the nodes that have an incoming or outgoing edge |
| `DeadlockSearch.Search.DepthFirstSearch` | mongodb-org-r3.4.21/buildscripts/gdb/mongo_lock.py:139-158 | without a report the path list is restored and every node visited and left is on no cycle; a report is the tail of the path list |
| `DeadlockSearch.Search.SearchSuccessors` | mongodb-org-r3.4.21/buildscripts/gdb/mongo_lock.py:147-154 | the loop over successors: a successor on the path list is reported, an unvisited one is searched |
| `DeadlockSearch.Search.DetectCycle` | mongodb-org-r3.4.21/buildscripts/gdb/mongo_lock.py:160-170 | reports nothing exactly when the graph has no cycle and no edge to a key that an earlier search left in the shared path list; from an empty list every report is a cycle of distinct nodes; after no report the list is as before |
| `WaitsForGraph.FindDeadlock` | mongodb-org-r3.4.21/buildscripts/gdb/mongo_lock.py:334-345 | building, pruning and searching in one run: with an empty path list the report is a deadlock among the waits that alternates threads and locks, so of even length, and nothing is reported exactly when there is none; in general nothing is reported exactly when there is no cycle and no edge to a left-over key |
| `WaitsForGraph.BuildGraph` | mongodb-org-r3.4.21/buildscripts/gdb/mongo_lock.py:334-338 | the graph searched is that of the waits, pruned |
| `WaitsForGraph.CycleIsDeadlock` | mongodb-org-r3.4.21/buildscripts/gdb/mongo_lock.py:80-111 | the cycles of the graph that is searched are exactly the cyclic waits |
| `WaitsForGraph.OneWaitAcyclic` | mongodb-org-r3.4.21/buildscripts/gdb/mongo_lock.py:233-235 | one thread waiting for a lock held by another is no deadlock |
| `WaitsForGraph.SecondRunMisreports` | mongodb-org-r3.4.21/buildscripts/gdb/mongo_lock.py:139-170 | two runs in one session: a thread waiting for its own lock is reported, and then a graph without a deadlock in which another thread waits for that lock is reported too |
| `WorkerPool.ReturnedCorrect` | mongodb-org-r3.4.21/buildscripts/clang_format.py:352-400 | under every schedule the result is true exactly when the work function is truthy on every item, and then every item was run exactly once |
| `WorkerPool.NoItemTwice` | mongodb-org-r3.4.21/buildscripts/clang_format.py:355-367 | no item is ever taken twice |
| `WorkerPool.FewLateStarts` | mongodb-org-r3.4.21/buildscripts/clang_format.py:355-375 | in every run, from any state with the event set to any later one, fewer items leave the queue than there are workers |
| `WorkerPool.NoLateStart` | mongodb-org-r3.4.21/buildscripts/clang_format.py:355-375 | a worker that is not just about to take an item when the event is set starts none afterwards; in particular none that has still to test the event, and none that set it |
| `WorkerPool.OneLateItem` | mongodb-org-r3.4.21/buildscripts/clang_format.py:355-375 | while the event is set no worker runs two different items |
| `WorkerPool.RunsEnd` | mongodb-org-r3.4.21/buildscripts/clang_format.py:355-375 | every run of steps is bounded by a measure of its first state |
| `WorkerPool.NeverStuck` | mongodb-org-r3.4.21/buildscripts/clang_format.py:382-400 | a run in which some worker has not ended can go on |
| `WorkerPool.StepInv` | mongodb-org-r3.4.21/buildscripts/clang_format.py:355-375 | every step of every worker keeps the invariant on queue, event, result and workers |
| `Preprocessor.NestingState.UpdatePreprocessor` | mongodb-org-r3.4.21/buildscripts/cpplint.py:2332-2365 | saves, restores and drops copies of the nesting stack as the directive asks |
| `Preprocessor.NestingState.ProcessFile` | mongodb-org-r3.4.21/buildscripts/cpplint.py:5914-5918 | unless the file ends inside a skipped part, the final nesting stack is that of the kept lines alone |
| `Preprocessor.DirectiveForm` | mongodb-org-r3.4.21/buildscripts/cpplint.py:2332-2351 | between optional spaces and a word boundary the word alone decides the directive |
| `Preprocessor.NoDirective` | mongodb-org-r3.4.21/buildscripts/cpplint.py:2332-2351 | a line whose first character is no `#`, or that has no word behind it, is no directive |
| `Preprocessor.SkippedBranchesDoNotCount` | mongodb-org-r3.4.21/buildscripts/cpplint.py:2311-2365 | for every file and every per-line effect, lines from the first `#else` or `#elif` up to its `#endif`, at any depth, leave no trace in the nesting stack |
| `Preprocessor.ElseRestarts` | mongodb-org-r3.4.21/buildscripts/cpplint.py:2336-2348 | in every file, every `#else` and `#elif` of a block, at any depth, hands its line the nesting stack from before the `#if` of that block |
| `Preprocessor.EndifResumes` | mongodb-org-r3.4.21/buildscripts/cpplint.py:2352-2362 | every `#endif` of a block with an `#else` hands its line the stack from before the first one |
| `Preprocessor.OthersContinue` | mongodb-org-r3.4.21/buildscripts/cpplint.py:2332-2365 | every other line goes on from the line before it, also an `#else` or `#endif` outside all blocks |
| `Preprocessor.SomeBlock` | mongodb-org-r3.4.21/buildscripts/cpplint.py:2332-2365 | inside a block there is always a line that opened it, so the three cover every line |
| `Preprocessor.WellNestedEndsLive` | mongodb-org-r3.4.21/buildscripts/cpplint.py:2321-2327 | every well-nested file meets the condition |
| `Preprocessor.AgreeExactlyWhenLive` | mongodb-org-r3.4.21/buildscripts/cpplint.py:2332-2365 | the condition is exact: a file that ends in a skipped part differs for some effect |
| `Preprocessor.UnclosedElseNotLive` | mongodb-org-r3.4.21/buildscripts/cpplint.py:2340-2351 | a file that ends after its `#else` does not meet it, whatever follows the two directives on their lines |
| `IncludeOrder.IncludeState.CheckNextIncludeOrder` | mongodb-org-r3.4.21/buildscripts/cpplint.py:698-749 | the section never goes back, a message is returned exactly for a header out of order and names the header and the group it comes after, and the last header is forgotten on a message or a new section |
| `IncludeOrder.ErrorMeaning` | mongodb-org-r3.4.21/buildscripts/cpplint.py:718-735 | a header is reported exactly when one that must follow it came earlier |
| `IncludeOrder.NoErrorsIffInOrder` | mongodb-org-r3.4.21/buildscripts/cpplint.py:698-749 | no header is reported exactly when the headers are My* C* C++* (My or Other)* |
| `StringCollapse.CollapseStrings` | mongodb-org-r3.4.21/buildscripts/cpplint.py:1311-1375 | the loop ends on every line and computes the collapsed line, whose meaning the rows below give |
| `StringCollapse.CollapseSubsequence` | mongodb-org-r3.4.21/buildscripts/cpplint.py:1330-1375 | the collapsed line is the escape-free line with characters left out |
| `StringCollapse.WithoutEscapesSubsequence` | mongodb-org-r3.4.21/buildscripts/cpplint.py:1325-1328 | removing escapes only leaves characters out; which ones, the next four rows say |
| `StringForms.SimpleEscapeRemoved` | mongodb-org-r3.4.21/buildscripts/cpplint.py:1123-1124 | a backslash goes with any of the eleven characters that make an escape with it, the two quotes and the backslash among them |
| `StringForms.DigitEscapeRemoved` | mongodb-org-r3.4.21/buildscripts/cpplint.py:1123-1124 | or with all the digits behind it |
| `StringForms.HexEscapeRemoved` | mongodb-org-r3.4.21/buildscripts/cpplint.py:1123-1124 | or with an `x` and all the hexadecimal digits behind it |
| `StringForms.BackslashStays` | mongodb-org-r3.4.21/buildscripts/cpplint.py:1123-1124 | any other backslash stays |
| `StringForms.LiteralEmptied` | mongodb-org-r3.4.21/buildscripts/cpplint.py:1325-1371 | a literal whose quotes and backslashes are escaped inside becomes empty, and the rest of the line is treated afresh |
| `StringForms.LiteralsEmptied` | mongodb-org-r3.4.21/buildscripts/cpplint.py:1311-1375 | a line of plain text and any number of such literals keeps its text and loses exactly the insides of the literals |
| `StringForms.IncludeForm` | mongodb-org-r3.4.21/buildscripts/cpplint.py:1322-1323 | `#include` with an opening and a closing bracket or quote, with spaces anywhere before them, makes an include line, which stays as it is |
| `StringForms.NotInclude` | mongodb-org-r3.4.21/buildscripts/cpplint.py:1322-1323 | no other line is an include line |
| `StringForms.NumberForm` | mongodb-org-r3.4.21/buildscripts/cpplint.py:1361 | text ends in a number exactly when its last word is a digit and hexadecimal digits, or `0x` and hexadecimal digits |
| `StringCollapse.CollapseEmpties` | mongodb-org-r3.4.21/buildscripts/cpplint.py:1330-1375 | the result is text in which every quote has its partner next to it, followed by nothing or by a tail of the line from a quote that does not come again, as it was |
| `StringCollapse.PlainStays` | mongodb-org-r3.4.21/buildscripts/cpplint.py:1336-1339 | a line without quotes stays as it is |
| `StringCollapse.LiteralLosesItsInside` | mongodb-org-r3.4.21/buildscripts/cpplint.py:1342-1371 | a literal loses its inside and nothing else, and the rest of the line is treated afresh |
| `StringCollapse.UnmatchedStays` | mongodb-org-r3.4.21/buildscripts/cpplint.py:1348-1375 | from a quote without a partner on, the line stays as it is |
| `StringCollapse.NumberLosesSeparators` | mongodb-org-r3.4.21/buildscripts/cpplint.py:1361-1364 | groups of digits, letters or underscores, of any number and length, that ticks separate in a number are joined, and the line after them is treated afresh |
| `StringCollapse.LoneSeparator` | mongodb-org-r3.4.21/buildscripts/cpplint.py:1361-1364 | a tick that no such group follows is no separator and is treated as a quote |
| `RawStrings.CleanseRawStrings` | mongodb-org-r3.4.21/buildscripts/cpplint.py:1179-1222 | the pass over the lines, with the delimiter carried from line to line; its inner loop ends; the rows of `RawStringForms` give its meaning |
| `RawStringForms.OpensHere` | mongodb-org-r3.4.21/buildscripts/cpplint.py:1202-1204 | at a word boundary each of the five prefixes, a quote, a delimiter and a bracket open a raw string, which that delimiter closes |
| `RawStringForms.OpensOnlyHere` | mongodb-org-r3.4.21/buildscripts/cpplint.py:1202-1204 | nothing else opens one |
| `RawStrings.PlainLinesStay` | mongodb-org-r3.4.21/buildscripts/cpplint.py:1179-1222 | lines without raw strings stay as they are |
| `RawStringForms.RawStringLost` | mongodb-org-r3.4.21/buildscripts/cpplint.py:1202-1212 | the last raw string of a line loses all from its prefix to the first occurrence of its own closing delimiter, and nothing else |
| `RawStringForms.RawStringWaits` | mongodb-org-r3.4.21/buildscripts/cpplint.py:1202-1216 | without that delimiter the line ends at the prefix and waits for it |
| `RawStringForms.RawStringEnds` | mongodb-org-r3.4.21/buildscripts/cpplint.py:1182-1191 | a line inside a raw string keeps its leading space and what follows the first closing delimiter, which is treated in its turn |
| `RawStringForms.RawStringOverLines` | mongodb-org-r3.4.21/buildscripts/cpplint.py:1179-1222 | a raw string over any number of lines of any file leaves the text before it, an empty literal on each of its lines, and the text behind it |
| `RawStrings.InsideLost` | mongodb-org-r3.4.21/buildscripts/cpplint.py:1182-1194 | inside a raw string a line is blank up to the first closing delimiter, and as a whole without one |
| `RawStrings.NoOpeningLeft` | mongodb-org-r3.4.21/buildscripts/cpplint.py:1198-1218 | a line after which no raw string is open holds no raw-string opening |
| `RawStrings.OpenKeepsEarlier` | mongodb-org-r3.4.21/buildscripts/cpplint.py:1198-1218 | every line that leaves a raw string open is cut at one of its openings, however many raw strings were taken out before; it still holds an opening exactly when the text before that one does |
| `RawStrings.FileKeepsEarlier` | mongodb-org-r3.4.21/buildscripts/cpplint.py:1179-1222 | the same for every file that ends in an open raw string, also when its last line resumes after a closing delimiter or lies wholly inside |
| `RawStrings.CutOpensNothing` | mongodb-org-r3.4.21/buildscripts/cpplint.py:1205-1212 | taking a raw string out never makes a new opening, not even across the cut: every opening left lies before it and was there already |
| `RawStrings.EarlierRawStringStays` | mongodb-org-r3.4.21/buildscripts/cpplint.py:1198-1218 | a family of lines where that happens |
| `RawStrings.LeadingSpaceFound` | mongodb-org-r3.4.21/buildscripts/cpplint.py:1182-1190 | the leading-space match that the code dereferences always exists |
| `RawStrings.SameLength` | mongodb-org-r3.4.21/buildscripts/cpplint.py:1179-1222 | one output line for every input line |
| `Cleansing.CleansedLines.constructor` | mongodb-org-r3.4.21/buildscripts/cpplint.py:1295-1305 | all line lists have the length of the file, line by line |
| `Comments.RemoveMultiLineComments` | mongodb-org-r3.4.21/buildscripts/cpplint.py:1253-1266 | the in-place pass blanks the blocks and reports an unclosed comment; lines are stripped of Unicode white space |
| `Comments.StripForm` | mongodb-org-r3.4.21/buildscripts/cpplint.py:1228-1239 | stripping takes away exactly the white space around the text |
| `Comments.StripParts` | mongodb-org-r3.4.21/buildscripts/cpplint.py:1228-1239 | every line is white space, its stripped text and white space |
| `Comments.StartsForm` | mongodb-org-r3.4.21/buildscripts/cpplint.py:1225-1233 | a line opens a comment exactly when its text starts with `/*` and has no `*/` from its third character on |
| `Comments.EndsForm` | mongodb-org-r3.4.21/buildscripts/cpplint.py:1236-1242 | a line ends a comment exactly when its text ends with `*/` |
| `Comments.FirstBlock` | mongodb-org-r3.4.21/buildscripts/cpplint.py:1253-1266 | the lines before the first comment stay, and it becomes `// dummy` lines from its opening line to the first that ends a comment |
| `Comments.CleanFromAt` | mongodb-org-r3.4.21/buildscripts/cpplint.py:1245-1266 | lines in a block become the dummy line, all others stay, and the count stays |
| `Comments.WholeBlocks` | mongodb-org-r3.4.21/buildscripts/cpplint.py:1225-1266 | every blanked line is in a run, blanked as a whole, from an opening line to the first ending line at or after it |
| `Comments.OpeningsBlanked` | mongodb-org-r3.4.21/buildscripts/cpplint.py:1225-1266 | an opening line is blanked exactly when a line at or after it ends a comment |
| `Comments.CleanFromReports` | mongodb-org-r3.4.21/buildscripts/cpplint.py:1260-1263 | the report names the opening line that is never ended |
| `Comments.ReportedIffUnended` | mongodb-org-r3.4.21/buildscripts/cpplint.py:1256-1266 | nothing is reported exactly when every comment opened is ended |
| `Comments.CleanedTwice` | mongodb-org-r3.4.21/buildscripts/cpplint.py:1253-1266 | a second run changes nothing, after an unclosed comment too |
| `CachePrune.SortedSound` | mongodb-org-r3.4.21/buildscripts/scons_cache_prune.py:67-68 | the sort is a permutation with the newest first |
| `CachePrune.SortedStable` | mongodb-org-r3.4.21/buildscripts/scons_cache_prune.py:67-68 | items of the same time keep the order of the listing |
| `CachePrune.BytesMeant` | mongodb-org-r3.4.21/buildscripts/scons_cache_prune.py:58-72 | a gigabyte is 2^30 bytes, and the target is the ratio of the quota |
| `CachePrune.PruneCache` | mongodb-org-r3.4.21/buildscripts/scons_cache_prune.py:54-101 | for every size and ratio, negative ones included: within quota nothing happens; otherwise the oldest go first, the total drops by exactly what was removed, one try fewer would have stayed at or over the target, and the wipe happens exactly when removing everything removable is not enough; when all is removable that is exactly when size and ratio are not of one sign |
| `CachePrune.Trim` | mongodb-org-r3.4.21/buildscripts/scons_cache_prune.py:70-98 | the loop ends whatever removals fail, with the running total equal to the initial total minus the sizes removed |
| `CachePrune.TargetReachable` | mongodb-org-r3.4.21/buildscripts/scons_cache_prune.py:62-78 | when every removal succeeds the target can be reached exactly when size and ratio are both positive or both negative |
| `LogBatches.LogAppender.Submit` | mongodb-org-r3.4.21/buildscripts/buildlogger.py:280-296 | the new buffers, and success exactly when nothing is pending |
| `LogBatches.LogAppender.Call` | mongodb-org-r3.4.21/buildscripts/buildlogger.py:271-278 | the new buffers, with the new lines below the limit |
| `LogBatches.LogAppender.Flush` | mongodb-org-r3.4.21/buildscripts/buildlogger.py:348-355 | after one try and five retries: success exactly when nothing was pending or one try was accepted, and what was delivered in which order |
| `LogBatches.NothingLost` | mongodb-org-r3.4.21/buildscripts/buildlogger.py:259-296 | over every history of calls and answers each line logged is delivered or pending, exactly once |
| `LogBatches.OrderKept` | mongodb-org-r3.4.21/buildscripts/buildlogger.py:259-296 | without a failed upload the delivered lines are the first ones logged, in order |
| `LogBatches.OrderIffOrderly` | mongodb-org-r3.4.21/buildscripts/buildlogger.py:259-296 | over every history the pending lines are the rest of the log, in log order, and the delivered ones are its beginning, in log order, exactly when at each accepted upload new and retried lines commute |
| `LogBatches.OrderIffNeverMixed` | mongodb-org-r3.4.21/buildscripts/buildlogger.py:259-296 | with entries that differ: exactly when no accepted upload found new lines beside lines to be retried |
| `LogBatches.RetryMisorders` | mongodb-org-r3.4.21/buildscripts/buildlogger.py:280-296 | a line, a failed upload, a line and an accepted upload deliver the second line first |
| `LogBatches.BufferBounded` | mongodb-org-r3.4.21/buildscripts/buildlogger.py:271-278 | with a positive limit the new lines stay below it |
| `LogBatches.UploadsWhenDue` | mongodb-org-r3.4.21/buildscripts/buildlogger.py:271-278 | over every history a call uploads exactly when its line fills the batch or the last upload, accepted or not, is too long ago; otherwise it only keeps the line |
| `ErrorCodes.Report.ReadErrorCodes` | mongodb-org-r3.4.21/buildscripts/errorcodes.py:131-169 | the errors are the uses of repeated codes, each as often as found, and the first zero code; there are none exactly when all codes differ and none is "0" |
| `ErrorCodes.ErrorsAre` | mongodb-org-r3.4.21/buildscripts/errorcodes.py:140-153 | the duplicate bookkeeping lists every use of a repeated code, the first one included |
| `ErrorCodes.GetLineForPosition` | mongodb-org-r3.4.21/buildscripts/errorcodes.py:82-101 | the line that holds the position; one past the last line exactly at or beyond the end of the text |
| `ErrorCodes.Report.GetNextCode` | mongodb-org-r3.4.21/buildscripts/errorcodes.py:110-121 | reads the codes exactly when none are known; the answer exceeds every code and the highest by one; fails exactly with fewer than two codes |
| `ErrorCodes.HighestPlusOne` | mongodb-org-r3.4.21/buildscripts/errorcodes.py:119-121 | the fold over the codes finds the number just above the highest |
| `ErrorCodes.DecimalOfDigits` | mongodb-org-r3.4.21/buildscripts/errorcodes.py:119 | reading a printed number gives the number |
| `ErrorCodes.LeadingZero` | mongodb-org-r3.4.21/buildscripts/errorcodes.py:119 | leading zeros do not count |

## Left out

- The style rules of cpplint (`Check*`): regular-expression heuristics without a specification beyond themselves.
- The class, namespace and access regular expressions of `NestingState.Update`, `InTemplateArgumentList` and `previous_stack_top`: the effect of a line on the nesting stack is an arbitrary function of the line and the stack. Copies of the stack are values, as the deep copies of the source make them.
- Success results of the bracket matchers when they start at `<` or `>`: documented guesses. They are modelled, but only their effect on the other brackets is proved.
- Lines that contain a newline character: the models of `_CollapseStrings` and `CleanseRawStrings` take lines as the source splits them, without one.
- `CleanseComments` is an arbitrary function in `Cleansing`; the alphabetical order of includes and `include_list` are not modelled.
- Exceptions in the work function of `parallel_process`, which end a worker without a result, and keyboard interrupts. `buildscripts/eslint.py` has the same pool and is covered by the same model.
- SCons plumbing around the dependency closure (emitters, scanners, `SYSLIBDEPS`): direct dependencies are given, already flattened, and do not change between queries.
- gdb memory inspection: the waits that the holder finders read are an input. Thread ids and lock addresses are non-negative.
- Directory listing, file removal, clocks and HTTP uploads are inputs. The pruning target is a real number, so floating-point rounding of quota times ratio is not modelled.
- The `finish_test` retry loop (its guard `tries > 5` never holds), `replaceBadCodes` and the message extraction of errorcodes.py.
- The packaging, test-running and archive scripts, and the server itself, whose C++ source is not part of this model.
