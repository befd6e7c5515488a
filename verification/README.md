# ns-3 tooling, verified

A Dafny model of the algorithms in ns-3's own tooling and of a few self-contained loops in its examples, with
proofs of what they promise. `dafny verify dfyconfig.toml` checks everything.

| file | models |
|---|---|
| `Sequences.dfy` | sequences of distinct items |
| `Digraph.dfy` | walks, elementary cycles, and what any peeling of a graph leaves over |
| `TopSort.dfy`, `TopSortLevels.dfy` | topological sorting of (parent, child) pairs, flat and level by level |
| `Rotation.dfy`, `FindCycles.dfy` | comparison up to rotation, and the enumeration of all elementary cycles with a stack of paths |
| `ModuleScan.dfy` | module dependencies to section precedences |
| `TestRunner.dfy` | the test runner: main, N workers, two queues, break sentinels and an interrupt, as a step relation |
| `TestOutcome.dfy` | how each result of a run came about: taken, decided on, run, reported |
| `TestReport.dfy` | its counters, name lists and exit code |
| `Gather.dfy`, `GatherEdges.dfy`, `GatherRecords.dfy` | the search for configuration paths over the type registry, the edges it follows, and when its records repeat |
| `PatchText.dfy`, `PatchObjects.dfy` | patches as values and as shared objects, their parser and printer |
| `PatchGrammar.dfy` | what the parser accepts and keeps, said by the characters of the lines |
| `Whitespace.dfy`, `PassRoundTrip.dfy` | the pass that undoes trailing-blank changes, and when its result can be printed and parsed |
| `Permutations.dfy`, `BinaryCodes.dfy` | permutations, binary counting, Gray code |
| `TxStream.dfy` | the resumable writer of the large transfer |
| `EventLoop.dfy` | the batched event loop over any simulation, and the self-rescheduling benchmark |
| `Fairness.dfy` | the arithmetic of Jain's index |

Three statements carry most of the work. For every finite graph and every dictionary order, `find_cycles` lists
each elementary cycle exactly once up to rotation, although it skips roots it has visited. Under every interleaving
and an interrupt at any moment, the test runner loses and duplicates no job, cannot get stuck while it has a worker,
and reports exit code 0 exactly when every test not to be skipped was run and returned 0 and no other was interrupted. And `DoGather` reports each simple path of an
arbitrary labelled multigraph exactly once, in preorder.

How the source is read:

- The Python code is Python 2 in places (`has_key`, `raise StopIteration` in a generator) and is modelled as intended:
  dictionaries are maps whose keys may come in any order, a generator is the sequence of what it yields.
- Python and C++ integers that cannot overflow here are unbounded; where width matters (`Fairness`) the
  wrap-around is written out.
- Exceptions are result values: `CycleError`, `IndexError`, `None` of the parser, `Err` of `int2bin`.
- In the test runner each access to a queue, to the interrupt flag or to a worker's job is one atomic step; running a
  test is an arbitrary return code; a job's `id` stands for object identity.
- In the patch model every object carries, as a ghost, the place it was created for. `None` covers an unknown line and a
  line that needs a patch or chunk before there is one. As in the code, the current chunk outlives the patch it is in.

Where code and comments or expectations part:

- The comments at `bindings/python/topsort.py` lines 109 and 227 say every leftover has a child. It has a leftover parent;
  a leftover without a child is given.
- `test.py` accepts a negative `--jobs`, starts no worker, and then waits for ever if there is anything to run.
- Printing and parsing a patch do not undo each other for a removed text that starts with `-- ` or an added one that
  starts with `++ `. The whitespace pass creates such a text exactly where a pair reads `++ ` next to the added text `++`.
- The whitespace pass changes the source side when the line it appends to is a context line.
- `int2bin` with n = 0 refuses nothing, `binary_range(0)` is empty, `gray_encode` gives i and -1-i the same code.
- `Uniquefy` in `utils/print-introspected-doxygen.cc` takes its argument by value and changes nothing, so no uniqueness
  of the records is claimed, only of the paths behind them. The aggregation registered twice does repeat a record;
  when records repeat is proved for readable labels.
- Modules whose names differ only in `-` and `_` share a section, and a dependency between them then has no precedence.
- A non-positive batch size other than -1 makes the batched event loop spin while events are pending.

## Model

| member | source | states |
|---|---|---|
| `Digraph.PeelingIsExact` | bindings/python/topsort.py:93-112 | However the elements were taken out, if every element taken had all its parents taken before and every leftover has a leftover parent, then the leftovers are exactly the elements on or downstream of a cycle, and none of them was taken |
| `Digraph.StuckIffCyclic` | bindings/python/topsort.py:108-112 | Something is on or below a cycle exactly when the graph has an elementary cycle, self-pairs included |
| `Digraph.TrappedIsBelowCycle` | bindings/python/topsort.py:108-112 | An element that can always step back to a parent within a finite leftover set lies on or below a cycle |
| `Digraph.OrderedIsFree` | bindings/python/topsort.py:93-107 | Nothing that appears in a parents-first order is on or below a cycle |
| `TopSort.CountParents` | bindings/python/topsort.py:77-90 | Counting over any pair list, repeats included: the counts cover exactly the elements of the pairs and each is the number of listed edges into its element; the children lists keep pair order and hold exactly the edges of the pairs |
| `TopSort.DropParent` | bindings/python/topsort.py:97-107 | Deleting a parent takes away one incoming edge of x for every time that parent lists x |
| `TopSort.KnockDown` | bindings/python/topsort.py:100-103 | Each child's count falls by the number of times it is listed; the answer grows by exactly the children that reach zero, each once |
| `TopSort.StepInv` | bindings/python/topsort.py:97-107 | One turn of the loop over the growing answer keeps its invariant: counts exact for the parents not yet taken, zero exactly for what waits in the answer, the answer duplicate-free and parents first |
| `TopSort.TopSort` | bindings/python/topsort.py:61-112 | For every pair list and every dictionary order: the answer lists each element that is not on or below a cycle once, parents before children; CycleError is raised exactly when the graph has a cycle, and then carries exactly the elements on or below a cycle, each with a leftover parent, with exact counts and children lists |
| `TopSort.AnswerRespectsPairs` | bindings/python/topsort.py:61-75 | In a complete answer the parent of every pair stands before its child |
| `TopSort.ExactLeftovers` | bindings/python/topsort.py:108-112 | The leftovers of a peeling are the stuck elements, the answer is all the others, and there are leftovers exactly when there is a cycle |
| `TopSort.LeftoverWithoutChild` | bindings/python/topsort.py:108-112 | The remark at line 109 that every leftover has a child is false: with the pairs (1, 1) and (1, 2), the element 2 is left over and has none |
| `TopSort.LeftoversHaveChildrenIff` | bindings/python/topsort.py:108-112 | Every leftover has a child exactly when no element that is nobody's parent is on or below a cycle |
| `TopSortLevels.LevelIsLongestChain` | bindings/python/topsort.py:203-224 | An element is in level k exactly when the longest chain of parents that ends in it has k edges |
| `TopSortLevels.LevelsAreExact` | bindings/python/topsort.py:226-232 | What the levels leave over is exactly what lies on or below a cycle, the same set topsort leaves |
| `TopSortLevels.TakeLevel` | bindings/python/topsort.py:214-224 | Deleting a level keeps the counts exact for the remaining graph and shrinks it |
| `TopSortLevels.TopSortLevelsCore` | bindings/python/topsort.py:174-232 | Levels are non-empty and share nothing; level membership is longest-chain length; every element of a level has its parents in earlier levels, one of them in the level just before; the leftovers are exactly the elements on or below a cycle and exist exactly when there is a cycle |
| `TopSortLevels.TopSortLevels` | bindings/python/topsort.py:114-172 | The same for an arbitrary pair list |
| `Rotation.IsRotated` | bindings/python/rad_util.py:735-775 | True exactly when the second sequence is a rotation of the first; the look-up of the head item fails exactly on two empty sequences |
| `Rotation.RotatedSym` | bindings/python/rad_util.py:735-775 | Being a rotation is symmetric |
| `Rotation.RotatedTrans` | bindings/python/rad_util.py:735-775 | Being a rotation is transitive |
| `FindCycles.FindCycles` | bindings/python/topsort.py:235-385 | For every finite graph and key order: only elementary cycles are listed, no two are rotations of each other, and every elementary cycle is listed up to rotation |
| `FindCycles.SearchFrom` | bindings/python/topsort.py:351-385 | Searching a root that was not visited leaves every cycle reachable from it, and from everything marked visited, in the list; this is why visited roots can be skipped |
| `FindCycles.Expand` | bindings/python/topsort.py:362-385 | One popped path: a child on the path closes an elementary cycle that is added unless a rotation is listed; every other child extends the path and is marked visited |
| `FindCycles.IsDuplicate` | bindings/python/topsort.py:371-375 | The duplicate flag is set exactly when the cycle or a rotation of it is already listed |
| `FindCycles.Approach` | bindings/python/topsort.py:351-385 | A walk into a cycle can be made simple and to meet the cycle only at its end |
| `FindCycles.CycleIsListed` | bindings/python/topsort.py:351-385 | Once the stack is empty every elementary cycle that a walk from the root can enter is listed |
| `FindCycles.ExtendCovered` | bindings/python/topsort.py:355-385 | Replacing the popped path by its extensions loses no simple walk from the root: each is settled or grows out of a stacked path |
| `FindCycles.PopStep` | bindings/python/topsort.py:355-385 | A pop keeps all stacked paths simple walks from the root, keeps the search complete, and lowers the load |
| `FindCycles.PopLowersLoad` | bindings/python/topsort.py:355-385 | With n nodes and at most d children each, the sum of (d+1)^(n-length) over the stack strictly falls at each pop, repeated children included |
| `FindCycles.SortAndEnumerate` | bindings/python/topsort.py:108-112 | On the same pairs both sorters fail exactly when the enumerator lists a cycle, and both leave over exactly the elements to which a walk leads from a listed cycle |
| `ModuleScan.BuildGraph` | bindings/python/ns3modulescan.py:274-282 | The pairs are exactly (dependency, module) for every dependency of every module |
| `ModuleScan.AssignPrecedences` | bindings/python/ns3modulescan.py:287-295 | Each section gets the last place in the order of a module with that section name |
| `ModuleScan.SectionNameIs` | bindings/python/ns3modulescan.py:289 | The section name is "ns3_module_" and then, position by position, the module name with '_' for '-' |
| `ModuleScan.ScanModules` | bindings/python/ns3modulescan.py:274-295 | The scan fails with a cycle exactly when the dependencies are cyclic and with an unknown module exactly when an acyclic graph names one that is not in the dictionary; otherwise the order holds each module that has or is a dependency once, dependencies first |
| `ModuleScan.PrecedenceIsPlaceIff` | bindings/python/ns3modulescan.py:287-295 | Each module's precedence is its own place in the order exactly when no two section names collide |
| `ModuleScan.SectionsCollideIff` | bindings/python/ns3modulescan.py:289 | Two modules get the same section name exactly when their names have the same length and differ only where both have '-' or '_' |
| `ModuleScan.DistinctSectionsIff` | bindings/python/ns3modulescan.py:289 | Section names are distinct exactly when no two module names agree up to '-' and '_' |
| `ModuleScan.DependenciesPrecede` | bindings/python/ns3modulescan.py:274-295 | With distinct section names every module's section has a greater precedence than each of its dependencies' |
| `ModuleScan.PrecedesIff` | bindings/python/ns3modulescan.py:287-295 | For any two modules of the order, one has the smaller precedence exactly when some module with the other's section name follows every module with its own |
| `ModuleScan.CollisionLosesOrder` | bindings/python/ns3modulescan.py:287-295 | Module a_b depending on a-b: a correct order in which the two share one section, so neither precedes |
| `TestRunner.StepInv` | test.py:965-1033 | Every step of main, of a worker or of the interrupt keeps the runner's invariant |
| `TestRunner.ReachableInv` | test.py:965-1033 | The invariant holds in every state any interleaving can reach |
| `TestRunner.ExactlyOnePlace` | test.py:1457 | In every reachable state each dispatched job is in exactly one of input queue, a worker's hands, output queue or collected results, and an undispatched one is nowhere |
| `TestRunner.SentinelsTakenLast` | test.py:1664-1667 | A worker takes a break sentinel only when no real job is queued and none will be |
| `TestRunner.SentinelGetsCount` | test.py:965-973 | At every point of every run a worker has taken one sentinel if it is leaving or gone, and none otherwise |
| `TestRunner.OneSentinelEach` | test.py:1664-1667 | In a finished run every worker took exactly one sentinel |
| `TestRunner.JoinPhase` | test.py:1825-1826 | From the first join on, all results are in, the output queue is empty and only sentinels are queued, one for each worker yet to take its own; at the end both queues are empty and every worker has returned |
| `TestRunner.UnmarkedStep` | test.py:569-574 | A decision to run or report a job is never undone, and after the interrupt flag is set none is made |
| `TestRunner.InterruptFreezesResults` | test.py:975-1033 | The jobs that come back not marked as break are exactly those decided on before the interrupt was seen; all others come back as breaks |
| `TestRunner.NeverStuck` | test.py:1686-1689 | With a worker, or with nothing to run, some thread can step in every reachable unfinished state |
| `TestRunner.StuckWithoutWorkers` | test.py:1392-1406 | Without workers (a negative --jobs) and with something to run, main waits for ever |
| `TestRunner.ProgressIffWorkers` | test.py:1392-1406 | The runner can always go on exactly when it has a worker or has no job |
| `TestRunner.StepLowersRank` | test.py:965-1033 | Every step lowers a natural-number rank, apart from a repeated interrupt, which changes nothing |
| `TestRunner.RunIsBounded` | test.py:965-1033 | Steps taken plus rank left never exceed the initial rank |
| `TestRunner.EveryRunFinishes` | test.py:1664-1689 | A run has at most 6*jobs + 4*workers + 5 effective steps; where no thread can step, main is done, exactly `jobs` results were collected, both queues are empty and all workers have returned |
| `TestReport.TallyResults` | test.py:1679-1720 | Over the fields of the results: passed, failed, valgrind and crashed are the numbers of unmarked, unskipped results with return code 0, 1, 2 and any other; skipped that of unmarked skipped ones; with the marked ones they add up to all results; each list holds the display names at exactly those positions in order, a skipped name followed by its reason in brackets |
| `TestReport.ExitZero` | test.py:1909-1912 | The exit code is 0 when no result is marked and each was skipped or returned 0, and 1 otherwise |
| `TestOutcome.EachCameBackOnce` | test.py:1686-1689 | At the end each dispatched job has exactly one result, for the same test |
| `TestOutcome.ResultIsRun` | test.py:965-1033 | In every finished run a result is neither marked nor skipped exactly when some worker finished running its test; there is one such step, and the result is the dispatched job with the return code of that run; a result is marked exactly when a worker saw the interrupt before starting on it; a marked or skipped one is otherwise as dispatched |
| `TestOutcome.CollectedIffEmitted` | test.py:965-1033 | A job was collected exactly when some step made it ready to be reported, and one step only |
| `TestOutcome.TakenInOrder` | test.py:1664-1667 | At every point of every run the jobs taken by workers and then those still queued are the tests in dispatch order followed by the breaks |
| `TestOutcome.CollectedInOrder` | test.py:1686-1687 | At every point of every run the results collected and then those still queued are the jobs in the order the workers put them |
| `TestReport.FinalReport` | test.py:1909-1912 | For every finished run there are as many results as jobs dispatched, and the exit code is 0 when every test not to be skipped has a step that finishes running it with return code 0 and every one to be skipped came back unmarked, and 1 otherwise |
| `Gather.StaticInformation.GetCurrentPath` | utils/print-introspected-doxygen.cc:329-338 | The stacked labels, each after a slash |
| `Gather.StaticInformation.HasAlreadyBeenProcessed` | utils/print-introspected-doxygen.cc:350-361 | True exactly when the type is on the stack |
| `Gather.StaticInformation.RecordOutput` | utils/print-introspected-doxygen.cc:342-346 | Appends one record with the current path |
| `Gather.StaticInformation.DoGather` | utils/print-introspected-doxygen.cc:421-503 | Terminates on every finite net, cyclic ones included, restores both stacks, and appends one record for each path found from the type, spelled from the current path |
| `Gather.StaticInformation.Gather` | utils/print-introspected-doxygen.cc:412-417 | The new records are those of the simple edge-paths from the type, each once and in preorder |
| `Gather.StaticInformation.Get` | utils/print-introspected-doxygen.cc:365-377 | The recorded paths of one type in recording order |
| `Gather.FoundExactly` | utils/print-introspected-doxygen.cc:421-503 | A path is found exactly when it follows existing edges and visits no type twice and none already on the stack |
| `Gather.FoundOnce` | utils/print-introspected-doxygen.cc:421-503 | The paths found are in preorder, pairwise different, and exactly the simple ones |
| `Gather.FoundPreorder` | utils/print-introspected-doxygen.cc:421-503 | A path comes before its extensions and before what lies behind a later edge |
| `Gather.RenderStep` | utils/print-introspected-doxygen.cc:433-452 | Gathering behind the next edge adds exactly that edge's paths, spelled with its label in front |
| `Gather.SeenShrinks` | utils/print-introspected-doxygen.cc:421-431 | Pushing a type that was not on the stack shrinks the set of types still allowed, the measure of the recursion |
| `Gather.GatheredPaths` | utils/print-introspected-doxygen.cc:365-377 | After gathering from one type, the paths of a type are exactly the spellings of the simple edge-paths that end in it |
| `GatherEdges.EdgesExactly` | utils/print-introspected-doxygen.cc:429-502 | The edges followed out of a type, with order and multiplicity: one for each attribute that is a container (name and "/[i]") or a pointer to anything but Object (name), in attribute order; one for each registered type with it among its ancestors ("$" and name), by registration; one for each recorded aggregation with it on one side ("$" and the other's name), as recorded |
| `GatherEdges.EdgeIff` | utils/print-introspected-doxygen.cc:429-502 | An edge with a given label and target exists exactly when the net has such an attribute, descendant or aggregation |
| `GatherRecords.PathsInOrder` | utils/print-introspected-doxygen.cc:365-377 | The paths reported for a type are those of its records, all of them and in recording order |
| `GatherRecords.RecordsDistinctIff` | utils/print-introspected-doxygen.cc:342-346 | Where no label out of a type continues another at a slash and equal labels lead to the same type, the records are pairwise different if and only if no path the search follows goes on by two edges with the same label |
| `GatherRecords.UnambiguousRecords` | utils/print-introspected-doxygen.cc:329-346 | With readable labels and no such fork even the path strings are pairwise different |
| `GatherRecords.SameSpellingForks` | utils/print-introspected-doxygen.cc:329-338 | Two different simple paths with the same spelling part at two edges with the same label |
| `GatherRecords.AggregatedTwice` | utils/print-introspected-doxygen.cc:482-502 | An aggregation recorded twice gives a record twice whenever the search starts at its first type, in any net |
| `GatherRecords.RepeatedRecord` | utils/print-introspected-doxygen.cc:537-539 | The double registration in the source: Node with Icmpv4L4Protocol recorded twice gives a repeated record |
| `PatchObjects.ParsePatchset` | utils/check-style.py:367-411 | Succeeds exactly when the value parser does; the objects made are all new, no two places share one, and they hold exactly the parsed patches |
| `PatchObjects.AddText` | utils/check-style.py:392-409 | A text line adds one new line object to the current chunk and changes nothing else, whichever patch the current chunk belongs to |
| `PatchObjects.StartChunk` | utils/check-style.py:387-391 | A header adds one empty chunk to the last patch and makes it current |
| `PatchObjects.PatchChunk.OneSide` | utils/check-style.py:263-282 | The line objects on one side, all of them and in order, each the object itself |
| `PatchObjects.WriteChunk` | utils/check-style.py:295-304 | Writes the header with the line counts of the two sides and then every line |
| `PatchObjects.WritePatch` | utils/check-style.py:356-365 | Writes the printed form of the patch |
| `PatchText.HeaderRoundTrip` | utils/check-style.py:295-302 | The printed header reads back as the positions and the numbers of source and destination lines that follow |
| `PatchGrammar.ValueOfConcat` | utils/check-style.py:247-248 | Numbers are read by place value: a digit string counts ten times as much for each digit that follows it |
| `PatchGrammar.DigitValue` | utils/check-style.py:247-248 | A single digit has its own value |
| `PatchGrammar.DecimalShape` | utils/check-style.py:301-302 | A number is written without a leading zero, and with k digits exactly when 10^(k-1) <= n < 10^k |
| `PatchGrammar.DecimalUnique` | utils/check-style.py:301-302 | A digit string without a leading zero is the written form of its value |
| `PatchGrammar.HeaderIff` | utils/check-style.py:370 | A line starts a chunk exactly when it is "@@ -", digits, ",", digits, " +", digits, ",", digits, " @@" and anything; the four numbers are read in that order |
| `PatchGrammar.CapturedIff` | utils/check-style.py:368-373 | A pattern of a prefix and the rest of the line matches exactly the prefix, the captured text without newline, and at most one newline at the end |
| `PatchGrammar.ClassifyIff` | utils/check-style.py:376-410 | What each line is taken for, by its characters: file names, header, removed, added or common text; a removed text never starts with "-- " and an added one never with "++ " |
| `PatchGrammar.AcceptedIff` | utils/check-style.py:376-411 | Input is accepted exactly when every line is of a known kind, every destination name and header has a source name somewhere before it, and every text line a header |
| `PatchGrammar.ParsedChunks` | utils/check-style.py:376-411 | The chunks of all patches in order are the headers, each with the text lines between it and the next header, and there is one patch for each source name, in order |
| `PatchText.SideLengths` | utils/check-style.py:283-294 | The header counts are the lengths of the two sides |
| `PatchText.SidesAreComplete` | utils/check-style.py:263-282 | A position is on a side exactly when the line there is of that side |
| `PatchText.ClassifyText` | utils/check-style.py:214-227 | A printed line is read back as itself exactly when it is not disguised as a file header |
| `PatchText.ReadPatches` | utils/check-style.py:367-411 | Printing any patches without disguised lines and parsing them, from any parser state, appends exactly those patches |
| `PatchText.ParseTotal` | utils/check-style.py:392-410 | The parser keeps exactly as many lines as it classifies as text |
| `PatchText.RoundTripIff` | utils/check-style.py:356-411 | Parsing what was printed gives the same patches if and only if no removed text starts with "-- " and no added text starts with "++ " |
| `PatchText.ParseFit` | utils/check-style.py:367-411 | Every parser result is fit for the round trip |
| `PatchText.ParsePrintParse` | utils/check-style.py:356-411 | Whatever the parser accepts, printing its result and parsing again gives the same result |
| `PatchText.DisguisedLineIsLost` | utils/check-style.py:214-227 | A patch whose round trip fails: the removed text "-- a" comes back as a file header |
| `Whitespace.RemoveTrailingWhitespaceChanges` | utils/check-style.py:413-429 | The parser's own objects end up holding the parsed patches with every chunk fixed in order until one runs out of destination lines; that one is fixed as far as it goes and all later chunks are untouched; it fails exactly when parsing does |
| `Whitespace.FixOneChunk` | utils/check-style.py:417-428 | Appending through the shared line objects leaves the chunk as the specification says, and the pass goes on exactly when no destination line was missing |
| `Whitespace.FixAt` | utils/check-style.py:417-428 | Fixing one chunk changes no other chunk of the patchset |
| `Whitespace.ShapeKept` | utils/check-style.py:413-429 | File names, chunk counts, positions, line counts and kinds stay, no text gains more than one blank or tab, header counts stay, and a chunk after the early return is untouched |
| `Whitespace.FixedTouches` | utils/check-style.py:421-426 | Only lines on the destination side are touched, each at most once |
| `Whitespace.MatchIff` | utils/check-style.py:414-425 | The pattern matches the source text with the destination text as its first group exactly when the source text is the destination text and one space or tab |
| `Whitespace.SourceUnchangedIff` | utils/check-style.py:421-426 | The source side is unchanged exactly when no pair has, as its destination line, a context line one blank short of its source partner |
| `Whitespace.EditedEqualsPartner` | utils/check-style.py:421-426 | With no such context line, every edited destination line equals its source partner and every other one is left alone |
| `PassRoundTrip.PartnerTextIsRead` | utils/check-style.py:421-426 | The text the loop reads from a source line, over the original lines: the line's own, or, for a context line that an earlier pair lengthened, the text that pair read |
| `PassRoundTrip.PartnerTextIsOriginal` | utils/check-style.py:421-426 | Where no context line is lengthened it is the original text |
| `PassRoundTrip.EditedEqualsRead` | utils/check-style.py:421-426 | For every chunk, each destination line of a pair ends as the text its pair read, if that is one blank longer, and otherwise as it was |
| `PassRoundTrip.ReadsSpacedIff` | utils/check-style.py:421-426 | A pair reads "++ " exactly when that is the source line's own text and it was not lengthened, or the source line is "++" and an earlier pair reading "++ " had it as its destination |
| `PassRoundTrip.ChunkStaysPlainIff` | utils/check-style.py:421-426 | The pass keeps a chunk without disguised lines free of them if and only if no pair has the added line "++" as its destination and reads "++ " |
| `PassRoundTrip.PassStaysFit` | utils/check-style.py:413-429 | The pass brings in no newline, and leaves a patchset without disguised lines exactly when no chunk it reaches has such a pair |
| `PassRoundTrip.PassRoundTripIff` | utils/check-style.py:356-429 | After the pass, printing and parsing give the same patches if and only if no chunk that the pass reaches has such a pair |
| `PassRoundTrip.FilterRoundTripIff` | utils/check-style.py:367-429 | The same for every input that the parser accepts |
| `PassRoundTrip.PassLosesPatch` | utils/check-style.py:413-429 | An accepted five-line input whose patch, after the pass, does not survive printing and parsing |
| `Permutations.AllPermutations` | bindings/python/rad_util.py:293-326 | n! lists, exactly the rearrangements of the input, pairwise different exactly when the items are |
| `Permutations.OrdersAreRearrangements` | bindings/python/rad_util.py:309-326 | A list is among the orders exactly when it is a rearrangement of the input |
| `Permutations.OrdersCount` | bindings/python/rad_util.py:309-326 | A list of n items has n! orders |
| `Permutations.OrdersAt` | bindings/python/rad_util.py:311-322 | The list runs through the orders of all but the first item, each with the first item put in at every position in turn |
| `Permutations.DistinctIff` | bindings/python/rad_util.py:309-326 | The orders are pairwise different exactly when the items are |
| `BinaryCodes.Int2BinIff` | bindings/python/rad_util.py:74-105 | For n >= 1 and i >= 0: n binary digits of value i exactly when i < 2^n, an error otherwise |
| `BinaryCodes.Int2BinZeroWidth` | bindings/python/rad_util.py:74-105 | With n = 0 nothing is refused: the whole hexadecimal expansion comes back |
| `BinaryCodes.Int2BinInvertsBin2Int` | bindings/python/rad_util.py:74-130 | For n >= 1, int2bin of i at width n is a given string exactly when that string has n binary digits and bin2int maps it to i |
| `BinaryCodes.Bin2IntInjective` | bindings/python/rad_util.py:108-130 | Two binary strings of the same length with the same value are equal |
| `BinaryCodes.Increment` | bindings/python/rad_util.py:645-658 | One ripple adds one, or returns to zero and reports the overflow at the largest value |
| `BinaryCodes.BinaryRange` | bindings/python/rad_util.py:632-660 | The int2bin strings of 0 .. 2^n-1 in order; for n = 0 an empty list |
| `BinaryCodes.GrayRoundTrip` | bindings/python/rad_util.py:612-615 | Decoding inverts encoding on the natural numbers |
| `BinaryCodes.GrayBits` | bindings/python/rad_util.py:612-615 | Each binary digit of the code says whether that digit of the number differs from the next higher one |
| `BinaryCodes.GrayOnto` | bindings/python/rad_util.py:612-615 | Encoding inverts decoding, so every natural number is a code |
| `BinaryCodes.GrayEqualIff` | bindings/python/rad_util.py:612-615 | Over all integers two codes agree exactly for equal or complementary numbers |
| `BinaryCodes.GrayRange` | bindings/python/rad_util.py:612-615 | A code is below 2^n exactly when its number is |
| `BinaryCodes.GrayNeighbours` | bindings/python/rad_util.py:612-615 | The codes of neighbours differ in exactly one bit, except those of -1 and 0 |
| `BinaryCodes.LsbIsRemainder` | bindings/python/rad_util.py:602-609 | The n least significant bits are the remainder modulo 2^n, also of a negative number |
| `TxStream.BufferContinuesStream` | examples/tcp/tcp-large-transfer.cc:46-53 | The buffer is a whole number of alphabets, so reading it from the current offset continues the stream |
| `TxStream.StreamIsAlphabet` | examples/tcp/tcp-large-transfer.cc:82-86 | The stream is the alphabet a to z over and over |
| `TxStream.WriteExtendsStream` | examples/tcp/tcp-large-transfer.cc:198-213 | Accepting any part of the offered piece turns a prefix of the stream into a longer prefix |
| `TxStream.Sender.constructor` | examples/tcp/tcp-large-transfer.cc:82-86 | The buffer holds the repeating alphabet |
| `TxStream.Sender.WriteUntilBufferFull` | examples/tcp/tcp-large-transfer.cc:198-219 | Whatever the socket answers, the accepted bytes stay a prefix of the stream and within the total; the writer gives up only on a refusal or a full buffer; Close is called exactly when the total has been accepted |
| `TxStream.Sender.Transfer` | examples/tcp/tcp-large-transfer.cc:185-219 | The same for the start and any number of callbacks, with the socket closed once all is accepted |
| `EventLoop.Simulator.WrapRun` | bindings/python/ns3module_helpers.cc:306-331 | For any simulation that ends one event at a time, and any batch size, the wrapper ends in the same state, having run the same events in the same order |
| `EventLoop.RoundsAreSteps` | bindings/python/ns3module_helpers.cc:316-322 | For any simulation, after k rounds of size f the state and the events run are those of f * k single events stopped when finished |
| `EventLoop.BatchedIsSingle` | bindings/python/ns3module_helpers.cc:316-331 | Where the batched and the single-event run both end, they end in the same state after the same events |
| `EventLoop.BatchedEndsIff` | bindings/python/ns3module_helpers.cc:316-331 | For any simulation the batched loop ends exactly when nothing is pending, or the batch size is positive and running one event at a time ends |
| `EventLoop.Bench.Cb` | utils/bench-simulator.cc:134-145 | Schedules a successor and counts it, unless the total is reached |
| `EventLoop.EventKeepsBench` | utils/bench-simulator.cc:134-145 | Each event keeps the pending population constant until the total is reached and only drains it afterwards, and every scheduled event stays in exactly one of pending and executed |
| `EventLoop.BenchAlways` | utils/bench-simulator.cc:98-145 | The same after any number of events |
| `EventLoop.BenchEnds` | utils/bench-simulator.cc:98-145 | The benchmark ends after exactly as many events as are left: those pending plus those still to be counted |
| `EventLoop.BenchInBatches` | bindings/python/ns3module_helpers.cc:316-331 | In batches of any positive size the benchmark ends in the same state |
| `EventLoop.Bench.RunBench` | utils/bench-simulator.cc:98-131 | A non-empty population runs population + total callbacks and counts to the total; an empty one runs nothing; every event scheduled was executed once |
| `Fairness.CauchySchwarz` | examples/tcp/dctcp-example.cc:179-222 | sum*sum <= n*sumSquares, with equality exactly when all counters are equal |
| `Fairness.SquaresBelow` | examples/tcp/dctcp-example.cc:179-222 | sumSquares <= sum*sum, and it is zero exactly when all counters are |
| `Fairness.IndexRange` | examples/tcp/dctcp-example.cc:179-222 | The index lies in [1/n, 1] when some counter is non-zero, and is 1 exactly when all are equal |
| `Fairness.RoundedIndexRange` | examples/tcp/dctcp-example.cc:191 | Under any rounding that keeps order and leaves 1 alone, the computed index is at most 1, is 1 for equal counters, and is at least the rounded 1/n where both terms are converted exactly |
| `Fairness.NoOverflow` | examples/tcp/dctcp-example.cc:179-222 | With every counter below 2^32/n no 64-bit sum or product overflows |
| `Fairness.WrappedSums` | examples/tcp/dctcp-example.cc:179-222 | The loop computes both sums modulo 2^64 |
| `Fairness.FairnessTerms` | examples/tcp/dctcp-example.cc:179-222 | Numerator and denominator modulo 2^64, and exact when every counter is below 2^32/n |

## Left out

- `utils/grid.py`: drawing over GTK and Cairo; its searches are textbook.
- The other programs under `examples/` and `scratch/`, and ns-3's `src/`: simulation set-up and the simulator itself.
- `TopSortLevels.TopSortLevelsCore`: takes counts that agree with the children lists, as its documentation asks; other arguments are not modelled. What a consumer of the generator does to a yielded list is not modelled either.
- `ModuleScan.ScanModules`: leaves out the header map, the output files and the generation of bindings; the module dictionary is walked in any order, which covers the sorted one. Modules without dependencies that nothing depends on get no section, as in the code.
- `TestOutcome.EachCameBackOnce`: leaves out the text of results, timing, XML, HTML and console output, and the reading of the configuration; the valgrind and crash distinction is by return code only.
- `TestRunner.EveryRunFinishes`: counts steps; it assumes that a started test ends and that a thread that can step is scheduled some time.
- `TestRunner.StepInv`: unlocked reads and writes of one Python variable are atomic steps; memory effects below that are not modelled.
- `Gather.StaticInformation.DoGather`: the type registry is a fixed finite net and `IsChildOf` a set of ancestors; the extra type list, the registration of aggregations and all markup printing are left out.
- `PatchText.RoundTripIff`: about texts without a newline, which every parser result satisfies; positions are natural numbers; a line whose kind was never set, on which `write` fails, is not modelled.
- `PatchObjects.ParsePatchset`: creating a line and setting it is one step, so the kind of a line is constant.
- `PatchText.HeaderRoundTrip`: the counts in a header are read and, as in the code, not compared with the lines that follow.
- uncrustify, `patch` and difflib calls of `utils/check-style.py`, and `Patch.apply`, which is not implemented.
- Floating-point, random and reflective helpers of `bindings/python/rad_util.py`, and `gcf` and `lcm`.
- `BinaryCodes.Int2BinInvertsBin2Int`: about strings of binary digits; `bin2int` of anything else is not modelled.
- `TxStream.Sender.WriteUntilBufferFull`: the socket answers arbitrarily, with a send result that is negative or at least 1 (a result of 0 would make the source spin); the room is asked for once in each turn instead of twice.
- `EventLoop.Simulator.WrapRun`: is about simulations that end, with a batch size of -1 or at least 1 unless nothing is pending, since the source does not end otherwise (see `EventLoop.BatchedEndsIff`); `Simulator::Run` is running one event at a time; what an event does is a function of the state; signal handling, Python exceptions and thread-state calls are left out.
- `EventLoop.Bench.RunBench`: random delays are an arbitrary function giving each event's place in the queue; wall-clock figures are left out.
- `Fairness.IndexRange`: over the reals; `Fairness.RoundedIndexRange` has what survives rounding; that an index of 1 implies equal counters is not claimed of it. Averages and printing are left out.
- `GatherRecords.RecordsDistinctIff`: for nets in which no label continues another at a slash and equal labels out of a type lead to the same type.
