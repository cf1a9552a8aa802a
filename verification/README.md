# Verified models of five algorithmic components

A Dafny model of the parts of this version control system that are algorithms first: the patience
differ in its Python and its C form, the group-compress delta, the known-graph algorithms, the
B+Tree graph index with its builder and reader, and line annotation; and with them the multi-key
bisection. Each has a simple specification and a stateful, faster implementation; the modules give
both and prove that they agree. `dafny verify dfyconfig.toml` checks the whole project.

How it is laid out:

- `Basics.dfy` holds keys, optional values, results and small facts that several modules share.
- `PatienceLcs`, `PatienceMatches` and `PatienceBlocks` say what the differ computes. The longest
  common subsequence of unique lines is a recurrence without piles; it is proved to be a longest one.
  `PatienceDiffPy` is the Python form with its piles, shortcuts and shared answer list.
  `PatienceEquate` and `PatienceDiffC` are the C form with its open-addressed table, chains, cursors
  and block buffer, as arrays that are overwritten; it is proved to give the same blocks.
- `GroupCompressCodec` and `GroupCompressDelta` are the bytes: numbers, copy instructions, and what
  applying a delta means; `GroupCompressFormat` states the format bit by bit. `GroupCompressIndex` is the
  line index and the output handler as objects, and `GroupCompressReach` says which copies their offsets
  can express.
- `Worklist`, `GraphDistance`, `GraphHeads`, `GraphOrders`, `GraphStableOrder`, `GraphOrderUnique`,
  `GraphPrefixes`, `GraphGrouping` and `GraphUpdates` are the theory of the known graph: counting
  worklists, greatest distances, heads, orders and what one step of each loop does. `KnownGraph` is the
  graph of node objects that are updated in place.
- `BTreePages` says what rows of pages are a search tree, and `BTreePacking` that its pages are as full
  as they can be, which leaves only one; `BTreeBuild` writes it, `BTreeSearch` reads it, `BTreeAncestry`
  follows references through it, `BTreeMerge` and `BTreeSpill` are the merging and spilling of the builder,
  and `BTreeSerializer` the text of a leaf page.
- `AnnotationSpec` defines annotations without caches, and `AnnotationOrigins` says which revisions they
  name; `Annotator` is the class with its caches, counters and memo. `Reannotate` merges existing
  annotations. `BisectMulti` is the multi-key bisection.

Points where a reader could be surprised:

- Keys stand for any totally ordered keys and are numbers here; lines of text are any type with
  equality, or strings. The null revision is key 0.
- How much fits a page depends on compression. `Room` stands for it: any rule that says, from what a page
  holds and whether it is the first of its row, if it takes one more entry or separator. The first
  separator of a new root is written without asking. An entry fits alone if an empty leaf takes it, as the
  first of the file with its reserved header and as a later one; a fresh leaf that refuses it is BadIndexKey.
- Group-compress bytes are numbers below 256, and bit operations are written as arithmetic.
- The hash of a line is a function of the line, and masking by the table size is a remainder.
- A graph may have cycles when it is made; `add_node` is asked only for graphs that stay acyclic,
  as otherwise its queue would not end. Cycles are noticed only in part: `WhenCyclesAreNoticed` says
  when, and `CycleUnnoticed` shows one that is not. The same graph makes `topo_sort` return a listing
  that is not complete, although its documentation speaks of all nodes.
- The comment at the recursion limit of the differ says that it is never reached normally. It is:
  `SelfMatchThreshold` gives the exact lengths at which every text matches itself.
- Copy instructions have four offset bytes and nothing checks that an offset fits, so a delta against
  more than 2^32 bytes can silently rebuild another text of the right length: `WrongText` is one, and
  `ReachIsExact` gives the exact limit.
- The documentation of `gc_sort` promises a result that is grouped by prefix, and one that does not
  depend on extra data. `GroupedExactly` says for which graphs both hold; a single graph can be grouped
  without it by chance.
- The index documents no order for `iter_all_entries`; the code yields key order, which spilling needs,
  and that is what is proved.
- The stream that feeds the annotator brings every needed key once, parents before children, keys of
  missing texts included.
- A lookup for the bisection is given the probes of a round and answers each once, in any order, with
  earlier, later, absent or found; the number of the round stands for what it remembers. The source
  encodes the first three as -1, +1 and False and asks that found values differ from them; the model
  keeps the four apart.

## Model

| member | source | states |
|---|---|---|
| PatienceLcs.UniqueLcsIsMatch | bzrlib/_patiencediff_py.py:43-104 | every returned pair matches a line that occurs exactly once in each text, and the pairs increase in both positions |
| PatienceLcs.UniqueLcsIsLongest | bzrlib/_patiencediff_py.py:37-41 | no increasing list of matched unique lines is longer than the returned one |
| PatienceLcs.SlotIsRank | bzrlib/_patiencediff_py.py:87 | the slot a bisection of the pile tops finds is the length of the longest increasing run ending at the line |
| PatienceLcs.Place | bzrlib/_patiencediff_py.py:88-95 | putting a line on its pile keeps the pile tops what they stand for: the latest least end of a run of each length |
| PatienceLcs.PilesAreOrdered | bzrlib/_patiencediff_py.py:74-95 | pile tops strictly increase, so both shortcuts and the bisection look at a sorted list |
| PatienceLcs.BackpointersNext | bzrlib/_patiencediff_py.py:88-89 | storing the specified predecessor, or none, for one more entry keeps the table of backpointers what it stands for |
| PatienceLcs.BackIsShorter | bzrlib/_patiencediff_py.py:88-89 | a backpointer leads to a run that is one shorter and ends earlier in both texts, and there is none exactly for runs of one |
| PatienceDiffPy.IndexUniqueLines | bzrlib/_patiencediff_py.py:45-51 | the index holds the position of each line that occurs once and a blank for each line that occurs more often |
| PatienceDiffPy.FindPartners | bzrlib/_patiencediff_py.py:55-67 | the table gives each line of the second text its only possible partner, or none |
| PatienceDiffPy.BisectRight | bzrlib/_patiencediff_py.py:87 | the first position whose entry is above the value |
| PatienceDiffPy.FindSlot | bzrlib/_patiencediff_py.py:77-87 | both position shortcuts give the slot the bisection would give |
| PatienceDiffPy.BuildPiles | bzrlib/_patiencediff_py.py:70-95 | after the loop the piles and backpointers are those of the whole table |
| PatienceDiffPy.FollowBackpointers | bzrlib/_patiencediff_py.py:98-104 | the specified chain from the last pile, increasing in both texts and as long as the longest increasing run that ends there |
| PatienceDiffPy.UniqueLcsPy | bzrlib/_patiencediff_py.py:29-104 | unique_lcs_py returns the specified longest common subsequence of unique lines, for all inputs |
| PatienceMatches.MatchesAreCommon | bzrlib/_patiencediff_py.py:107-166 | at every recursion limit the matches are equal lines, strictly increasing in both texts and inside the bounds |
| PatienceMatches.BetweenAreCommon | bzrlib/_patiencediff_py.py:131-149 | the matches between unique lines and after the last one stay in their gaps, so the whole list stays increasing |
| PatienceMatches.BoxBound | bzrlib/_patiencediff_py.py:133-137 | a common subsequence of a box has no more pairs than the box has lines on either side |
| PatienceMatches.ShortTextMatchesItself | bzrlib/_patiencediff_py.py:107-166 | matching a text of at most 2 * limit + 2 lines with itself gives the whole diagonal |
| PatienceMatches.NestedIsTooDeep | bzrlib/_patiencediff_py.py:124-127 | for each limit and each length from 2 * limit + 3 on, a text for which the diagonal is not found |
| PatienceMatches.SelfMatchThreshold | bzrlib/_patiencediff_py.py:107-127 | all texts of n lines match themselves whole if and only if n is at most 2 * limit + 2 |
| PatienceMatches.PrefixLenIs | bzrlib/_patiencediff_py.py:148-155 | the run at the start is the only one with equal lines behind which a text ends or the lines differ |
| PatienceMatches.SuffixLenIs | bzrlib/_patiencediff_py.py:156-162 | the run at the end is the only one with equal lines before which a text ends or the lines differ |
| PatienceMatches.StartIsMatched | bzrlib/_patiencediff_py.py:148-155 | without unique common lines the longest run of equal lines at the start is matched, and then what follows it |
| PatienceMatches.EndIsMatched | bzrlib/_patiencediff_py.py:156-166 | without unique common lines and with different first lines, the matches end in the longest run of equal lines at the end, behind the matches of what precedes it |
| PatienceMatches.UniqueAreMatched | bzrlib/_patiencediff_py.py:131-147 | every pair of the longest common subsequence of unique lines is matched |
| PatienceDiffPy.RecurseMatchesPy | bzrlib/_patiencediff_py.py:107-166 | the recursion appends exactly the specified matches of the box to the shared list and touches nothing before them |
| PatienceDiffPy.RecurseBetween | bzrlib/_patiencediff_py.py:131-147 | one pass over the unique pairs appends the specified matches of all gaps |
| PatienceDiffPy.MatchBeginning | bzrlib/_patiencediff_py.py:148-155 | the appended pairs are equal lines at the start, and behind them a text ends or the lines differ |
| PatienceDiffPy.SkipEnd | bzrlib/_patiencediff_py.py:156-162 | the lines skipped at the end are equal, and before them a text ends or the lines differ |
| PatienceDiffPy.AppendRun | bzrlib/_patiencediff_py.py:165-166 | a run of pairs is appended in order |
| PatienceBlocks.CollapseIsExact | bzrlib/_patiencediff_py.py:169-193 | together the blocks stand for exactly the matched lines, in order |
| PatienceBlocks.CollapseIsMaximal | bzrlib/_patiencediff_py.py:169-193 | blocks are non-empty, no two neighbours could be joined, and there are never more of them than matched lines |
| PatienceBlocks.CollapseMatches | bzrlib/_patiencediff_py.py:169-193 | blocks of a common subsequence are equal text, in order, without overlap |
| PatienceBlocks.MatchingBlocksAreValid | bzrlib/_patiencediff_py.py:220-253 | the blocks are equal text, increasing in both texts, and closed by the only empty block |
| PatienceDiffPy.CollapseSequences | bzrlib/_patiencediff_py.py:169-193 | the loop computes the specified blocks |
| PatienceDiffPy.CheckConsistency | bzrlib/_patiencediff_py.py:196-206 | the check succeeds exactly if the blocks are in order in both texts |
| PatienceDiffPy.GetMatchingBlocksPy | bzrlib/_patiencediff_py.py:220-253 | the specified block list, on which the consistency check never fails |
| PatienceBlocks.SelfBlocks | bzrlib/_patiencediff_py.py:239-247 | with the limit of 10 that is used, a text of n lines always matches itself as one block if and only if n is at most 22 |
| PatienceBlocks.OpcodesTile | bzrlib/_patiencediff_c.c:949-988 | the operations follow each other without gap or overlap in both texts, each is what its tag says |
| PatienceBlocks.OpcodesAreBlocks | bzrlib/_patiencediff_c.c:949-988 | the equal operations are exactly the non-empty blocks, and no two other operations follow each other |
| PatienceBlocks.ScriptRebuildsSecond | bzrlib/_patiencediff_c.c:938-988 | running the operations as an edit script on the first text gives the second |
| PatienceEquate.FindEquivalenceClass | bzrlib/_patiencediff_c.c:158-170 | probing ends because the table has a free bucket, at the bucket of the line or at the first free one |
| PatienceEquate.FreeSlot | bzrlib/_patiencediff_c.c:187-190 | while lines are still to be entered the table has a free bucket |
| PatienceEquate.EquateB | bzrlib/_patiencediff_c.c:208-224 | every line of the second text is linked, in ascending order, in the bucket of its class |
| PatienceEquate.EquateA | bzrlib/_patiencediff_c.c:226-245 | every line of the first text gets the bucket of its class; lines absent from the second text are not linked |
| PatienceEquate.EquateLines | bzrlib/_patiencediff_c.c:173-253 | classes, ascending chains and counts are those of the two texts |
| PatienceEquate.ClassesAreEquality | bzrlib/_patiencediff_c.c:158-253 | a line of the first text shares a class with a line of the second exactly if they are equal |
| PatienceDiffC.BlockBuffer.AddMatchingLine | bzrlib/_patiencediff_c.c:425-447 | a line extends the last block or starts a new one, inside the buffer |
| PatienceDiffC.PatienceSequenceMatcher.constructor | bzrlib/_patiencediff_c.c:756-797 | a matcher holds the linked classes of its two texts, with no cursor in use |
| PatienceDiffC.PatienceSequenceMatcher.PrepareCursors | bzrlib/_patiencediff_c.c:285-293 | cursors are reset when a lower bound falls, so none has passed a line that is still in range |
| PatienceDiffC.PatienceSequenceMatcher.FindInA | bzrlib/_patiencediff_c.c:302-324 | the only line of the class inside the bounds of the first text, or none if there is no such line or several |
| PatienceDiffC.PatienceSequenceMatcher.RepeatedInB | bzrlib/_patiencediff_c.c:326-341 | whether another line of the class lies inside the bounds of the second text |
| PatienceDiffC.PatienceSequenceMatcher.FindPartner | bzrlib/_patiencediff_c.c:295-347 | the partner found over chains and cursors is the one of the specification |
| PatienceDiffC.PatienceSequenceMatcher.BisectLeft | bzrlib/_patiencediff_c.c:136-147 | the first position whose entry is not below the value, with the midpoint computed without overflow |
| PatienceDiffC.PatienceSequenceMatcher.FindSlotC | bzrlib/_patiencediff_c.c:379-389 | shortcuts and bisect_left give the slot of the specification |
| PatienceDiffC.PatienceSequenceMatcher.UniqueLcsC | bzrlib/_patiencediff_c.c:257-423 | unique_lcs gives the same pairs as unique_lcs_py, last pair first, with cursors kept usable for the next call |
| PatienceDiffC.PatienceSequenceMatcher.FollowBackpointersC | bzrlib/_patiencediff_c.c:412-422 | the backtrace writes the specified subsequence in reverse |
| PatienceDiffC.PatienceSequenceMatcher.RecurseMatchesC | bzrlib/_patiencediff_c.c:450-542 | the blocks grow by exactly the collapsed matches of the Python recursion, and there are never more than there are lines in the second text |
| PatienceDiffC.PatienceSequenceMatcher.RecurseBetweenC | bzrlib/_patiencediff_c.c:476-492 | the loop over the unique pairs adds the matches of all gaps |
| PatienceDiffC.PatienceSequenceMatcher.RecurseEndsC | bzrlib/_patiencediff_c.c:507-535 | without unique lines: the run at the start and what follows it, or what precedes the run at the end and that run |
| PatienceDiffC.PatienceSequenceMatcher.MatchBeginningC | bzrlib/_patiencediff_c.c:508-511 | comparing classes instead of lines finds the longest run of equal lines at the start |
| PatienceDiffC.PatienceSequenceMatcher.SkipEndC | bzrlib/_patiencediff_c.c:519-526 | comparing classes instead of lines finds the longest run of equal lines at the end |
| PatienceDiffC.PatienceSequenceMatcher.GetMatchingBlocksC | bzrlib/_patiencediff_c.c:825-886 | the same block list as get_matching_blocks of the Python form |
| PatienceDiffC.PatienceSequenceMatcher.GetOpcodesC | bzrlib/_patiencediff_c.c:917-997 | the specified operations, which tile both texts |
| PatienceDiffC.ClassPartner | bzrlib/_patiencediff_c.c:295-347 | equal classes inside the bounds mean equal lines inside the bounds, in both directions |
| GroupCompressCodec.Base128RoundTrip | bzrlib/_groupcompress_py.py:314-338 | reading an encoded number gives the number and the bytes behind it |
| GroupCompressFormat.Base128Is | bzrlib/_groupcompress_py.py:314-322 | the encoded number is the only string of bytes that has the value, marks every byte but the last, and has no superfluous last byte |
| GroupCompressFormat.NumberIsRead | bzrlib/_groupcompress_py.py:325-338 | the value up to the first unmarked byte is read, whatever follows; without one the bytes end too soon |
| GroupCompressCodec.EncodeBase128Int | bzrlib/_groupcompress_py.py:314-322 | the loop writes the seven-bit groups, lowest first; Base128Is says that they are the only short form of the number |
| GroupCompressCodec.DecodeBase128Int | bzrlib/_groupcompress_py.py:325-338 | the loop reads the number and its length, and fails exactly if the bytes end too soon |
| GroupCompressCodec.CopyRoundTrip | bzrlib/_groupcompress_py.py:341-412 | a decoded copy instruction has the encoded length, and the encoded offset exactly if that is below 2^32 |
| GroupCompressFormat.CopyIsWritten | bzrlib/_groupcompress_py.py:341-368 | the command has one bit for each byte of offset and length that is not 0, and those bytes follow it, lowest first; the third byte of the length is never written |
| GroupCompressFormat.CopyIsRead | bzrlib/_groupcompress_py.py:371-412 | each of the seven bits says if its byte follows, bytes that do not follow are 0, and a length of 0 stands for 65536 |
| GroupCompressFormat.CopyPieces | bzrlib/_groupcompress_py.py:38-45 | a range is cut into copies of 65536 bytes and one of what is left |
| GroupCompressFormat.LongPieces | bzrlib/_groupcompress_py.py:63-74 | a long line is cut into inserts of 127 bytes and one of what is left |
| GroupCompressFormat.InsertTakesMost | bzrlib/_groupcompress_py.py:76-93 | an insert takes as many whole lines as fit 127 bytes |
| GroupCompressFormat.ShortInsert | bzrlib/_groupcompress_py.py:446-450 | an insert that is longer than the rest of the delta inserts that rest |
| GroupCompressFormat.RefusedCodes | bzrlib/_groupcompress_py.py:436-448 | command 0, a copy beyond the end and a truncated copy are errors |
| GroupCompressCodec.EncodeCopyInstruction | bzrlib/_groupcompress_py.py:341-368 | the instruction bytes, and the errors for length 0 and lengths above 64 KiB |
| GroupCompressCodec.DecodeCopyInstruction | bzrlib/_groupcompress_py.py:371-412 | each marked byte is read in turn; length 0 stands for 64 KiB; an unmarked command is an error |
| GroupCompressDelta.ApplyDelta | bzrlib/_groupcompress_py.py:427-455 | the result of a delta, or which of its checks fails first |
| GroupCompressDelta.ApplyDeltaToSource | bzrlib/_groupcompress_py.py:458-468 | the delta inside the source if its range is one, otherwise the first range error that applies |
| GroupCompressDelta.ExecCopy | bzrlib/_groupcompress_py.py:38-45 | copy instructions cut at 64 KiB copy their ranges, each at its offset modulo 2^32 |
| GroupCompressDelta.FetchedIsRange | bzrlib/_groupcompress_py.py:38-45 | a range is copied exactly from every text, if and only if the last instruction for it starts below 2^32 |
| GroupCompressDelta.LastStartIs | bzrlib/_groupcompress_py.py:38-45 | where the last instruction for a range starts: a whole number of 64 KiB behind its start |
| GroupCompressDelta.FetchedWraps | bzrlib/_groupcompress_py.py:341-368 | from offset 2^32 on the decoder copies from the start of the source |
| GroupCompressDelta.ExecInsert | bzrlib/_groupcompress_py.py:76-93 | insert instructions cut at 127 bytes insert exactly the lines, unless a group of empty lines writes command 0 |
| GroupCompressDelta.NoEmptyGroup | bzrlib/_groupcompress_py.py:81-93 | non-empty lines never make an empty group |
| GroupCompressIndex.OutputHandler.AddCopy | bzrlib/_groupcompress_py.py:38-45 | the loop emits the instructions of the specification |
| GroupCompressIndex.OutputHandler.FlushInsert | bzrlib/_groupcompress_py.py:47-61 | pending lines are emitted behind their length, indexed if they are long enough together |
| GroupCompressIndex.OutputHandler.InsertLongLine | bzrlib/_groupcompress_py.py:63-74 | a long line is emitted in pieces of 127 bytes, none of them indexed |
| GroupCompressIndex.OutputHandler.AddInsert | bzrlib/_groupcompress_py.py:76-93 | the loop emits the insert instructions of the specification and leaves nothing pending |
| GroupCompressIndex.LinesDeltaIndex.constructor | bzrlib/_groupcompress_py.py:109-114 | an index of its lines: all are indexed and offsets are the prefix sums of lengths |
| GroupCompressIndex.LinesDeltaIndex.UpdateMatchingLines | bzrlib/_groupcompress_py.py:116-130 | the table gains exactly the positions of the lines to be indexed |
| GroupCompressIndex.LinesDeltaIndex.ExtendLines | bzrlib/_groupcompress_py.py:235-251 | adding lines keeps the index true: table, prefix sums and end point |
| GroupCompressIndex.LinesDeltaIndex.GetLongestMatch | bzrlib/_groupcompress_py.py:139-192 | a run that cannot be continued, at its smallest indexed position, and where to go on |
| GroupCompressIndex.LinesDeltaIndex.GetMatchingBlocks | bzrlib/_groupcompress_py.py:194-233 | blocks are longest runs of indexed lines at their first place, worth copying, in order and closed by an empty one; every new line outside them equals no indexed line or lies in a longest run that is not worth copying |
| GroupCompressIndex.LinesDeltaIndex.MakeDelta | bzrlib/_groupcompress_py.py:285-311 | the output lines with their index flags are the length header and the instructions of the blocks; DeltaOutcome says what applying them gives |
| GroupCompressIndex.DeltaMarks | bzrlib/_groupcompress_py.py:47-93 | flagged for the index are only whole new lines outside the blocks, none above 127 bytes, and each occurrence of those of 10 to 127 bytes |
| GroupCompressIndex.ExecBlocks | bzrlib/_groupcompress_py.py:298-310 | running the instructions of the blocks gives the inserted lines and the copied ranges in order, unless an insert is made up of empty lines |
| GroupCompressIndex.RebuiltIsTarget | bzrlib/_groupcompress_py.py:298-310 | what the blocks stand for has the length of the new text, and is the new text if and only if every block is copied right |
| GroupCompressReach.ReachIsExact | bzrlib/_groupcompress_py.py:38-45 | for given line lengths and blocks: every text is rebuilt if and only if each copy instruction has an offset below 2^32 |
| GroupCompressReach.SecondLineIsTaken | bzrlib/_groupcompress_py.py:194-233 | of a source of two different lines the matcher takes the second for a new line equal to it |
| GroupCompressReach.WrongText | bzrlib/_groupcompress_py.py:285-311 | a source whose first line has 2^32 bytes and a copy of its second line: the delta is accepted and rebuilds the start of the first line |
| GroupCompressIndex.DeltaOutcome | bzrlib/_groupcompress_py.py:285-311 | for any index, new lines and stated length the exact result of applying the delta: an error for an empty insert group or a wrong length, otherwise a text that is the new one if and only if every block is copied right, as it is if all offsets are below 2^32 |
| GroupCompressIndex.DeltaRebuildsTarget | bzrlib/_groupcompress_py.py:285-311 | without empty lines the delta is accepted, and rebuilds the new text if and only if every block is copied right |
| GroupCompressIndex.EmptyLineIsRefused | bzrlib/_groupcompress_py.py:446-448 | a target of one empty line makes a delta that apply_delta refuses |
| GroupCompressIndex.MakeDeltaOfBytes | bzrlib/_groupcompress_py.py:415-424 | for all byte strings apply_delta of the result succeeds; it gives the target if and only if every block is copied right, as in every source of up to 2^32 bytes |
| Worklist.StuckMeansCycle | bzrlib/_known_graph_py.py:118-136 | a set of keys that all wait for one another contains a cycle |
| Worklist.VisitOne | bzrlib/_known_graph_py.py:120-136 | counting one more parent makes a child pending exactly if it was the last one |
| Worklist.WorkEnds | bzrlib/_known_graph_py.py:107-136 | on an acyclic graph the worklist finishes every key |
| GraphDistance.GdfoIsUnique | bzrlib/_known_graph_py.py:107-136 | the equations have at most one solution |
| GraphDistance.GdfoExists | bzrlib/_known_graph_py.py:107-136 | an acyclic graph has a solution |
| GraphDistance.GdfoMeansAcyclic | bzrlib/_known_graph_py.py:107-136 | a graph with a solution has no cycle |
| GraphDistance.RaisingEnds | bzrlib/_known_graph_py.py:191-201 | when no pending key is left the raised values are the solution |
| GraphDistance.RaiseChild | bzrlib/_known_graph_py.py:194-201 | raising a child never passes the solution and leaves only children of pending keys too low |
| GraphUpdates.GivenMore | bzrlib/_known_graph_py.py:74-97 | a graph built from one more entry is the graph to which that node was added |
| GraphUpdates.OneNumbering | bzrlib/_known_graph_py.py:138-201 | two assignments of gdfos that satisfy the equations of a graph are equal |
| GraphUpdates.CacheStaysTrue | bzrlib/_known_graph_py.py:167-169 | a node that was not known before leaves every cached answer true |
| GraphUpdates.UprightStart | bzrlib/_known_graph_py.py:170-186 | after a node got its own gdfo only its children may be too low |
| KnownGraphs.KnownGraph.InitializeNodes | bzrlib/_known_graph_py.py:74-97 | nodes for all keys, ghosts without a parent list, and children lists that mirror the parent lists |
| KnownGraphs.KnownGraph.FindGdfo | bzrlib/_known_graph_py.py:107-136 | each node with a finished parent, and no other with parents, has 1 plus the largest finished parent; the worklist ends on every graph |
| KnownGraphs.KnownGraph.constructor | bzrlib/_known_graph_py.py:62-72 | a well-formed graph of the parent map, with every gdfo right if there is no cycle |
| KnownGraphs.KnownGraph.AddNode | bzrlib/_known_graph_py.py:138-201 | new nodes, filled ghosts, identical duplicates and mismatches; afterwards every gdfo satisfies its equation and every cached answer is true |
| KnownGraphs.KnownGraph.SameAsRebuilt | bzrlib/_known_graph_py.py:107-201 | a graph whose gdfos were kept up to date by additions has the gdfos of a graph newly made from its parent map |
| KnownGraphs.KnownGraph.EnterNode | bzrlib/_known_graph_py.py:149-169 | only filling a ghost clears the cache |
| KnownGraphs.KnownGraph.LinkToParents | bzrlib/_known_graph_py.py:170-184 | parents are linked both ways, unknown ones become ghosts of gdfo 1, and the largest gdfo is found |
| KnownGraphs.KnownGraph.UpdateDescendants | bzrlib/_known_graph_py.py:187-201 | the queue ends and leaves every gdfo equal to its equation |
| KnownGraphs.KnownGraph.RaiseChildrenOf | bzrlib/_known_graph_py.py:191-201 | one step of the queue raises some value or only shortens the queue |
| GraphHeads.SearchIsExact | bzrlib/_known_graph_py.py:238-254 | the search cut off at the least gdfo finds exactly the keys that are proper ancestors of another |
| GraphHeads.HeadsAre | bzrlib/_known_graph_py.py:203-247 | a key of the query is a head if and only if no other key of it descends from it; the null revision only on its own |
| GraphHeads.HeadsKept | bzrlib/_known_graph_py.py:167-169 | adding a node that was not known changes no heads of the old keys |
| GraphHeads.GhostsChangeHeads | bzrlib/_known_graph_py.py:149-156 | filling a ghost can change heads, which is why the cache is cleared then |
| GraphHeads.HeadsCover | bzrlib/_known_graph_py.py:203-216 | every key of a query is a head or an ancestor of one |
| KnownGraphs.KnownGraph.Heads | bzrlib/_known_graph_py.py:203-257 | the keys that are no proper ancestor of another, the null revision only on its own, KeyError for unknown keys; cached or not the answer is the same |
| KnownGraphs.KnownGraph.SearchHeads | bzrlib/_known_graph_py.py:227-254 | the uncached answer |
| GraphOrders.WhenCyclesAreNoticed | bzrlib/_known_graph_py.py:259-266 | a node is left without gdfo exactly if some node has parents each of which is on a cycle or descends from one |
| GraphOrders.CycleUnnoticed | bzrlib/_known_graph_py.py:107-136 | two nodes that are each other's parents go unnoticed if both also have a root as parent |
| GraphOrders.ListingProvesAcyclic | bzrlib/_known_graph_py.py:259-291 | a complete listing with parents first exists only without cycles |
| KnownGraphs.KnownGraph.TopoSort | bzrlib/_known_graph_py.py:259-291 | parents first, ghosts left out, each node once; complete exactly if there is no cycle; the exact condition for GraphCycleError |
| GraphOrders.DescendingIsUnique | bzrlib/_known_graph_py.py:318-326 | there is only one descending list of a set, so sorting removes every dependence on dictionary order |
| GraphStableOrder.AddedAll | bzrlib/_known_graph_py.py:325-336 | the parents that became ready go on the stack largest first, whatever the order of child lists |
| GraphStableOrder.ChildrenAreFirst | bzrlib/_known_graph_py.py:293-302 | every child comes before its parents |
| GraphPrefixes.GroupedByPrefix | bzrlib/_known_graph_py.py:293-302 | if the prefix of every node with children is the largest among its children, each prefix has a group of its own and prefixes ascend along the order |
| GraphPrefixes.PrefixesCanMix | bzrlib/_known_graph_py.py:293-302 | three nodes in a chain for which no order with children first has ascending prefixes |
| GraphGrouping.GroupedExactly | bzrlib/_known_graph_py.py:293-302 | without cycles: the order is grouped by prefix whatever unrelated tips are added, if and only if the prefix of every node with children is the largest among its children |
| GraphGrouping.OrderIsComplete | bzrlib/_known_graph_py.py:316-336 | on every graph without a cycle the order lists each node that is not a ghost |
| GraphGrouping.AscendingNeeds | bzrlib/_known_graph_py.py:293-302 | if prefixes ascend along the order, no prefix falls from a child to its parent |
| GraphGrouping.GroupedByChance | bzrlib/_known_graph_py.py:293-302 | two nodes whose order is grouped although the condition of GroupedExactly fails, so that it cannot be exact for one graph alone |
| KnownGraphs.KnownGraph.GcSort | bzrlib/_known_graph_py.py:293-336 | the result equals a function of the parent map and the prefixes alone, lists children first and is complete if there is no cycle; it is grouped by prefix if prefixes lead, and stays so with any further tips only then |
| GraphOrderUnique.StableIsUnique | bzrlib/_known_graph_py.py:293-336 | two orders of the same keys with children first in which every key is well placed are equal: keys of one last child ascend, tips ascend by prefix and key, and between a key and its last child stand only keys that became ready no earlier |
| GraphOrderUnique.GcOrderIsStable | bzrlib/_known_graph_py.py:293-336 | gc_sort gives the one order in which every key is well placed |
| BTreePages.InsertKeepsTree | bzrlib/btree_index.py:290-364 | whichever row takes the separator, the rows remain a search tree for one more entry |
| BTreePages.BelowRowKeepsTree | bzrlib/btree_index.py:328-341 | a separator in row p and new pages below it keep separators, child counts and offsets right |
| BTreePages.BelowRootKeepsTree | bzrlib/btree_index.py:344-363 | a new root over the old one keeps the rows a tree with one root |
| BTreeBuild.BuilderRow.FinishNode | bzrlib/btree_index.py:74-95 | the page under construction becomes the next finished page of its row |
| BTreeBuild.OpenPages | bzrlib/btree_index.py:300-323 | missing internal pages are opened at the number of the next child below, then the leaf |
| BTreeBuild.BuilderRow.WriteEntry | bzrlib/btree_index.py:325-330 | a leaf takes the entry or refuses it, by what it holds and whether it is the first of its row |
| BTreeBuild.PushSeparator | bzrlib/btree_index.py:331-363 | the lowest row that is not full takes the separator; full rows get a new page, and a new root is made only if all are full |
| BTreeBuild.AddKey | bzrlib/btree_index.py:290-364 | for every rule of what fits the rows become those of an insertion in which only full pages are closed; only an entry that does not fit an empty leaf is an error |
| BTreeBuild.WriteNodes | bzrlib/btree_index.py:366-441 | every sorted stream of entries that fit alone becomes a search tree for exactly its entries, with every page closed only when it refused what came next; an error names an entry that does not fit |
| BTreePacking.InsertKeepsPacked | bzrlib/btree_index.py:319-364 | whatever fits, inserting by those rules keeps the rows a search tree whose pages are as full as they can be |
| BTreePacking.PackingIsUnique | bzrlib/btree_index.py:290-399 | two such search trees for the same entries have the same pages in all rows |
| BTreePacking.FileIsUnique | bzrlib/btree_index.py:366-441 | so there is only one file that can be written for a stream of entries |
| BTreeSpill.FileLeavesNoTrace | bzrlib/btree_index.py:443-449 | for given entries there is only one finished file, whatever order they were added in, when they were spilled and how spills were combined |
| BTreeSearch.BTreeGraphIndex.ComputeRowOffsets | bzrlib/btree_index.py:1455-1463 | row offsets are the prefix sums of the row lengths |
| BTreeSearch.MultiBisectRight | bzrlib/btree_index.py:1036-1116 | the batch is cut, in order and without loss, by the position bisect_right gives each key |
| BTreeSearch.RouteDown | bzrlib/btree_index.py:1135-1143 | a key routed to a page is routed to the right child |
| BTreeSearch.RouteEnds | bzrlib/btree_index.py:1144-1149 | the leaf a key is routed to holds its entry if there is one |
| BTreeSearch.BTreeGraphIndex.WalkThroughInternalNodes | bzrlib/btree_index.py:1118-1149 | every key of the batch arrives at the only leaf on which it can be |
| BTreeSearch.BTreeGraphIndex.IterEntries | bzrlib/btree_index.py:1151-1205 | exactly the stored entries for the keys asked for, each once, in key order |
| BTreeSearch.LookupIsExact | bzrlib/btree_index.py:1151-1158 | looking up a sorted batch in the entries gives each stored entry once and no other |
| BTreeSearch.BTreeGraphIndex.IterAllEntries | bzrlib/btree_index.py:993-1034 | all entries in key order |
| BTreeSearch.BTreeGraphIndex.KeyCount | bzrlib/btree_index.py:1445-1453 | the stored count is the number of entries |
| BTreeAncestry.TakeQueried | bzrlib/btree_index.py:1277-1287 | each queried key of a page is mapped or known to be missing |
| BTreeAncestry.CheckParents | bzrlib/btree_index.py:1293-1325 | parents on the page are mapped; others are missing if they lie between its keys, and only those outside are left for other pages |
| BTreeAncestry.FollowOnPage | bzrlib/btree_index.py:1293-1325 | following parents on a page ends, even on cyclic references, and leaves only parents outside the page |
| BTreeAncestry.FindAncestors | bzrlib/btree_index.py:1207-1331 | queried keys are mapped or missing, missing keys are absent, parents of newly mapped keys are mapped, missing or returned, and only parents that leave the page of their child are returned |
| BTreeAncestry.FindAncestry | bzrlib/index.py:1501-1533 | asking again until nothing is returned maps exactly the stored keys that are reached and marks as missing exactly the reached keys that are not stored |
| BTreeMerge.IterSmallest | bzrlib/btree_index.py:258-288 | all entries of all streams in key order, an error exactly if some key is in two of them |
| BTreeSpill.CounterAt | bzrlib/btree_index.py:182-215 | slot i is occupied exactly if bit i of the number of spills is set, and then holds that power of two times the limit |
| BTreeSpill.CarryCounts | bzrlib/btree_index.py:220-232 | combining the occupied slots before the first free one adds one to the counter |
| BTreeSpill.HoldsOneMore | bzrlib/btree_index.py:203-216 | with and without combining, the backing indices after a spill are those of one more spill |
| BTreeSpill.SizeAfterCarry | bzrlib/btree_index.py:203-232 | combining moves entries between indices and keeps their number |
| BTreeSpill.BTreeBuilder.AddNode | bzrlib/btree_index.py:155-180 | a key in memory is refused, otherwise the entry is kept, and the memory is spilled if and only if it has reached the limit; a new key that fits, after others like it, never fails |
| BTreeSpill.BTreeBuilder.RunIs | bzrlib/btree_index.py:173-232 | after any number of new entries the memory holds the rest of dividing it by the limit, and with combining slot i is occupied exactly if bit i of the quotient is set, with the limit times 2^i entries; without combining each chunk has an index of its own |
| BTreeSpill.BTreeBuilder.AddNodes | bzrlib/btree_index.py:234-244 | any list of new entries that fit is added without failure, from a run to a run that is longer by its length; in general the entries before the failure are added |
| BTreeSpill.BTreeBuilder.SpillMemKeysToDisk | bzrlib/btree_index.py:182-232 | nothing is lost or doubled by a spill and the counter goes up by one; it fails only for a repeated key or an entry that does not fit, which the error names, and then changes nothing |
| BTreeSpill.BTreeBuilder.IterAllEntries | bzrlib/btree_index.py:451-469 | every added entry once in key order, or an error that names a key added twice, exactly if there is one |
| BTreeSpill.BTreeBuilder.IterEntries | bzrlib/btree_index.py:471-510 | an entry for each added key that is asked for, from memory or a backing index, never two |
| BTreeSpill.BTreeBuilder.KeyCount | bzrlib/btree_index.py:606-612 | the number of entries kept, which is the number of different entries if no key was added twice |
| BTreeSpill.BTreeBuilder.Finish | bzrlib/btree_index.py:443-449 | the file for exactly the added entries, of which FileLeavesNoTrace says there is only one; never an error if keys are distinct and all entries fit, and otherwise the error names a stored key that is to blame |
| BTreeSerializer.LineRoundTrip | bzrlib/_btree_serializer_py.py:25-72 | parsing a printed line gives back key, value and reference lists |
| BTreeSerializer.StringKeyIsKey | bzrlib/_btree_serializer_py.py:53-72 | the string key splits into the key and is what the line starts with |
| BTreeSerializer.PrintedExample | bzrlib/_btree_serializer_py.py:53-72 | the printed form of a node with two lists of references and of one without |
| BTreeSerializer.LeafRoundTrip | bzrlib/_btree_serializer_py.py:25-72 | parsing a printed page gives back its nodes in order |
| BTreeSerializer.ParseLeafLines | bzrlib/_btree_serializer_py.py:25-50 | the loop reads lines until an empty one and fails where a line cannot be split |
| AnnotationSpec.UnionIs | bzrlib/_annotator_py.py:203-205 | merged annotations have the revisions of both, sorted and without repetition |
| AnnotationSpec.AnnotationsAreTrue | bzrlib/_annotator_py.py:133-234 | every revision named for a line is the annotated one or an ancestor of it, and its text has that very line |
| AnnotationOrigins.NamesOfLine | bzrlib/_annotator_py.py:133-209 | a line names x if and only if a parent line that it is matched with does, or no parent line is matched with it and x is the annotated revision |
| AnnotationOrigins.OriginsAreExact | bzrlib/_annotator_py.py:133-234 | a line names exactly the revisions at which following it back from text to parent text along matching blocks can end |
| AnnotationSpec.RankDoesNotMatter | bzrlib/_annotator_py.py:223-234 | the annotations do not depend on the order in which texts arrive |
| Annotators.Annotator.UpdateNeededChildren | bzrlib/_annotator_py.py:50-55 | each mention as a parent is counted |
| Annotators.Annotator.GetNeededKeys | bzrlib/_annotator_py.py:57-103 | exactly the key and its ancestors are needed, and each is counted once for every mention by a needed child |
| Annotators.StillWanted | bzrlib/_annotator_py.py:211-221 | before a record its parents are still counted, and it is itself wanted by a later record or by the caller |
| Annotators.CachedNext | bzrlib/_annotator_py.py:211-234 | after each record exactly those texts are cached that a later record still needs |
| Annotators.CachedAtEnd | bzrlib/_annotator_py.py:211-221 | after the last record only the key asked for is cached |
| Annotators.MergeLine | bzrlib/_annotator_py.py:189-209 | with a true memo the result for a line is that of the rule, which NamesOfLine says in terms of the parent lines |
| Annotators.MergeBlock | bzrlib/_annotator_py.py:182-209 | the shortcut for equal slices and the memo change no result, in place |
| Annotators.Annotator.UpdateFromFirstParent | bzrlib/_annotator_py.py:152-161 | lines that match the first parent take its annotations |
| Annotators.Annotator.UpdateFromOtherParents | bzrlib/_annotator_py.py:163-209 | lines that match a further parent are merged by the rule |
| Annotators.Annotator.RecordAnnotation | bzrlib/_annotator_py.py:211-221 | parents are counted down and dropped at zero, from both caches |
| Annotators.Annotator.AnnotateOne | bzrlib/_annotator_py.py:223-234 | one record keeps the caches exact; its parents were cached when read |
| Annotators.Annotator.Annotate | bzrlib/_annotator_py.py:251-270 | for each line exactly the revisions where following it back can end, an error exactly if a needed text is missing, and only the key left in the caches |
| Reannotating.ReannotateOne | bzrlib/annotate.py:280-294 | matching lines keep the attribution of the parent, all others are new |
| Reannotating.Vote | bzrlib/annotate.py:263-277 | the origin on which all parents with a claim agree, otherwise the new revision |
| Reannotating.ResolveLine | bzrlib/annotate.py:362-389 | equal origins stay, an unclaimed line goes to the right parent, a sole head wins, otherwise the smaller origin, and without a heads provider the new revision |
| Reannotating.ResolveIsStable | bzrlib/annotate.py:375-389 | if both parents claim a line the result does not depend on their order, so attributions do not flip |
| Reannotating.FindMatchingUnannotatedLines | bzrlib/annotate.py:325-390 | lines of a gap: matched ones are resolved, the others stay as they were |
| Reannotating.ReannotateAnnotated | bzrlib/annotate.py:393-438 | each line by the rule for the block or gap it is in |
| Reannotating.FromParentIsReannotation | bzrlib/annotate.py:280-294 | one parent gives only lines it has |
| Reannotating.TwoParents | bzrlib/annotate.py:250-256 | resolving against a second parent gives only lines that one of the two parents has, or new ones |
| Reannotating.VoteAll | bzrlib/annotate.py:257-277 | one vote for each line, on the claims of all parents |
| Reannotating.Reannotate | bzrlib/annotate.py:229-278 | for any number of parents: the new lines in order, each new or attributed as some parent attributes that same text, by the exact rule for that number |
| BisectMulti.BisectMultiBytes | bzrlib/bisect_multi.py:26-66 | ends for every honest lookup, also one that remembers earlier rounds and answers early, within 2 * log2(size / 2) + 3 rounds; asks inside the content only; returns each present key as often as it was asked for and no absent key |
| BisectMulti.MovesInside | bzrlib/bisect_multi.py:51-59 | a probe that is told where to go stays inside the content, and comes closer when delta is 1 |
| BisectMulti.MovesNear | bzrlib/bisect_multi.py:51-65 | with each round the probe of a key is within half the distance of its place |
| BisectMulti.Round | bzrlib/bisect_multi.py:52-65 | one round answers or moves every probe; below delta 2 the total distance falls |
| BisectMulti.SameCostInAnyOrder | bzrlib/bisect_multi.py:51-60 | neither the cost of a round nor termination depends on the order of the replies |

## Left out

- Transport reads, temporary files, spools on disk, compression, page padding and the text of the index header: pages are values in a list and the header is a record.
- Node caches, prefetching of neighbouring pages and prefix queries of the index, which are policy over external libraries.
- The checks that keys, values and references of an index have the allowed characters and lengths, except the number of reference lists; the round trip of a leaf page requires what those checks let in.
- The nodes-by-key tree of the builder, which only serves prefix queries.
- `KnownGraph.merge_sort`, whose sorting module is not part of this model, and the accessors for parents and children.
- Reference counts, failed allocations, type tables and the display of grouped operations in the C differ; its four work areas in one allocation are four arrays here, so that aliasing between them is not modelled.
- Integer overflow of positions in the C differ, which the size of memory excludes; the midpoint is still computed the way the source does.
- `LinesDeltaIndex._flush_insert` and `_flush_copy`, which make_delta does not use, and the checks of argument types.
- Special texts, repeated use of one annotator, annotate_flat and tie-breaking callbacks; `reannotate` uses its built-in tie-break.
- Progress bars, debug output and printing.
- KnownGraphs.KnownGraph.AddNode: requires that the graph stays acyclic, because the queue of the source does not end otherwise.
- KnownGraphs.KnownGraph.GcSort: completeness is stated for acyclic graphs only; on others the order is still the stated function of the parent map.
- KnownGraphs.KnownGraph.Heads: on graphs without a cycle only, where gdfos are what the pruning relies on.
- KnownGraphs.KnownGraph.SearchHeads: on graphs without a cycle only, as for Heads.
- BTreeBuild.BuilderRow.FinishNode: does not model padding and the bytes of the spool; pages are values.
- BTreeAncestry.FindAncestry: one index instead of the combined list of indices.
- Annotators.Annotator.GetNeededKeys: on a fresh annotator, as for Annotate.
- Annotators.Annotator.Annotate: one call on a fresh annotator; a later call could ask for parents that were dropped.
- BisectMulti.BisectMultiBytes: is stated for lookups that have a final answer for each key somewhere inside the content; without one the source does not end.
