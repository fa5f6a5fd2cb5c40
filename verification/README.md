# Verified model of the code-duplication toolkit and its sample programs

The repository holds CDUP, a pipeline that parses C and Java text into a tree of segments,
lays the statements out as a read/write matrix, builds a def-use graph, detects clones and
interprets the result, together with sample programs used as its subjects. This project
models the algorithms in it whose correctness is not visible from reading them and proves
what they compute, for every input.

| files | component |
|---|---|
| `ExprSyntax`, `ExprParser`, `ExprGrammar`, `ExprExact`, `ExprLaws`, `ExprReadings` | the Pratt expression parser, exact against a grammar, and its reading of every operator level and construct of C |
| `CloneRuns`, `CloneScan`, `CloneDetect`, `CloneSegments` | the offset scan for repeated blocks, plain and over a segment forest |
| `Braces`, `BracePairs`, `BraceSegments`, `BraceLaws`, `BraceCases`, `BracePieces` | the bracket scan, pairing, parent array and excision of segments |
| `Matrix`, `MatrixLaws`, `JoinLaws`, `LoopPhiLaws`, `Dag`, `DagLaws` | the segment walk with its phi rows, entry-node injection, graph edges and the statement map |
| `WalkOrder`, `ForestLaws`, `BackEdgeLaws`, `BackEdgeCases` | the order of the walk, and where the back edge of a loop comes from |
| `CloneGraph` | the reported clones placed on the nodes of the graph |
| `Vm`, `VmLaws`, `VmRuns` | segment execution with break, continue, return and capped loops |
| `Initializers`, `InitializerLaws`, `Numerals`, `NumeralGrammar` | the reader of brace initialisers and of integers |
| `Heap`, `HeapLaws` | the bump heap, list storage and the C string builtins |
| `UnionFind` | clustering of Type III pairs |
| `Primes` | the sieve and the factorial test, with Wilson's theorem |
| `BufferPool` | the LRU page pool |
| `GraphSearch` | breadth-first search with parent paths |
| `Scheduler`, `SchedulerLaws` | the two-phase threaded scheduler as interleaved steps |
| `Trie` | the byte trie |

Loops and objects of the source are methods and classes here, proved equal to
specification functions or to a stated property; the laws are lemmas about those. An
exception or a null result of the source is a value (`None`, `Fail`, `Raised`,
`Crashed`), never a precondition.

Where the code and its description differ, the model follows the code:

- Prefix operators and casts take their operand at power 99, below `*`, `/` and `%` at
  100, so `-a * b` is read as `-(a * b)`. The binary levels agree with sections 6.5.5 to
  6.5.14 of C11 (ISO/IEC 9899:2011), as `ExprReadings.ChainsFollowLevels` states over a
  list of them; the unary level does not agree with section 6.5.3.
  `ExprReadings.UnaryTakesProducts` states it for every prefix operator, cast and binary
  operator.
- An `else` body runs after a taken `then` body that ends normally
  (`VmLaws.ElseAlwaysRuns`, and exactly when in `VmLaws.ElseRunsIff`).
- Loop membership is a bare string prefix of scope paths, so `loop_10` counts as inside
  `loop_1`; and merging files renumbers segments but keeps their paths, so a loop of
  another file can have the same path. `BackEdgeLaws.BackEdgeIsFromLoop` gives the exact
  condition on the segment forest under which the back edge comes from the loop's own
  subtree; `BackEdgeCases.BackEdgeFromTenthLoop` and `BackEdgeCases.BackEdgeFromOtherFile`
  are forests where it does not.
- The check for unbalanced brackets stands inside a string and never runs. A brace or
  parenthesis with nothing to close raises IndexError, and an unclosed one is accepted:
  there are then fewer blocks than parents, and the excision may take the parent of a
  different brace. `BraceLaws.PartitionIffParents` says exactly when the segments still
  partition the text, and `BraceCases.UnclosedLeavesACopy` gives a text where they do not.
- A branch join reads only what a branch's own statements write, not what blocks nested in
  it write (`MatrixLaws.JoinPhisAreExact`). `MatrixLaws.JoinsAreCompleteIff` says exactly
  when that misses nothing, and `MatrixLaws.JoinMissesNestedWrite` gives a branch where it
  does.
- Storing a list moves the heap counter only after its sublists are stored, so a non-empty
  sublist overlaps its parent (`HeapLaws.RowsApartOnlyIfEmpty`, an equivalence).
- The trie puts its end mark one node early, so it ignores the last byte of every string.
  `Trie.ExactIffStemsDiffer` says over which languages it is nevertheless a set.
- `malloc` is described as giving one cell per byte and gives one per four bytes
  (`HeapLaws.StringFitsBlock`).

## Model

| member | source | states |
|---|---|---|
| ExprSyntax.BinaryPowers | cdup/src/expr.py:136-166 | every binary operator has a binding power between 10 and 100, and none of the brackets, member, postfix or comma tokens is one |
| ExprParser.Parser.TryParseCastType | cdup/src/expr.py:300-322 | reads a parenthesised run of type words and stars, or puts the cursor back where it was |
| ExprParser.Parser.ScanSizeof | cdup/src/expr.py:253-269 | the depth-counted scan after `sizeof (` ends at its closing parenthesis or at the end of input |
| ExprParser.Parser.Parse | cdup/src/expr.py:211-224 | the precedence loop over a moving cursor meets its recursive specification from any cursor and minimum power, errors included |
| ExprParser.Parser.Nud | cdup/src/expr.py:228-298 | literals, names, sizeof, casts, groups and prefix operators meet their specification, the cast attempt leaving no trace when it fails |
| ExprParser.Parser.Led | cdup/src/expr.py:326-370 | binary operators, index, field, call and postfix operators meet their specification |
| ExprParser.Parser.ParseArgs | cdup/src/expr.py:347-362 | the argument loop reads comma-separated expressions up to the closing parenthesis |
| ExprParser.ParseExpr | cdup/src/expr.py:377-415 | the whole parse terminates; None is any ValueError or leftover token |
| ExprGrammar.CastTest | cdup/src/expr.py:300-322 | a group is taken for a cast exactly when its tokens begin with type words or stars reaching the closing parenthesis |
| ExprGrammar.CastReads | cdup/src/expr.py:300-322 | a non-empty run of type parts before `)` is read as that type |
| ExprGrammar.SizeofScanReads | cdup/src/expr.py:253-269 | any bracket-balanced text after `sizeof (` is read back unchanged |
| ExprExact.Complete | cdup/src/expr.py:211-370 | parsing a grammatical phrase in any context yields what the phrase denotes and stops at its end |
| ExprExact.Sound | cdup/src/expr.py:211-370 | whatever the parser accepts, with whatever minimum power, is the yield of a grammatical phrase denoting its result |
| ExprLaws.SentenceIsParsed | cdup/src/expr.py:377-415 | every sentence of the grammar parses to what it denotes |
| ExprLaws.ParsedIsSentence | cdup/src/expr.py:377-415 | everything that parses is a sentence |
| ExprLaws.GrammarIsExact | cdup/src/expr.py:377-415 | the parser returns `e` on a token list if and only if the list is a sentence denoting `e` |
| ExprLaws.GrammarIsUnambiguous | cdup/src/expr.py:136-176 | two phrases with the same tokens denote the same tree |
| ExprLaws.BracketedIsRight | cdup/src/expr.py:228-298 | the fully parenthesised form of any tree is grammatical, denotes the tree and is never mistaken for a cast |
| ExprLaws.RoundTrip | cdup/src/expr.py:211-415 | printing any tree of names, literals, operators, casts, indexing, fields and calls and parsing it returns the tree with nothing left over |
| ExprLaws.BinarySymIsInverse | cdup/src/expr.py:136-166 | the operator table loses nothing: a printed binary operator is read back as itself |
| ExprLaws.ChainHasTightTree | cdup/src/expr.py:211-224 | every operand-operator chain has a tree that binds as the powers demand |
| ExprLaws.ChainsHaveOneTree | cdup/src/expr.py:136-151 | on every chain of operands and binary operators the parser accepts, and its result is exactly the one tree with that in-order yield whose left children bind at least as tightly as their parent and whose right children bind strictly tighter |
| ExprReadings.BinaryOpsAre | cdup/src/expr.py:154-161 | the binary operators and their names are those of sections 6.5.5 to 6.5.14 of C11 |
| ExprReadings.PowersFollowLevels | cdup/src/expr.py:136-151 | one binary operator binds tighter than another exactly when its section comes first |
| ExprReadings.ChainsFollowLevels | cdup/src/expr.py:136-224 | every chain of operands and binary operators is read as the one tree over it in which left children are in no looser level than their parent and right children in a tighter one |
| ExprReadings.ThreeOperands | cdup/src/expr.py:136-224 | `a s b t c` groups to the right exactly when t is in a tighter level than s |
| ExprReadings.UnaryOpsAre | cdup/src/expr.py:163-171 | the prefix and postfix operators and their names |
| ExprReadings.TypeWordsAre | cdup/src/expr.py:174-178 | the words a cast type is made of |
| ExprReadings.OperandIsRead | cdup/src/expr.py:326-370 | any list of indexes, fields, calls and steps after an operand is applied to it in order; only a name is called by its name |
| ExprReadings.UnaryTakesProducts | cdup/src/expr.py:277-293 | a prefix operator or a cast takes its operand with all suffixes, and a following product whole; every other binary operator stays outside |
| ExprReadings.SizeofTakesOperand | cdup/src/expr.py:270-272 | `sizeof` without parentheses takes its operand alone |
| ExprReadings.SizeofTextIsRead | cdup/src/expr.py:253-269 | `sizeof ( ... )` keeps any text with balanced parentheses as it is |
| ExprReadings.ParenthesesGroup | cdup/src/expr.py:277-288 | parentheses group on either side of an operator, where they do not start with a type word |
| CloneRuns.BlockLiesInMaximal | cdup/legacy/core.py:20-57 | any repeated block lies inside one maximal repeated block at the same offset, and only one |
| CloneRuns.SameMaximal | cdup/legacy/core.py:20-57 | two maximal blocks at one offset never share a line |
| CloneRuns.MaximalIsRun | cdup/legacy/core.py:24-50 | the counter kept for an offset is the length of the maximal block ending there |
| CloneScan.InvertedIndex | cdup/legacy/core.py:15-18 | the index lists exactly the positions of each line, in order |
| CloneScan.CountMatches | cdup/legacy/core.py:28-38 | after the inner loop each open offset holds its run length including the current line |
| CloneScan.CloseRuns | cdup/legacy/core.py:40-50 | exactly the maximal blocks ending here are completed, once each, and the rest stay open |
| CloneScan.FlushRuns | cdup/legacy/core.py:52-57 | a flush completes exactly the blocks that end at the barrier or the end |
| CloneScan.ScanStep | cdup/legacy/core.py:24-50 | one position advances the run-length map and the completed list from the prefix to the longer prefix |
| CloneDetect.ScanLines | cdup/legacy/core.py:20-57 | for every line sequence the scan emits each maximal repeated block of length two or more exactly once, and nothing else |
| CloneDetect.NothingLeftToFlush | cdup/legacy/core.py:52-57 | the final flush finds no open run |
| CloneDetect.FindClones | cdup/legacy/core.py:59-70 | the classes hold, for each content, exactly the occurrences of its maximal blocks |
| CloneDetect.SpotsHoldTheContent | cdup/legacy/core.py:59-65 | every reported occurrence spells the content of its class, and each block contributes two different ones |
| CloneDetect.RepetitionIsReported | cdup/legacy/core.py:20-65 | any two equal stretches of two or more lines lie inside a reported pair |
| CloneDetect.Flatten | cdup/src/detect.py:168-193 | the flat sequence is each segment's statements in order followed by a barrier |
| CloneDetect.ScanFlat | cdup/src/detect.py:195-244 | with barriers, a minimum length and a frequency limit the scan emits exactly the maximal blocks of the filtered sequence, once each |
| CloneDetect.StretchIsInOneSegment | cdup/src/detect.py:192-193 | a stretch without a barrier lies in one segment at consecutive statements |
| CloneDetect.OccurrencesAreStretches | cdup/src/detect.py:246-258 | every reported occurrence names a real segment, spans exactly the block's length and spells its content |
| CloneSegments.CountIsFrequency | cdup/src/detect.py:195-202 | the frequency the filter compares is the number of occurrences in the segments |
| CloneSegments.LongestIsMaximal | cdup/src/detect.py:207-244 | two stretches of segments are a longest repetition exactly when their positions are a maximal block of the flat sequence |
| CloneSegments.DetectClones | cdup/src/detect.py:168-258 | an occurrence is in the class of a content if and only if it is one of two equal stretches of segments, of the wanted length, with no text too frequent, that extend neither way; and any two such stretches, longest or not, lie in occurrences of one class |
| Braces.SkipSpacesBack | cdup/src/parse.py:802-804 | finds the nearest non-blank character before a position |
| Braces.ClassifyBrace | cdup/src/parse.py:800-817 | a brace belongs to the block structure exactly when no initialiser is open and, if opening, no `=` precedes it across blanks; the initialiser depth counts the others |
| Braces.ScanBrackets | cdup/src/parse.py:748-824 | the recorded brackets are exactly the block braces, and the parentheses outside comments and literals, in order, with one past each opening one and the position of each closing one |
| Braces.CommentIsSkipped | cdup/src/parse.py:758-764 | a block comment is passed over to its first terminator whatever braces it holds |
| Braces.LineCommentIsSkipped | cdup/src/parse.py:753-757 | a line comment is passed over to the end of its line |
| Braces.LiteralIsSkipped | cdup/src/parse.py:765-782 | a string or character literal, escapes included, is passed over to its first unescaped quote |
| Braces.EvenBackslashesClose | cdup/src/parse.py:765-782 | a quote after a run of backslashes closes the literal exactly when the run is even |
| Braces.PlainTextKeepsAll | cdup/src/parse.py:748-824 | in text without comments, literals and `=` every brace counts |
| BracePieces.EveryTextHasPieces | cdup/src/parse.py:748-798 | every text is a sequence of code, comments and literals, described without the scan; only the last may lack its closing mark |
| BracePieces.PieceSkips | cdup/src/parse.py:753-798 | from code, the scan passes over a whole comment or literal, whatever initialisers are open |
| BracePieces.BracketsOfCode | cdup/src/parse.py:748-824 | the parentheses found are exactly those of the code pieces, and the braces found exactly those of the code pieces that neither open a list after `=` and blanks nor stand in a list still open |
| Braces.RunFailsWhenNegative | cdup/src/parse.py:26-75 | a pass over the braces fails exactly when some prefix closes more than it opens |
| Braces.StackIsDepth | cdup/src/parse.py:26-75 | the stack height is the nesting depth |
| Braces.RunFits | cdup/src/parse.py:26-75 | after any prefix, failing ones apart, the pairs found nest properly, the stack holds the blocks still open from outside in, and each recorded parent encloses its block |
| BracePairs.PairOpnCls | cdup/src/parse.py:26-48 | the position stack mirrors the number stack of the parent pass, and fails on the same inputs |
| BracePairs.FindNestedPairs | cdup/src/parse.py:50-75 | the parent array is that of the pass over the whole sequence, failing on the same inputs |
| BracePairs.SortKeeps | cdup/src/parse.py:835-836 | sorting by opening position keeps the pairs and orders them |
| BracePairs.AscendingIsUnique | cdup/src/parse.py:835-836 | there is one such order |
| BraceSegments.PairsNest | cdup/src/parse.py:26-48 | the blocks found nest or lie apart whether or not every bracket is closed, and each joins an opening bracket to a closing one |
| BraceSegments.SortedPairs | cdup/src/parse.py:835-838 | when the unclosed braces are the last opened, the k-th sorted pair is the block of the k-th opening brace, so pairs, numbered by closing, and parents, numbered by opening, agree after the sort |
| BraceSegments.PairsAreNested | cdup/src/parse.py:835-838 | then the parent array gives each pair its parent |
| BraceSegments.ParentIsInnermost | cdup/src/parse.py:50-75 | the recorded parent is the innermost enclosing block |
| BraceSegments.OwnerIsInnermost | cdup/src/parse.py:77-106 | the block a position belongs to lies strictly inside every other block around it |
| BraceLaws.CutFromParent | cdup/src/parse.py:91-98 | one turn cuts the block out of the segment of its recorded parent, with slices cut short where they pass its end, and leaves the other segments |
| BraceLaws.ParseCodeSegs | cdup/src/parse.py:77-106 | the loops leave in every segment what the turns of all blocks, last opened first, leave of it, for any ascending blocks and parents numbered no later than their children |
| BraceLaws.CutRoot | cdup/src/parse.py:100-104 | the same for the root segment |
| BraceLaws.LeftIsCut | cdup/src/parse.py:77-106 | with right parents each turn removes exactly the text of its own block, at every level |
| BraceLaws.KeptIsOwned | cdup/src/parse.py:77-106 | a position stays in a segment exactly when that segment's block is the innermost around it |
| BraceLaws.MineIsKept | cdup/src/parse.py:77-106 | each segment is the subsequence of characters it owns, in order |
| BraceLaws.PartitionIffParents | cdup/src/parse.py:77-106 | every place of the text is left in the segment of its innermost block and in no other if and only if the recorded parent of each non-empty block is the block around it |
| BraceLaws.RebuildsText | cdup/src/parse.py:77-106 | putting the children back at their recorded positions undoes the excision at every level |
| BraceLaws.RebuildsSpan | cdup/src/parse.py:77-106 | so the text of every block comes back whenever the parents of the non-empty blocks are right |
| BraceLaws.SegmentText | cdup/src/parse.py:733-845 | segmentation fails exactly when some prefix of the block braces or of the parentheses closes more than it opens; otherwise the blocks found stand between braces and nest, and whenever the recorded parents of the non-empty blocks are right each character is in the one segment that owns it and reinserting children rebuilds the file and the text of every block; parents are right whenever the unclosed braces are the last opened, so on all well-nested text, where there is one parent a block; each segment then carries the number of its innermost enclosing block |
| BraceLaws.FailureIs | cdup/src/parse.py:26-48 | that failure, counted on the characters: up to some place more block braces or parentheses close than open |
| BraceCases.UnclosedLeavesACopy | cdup/src/parse.py:826-842 | `{a{b}c{d}` is accepted and leaves `d` both in the root and in a segment of its own |
| Matrix.CollectWrites | cdup/src/matrix.py:359-371 | collects the slots written or declared anywhere in the subtree |
| Matrix.FlushBranchGroup | cdup/src/matrix.py:330-357 | merges the writes of adjacent branches into one join row a slot |
| Matrix.WalkSegment | cdup/src/matrix.py:401-464 | the recursive walk with its child cursor and pending branch group appends the specified rows |
| Matrix.BuildMatrix | cdup/src/matrix.py:471-503 | the matrix is the rows of each root followed by the walks of its children |
| MatrixLaws.WalkEmitsStatements | cdup/src/matrix.py:401-464 | for every segment below, the walk emits exactly its statements as rows, in its order |
| MatrixLaws.MatrixEmitsStatements | cdup/src/matrix.py:471-503 | the same for every segment of a forest |
| MatrixLaws.JoinPhisAreExact | cdup/src/matrix.py:330-357 | a join row for a slot names a scope exactly when a branch of the group with that scope writes the slot itself, and there is one row a slot |
| MatrixLaws.JoinsAreCompleteIff | cdup/src/matrix.py:330-371 | the joins name every branch whose subtree writes the slot if and only if each such branch, or one of the same path, writes it itself |
| MatrixLaws.JoinMissesNestedWrite | cdup/src/matrix.py:330-357 | a branch that writes a slot in a nested loop alone gets no join row |
| JoinLaws.FlushIsJoins | cdup/src/matrix.py:330-357 | one join a slot, with the paths of exactly the branches whose own statements write or declare it, each once |
| JoinLaws.WalkIsLaidOut | cdup/src/matrix.py:401-464 | a walk is the loop phis, the row of each statement with the walk of the child it takes, and the joins of every run of branches where the run ends: before a statement without a block, between a loop header and its body, or at the end; then the children no statement takes; there are no other rows |
| JoinLaws.MatrixIsLaidOut | cdup/src/matrix.py:471-503 | the matrix is each root's statements and the walks of its children, in order |
| LoopPhiLaws.LoopPhisAreExact | cdup/src/matrix.py:373-394 | a loop gets an entry phi for a slot exactly when some statement row anywhere in its subtree writes it |
| LoopPhiLaws.AscendingLists | cdup/src/matrix.py:384-392 | the phis come sorted, each slot once |
| LoopPhiLaws.RowsBelong | cdup/src/matrix.py:401-464 | every statement row and loop phi of a walk comes from a segment of the tree |
| LoopPhiLaws.BelongingAreRows | cdup/src/matrix.py:401-464 | and every one a segment has is in the walk |
| LoopPhiLaws.WalkIsCovered | cdup/src/matrix.py:401-464 | every loop phi of a walk is followed by a write of its slot under the loop's scope |
| LoopPhiLaws.MatrixIsCovered | cdup/src/matrix.py:471-503 | the same for the whole matrix |
| Dag.FirstRows | cdup/src/dag.py:134-139 | finds each segment's first row |
| Dag.InjectEntries | cdup/src/dag.py:128-155 | inserting entry nodes in descending position puts each entry once, directly before the first row of its segment or, without rows, at the end, and adds nothing else |
| Dag.EntryStands | cdup/src/dag.py:144-149 | only entries stand between an entry node and its segment's first row |
| Dag.WovenKeepsRows | cdup/src/dag.py:144-149 | all other rows, and each segment's statements, keep their order |
| Dag.AddEdge | cdup/src/dag.py:31-47 | no source, target and slot twice |
| Dag.RecordWrites | cdup/src/dag.py:186-190 | the two maps always name the latest writer, overall and by scope |
| Dag.LoopEnd | cdup/src/dag.py:196-210 | finds the last later write under the scope prefix, or shows there is none |
| Dag.BuildEdges | cdup/src/dag.py:157-213 | the edges are exactly the forward and back edges as defined by latest writers, and deduplication drops none |
| Dag.ForwardEdgesGoForward | cdup/src/dag.py:157-190 | forward edges increase the node number |
| DagLaws.CyclesPassALoopPhi | cdup/src/dag.py:157-213 | every cycle contains a back edge into a loop phi |
| DagLaws.ReadsHaveOneSource | cdup/src/dag.py:179-184 | a read has a data-flow edge exactly when an earlier node writes the slot, and its only source is the latest such node |
| DagLaws.JoinsHaveOneSourcePerScope | cdup/src/dag.py:172-178 | a join gets from each source scope one edge, from that scope's latest write |
| DagLaws.LoopPhiHasOneBackEdge | cdup/src/dag.py:192-213 | every loop phi gets exactly one edge from a later node |
| DagLaws.EdgesAre | cdup/src/dag.py:157-213 | an edge is in the graph if and only if it leads to a read from the slot's last definition before it, to a loop phi from the last definition before it or the last one below its loop's path after it, or to a join from the last definition of one of its paths |
| WalkOrder.MatrixOrders | cdup/src/matrix.py:401-503 | when one segment is walked before another, every row of its subtree comes before every row of the other |
| ForestLaws.OneSegmentAnId | cdup/src/matrix.py:471-503 | segments of a forest with distinct ids are told apart by id |
| ForestLaws.PlaceOf | cdup/src/matrix.py:401-503 | a segment whose path continues that of a loop lies in its subtree or wholly before or after it in the walk |
| BackEdgeLaws.BackEdgeIsFromLoop | cdup/src/dag.py:192-213 | over any segment forest and its entry nodes, a loop phi's back edge comes from a segment of the loop's own subtree if and only if no segment walked later, outside it, has the loop's path as a prefix of its own and writes the slot; an entry node of a segment without statements stands after all rows, and the first such writer decides |
| BackEdgeCases.LoopHasBackEdge | cdup/src/dag.py:192-213 | every slot a loop writes gets such an edge |
| BackEdgeCases.BackEdgeFromOtherFile | cdup/src/cli/utils.py:110-144 | two merged files with the same paths: the back edge of the first file's loop comes from the second file |
| BackEdgeCases.BackEdgeFromTenthLoop | cdup/src/dag.py:203-213 | ten loops in one function: the back edge of `loop_1` comes from `loop_10` |
| DagLaws.BuildSegStmtMap | cdup/src/cli/cmds.py:586-616 | the map sends (segment, k) to the position of the k-th statement node of the segment, equal statements told apart, and holds nothing else |
| DagLaws.BuildGraph | cdup/src/cli/cmds.py:586-616 | over any segment forest, after walk, injection and edge building, the map sends (segment, k) to the node made from that segment's k-th statement, with exactly k of its statements before it, for every statement and for no other key |
| CloneGraph.NodesInTurn | cdup/src/cli/cmds.py:695-699 | when the map knows every statement of a stretch, the lookup loop returns their nodes in turn |
| CloneGraph.OccurrenceStands | cdup/src/cli/cmds.py:681-709 | an occurrence of a class stands on the nodes of consecutive statements of its own segment, in ascending order and none missing, whose normalised texts spell the content |
| CloneGraph.PlaceClones | cdup/src/cli/cmds.py:681-709 | the loops over classes and occurrences place each reported occurrence, and nothing else |
| CloneGraph.LocateClones | cdup/src/cli/cmds.py:677-709 | walk, graph, map and detection over one forest: every reported occurrence has a node for each of its statements; any two occurrences of a class stand on as many nodes, of statements equal one by one; and any two stretches of statements with equal texts lie in placed occurrences of one class |
| Vm.Machine.RunSeg | cdup/src/vm.py:584-594 | executing a segment on the mutable machine gives the specified outcome, memory, trace and cap flag |
| Vm.Machine.RunStmt | cdup/src/vm.py:596-620 | each statement kind takes the next child where it should |
| Vm.Machine.RunLoop | cdup/src/vm.py:970-1037 | the loop with its test, cap, update and signals gives the specified outcome |
| VmLaws.ExecGrows | cdup/src/vm.py:584-620 | the trace only grows and the cap flag, once set, stays |
| VmLaws.SegMonotone | cdup/src/vm.py:584-1037 | a run that ends uncapped is the same under every larger unroll limit: same outcome, memory, trace and flag |
| VmLaws.LoopMonotone | cdup/src/vm.py:970-1037 | the same for a loop entered at any iteration |
| VmLaws.UncappedRunsAgree | cdup/src/vm.py:584-1037 | any two limits under which a program ends uncapped give the same run |
| VmLaws.SegRows | cdup/src/vm.py:584-1037 | a run adds at most W(segment) trace rows, a loop contributing the limit times one plus the body's bound |
| VmLaws.LoopRows | cdup/src/vm.py:970-1037 | the loop's share of that bound, from any iteration |
| VmLaws.ElseAlwaysRuns | cdup/src/vm.py:942-966 | wherever the pair stands in a segment and in an iteration, the else body runs after a then part that ends normally, and the statements after the pair follow when it does too |
| VmLaws.ElseRunsIff | cdup/src/vm.py:942-966 | the else body runs exactly when the condition is false or the then body ends normally |
| VmLaws.LoopCatchesBreaks | cdup/src/vm.py:970-1037 | no break or continue leaves a loop |
| VmLaws.DeadCodeIsDropped | cdup/src/vm.py:584-594 | statements after a break, continue or return change no run |
| VmRuns.SegmentRuns | cdup/src/vm.py:584-594 | statements run in order, the k-th branch or loop with the k-th child, up to the first that does not end normally |
| VmRuns.BranchRuns | cdup/src/vm.py:942-966 | the body of a branch runs exactly when its condition is missing or not zero |
| VmRuns.ReturnRuns | cdup/src/vm.py:806-832 | a return leaves with its value, its row recorded first |
| VmRuns.ControlRuns | cdup/src/vm.py:806-832 | break and continue leave as such, any other control statement falls through, and each records its row |
| VmRuns.ChildlessRuns | cdup/src/vm.py:614-616 | a branch with no child left does nothing and a loop fails |
| VmRuns.LoopRuns | cdup/src/vm.py:970-1037 | a loop ends in a state if and only if whole turns lead from its initialisation to one where it ends so: by a zero or missing condition, at the limit, by a break without an update, or by another exception; a turn tests, runs the body to its end or a continue, and updates, a do loop testing last |
| VmRuns.WhileCounts | cdup/src/vm.py:1016-1037 | `while (i < n) i = i + 1` ends at n after n turns within the limit |
| Initializers.SplitElements | cdup/src/vm.py:131-139 | the scan cuts at commas outside nested braces |
| Initializers.SpacesAre | cdup/src/vm.py:128-151 | the white space stripped is tab to carriage return and space |
| Initializers.ParseBrace | cdup/src/vm.py:115-151 | splitting, the blank tail and the recursion into elements meet the specification for any text |
| InitializerLaws.ScansDoc | cdup/src/vm.py:131-137 | an element is scanned without a cut however deeply it nests |
| InitializerLaws.BodyIsCut | cdup/src/vm.py:131-139 | a list body is cut into exactly its elements, with or without a trailing comma |
| InitializerLaws.StripThenSplit | cdup/src/vm.py:128-139 | stripping the body first changes no element |
| InitializerLaws.BracesAreRead | cdup/src/vm.py:115-151 | every layout of a nested list, with any white space and optional trailing commas, is read as that list |
| InitializerLaws.PrintedListIsRead | cdup/src/vm.py:86-151 | printing any nested list, empty sublists included, and reading it gives it back whenever the scalars in it read back |
| Numerals.IntIsRead | cdup/src/vm.py:101-104 | every printed integer, negative ones included, is read back as that integer |
| Numerals.IntegerListIsRead | cdup/src/vm.py:86-151 | every nested list of integers, printed and read with the int-then-float-then-text reader, comes back, whatever float accepts |
| Numerals.PrefixedIsRead | cdup/src/vm.py:101-104 | hexadecimal, octal and binary texts are read in their bases, with either sign |
| NumeralGrammar.DigitsAre | cdup/src/vm.py:101-104 | digits count up from 0 and letters of either case from 10 |
| NumeralGrammar.UnsignedIs | cdup/src/vm.py:101-104 | an unsigned text is read as v if and only if it spells v in decimal, only zero starting with 0, or behind a prefix in base 16, 8 or 2, with at most one underscore before each digit but a first one |
| NumeralGrammar.ReadIntIs | cdup/src/vm.py:101-104 | the whole text is read as an integer exactly when, stripped, it is such a text behind a sign or none |
| Numerals.PlainIsRead | cdup/src/vm.py:86-112 | without braces an integer is read as itself and a quoted text without its quotes |
| Heap.WriteThenRead | cdup/src/vm.py:465-492 | a write succeeds exactly where a read does and changes that cell only |
| Heap.Machine.AllocHeap | cdup/src/vm.py:449-463 | allocates from the counter, zeroed, one cell for each whole element and at least one |
| Heap.Machine.InternString | cdup/src/vm.py:502-514 | places the characters and a terminator at the counter |
| Heap.Machine.ListToHeap | cdup/src/vm.py:516-532 | stores a list and its sublists as specified |
| Heap.Machine.StrLen | cdup/src/vm.py:1310-1323 | the walk ends at the first terminator, at the cap, or where memory ends |
| Heap.Machine.StrCmp | cdup/src/vm.py:1337-1348 | the answer is decided at the first difference or common end; the walk always ends |
| Heap.Machine.StrCpy | cdup/src/vm.py:1325-1335 | copies a string into a separate writable block cell by cell and changes nothing else |
| HeapLaws.SeriesFillsOneStretch | cdup/src/vm.py:449-532 | any series of flat allocations fills one stretch end to end |
| HeapLaws.BlocksStayApart | cdup/src/vm.py:449-532 | after any such series every block still holds what was put there, blocks share no cell and nothing outside the stretch changed |
| HeapLaws.AllocationHolds | cdup/src/vm.py:449-514 | an allocated block reads zero everywhere, an interned string reads as its characters and a terminator |
| HeapLaws.InternedAreRead | cdup/src/vm.py:502-514 | two strings interned one after the other have their lengths under strlen and their order under strcmp |
| HeapLaws.FlatListIsPlaced | cdup/src/vm.py:516-532 | a flat list is one allocation of its values |
| HeapLaws.RowsApartOnlyIfEmpty | cdup/src/vm.py:522-531 | the blocks of a stored list are disjoint if and only if all its sublists are empty |
| HeapLaws.RowIsOverwritten | cdup/src/vm.py:522-531 | the row of `{{x}}` is replaced by its own address |
| HeapLaws.LengthIsCapped | cdup/src/vm.py:1310-1323 | strlen of a stored string is its length, or 100001 beyond 100000 |
| HeapLaws.CompareIsOrder | cdup/src/vm.py:1337-1348 | strcmp is zero exactly on equal strings and has the sign of their lexicographic order |
| HeapLaws.CopyIsString | cdup/src/vm.py:1325-1335 | after strcpy both places hold the string |
| HeapLaws.StringFitsBlock | cdup/src/vm.py:449-463 | a string fits a malloc block exactly when it is empty or four bytes a cell were asked for |
| UnionFind.HalvingKeepsRoots | cdup/src/detect.py:648-652 | path halving changes no element's root |
| UnionFind.LinkRoots | cdup/src/detect.py:653-656 | linking two roots moves exactly the members of the first |
| UnionFind.Forest.Find | cdup/src/detect.py:648-652 | find terminates, returns the root and changes no root |
| UnionFind.Forest.Union | cdup/src/detect.py:653-656 | union merges exactly the two classes |
| UnionFind.RootOfAnyRank | cdup/src/detect.py:646-656 | the root does not depend on the rank that shows termination |
| UnionFind.OneRootIsConnected | cdup/src/detect.py:646-690 | after any series of unions two elements share a root exactly when the pairs connect them |
| UnionFind.Components | cdup/src/detect.py:680-687 | the classes are exactly the connected components of the surviving pairs and no segment is in two |
| Primes.SieveOfE | test_code/python_test/EraPrime.py:4-20 | the sieve returns the primes below n in order, for every integer n |
| Primes.ClearMultiples | test_code/python_test/EraPrime.py:13-14 | clears exactly the proper multiples |
| Primes.UnmarkedIsPrime | test_code/python_test/EraPrime.py:10-14 | a number no smaller prime divides is prime |
| Primes.WilsonTest | test_code/python_test/IbnPrime.py:3-16 | the factorial test returns the same list |
| Primes.Wilson | test_code/python_test/IbnPrime.py:8-11 | n is prime if and only if n divides (n-1)! + 1 |
| Primes.WilsonPrime | test_code/python_test/IbnPrime.py:8-11 | the direction that pairs each residue with its inverse |
| Primes.InverseWorks | test_code/python_test/IbnPrime.py:8-11 | every residue of a prime has an inverse |
| Primes.ClosedProductIsOne | test_code/python_test/IbnPrime.py:8-11 | a set closed under inverses and without 1 and p-1 has product one |
| Primes.PrimesBelowLists | test_code/python_test/EraPrime.py:15-20 | the common list is increasing and holds exactly the primes below n |
| BufferPool.Pool.Fetch | test_code/failure_codes/buffer_pool.cpp:110-177 | a fetch, with any allocation outcome, moves the pool to the specified state and returns the page exactly when the pool is healthy and the page is resident or loads; the eviction-failed branch is unreachable |
| BufferPool.Pool.Evict | test_code/failure_codes/buffer_pool.cpp:196-216 | removes the least recently used page from both structures and says whether it could |
| BufferPool.FetchedIsSound | test_code/failure_codes/buffer_pool.cpp:110-177 | the LRU list stays free of duplicates and within capacity whatever fails |
| BufferPool.AfterIsSound | test_code/failure_codes/buffer_pool.cpp:84-177 | after any trace from a new pool of any capacity |
| BufferPool.RecentIs | test_code/failure_codes/buffer_pool.cpp:117-123 | the reference order is every page once, by last use |
| BufferPool.ResidentAreRecent | test_code/failure_codes/buffer_pool.cpp:110-177 | without failures the residents after any trace are exactly the `capacity` most recently used distinct pages, in order |
| BufferPool.LargerPoolIncludes | test_code/failure_codes/buffer_pool.cpp:110-177 | a larger pool holds everything a smaller one holds |
| BufferPool.LargerPoolHitsMore | test_code/failure_codes/buffer_pool.cpp:110-177 | and never has fewer hits |
| BufferPool.CountersAre | test_code/failure_codes/buffer_pool.cpp:110-177 | without failures the hits are the requests for one of the `capacity` most recently used pages, the rest are misses, and every page missed is resident or was evicted |
| BufferPool.RequestsAreCounted | test_code/failure_codes/buffer_pool.cpp:110-177 | whatever fails, a healthy pool has counted every request once |
| BufferPool.StopsAfterThreeFailures | test_code/failure_codes/buffer_pool.cpp:136-169 | the pool turns unhealthy exactly at the third failure since the last load |
| GraphSearch.Expand | test_code/failure_codes/graph_search.cpp:66-73 | expanding a node keeps parents one step nearer, the queue sorted over two levels, and everything known reachable |
| GraphSearch.Search | test_code/failure_codes/graph_search.cpp:54-74 | the search ends, with all known nodes expanded or at a node that is no key |
| GraphSearch.DistancesAreShortest | test_code/failure_codes/graph_search.cpp:62-74 | the distances are defined on exactly the reachable nodes and are lengths of shortest paths |
| GraphSearch.ParentPath | test_code/failure_codes/graph_search.cpp:70-70 | parents lead to a real path of the recorded length |
| GraphSearch.PathTo | test_code/failure_codes/graph_search.cpp:79-87 | following parents ends at the source and spells a path of that length, backwards |
| GraphSearch.Bfs | test_code/failure_codes/graph_search.cpp:54-91 | on any graph: an exception exactly when some reachable node is no key, otherwise shortest distances and paths for exactly the reachable nodes |
| SchedulerLaws.FlagsKept | test_code/labs/labchat/main.cpp:295-340 | in every interleaving the shared flag is the current producer's and a scheduler exits only after everything was pushed |
| SchedulerLaws.SliceServes | test_code/labs/labchat/main.cpp:190-216 | a slice leaves a job with full slices behind it, or done after exactly max(1, ceil(burst/quantum)) slices |
| SchedulerLaws.StepKeeps | test_code/labs/labchat/main.cpp:132-340 | every step of every thread keeps the invariant |
| SchedulerLaws.RunKeeps | test_code/labs/labchat/main.cpp:132-340 | so it holds after every schedule |
| SchedulerLaws.FirstSchedulerCompletesAll | test_code/labs/labchat/main.cpp:132-169 | when the first scheduler exits it has completed every process once, and the other queue still holds all of them |
| SchedulerLaws.RoundRobinConserves | test_code/labs/labchat/main.cpp:172-220 | pushed copies are queued, in hand or completed, and the clock is the work pushed less the work left |
| SchedulerLaws.RoundRobinCompletesAll | test_code/labs/labchat/main.cpp:172-220 | at exit every pushed copy is complete, after the slices its burst needs, and the clock is the total burst |
| SchedulerLaws.CompletionsAreStamped | test_code/labs/labchat/main.cpp:156-208 | first-phase completion times are running sums of bursts; round-robin ones never decrease |
| SchedulerLaws.FcfsTakesEarliest | test_code/labs/labchat/main.cpp:132-152 | the first scheduler takes a process exactly when it is free and none pushed and not yet served arrived earlier |
| SchedulerLaws.RrStampsWorkDone | test_code/labs/labchat/main.cpp:186-217 | a slice completes a job exactly when at most a quantum was left, stamped with the work done so far |
| SchedulerLaws.SomeStepIsEnabled | test_code/labs/labchat/main.cpp:132-340 | no interleaving deadlocks before the round-robin scheduler exits |
| SchedulerLaws.RankDrops | test_code/labs/labchat/main.cpp:132-340 | every step uses up a bounded amount of remaining work |
| SchedulerLaws.EveryRunEndsDone | test_code/labs/labchat/main.cpp:132-340 | schedules have bounded length, and one that cannot go on has completed everything twice |
| SchedulerLaws.WaitsForThoseAhead | test_code/labs/labchat/main.cpp:183-217 | a job with k others ahead runs after exactly k slices, plus one in progress, whatever is pushed meanwhile |
| Trie.InsertAt | _code_examples/solution_better/programs/lib/trie.h:43-53 | inserting below a possibly null node adds exactly the string's stem to its marks and keeps the tree well formed |
| Trie.ContainsAt | _code_examples/solution_better/programs/lib/trie.h:60-67 | finds a string exactly when its stem is marked |
| Trie.Trie.Insert | _code_examples/solution_better/programs/lib/trie.h:55-58 | adds one word to the trie's history |
| Trie.Trie.Contains | _code_examples/solution_better/programs/lib/trie.h:69-72 | answers whether some inserted word shares the string's stem |
| Trie.InsertAll | _code_examples/solution_better/programs/lib/trie.h:25-58 | any series of inserts leaves a trie of exactly those words |
| Trie.FoundIsAllButLast | _code_examples/solution_better/programs/lib/trie.h:43-67 | that is: same length and agreement on all but the last byte |
| Trie.ExactIffStemsDiffer | _code_examples/solution_better/programs/lib/trie.h:43-67 | lookups over a language are set membership if and only if no two of its strings differ in the last byte alone |
| Trie.LinesAreExact | _code_examples/solution_better/programs/mismatch.c:13-21 | strings ending in one common byte are looked up exactly, as are lines that keep their newline |
| Trie.FalseHit | _code_examples/solution_better/programs/lib/trie.h:50-51 | "ac" is found after inserting only "ab" |

## Left out

- Character-level tokenising, number suffixes and the Python recursion limit in `expr.py`: the parser works on a token list ending in EOF. `extract_condition` and `build_assign_expr` only rearrange text.
- The text normalisations, the SHA-256 block names, the `{}` replacement and the Type II expansion of `detect.py`: a statement's normalised text is an input, equal texts being equal keys.
- The order in which Python iterates dictionaries and sets is arbitrary in the model, and the final sort of clone classes by size is not modelled.
- The similarity measure of Type III detection: the union-find starts from the pairs that survive it. Choosing a representative occurrence for each segment is not modelled.
- Everything after segmentation in `parse_c_file`: cleaning, statement splitting, naming and classification. The segments of the parentheses are cut and dropped, as in the source; the IndexError of a premature closing bracket is `PopError`.
- CloneSegments.DetectClones: ends before `detect_clones` drops classes contained in longer ones (`maximal`) and classes whose occurrences overlap in one segment (`filter_overlaps`), which it does by default; those two filters are not modelled. `CloneGraph` places the classes from before them, which include those left after.
- Slot resolution and scope naming: the walk takes a segment tree with classified statements, their read, written and declared slots, and scope paths that extend their parent's. Slots are numbers in the order of their names.
- Row fields that neither the graph nor the map uses (raw text aside).
- Expression evaluation, user-defined calls, printf, floats and the frames of the interpreter: an expression is any function from memory to memory and value, or an exception. Statements that swallow exceptions are part of those functions.
- Vm.Machine.RunStmt: does not model the separate statement handlers for declarations, assignments and calls, because each is one arbitrary effect on memory that may record a row.
- Initializers.ParseBrace: takes the readers of scalar text as parameters. `Numerals` gives them for `int(text, 0)`; which texts `float` accepts stays a parameter, and digits are the ASCII ones, with no limit on the length of a numeral. White space is the six ASCII characters; Python's strip also drops Unicode spaces.
- The type stored beside each heap value, string arguments that are interned on first read, memset, memcpy and pointer arithmetic.
- Heap.Machine.StrCpy: promises nothing when source and destination overlap or the destination is too small, because C leaves that undefined; the method still ends.
- C++ integer overflow in clocks, counters and distances; page bytes, dirty write-back, the destructor and all printing in the buffer pool.
- Sleeping, console output, `executeProcess` (never called), and turnaround and waiting times of the scheduler, which are differences of modelled values. A locked region is one step; the slice counter of a job is kept by the model alone.
- `trie_delete`, malloc failure in the trie, and the contents of freed memory.
- `runtime_chaos/`, `security_toolkit/`, `comments/`, rendering and export, the Java preprocessor and the other sample programs: they would add easy members or rest on libraries.
