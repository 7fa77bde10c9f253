# Verified models of the regex engine, the cache simulator and other stateful programs

This project models the parts of the repository that are hardest to get right and proves what they
are for. Each part has a specification on values and, where the source changes objects, arrays or
lists in place, classes and methods that are proved to refine it. What a specification answers is in turn
pinned by laws that do not mention its body (`KernelLaws`, `FileTreeLaws`, `CacheLaws`, `SrtLaws`,
`FrameLaws`, `PatternLaws`).

`dafny verify dfyconfig.toml` checks everything.

| part | files |
|---|---|
| regular expressions: tree, derivatives, automaton, simulation, parser, agreement | `RegexAst`, `Derivative`, `DerivativeEngine`, `NfaGraph`, `NfaLanguage`, `NfaConstructor`, `NfaSimulation`, `NfaEngine`, `ParserSpec`, `Parser`, `Grammar`, `GrammarProofs`, `PatternLaws`, `EnginesAgree`, `NulInput` |
| LRU cache simulator | `PowersOfTwo`, `Cardinality`, `LruSpec`, `CacheSet`, `CacheTrace`, `CacheLaws`, `Cache` |
| union-find | `Cardinality`, `PowersOfTwo`, `UnionFind` |
| Shell sort | `Comparable`, `ShellSort` |
| priority queue | `Comparable`, `PriorityQueue` |
| SRT connection protocol and segment framing | `Srt`, `SrtLaws`, `SegFrame`, `FrameLaws` |
| in-memory file system | `FileTree`, `FileTreeLaws`, `FileSystem` |
| MiniprocOS system calls and scheduler | `Cardinality`, `Kernel`, `KernelLaws` |

**Regular expressions.** A tree denotes a set of strings (`RegexAst.L`). The derivative matcher is
proved against it by the quotient of languages. For the automaton, `NfaLanguage.Build` gives the graph
that the visitor builds, node by node in the order of the `nodes` vector; its paths are cut at the
nodes that fragments share (`Null` and `Rep` start and end in one node, `Seq` adds an edge out of a
node that may have edges already) by treating each fragment as a closed region with one bridge out.
The visitor on node objects refines `Build`, and the work-list simulation is proved to hold exactly the
nodes reachable on the characters read. A NUL in the input is looked up as a character but is the
label of the epsilon edges: `NulInput.CorrectIffNulFree` says that the inputs decided correctly by the
engines of all patterns are exactly those without NUL; for any other input it gives a pattern whose
engine accepts it wrongly. The parser refines a parsing function, which is proved
sound and complete for a grammar of patterns with a meaning of its own; so both engines answer whether
the input is in the language that the pattern stands for, the empty pattern included. The groups of a
pattern are numbered from 1 to their number, each with a greater number than those inside it.

**LRU cache.** A set is two doubly linked lists between sentinels. Each access refines `Touch` on the
list of tags in use, which is shown to be the most recently used distinct tags, newest first. From
this follows the inclusion property: more lines per set never lose a hit. An access hits exactly when its
tag was used in its set before, with fewer than E other tags since, and the totals count these places in
the trace.

**Union-find.** Recursive path compression on the parent array changes no root, roots weigh their
trees, and the answers are the equivalence closure of the pairs connected so far.

**Shell sort.** Each pass sorts along its gap and keeps the order along every earlier gap. The proof
counts, in each column of the array, the elements that a given element precedes.

**Priority queue.** `pop` swaps the last item into slot 0, one above the real root, and sinks it from
there; it removes one maximum, which stays in slot 0.

**SRT.** One client and one server socket exchange segments over two channels that keep order and lose
what they like; the retry loop and the two segment handlers interleave at single sends, writes and
checks. The first SYNACK is addressed to whatever `client_portNum` held before, so that port is
arbitrary in the model. Besides safety, recovery is proved: whatever was lost before, a call that has
tries left can still return 0. The framing decoder is one function, which the byte loop of `recvseg` refines
for arbitrary full-size segments: the buffer is never left, and after a frame that ends early the
decoder is ready for the next frame again. Everything comes out as sent exactly when no segment holds
the end mark. In arbitrary input the decoder finds what stands between the first "&" behind an odd number
of "!" and the first end mark behind it: it takes "!" between frames in pairs, so "!!&" opens none.

**SimpleFS.** Directories on the heap list their children and one global list holds all entries. In
every reachable state the names form a tree, each directory lists exactly the entries that its path
prefixes, and removing an entry removes exactly what lies below its path. Creating succeeds exactly for a
free name directly in a directory that is there; as the source cuts the path at the last '/' and takes
the rest as a directory's name, both "/x" and "//x" lie in the root. `FileSystem.PerformAll` carries
this over to the objects, for any sequence of calls.

**MiniprocOS.** Over all runs, a blocked process waits for exactly one live process, an exit wakes its
waiters, and a runnable process runs within `NPROCS` calls of `schedule()`. When nobody is runnable, so that
the search of `schedule()` never ends, every blocked process is held up by a cycle of processes that wait
for one another. The status of a process that exits unnoticed is kept until the first wait for it, which
returns it and frees the descriptor.

Where the code departs from its comments, or from what a reader may expect, the model follows the code:

- `srt_client_connect` returns 0 on success where its comment says 1, and gives up after exactly four
  segments where the comment has it send more than `SYN_MAX_RETRY`, which is five
  (`Srt.GivesUpAfterFour`).
- `num` in the pattern parser adds digits up: `{12}` means three copies (`GrammarProofs.TwelveMeansThree`).
  `Grammar.CountIsDecimalIff` says when a count means what it says.
- `simplefs_create` tests `fi->flags|O_EXCL`, which is always true: creating an existing entry always
  fails with `EEXIST`. `rmdir` removes directories that are not empty.
- An exit leaves the flags in the `waitingQ` of an emptied descriptor behind; they mean nothing there,
  and `do_fork` clears them.

## Model

| member | source | states |
|---|---|---|
| Derivative.NullableCorrect | PL/Regex/Derivative.hpp:8-59 | the null check decides whether the empty string is in the tree's language |
| Derivative.DerivativeCorrect | PL/Regex/Derivative.hpp:66-132 | the derivative by c denotes the rests of the words that begin with c |
| Derivative.NullCheck.Check | PL/Regex/Derivative.hpp:17-59 | the visitor that overwrites `containNull` answers that question |
| Derivative.Differentiator.Drv | PL/Regex/Derivative.hpp:77-132 | the visitor that overwrites `r` builds the derivative |
| DerivativeEngine.Engine.Match | PL/Regex/DerivativeEngine.hpp:28-29 | true exactly when the input is in the language |
| DerivativeEngine.Engine.MatchHelper | PL/Regex/DerivativeEngine.hpp:47-51 | true exactly when the rest of the input is in the language |
| DerivativeEngine.Engine.Search | PL/Regex/DerivativeEngine.hpp:18-26 | the leftmost-longest non-empty match; "" exactly when no non-empty substring matches |
| DerivativeEngine.Engine.SearchHelper | PL/Regex/DerivativeEngine.hpp:38-45 | the end of the longest match that starts here, or 0 |
| NfaLanguage.BuildLanguage | PL/Regex/NFA.hpp:106-195 | for every tree without `Empty` or a NUL character, wherever its fragment is placed, its start-to-end paths spell exactly the words of the tree, '.' edges matching any character |
| NfaLanguage.BuildClosed | PL/Regex/NFA.hpp:114-195 | no edge leaves the nodes that a fragment added |
| NfaLanguage.AltLanguage | PL/Regex/NFA.hpp:140-159 | the paths of an alternation are those of either side |
| NfaLanguage.SeqLanguage | PL/Regex/NFA.hpp:161-174 | the paths of a sequence are the concatenations, although an end node may have edges already |
| NfaLanguage.RepLanguage | PL/Regex/NFA.hpp:176-188 | the paths of a repetition, whose start is its end, are the star |
| NfaLanguage.CharLanguage | PL/Regex/NFA.hpp:114-122 | a two-node fragment spells the single characters its label accepts |
| NfaLanguage.NullLanguage | PL/Regex/NFA.hpp:130-135 | a one-node fragment spells the empty string only |
| NfaGraph.CrossBridge | PL/Regex/NFA.hpp:161-174 | a path that leaves a region through its one bridge splits there, and is shorter behind it |
| NfaConstructor.NFAConstructor.Construct | PL/Regex/NFA.hpp:106-109 | the node objects form exactly the graph of the tree, with its start and end |
| NfaConstructor.NFAConstructor.Visit | PL/Regex/NFA.hpp:114-192 | visiting a tree appends exactly the nodes and edges of its fragment to any graph built before |
| NfaConstructor.NFAConstructor.JoinAlt | PL/Regex/NFA.hpp:149-158 | two new nodes and four epsilon edges around two fragments |
| NfaConstructor.NFAConstructor.JoinSeq | PL/Regex/NFA.hpp:170-173 | one epsilon edge from the first fragment's end to the second's start |
| NfaConstructor.NFAConstructor.LoopRep | PL/Regex/NFA.hpp:182-187 | one new node that is both start and end, and two epsilon edges |
| NfaConstructor.Node.AddEdge | PL/Regex/NFA.hpp:32-38 | one more target under the label, created if absent, all others kept |
| NfaEngine.Engine.AddEpsilon | PL/Regex/NFAEngine.hpp:103-127 | adds exactly the nodes that epsilon edges lead to; terminates on cyclic graphs |
| NfaEngine.Engine.ExploreStep | PL/Regex/NFAEngine.hpp:109-125 | one turn of the search keeps what is visited reached, and closed but for the queue |
| NfaEngine.Engine.VisitedIsClosure | PL/Regex/NFAEngine.hpp:109-127 | a visited set closed under epsilon edges holds the whole epsilon closure |
| NfaEngine.Engine.Enqueue | PL/Regex/NFAEngine.hpp:116-125 | the inner loop queues, marks and records exactly the targets not visited before |
| NfaEngine.Engine.NextMap | PL/Regex/NFAEngine.hpp:45-76 | the new map holds exactly the nodes that some old node reaches on the character, in whatever order the map is read |
| NfaEngine.Engine.NoneHeldLater | PL/Regex/NFAEngine.hpp:43-79 | leaving the loop early is right: once the map is empty it stays empty |
| NfaEngine.Engine.Simulate | PL/Regex/NFAEngine.hpp:32-77 | after i characters `oldmap` is exactly the set of nodes held after the first i characters |
| NfaEngine.Engine.Match | PL/Regex/NFAEngine.hpp:28-89 | for trees without `Empty` or a NUL character and NUL-free input, true exactly when the input is in the language |
| NfaSimulation.LastCharacter | PL/Regex/NFAEngine.hpp:53-71 | the last character of a path is consumed by one edge followed by epsilon edges only |
| NfaSimulation.HeldIsReachable | PL/Regex/NFAEngine.hpp:38-77 | on NUL-free input the nodes held are exactly those reachable from start on the characters read |
| NfaSimulation.AcceptedIsLanguage | PL/Regex/NFAEngine.hpp:79-88 | on NUL-free input the verdict is membership in the language |
| NulInput.NulInputIsAcceptedWrongly | PL/Regex/NFAEngine.hpp:63-71 | the engine of the pattern "ab" accepts an input with a NUL between the two characters, which is not in the language |
| NulInput.CorrectIffNulFree | PL/Regex/NFAEngine.hpp:19-89 | an input is decided correctly by the engines of all patterns the parser accepts if and only if it holds no NUL |
| NulInput.DecoyParses | PL/Regex/Parser.cpp:51-104 | the pattern made of ".{0}?" for each NUL of an input and "." for each other character has the tree that misleads the automaton |
| NulInput.DecoyFails | PL/Regex/NFAEngine.hpp:63-71 | every input that holds a NUL is accepted by the engine of such a pattern, in whose language it is not |
| NulInput.DecoyHeld | PL/Regex/NFA.hpp:26-38 | a NUL in the input crosses an epsilon edge, whose key is 0 |
| Parser.Parser.Parse | PL/Regex/Parser.cpp:9-23 | fails exactly where the parsing function does, otherwise delivers its tree and the number of groups plus one |
| Parser.Parser.Regex | PL/Regex/Parser.cpp:25-38 | alternatives, position and group counter, as the parsing function says |
| Parser.Parser.Seq | PL/Regex/Parser.cpp:40-49 | sequences, likewise |
| Parser.Parser.Factor | PL/Regex/Parser.cpp:51-108 | an operand and its operators, likewise |
| Parser.Parser.Atom | PL/Regex/Parser.cpp:55-64 | the operand of a factor, likewise |
| Parser.Parser.Operators | PL/Regex/Parser.cpp:66-107 | the loop over `* + ? {}`, likewise |
| Parser.Parser.Repeat | PL/Regex/Parser.cpp:98-101 | the loop that desugars a range builds the alternatives from r1 to r2 copies |
| Parser.Parser.Range | PL/Regex/Parser.cpp:110-136 | the bounds as written, or failure |
| Parser.Parser.Num | PL/Regex/Parser.cpp:188-201 | the sum of the digits, or failure without a digit or a delimiter |
| Parser.Parser.CapturedRe | PL/Regex/Parser.cpp:138-156 | capturing and non-capturing parentheses, or failure |
| Parser.Parser.CharSet | PL/Regex/Parser.cpp:158-186 | the tree of a character set, built from the stack |
| Grammar.CopiesMeaning | PL/Regex/Parser.cpp:91-96 | cnt copies denote the cnt-th power |
| Grammar.BetweenMeaning | PL/Regex/Parser.cpp:98-101 | a range denotes the union of the powers from the lower to the higher bound |
| Grammar.SetMeaning | PL/Regex/Parser.cpp:158-186 | a character set denotes the union of its characters' languages |
| Grammar.CountIsDecimalIff | PL/Regex/Parser.cpp:192-194 | a count is the number it is written as exactly when all digits before the last are 0 |
| GrammarProofs.TwelveMeansThree | PL/Regex/Parser.cpp:192-194 | the pattern "a{12}" is three copies of a |
| GrammarProofs.CountedMeaning | PL/Regex/Parser.cpp:87-101 | bounds in either order denote the powers between their minimum and maximum |
| GrammarProofs.OpSound | PL/Regex/Parser.cpp:66-104 | each operator read denotes its meaning: star, one or more, optional, range |
| GrammarProofs.OpComplete | PL/Regex/Parser.cpp:66-104 | each operator written is read with its meaning |
| GrammarProofs.AltsSound | PL/Regex/Parser.cpp:25-186 | whatever is parsed from a position is the text of a pattern, and the tree has the pattern's meaning |
| GrammarProofs.AltsComplete | PL/Regex/Parser.cpp:25-186 | every pattern's text is parsed to its end, into a tree with its meaning |
| GrammarProofs.ParserAcceptsGrammar | PL/Regex/Parser.cpp:9-201 | the parser fails exactly on strings that no pattern of the grammar spells |
| GrammarProofs.ParserKeepsMeaning | PL/Regex/Parser.cpp:9-201 | the tree denotes the language that the pattern stands for, the empty pattern included |
| GrammarProofs.GroupsAreCounted | PL/Regex/Parser.cpp:138-156 | the group counter ends at the number of groups that the pattern captures |
| PatternLaws.SingleCharacter | PL/Regex/Parser.cpp:25-64 | every single character is a pattern, for the tree of itself, but NUL, the alternation sign and `*+?{([` |
| PatternLaws.DotStandsForAny | PL/Regex/NFA.hpp:114-122 | both verdicts on "." are true exactly for the strings of length 1 |
| PatternLaws.CountsParse | PL/Regex/Parser.cpp:188-201 | "a{d}" parses for every non-empty string d of the ten digits, with blanks and tabs around it, and means as many copies as the digits add up to |
| PatternLaws.OnlyDigitsCount | PL/Regex/Parser.cpp:110-201 | "a{c}" parses for the ten digits c only, "a{c1}" for these, the blank and the tab only |
| PatternLaws.RangesParse | PL/Regex/Parser.cpp:110-136 | "a{d,e}" parses for all such d and e, and means the powers between the two sums |
| EnginesAgree.ParsedIsFit | PL/Regex/Parser.cpp:9-186 | parsed trees have no `Empty` and no NUL character; their groups have numbers from 1 to the counter, each greater than those inside it |
| EnginesAgree.ReFit | PL/Regex/Parser.cpp:25-156 | the same from any position and counter g: the groups' numbers lie in (g, new counter], each above those inside it |
| EnginesAgree.DerivativeVerdictIsLanguage | PL/Regex/DerivativeEngine.hpp:47-51 | deriving by each character and checking for null decides membership |
| EnginesAgree.EnginesAgree | PL/Regex/NFAEngine.hpp:28-89 | for every pattern the parser accepts and every NUL-free input the two engines agree |
| EnginesAgree.EnginesMatchGrammar | PL/Regex/DerivativeEngine.hpp:28-51 | end to end, for every accepted pattern, both verdicts are membership in the language the pattern stands for |
| EnginesAgree.MatchBoth | PL/Regex/DerivativeEngine.hpp:12-29 | the same of the two engine objects, built from one pattern, the empty one included, and run |
| LruSpec.RecencySpec | C/CSAPPLab/cache/csim.c:208-233 | the recency list holds each tag used once, ordered by last use |
| LruSpec.LinesAreMostRecent | C/CSAPPLab/cache/csim.c:203-235 | a set holds exactly the E most recently used distinct tags, newest first |
| LruSpec.Inclusion | C/CSAPPLab/cache/csim.c:203-235 | what is held with E lines is the head of what is held with more |
| CacheSet.InsertCacheLineAfter | C/CSAPPLab/cache/csim.c:53-62 | the list stays doubly linked, with the new line behind the given one and all tags kept |
| CacheSet.DeleteCacheLine | C/CSAPPLab/cache/csim.c:65-72 | the list stays doubly linked without the line, all other tags kept |
| CacheSet.SearchCacheLineByTag | C/CSAPPLab/cache/csim.c:76-84 | the first line with the tag, null exactly when there is none |
| CacheSet.IsCacheLinesEmpty | C/CSAPPLab/cache/csim.c:86-89 | true exactly when the list has only its sentinels |
| CacheSet.Set.constructor | C/CSAPPLab/cache/csim.c:92-119 | two well-formed disjoint lists, E free lines and none in use |
| CacheSet.Set.MoveToFront | C/CSAPPLab/cache/csim.c:203-210 | a hit moves its line to the front and keeps the order of the others |
| CacheSet.Set.UseFreeLine | C/CSAPPLab/cache/csim.c:217-223 | a miss with a free line puts the tag in front and keeps all others |
| CacheSet.Set.ReplaceOldest | C/CSAPPLab/cache/csim.c:225-234 | a miss without one drops the oldest tag and puts the new one in front |
| CacheSet.Set.Access | C/CSAPPLab/cache/csim.c:189-235 | hit, eviction and the new list in use, both lists well formed with E lines in all |
| CacheSpec.Decode | C/CSAPPLab/cache/csim.c:159-170 | set and tag are the low bits and the rest of the block number |
| CacheSpec.SetBitsInRange | C/CSAPPLab/cache/csim.c:159-160 | the set index is below the number of sets |
| CacheSpec.SameBlock | C/CSAPPLab/cache/csim.c:159-170 | two addresses share set and tag exactly when they lie in one block |
| CacheSpec.SetLinesStep | C/CSAPPLab/cache/csim.c:187-235 | an access changes its own set only, an instruction load none |
| CacheSpec.HitsGrow | C/CSAPPLab/cache/csim.c:180-243 | an access that hits with E lines per set hits with more |
| CacheSpec.MoreLinesNeverHurt | C/CSAPPLab/cache/csim.c:180-243 | over any trace hits never drop, misses and evictions never rise, as E grows |
| CacheSpec.Conservation | C/CSAPPLab/cache/csim.c:203-235 | evictions plus lines in use equal misses |
| CacheLaws.TotalsCount | C/CSAPPLab/cache/csim.c:203-241 | misses are the places of the trace that miss, evictions those that miss in a full set, hits those that hit and once more the modifies |
| CacheLaws.NothingIsLost | C/CSAPPLab/cache/csim.c:180-243 | hits and misses together are the accesses other than instruction loads plus the modifies |
| CacheLaws.HeldIff | C/CSAPPLab/cache/csim.c:203-235 | a set with E lines holds a tag exactly when it was used and fewer than E other tags were used since |
| CacheLaws.HitsIffReused | C/CSAPPLab/cache/csim.c:159-210 | an access hits exactly when an earlier line of the trace uses its tag in its set, and fewer than E other tags of that set are used since the last such line |
| Cache.Cache.InitCacheSet | C/CSAPPLab/cache/csim.c:92-119 | one fresh empty set for each index, no two sharing a line |
| Cache.Cache.Access | C/CSAPPLab/cache/csim.c:189-235 | one set changes as LRU says, all others keep their contents |
| Cache.Cache.TraceLine | C/CSAPPLab/cache/csim.c:180-243 | the objects and totals after one line are those of the trace with that line added; `CacheLaws.TotalsCount` says what the totals are |
| Cache.Cache.CacheTrace | C/CSAPPLab/cache/csim.c:150-246 | the totals of the whole trace are those that `CacheLaws.TotalsCount` counts in it, with the sets' contents as `LruSpec.LinesAreMostRecent` says |
| Forest.Compress | Algorithm/UnionFind/UnionFind.hpp:52-56 | path compression changes no element's root and makes none deeper |
| Forest.Link | Algorithm/UnionFind/UnionFind.hpp:32-41 | hanging the lighter root below the heavier merges exactly their trees |
| Forest.LinkTree | Algorithm/UnionFind/UnionFind.hpp:32-41 | linking adds the size of the one tree to that of the other and leaves the rest |
| Forest.LinkWeighed | Algorithm/UnionFind/UnionFind.hpp:32-41 | every root's weight remains the number of elements in its tree |
| Forest.DepthBound | Algorithm/UnionFind/UnionFind.hpp:32-41 | 2^depth times an element's weight is at most its root's weight |
| Forest.LogarithmicHeight | Algorithm/UnionFind/UnionFind.hpp:26-56 | 2^depth is at most the root's weight, which is at most the number of elements |
| Connectivity.LinkedIsEquivalence | Algorithm/UnionFind/UnionFind.hpp:23-42 | the relation answered is an equivalence that contains the pairs connected |
| Connectivity.LinkedIsLeast | Algorithm/UnionFind/UnionFind.hpp:23-42 | and the least one |
| UnionFind.Merge | Algorithm/UnionFind/UnionFind.hpp:32-41 | after the arrays are linked, equal roots mean equivalence under the pairs and the new one |
| UnionFind.UnionFind.constructor | Algorithm/UnionFind/UnionFind.hpp:11-21 | n trees of one element, no pair connected |
| UnionFind.UnionFind.Root | Algorithm/UnionFind/UnionFind.hpp:52-56 | terminates and returns the root; points every element on the way at it and leaves the others; no element changes its root or gets deeper |
| UnionFind.UnionFind.IsConnected | Algorithm/UnionFind/UnionFind.hpp:23-24 | true exactly when the pair is in the equivalence closure of the pairs connected |
| UnionFind.UnionFind.Connect | Algorithm/UnionFind/UnionFind.hpp:26-42 | adds the pair to those connected, keeping the weighed forest; the heavier of the two roots is the root of both trees, at equal weights the second, and no other tree changes |
| GapOrder.SortingKeepsOrder | Algorithm/Sort/BasicSort.hpp:80-92 | sorting the columns of gap h keeps the order along any other gap |
| GapOrder.CountShift | Algorithm/Sort/BasicSort.hpp:80-92 | where the array is ordered along g, the column that starts g further on has no more elements up to a bound |
| GapOrder.OrderedOne | Algorithm/Sort/BasicSort.hpp:80-95 | order along gap 1 is sortedness |
| ShellSort.Insert | Algorithm/Sort/BasicSort.hpp:84-91 | gapped insertion extends the ordered prefix by one and permutes within columns |
| ShellSort.Pass | Algorithm/Sort/BasicSort.hpp:82-92 | afterwards the array is ordered along h and along every gap it was ordered along before |
| ShellSort.ShellSort | Algorithm/Sort/BasicSort.hpp:70-96 | the array is sorted under the comparison and a permutation of the input; the last gap is 1 |
| HeapOrder.RootIsMaximum | Algorithm/Queue/PriorityQueue.hpp:66-67 | nothing in a heap exceeds its root |
| HeapOrder.SwapUp | Algorithm/Queue/PriorityQueue.hpp:87-91 | a swap with the parent moves the only place out of order up |
| HeapOrder.SwapDown | Algorithm/Queue/PriorityQueue.hpp:96-103 | a swap with the greater child moves it down |
| HeapOrder.SinkFromZero | Algorithm/Queue/PriorityQueue.hpp:94-103 | sinking from slot 0 compares with the root alone, and after that swap the heap is out of order at most at the root |
| PriorityQueue.PriorityQueue.Push | Algorithm/Queue/PriorityQueue.hpp:40-51 | the heap gains the item, whatever room the buffer had |
| PriorityQueue.PriorityQueue.Pop | Algorithm/Queue/PriorityQueue.hpp:53-64 | the heap loses one maximum, which is left in slot 0 |
| PriorityQueue.PriorityQueue.Top | Algorithm/Queue/PriorityQueue.hpp:66-67 | a maximum |
| PriorityQueue.PriorityQueue.Grow | Algorithm/Queue/PriorityQueue.hpp:42-47 | room for one more item, contents kept; a full buffer, and no other, is replaced by one of twice its slots and one |
| PriorityQueue.PriorityQueue.Shrink | Algorithm/Queue/PriorityQueue.hpp:58-63 | a smaller buffer that still has a slot more than items; it is halved exactly when at most a quarter is in use |
| PriorityQueue.PriorityQueue.Swimup | Algorithm/Queue/PriorityQueue.hpp:85-92 | restores the heap, slot 0 and the contents kept |
| PriorityQueue.PriorityQueue.Sinkdown | Algorithm/Queue/PriorityQueue.hpp:94-104 | restores the heap; slot 0 ends with the greater of its own item and the root |
| Srt.NextInv | Networks/DartNet/SRT/client/srt_client.c:118-306 | every step of the client's calls, the handlers, acceptance and loss keeps the invariant |
| Srt.ServerReceivesInv | Networks/DartNet/SRT/server/srt_server.c:183-259 | every segment the server handles keeps the invariant, its reply addressed before `client_portNum` is set; `SrtLaws.ServerAnswers` and `DisconnectRecovers` say what is answered |
| Srt.RunInv | Networks/DartNet/SRT/client/srt_client.c:118-306 | the invariant holds in every state of every run |
| Srt.ConnectionSafety | Networks/DartNet/SRT/client/srt_client.c:262-306 | a connected client means a server in CONNECTED or CLOSEWAIT; a FINACK in transit means CLOSEWAIT |
| Srt.DisconnectReturnsZero | Networks/DartNet/SRT/client/srt_client.c:205-223 | a disconnect that returns 0 from `try_send` means that the server is in CLOSEWAIT; `SrtLaws.ZeroMeans` says that 0 comes from nowhere else |
| Srt.DisconnectingRun | Networks/DartNet/SRT/server/srt_server.c:199-253 | a run of 22 states in which the first SYNACK goes astray, connect returns 0 on the second, and disconnect returns 0 |
| Srt.ConnectReturnsZero | Networks/DartNet/SRT/client/srt_client.c:155-180 | connect returning 0 means that the server is connected, or closing if a disconnect was begun |
| Srt.NoSpontaneousServer | Networks/DartNet/SRT/server/srt_server.c:199-253 | the server connects only after a connect call and closes only after a disconnect call |
| Srt.FirstReplyIsMisaddressed | Networks/DartNet/SRT/server/srt_server.c:195-212 | unless `client_portNum` held the client's port before, connecting takes two replies |
| Srt.ServerMovesForward | Networks/DartNet/SRT/server/srt_server.c:199-258 | the server's state never goes back |
| Srt.TrySendReturns | Networks/DartNet/SRT/client/srt_client.c:118-139 | in any run, while a call is in `try_send` the client's thread has taken at most 18 steps there, at most four of them sends |
| Srt.GivesUpAfterFour | Networks/DartNet/SRT/client/srt_client.c:123-138 | a call that gives up has sent exactly four segments |
| Srt.MinusOneMeansGivenUp | Networks/DartNet/SRT/client/srt_client.c:132-138 | a call returns 0 or gives up, and then it returns -1 with the client closed |
| SrtLaws.RefusedCall | Networks/DartNet/SRT/client/srt_client.c:155-214 | in any run, a call refused at the door returns -1 and changes nothing else; nothing sets the result outside of a call |
| SrtLaws.BegunCall | Networks/DartNet/SRT/client/srt_client.c:155-223 | a disconnect goes on from CONNECTED only, a connect from CLOSED only, and then with all tries ahead |
| SrtLaws.ZeroMeans | Networks/DartNet/SRT/client/srt_client.c:118-223 | in any run a 0 comes from a connect, with the client connected and the server up, or from a disconnect, with the server in CLOSEWAIT |
| SrtLaws.RunAddressed | Networks/DartNet/SRT/server/srt_server.c:183-212 | in every state of every run all segments in transit bear the ports of the connection, the server's replies the client's port or the one it held before |
| SrtLaws.DisconnectRecovers | Networks/DartNet/SRT/server/srt_server.c:221-253 | from every reachable state in which a disconnect has a try left, whatever was lost before, the run can go on so that it returns 0: a repeated FIN is answered |
| SrtLaws.ConnectRecovers | Networks/DartNet/SRT/server/srt_server.c:195-239 | the same of a connect to an accepted server that is not closing, with one more try where the server does not know the client's port |
| SrtLaws.ServerAnswers | Networks/DartNet/SRT/server/srt_server.c:201-253 | in any run the server replies with SYNACK to SYN while listening or connected, being connected then, with FINACK to FIN while connected or closing, being in CLOSEWAIT then, and to nothing else |
| SrtLaws.ServerChanges | Networks/DartNet/SRT/server/srt_server.c:199-253 | its state changes with a reply or with accept only |
| SrtLaws.ClientChanges | Networks/DartNet/SRT/client/srt_client.c:123-306 | the client's state changes only by the write of `try_send`, by giving up, by SYNACK in SYNSENT to CONNECTED and by FINACK in FINWAIT to CLOSED |
| Srt.TrySendStep | Networks/DartNet/SRT/client/srt_client.c:123-138 | nobody else moves the loop's control, and each of its steps lowers the bounds |
| SegFrame.StopsAtFirstEnd | Networks/DartNet/SRT/common/seg.c:48-81 | behind the start mark the decoder stores everything up to the first end mark |
| SegFrame.ReadsUpToFirstEnd | Networks/DartNet/SRT/common/seg.c:37-81 | so it does with a frame, whether that end mark is the frame's own or part of the segment |
| SegFrame.ReadsWholeFrameIffClean | Networks/DartNet/SRT/common/seg.c:37-81 | a frame is read to its end exactly when the segment has no '!' followed by '#', a final '!' included |
| SegFrame.StepInside | Networks/DartNet/SRT/common/seg.c:38-81 | one byte of a frame, from any state: what is stored and what is left still fit into the buffer |
| SegFrame.NeverOverflows | Networks/DartNet/SRT/common/seg.c:26-84 | for arbitrary full-size segments, from anywhere in a frame, at most sizeof(seg_t)+2 bytes are stored and whole frames follow what is left |
| SegFrame.CleanRoundTrip | Networks/DartNet/SRT/common/seg.c:7-84 | clean segments come out in order and as sent, but for those lost |
| SegFrame.RoundTripIffClean | Networks/DartNet/SRT/common/seg.c:7-84 | when nothing is lost, everything comes out as sent if and only if every segment is clean |
| SegFrame.AnyLossRoundTripIffClean | Networks/DartNet/SRT/common/seg.c:7-84 | whatever is lost, the rest comes out as sent, if and only if every segment is clean |
| FrameLaws.SkipsToOpening | Networks/DartNet/SRT/common/seg.c:38-47 | between frames everything is skipped up to the first '&' behind an odd number of '!' |
| FrameLaws.NothingOpens | Networks/DartNet/SRT/common/seg.c:38-47 | without such a place nothing is found |
| FrameLaws.FindsEnd | Networks/DartNet/SRT/common/seg.c:48-81 | behind the start mark a frame is found exactly when an end mark follows, and it ends with the first |
| FrameLaws.FindsFirstFrame | Networks/DartNet/SRT/common/seg.c:37-81 | in arbitrary input a frame is found exactly where a first opening is followed by a first end mark |
| SegFrame.Connection.SendSeg | Networks/DartNet/SRT/common/seg.c:7-23 | "!&", the segment and "!#" are put on the connection, whatever the segment holds |
| SegFrame.Connection.Turn | Networks/DartNet/SRT/common/seg.c:37-82 | one turn of the loop refines the decoder and stays within the buffer |
| SegFrame.Connection.RecvSeg | Networks/DartNet/SRT/common/seg.c:26-84 | returns what the decoder returns, for arbitrary full-size segments, and leaves the rest of one frame followed by whole frames |
| SegFrame.Connection.ReceiveAll | Networks/DartNet/SRT/common/seg.c:26-84 | repeated receiving returns what the decoder finds in the input; clean segments as they were sent, in order, but for those lost |
| FileTree.UnderIsPrefix | FileSystem/SimpleFS/simplefs.cpp:287-293 | the entries below a path are those whose name begins with the path and a '/' |
| FileTree.AncestorPresent | FileSystem/SimpleFS/simplefs.cpp:295-305 | with an entry all directories above it exist |
| FileTree.OneBranch | FileSystem/SimpleFS/simplefs.cpp:287-293 | a name below a directory is below exactly one of its children |
| FileTree.InitialIsTree | FileSystem/SimpleFS/simplefs.cpp:427-452 | what main sets up is a tree |
| FileTree.MakeKeepsTree | FileSystem/SimpleFS/simplefs.cpp:310-352 | creating a file or directory, or failing to, keeps the tree |
| FileTree.NewIsNested | FileSystem/SimpleFS/simplefs.cpp:287-301 | an entry that is accepted has a '/' in its name and is not the root |
| FileTree.PruneKeepsTree | FileSystem/SimpleFS/simplefs.cpp:354-375 | removing keeps the tree |
| FileTree.RemoveIsExact | FileSystem/SimpleFS/simplefs.cpp:354-375 | removing a path other than "/" removes exactly that entry and what lies below it |
| FileTree.MakeThenRemove | FileSystem/SimpleFS/simplefs.cpp:310-375 | removing what was just created restores the state |
| FileTree.RunKeepsTree | FileSystem/SimpleFS/simplefs.cpp:310-385 | every state reached by create, mkdir, unlink and rmdir is a tree rooted at "/" |
| FileTree.DirectoryTotal | FileSystem/SimpleFS/simplefs.cpp:106-111 | adding up the children counts every byte below a directory once |
| FileTreeLaws.MakeAnswers | FileSystem/SimpleFS/simplefs.cpp:287-352 | for every tree and path, create and mkdir answer EEXIST exactly for a taken path, 0 with the entry appended exactly for a free one directly in a directory of the tree, and ENOENT otherwise, errors changing nothing |
| FileTreeLaws.RemoveAnswers | FileSystem/SimpleFS/simplefs.cpp:354-385 | unlink and rmdir answer ENOENT exactly for an absent path, changing nothing; otherwise exactly the entry and what lies below is gone, the root excepted |
| FileTreeLaws.PruneKeepsOrder | FileSystem/SimpleFS/simplefs.cpp:365-372 | the entries left by a removal keep their order |
| FileTreeLaws.TotalCountsBytes | FileSystem/SimpleFS/simplefs.cpp:81-111 | the total of a path is the number of byte places in the contents at and below it |
| FileSystem.Entry.Size | FileSystem/SimpleFS/simplefs.cpp:81-111 | the recursion ends and returns the bytes in the files at and below the entry |
| FileSystem.SubtreeOfDirectory | FileSystem/SimpleFS/simplefs.cpp:103-104 | a directory's subtree is the directory and its children's subtrees |
| FileSystem.FileSystem.constructor | FileSystem/SimpleFS/simplefs.cpp:427-452 | the initial objects, all of them new, with their lists and parents form that tree |
| FileSystem.FileSystem.DirectoryName | FileSystem/SimpleFS/simplefs.cpp:289-293 | the loop finds the last '/' |
| FileSystem.FileSystem.InsertEntry | FileSystem/SimpleFS/simplefs.cpp:287-308 | the entry joins the list and its directory's children, or ENOENT and the same objects as before, as `FileTreeLaws.MakeAnswers` decides |
| FileSystem.FileSystem.Create | FileSystem/SimpleFS/simplefs.cpp:310-336 | EEXIST, ENOENT or a new empty file behind the same objects as before, as `FileTreeLaws.MakeAnswers` decides; all other contents kept |
| FileSystem.FileSystem.Mkdir | FileSystem/SimpleFS/simplefs.cpp:338-352 | EEXIST, ENOENT or a new directory behind the same objects as before |
| FileSystem.FileSystem.Delete | FileSystem/SimpleFS/simplefs.cpp:45-104 | the destructors take exactly the subtree out of the global list |
| FileSystem.FileSystem.RmHelper | FileSystem/SimpleFS/simplefs.cpp:354-375 | ENOENT, nothing for the root, or the subtree gone: exactly the objects outside it are left, and every list is still exact |
| FileSystem.FileSystem.Detach | FileSystem/SimpleFS/simplefs.cpp:365-372 | the entry leaves its directory's children and its subtree the global list |
| FileSystem.FileSystem.Unlink | FileSystem/SimpleFS/simplefs.cpp:377-385 | the same for unlink and rmdir |
| FileSystem.FileSystem.Perform | FileSystem/SimpleFS/simplefs.cpp:310-385 | any of the four callbacks does what the specification on trees says |
| FileSystem.FileSystem.PerformAll | FileSystem/SimpleFS/simplefs.cpp:310-385 | so does any sequence of them on the objects: they stay a tree with exact lists |
| FileSystem.FileSystem.StatSize | FileSystem/SimpleFS/simplefs.cpp:134-149 | the size reported for a path is the number of bytes at and below it |
| KernelSpec.SpawnInv | OS/WeensyOS/MiniprocOS/kernel.c:275-317 | fork and newthread keep the wait invariant |
| KernelSpec.ExitInv | OS/WeensyOS/MiniprocOS/kernel.c:201-219 | an exit keeps it |
| KernelSpec.WaitInv | OS/WeensyOS/MiniprocOS/kernel.c:221-247 | waiting keeps it, in the error, zombie and blocking cases |
| KernelSpec.HandleInv | OS/WeensyOS/MiniprocOS/kernel.c:141-247 | every system call keeps the invariant, whether or not anybody is left to run |
| KernelSpec.StepGood | OS/WeensyOS/MiniprocOS/kernel.c:131-247 | and the process chosen next is runnable |
| KernelSpec.RunGood | OS/WeensyOS/MiniprocOS/kernel.c:131-247 | in every run a blocked process is flagged by exactly one process that is runnable or blocked |
| KernelSpec.ExitWakes | OS/WeensyOS/MiniprocOS/kernel.c:211-218 | an exit makes all its waiters runnable with its status in eax |
| KernelSpec.RunnableStays | OS/WeensyOS/MiniprocOS/kernel.c:131-247 | no call stops another process from being runnable or overwrites its result |
| KernelSpec.ScheduleApproaches | OS/WeensyOS/MiniprocOS/kernel.c:431-440 | each call of schedule runs a runnable process or comes closer to it |
| KernelSpec.RunnableRuns | OS/WeensyOS/MiniprocOS/kernel.c:431-440 | a runnable process runs within NPROCS calls of schedule, its result intact |
| KernelSpec.WaiterGetsStatus | OS/WeensyOS/MiniprocOS/kernel.c:201-247 | a waiter runs again within NPROCS - 1 calls of schedule, that of the exit it waits for included, and finds the exit status |
| KernelSpec.StuckIsDeadlock | OS/WeensyOS/MiniprocOS/kernel.c:231-246 | when nobody is runnable, following the waits of a blocked process leads into a cycle |
| KernelSpec.StuckMeans | OS/WeensyOS/MiniprocOS/kernel.c:431-440 | so when the search never ends, each blocked process waits, directly or not, for processes that wait for one another |
| KernelLaws.SpawnAnswers | OS/WeensyOS/MiniprocOS/kernel.c:297-316 | with c the least empty descriptor from 1 on, fork and newthread leave c in the caller's eax, a runnable child c with eax 0 and no waiters, and all else unchanged |
| KernelLaws.SpawnFails | OS/WeensyOS/MiniprocOS/kernel.c:297-316 | with none empty, the caller's eax is -1 and nothing else changes |
| KernelLaws.GetPidAnswers | OS/WeensyOS/MiniprocOS/kernel.c:143-150 | getpid leaves the caller's pid in eax and changes nothing else |
| KernelLaws.ExitAnswers | OS/WeensyOS/MiniprocOS/kernel.c:201-219 | an exit makes exactly the waiters runnable with its status in eax; it leaves a zombie with that status exactly when nobody waited |
| KernelLaws.WaitAnswers | OS/WeensyOS/MiniprocOS/kernel.c:221-247 | -1 exactly for pids out of range, oneself and empty descriptors; a zombie's status, freeing it; or the caller blocked behind a live process |
| KernelLaws.RoundRobin | OS/WeensyOS/MiniprocOS/kernel.c:431-440 | nobody runnable lies between the old and the new process, going round |
| KernelLaws.ZombieKept | OS/WeensyOS/MiniprocOS/kernel.c:131-247 | in every run a zombie's descriptor is unchanged until somebody waits for it |
| KernelLaws.WaitCollectsStatus | OS/WeensyOS/MiniprocOS/kernel.c:201-247 | the first wait for a process that exited unnoticed, however much later, finds its status in eax and frees it |
| Kernel.Kernel.constructor | OS/WeensyOS/MiniprocOS/kernel.c:74-83 | all descriptors empty but the first process, which is runnable |
| Kernel.Kernel.Spawn | OS/WeensyOS/MiniprocOS/kernel.c:297-316 | the first empty descriptor from 1 on becomes a runnable child without waiters and with 0 in eax, its pid being the result, or -1 |
| Kernel.Kernel.ExitCurrent | OS/WeensyOS/MiniprocOS/kernel.c:208-218 | the waking loop: a zombie, or an empty descriptor if anyone waited |
| Kernel.Kernel.WaitFor | OS/WeensyOS/MiniprocOS/kernel.c:231-245 | error, status of a zombie, or flag and block |
| Kernel.Kernel.Schedule | OS/WeensyOS/MiniprocOS/kernel.c:431-440 | the next runnable process round robin |
| Kernel.Kernel.Interrupt | OS/WeensyOS/MiniprocOS/kernel.c:131-247 | one step of the machine; or the call has its effect on the table, nobody is runnable and the search would never end |

## Left out

- Captured groups: the contents and tags of groups, and with them the vectors in the maps of the simulation, which are sets of nodes here; `NFAEngine::search` has an empty body.
- NfaConstructor.NFAConstructor.Construct: does not set `maxGroup` nor tag the nodes of group 0, because groups are left out; requires a tree without `Empty`, which the parser never builds and for which the visitor leaves the previous fragment in place.
- NfaConstructor.NFAConstructor.Visit: does not tag the nodes of a group, because groups are left out.
- NfaEngine.Engine.AddEpsilon: stores no group vector with a node, because groups are left out.
- NfaEngine.Engine.Enqueue: stores no group vector with a node, because groups are left out.
- NfaEngine.Engine.NextMap: carries no group vectors from map to map, because groups are left out.
- NfaEngine.Engine.Simulate: its maps are sets of nodes, because groups are left out.
- NfaEngine.Engine.Match: records no group vector on success, because groups are left out; the verdict is membership in the language for input without NUL, beyond which `NulInput.CorrectIffNulFree` shows that it is not.
- Parser: `abort()` and a failing `assert` both count as failure; the sum of digits is unbounded; an inner group is numbered before the outer one (C++ leaves the order of `regex()` and `++group` open); `maxGroup` is a second result instead of a field of the tree.
- The plumbing of visitors, shared pointers and the object pool, printing of trees, and `NFA::bfs`.
- Cache.Cache.constructor: requires at least one line per set, as the command line does; with none, the first miss would follow a null pointer. The total of set and block bits is taken to be below 64, where shifts and masks are arithmetic on naturals.
- Reading of traces and options, verbose output, and release of memory in the cache simulator.
- UnionFind and PriorityQueue: sizes are unbounded, copying and destruction are not modelled, memory that `malloc` leaves undefined holds arbitrary values.
- ShellSort.ShellSort: requires a strict weak order, as a comparison passed to a sort must be; iterators are array indices.
- SRT: data segments, closing and reuse of control blocks, several connections, threads and delays; waiting is a step that may happen at any time.
- SegFrame.Connection.SendSeg: does not model a failing `send`, and with it the result code, because the connection does not break here.
- SegFrame.Connection.RecvSeg: of a frame that ended early, the bytes behind those stored are what the buffer happened to hold; loss is decided by a given function, and bytes are never lost or reordered on the connection.
- KILL in MiniprocOS, which wakes the caller's waiters instead of the target's.
- Kernel.Kernel.constructor: does not model registers other than eax, segments, stacks, program loading and the console.
- Kernel.Kernel.Spawn: does not model the copied registers and stack nor the start function of a thread; only eax of the registers is kept.
- SimpleFS: read, write, truncate, permissions, flags and link counts; a failed create leaks its object, which the model does not keep.
- FileSystem.Entry.constructor: name and kind are constants, as the source never changes them.
