# Verified models of ruflo's algorithms and protocols

This project models, in Dafny, the parts of ruflo whose correctness rests on an argument over all inputs or all
runs, and proves that argument.

- **Import-graph analysis.** Enumeration of the elementary import cycles by backtracking search, the colouring of
  the exported graph, connected components, the single-edge cut and the bisection built on it, and community
  detection by moving labels. The searches, tables and label array are updated in loops as in the source
  (`Digraph`, `Cycles`, `DotExport`, `Exploration`, `Undirected`, `Components`, `EdgeCuts`, `Bisection`, `Louvain`).
- **Calendar and timestamps.** Day numbers and Gregorian dates in both directions, the fixed-width timestamp of
  section 5.6 of RFC 3339, its parser, and settings backups named by time (`Calendar`, `Timestamps`, `Backups`).
- **Text budgeters.** Sentence splitting, compression to a token budget, and chunking to a word limit, for every
  scoring function and every notion of a preserved sentence (`Text`, `Sentences`, `Compressor`, `Chunker`).
- **Flywheel ledger and promotion.** The hash-chained ledger with an ideal digest and an ideal signature, and all
  interleavings of threads that append receipts and promote champions (`Ledger`, `Promotion`).
- **Configuration tree.** Lookup, nested update with auto-creation, the flat view and rebuilding from it
  (`ConfigTree`, `ConfigFlatten`).
- **Base32.** The streaming encoder over a wrapping 32-bit buffer, against section 6 of RFC 4648 read as
  arithmetic on one big number (`Base32`).
- **Two concurrency protocols.** The lock file around the budget ledger and the atomic-counter admission limiter,
  each over any number of participants (`BudgetLock`, `Admission`).

`Ordering`, `Sequences`, `Sorting` and `Options` hold what these share. Protocols are state machines: a `Step` is one
atomic action of one participant, `Enabled` and `Apply` give its guard and effect, and results are about `End` of
every run. Check everything with `dafny verify dfyconfig.toml`.

Where code and comments disagree the model follows the code:

- The single-edge cut is announced as a true global minimum cut. It finds a split crossed by at most one edge if
  there is one, and its reported value 1 is the minimum exactly when the graph is connected; two disjoint edges show
  that it need not be.
- Ledger verification is announced as tamper-evident. It compares everything except an entry's `hash` with its
  `bodyHash`; what it notices and what it does not is stated exactly.
- Compression is announced to obey the budget when possible. The budget bounds the counted cost; the separators added
  by joining come on top. They stay within the budget, for every budget, exactly when the rounding of the preserved
  sentences and of those with a length divisible by four pays for them.
- A stale lock file is said to come from a crashed process. The one of a slow owner is taken over as well: others can
  get in beside it exactly when the lock file is older than the takeover age.

## Model

| member | source | states |
|---|---|---|
| Cycles.FindCycles | src/crates/ruflo-cli/src/analyze.rs:1414-1429 | for every graph the builder can produce: each output is an elementary cycle followed by its first node, and every elementary cycle of two or more nodes is exactly one output up to rotation |
| Cycles.CycleSearch.Dfs | src/crates/ruflo-cli/src/analyze.rs:1432-1480 | afterwards every cycle that begins with the current path has been seen, path and path set are restored, outputs and signatures still correspond one to one |
| Cycles.PathFits | src/crates/ruflo-cli/src/analyze.rs:1443-1447 | a search path never has more nodes than the graph, so the depth cut-off never prunes |
| Cycles.BuildAdjacency | src/crates/ruflo-cli/src/analyze.rs:1482-1488 | the map lists b under a exactly when a imports b |
| Digraph.SignatureDecidesSameCycle | src/crates/ruflo-cli/src/analyze.rs:1453-1467 | two cycles have one signature if and only if one is a rotation of the other, so distinct cycles over the same nodes are not merged |
| Cycles.SeenIsComplete | src/crates/ruflo-cli/src/analyze.rs:1421-1426 | starting once from every node misses no cycle |
| Cycles.RecordedIsIrredundant | src/crates/ruflo-cli/src/analyze.rs:1468-1470 | recording by signature lists no cycle twice |
| DotExport.ExportDot | src/crates/ruflo-cli/src/analyze.rs:1553-1572 | one line per node, then one per edge in order, red exactly for the edges that occur in the given cycles |
| DotExport.RedIffReturns | src/crates/ruflo-cli/src/analyze.rs:1554-1569 | with the enumerated cycles an edge a to b is red if and only if b can reach a |
| DotExport.NoCyclesIffAcyclic | src/crates/ruflo-cli/src/analyze.rs:1414-1429 | the enumeration is empty if and only if no edge can be returned from |
| Digraph.SimplifyWalk | src/crates/ruflo-cli/src/analyze.rs:1472-1477 | every walk can be shortened to one that visits no node twice, which is why a search over simple paths suffices |
| Exploration.Explore | src/crates/ruflo-cli/src/analyze.rs:1389-1404 | one stack-driven search visits each node once, each but the seed as a neighbour of an earlier one, ends in a closed set, and visits nothing that some closed set holding the seed leaves out |
| Components.ConnectedComponents | src/crates/ruflo-cli/src/analyze.rs:1377-1409 | the outputs are exactly the classes of undirected reachability, every node in one of them once, in non-increasing size |
| Components.SearchFindsClass | src/crates/ruflo-cli/src/analyze.rs:1389-1404 | what one search adds to closed earlier visits is one whole reachability class |
| EdgeCuts.BuildUnGraph | src/crates/ruflo-cli/src/graph_algo.rs:23-33 | nodes are the distinct endpoints, and link k joins the ends of edge k, parallel edges and loops kept |
| EdgeCuts.ReachWithout | src/crates/ruflo-cli/src/graph_algo.rs:80-97 | the search after removing a link returns the least set that holds node 0 and is crossed by no other link |
| EdgeCuts.SimpleMinCut | src/crates/ruflo-cli/src/graph_algo.rs:72-120 | a result is a split crossed at most once; no result means that no removal separates anything from node 0 |
| EdgeCuts.SplitIsNoticed | src/crates/ruflo-cli/src/graph_algo.rs:80-117 | if any split is crossed at most once, some removal separates a side that holds node 0 |
| EdgeCuts.MinCut | src/crates/ruflo-cli/src/graph_algo.rs:58-68 | a result splits all endpoints into two non-empty disjoint sides crossed by at most one edge and is a minimum cut if and only if the graph is connected; none for two or more edges means every split is crossed at least twice |
| EdgeCuts.CrossedIffConnected | src/crates/ruflo-cli/src/graph_algo.rs:98-101 | every split is crossed if and only if all endpoints are linked |
| EdgeCuts.TwoIslands | src/crates/ruflo-cli/src/graph_algo.rs:98-117 | two edges without a common end are a graph where a result exists and its value 1 is not the minimum |
| Bisection.Bisection | src/crates/ruflo-cli/src/analyze.rs:1493-1543 | either a split crossed at most once, always when one exists for two or more edges, or the two halves of a search order; both parts non-empty for two or more nodes |
| Bisection.SearchOrder | src/crates/ruflo-cli/src/analyze.rs:1506-1532 | every node once; each is reached along an edge from an earlier one, or starts a new search as the first unvisited node of the list when nothing is left to reach |
| Louvain.BestLabel | src/crates/ruflo-cli/src/graph_algo.rs:139-161 | the chosen label is the present one or a neighbour's with enough gain, and no neighbour's label has a larger gain |
| Louvain.Pass | src/crates/ruflo-cli/src/graph_algo.rs:137-167 | one pass gives every node in order its turn: it takes its best label, the others keep theirs; it reports a move exactly if some turn changed a label |
| Louvain.MoveLabels | src/crates/ruflo-cli/src/graph_algo.rs:131-171 | starting from every node on its own there are passes up to the first one without a move, at most 16, and the labels are what the last pass leaves; every node carries the number of a node it is linked to |
| Louvain.IdleIffStable | src/crates/ruflo-cli/src/graph_algo.rs:157-170 | a pass makes no move if and only if no node would gain by a neighbour's label |
| Louvain.StoppedEarlyIsStable | src/crates/ruflo-cli/src/graph_algo.rs:168-170 | fewer than 16 passes mean that the last one made no move, and then the outcome is locally stable |
| Louvain.LouvainCommunities | src/crates/ruflo-cli/src/graph_algo.rs:124-183 | for every gain function: each endpoint in exactly one community, the communities are the classes of nodes with one label after those passes, all members of one linked to each other, largest first |
| Calendar.CivilRoundTrip | src/crates/ruflo-cli/src/funnel.rs:502-515 | every integer day number, negative ones included, gives a valid Gregorian date that converts back to it |
| Calendar.DaysRoundTrip | src/crates/ruflo-cli/src/funnel.rs:390-400 | every valid date gives a day number that converts back to it |
| Calendar.CivilCountsUp | src/crates/ruflo-cli/src/funnel.rs:502-515 | day 0 is 1 January 1970 and each next day number is the calendar's next day |
| Calendar.DaysCountUp | src/crates/ruflo-cli/src/funnel.rs:390-400 | the calendar's next day has the next day number, across month ends, leap days and centuries |
| Calendar.DaysIncrease | src/crates/ruflo-cli/src/funnel.rs:390-400 | later valid dates have larger day numbers |
| Calendar.DaysClosedForm | src/crates/ruflo-cli/src/funnel.rs:390-400 | the era arithmetic equals a closed form with floor division, for all dates |
| Calendar.YearOfEraHoldsDay | src/crates/ruflo-cli/src/funnel.rs:506-507 | the year-of-era formula finds the year whose days include the given one |
| Timestamps.ParseAfterPrintIff | src/crates/ruflo-cli/src/funnel.rs:362-387 | printing then parsing gives a non-negative time back if and only if it lies before the year 10000 |
| Timestamps.ParseAfterPrint | src/crates/ruflo-cli/src/funnel.rs:954-964 | for every time from 1970 to the end of 9999 the parser returns exactly the printed time |
| Timestamps.LongYearFails | src/crates/ruflo-cli/src/funnel.rs:362-366 | every later time is rejected by the parser |
| Timestamps.StampsKeepOrder | src/crates/ruflo-cli/src/funnel.rs:954-964 | printed stamps are in strictly increasing string order of their times |
| Timestamps.PaddedIsFixed | src/crates/ruflo-cli/src/funnel.rs:963 | zero-padded printing of a number that fits is its fixed-width digits |
| Timestamps.RowParses | src/crates/ruflo-cli/src/funnel.rs:362-387 | seven fixed-width numbers with any separators between and any text behind them parse if and only if the separators at three places are right and every number is in its range, and then to the time computed from them, wrap-around included |
| Timestamps.ParseIntIff | src/crates/ruflo-cli/src/funnel.rs:368-374 | the integer parser accepts exactly the numerals with an optional sign, each as its number |
| Timestamps.StampNamesTime | src/crates/ruflo-cli/src/funnel.rs:954-964 | a stamp consists of a valid date and a time of day in fixed width with the separators of the format, which together are the printed milliseconds |
| Timestamps.PaddedReadsBack | src/crates/ruflo-cli/src/funnel.rs:963 | padding, for negative numbers too: it reads back, and is as wide as asked for or the bare number |
| Backups.SettingsDir.BackupSettings | src/crates/ruflo-cli/src/announcements.rs:61-67 | exactly one file is written, holding the raw settings, named settings.json.bak- and the stamp with dashes for its colons and dots |
| Backups.SettingsDir.FindMostRecentBackup | src/crates/ruflo-cli/src/announcements.rs:69-88 | none if no name has the backup prefix, else the last such name in string order |
| Backups.LastBackupMeans | src/crates/ruflo-cli/src/announcements.rs:69-88 | the search goes by the prefix settings.json.bak- and nothing else |
| Backups.BackupNamesKeepOrder | src/crates/ruflo-cli/src/announcements.rs:63-64 | replacing colons and dots by dashes keeps the order of the stamps |
| Backups.NewestBackupIsFound | src/crates/ruflo-cli/src/announcements.rs:61-88 | if all backups were made by the backup operation before the year 10000 the search returns the newest |
| Sentences.SplitSentences | src/crates/ruflo-cli/src/compressor.rs:68-90 | the loop with its start index computes the splitting that the results below are about |
| Sentences.SplitGivesSentences | src/crates/ruflo-cli/src/compressor.rs:68-90 | every piece is non-empty, trimmed and without an inner sentence end, and all but the last end with a mark |
| Sentences.SplitMeans | src/crates/ruflo-cli/src/compressor.rs:68-90 | the sentences are stretches of the text in order with only white space around and between them; none has a full stop, exclamation or question mark with white space behind it inside, and all but the last end in one |
| Sentences.SplitUndoesJoin | src/crates/ruflo-cli/src/compressor.rs:46-50 | any list of such pieces, joined by spaces, splits into the same list |
| Sentences.SplitUndoesJoinOfSublist | src/crates/ruflo-cli/src/compressor.rs:45-50 | in particular every sublist of the sentences of a text survives joining and splitting |
| Compressor.CompressMessage | src/crates/ruflo-cli/src/compressor.rs:11-62 | both error cases exactly; otherwise the kept sentences include all preserved ones, cost at most the budget unless only preserved ones are kept, and leave out none that still fits; a sentence is kept if and only if it fits behind the preserved ones and the kept ones with a higher score (or the same score and an earlier place); the six fields are the join of the kept sentences, the lengths of message and result in fours rounded up, and the numbers of preserved, kept and all sentences |
| Sentences.PickMeans | src/crates/ruflo-cli/src/compressor.rs:45-50 | the joined sentences are those at the kept positions, in order of position |
| Compressor.FillBudget | src/crates/ruflo-cli/src/compressor.rs:38-44 | greedy filling keeps the count right, never passes the budget, takes each ranked sentence exactly if it fits at its turn, and leaves none out that still fits at the end |
| Compressor.ChoiceIsUnique | src/crates/ruflo-cli/src/compressor.rs:37-44 | scores, budget and preserved sentences determine the kept sentences |
| Compressor.CompressionIsIdempotent | src/crates/ruflo-cli/src/compressor.rs:11-62 | compressing a compression again with the same budget keeps every sentence and gives the same text, whatever the scores |
| Compressor.NothingKeptIffEmpty | src/crates/ruflo-cli/src/compressor.rs:16-18 | the compressed text is empty, and so refused a second time, exactly when nothing was kept |
| Compressor.CountedCost | src/crates/ruflo-cli/src/compressor.rs:23-44 | the counted cost is at most the larger of budget and preserved cost, and only preserved sentences are kept if those alone use up the budget |
| Compressor.SeparatorsCost | src/crates/ruflo-cli/src/compressor.rs:46-52 | the reported tokens exceed the counted cost by at most a quarter token per separator, rounded up |
| Compressor.WithinCostIff | src/crates/ruflo-cli/src/compressor.rs:46-52 | the reported tokens of a selection stay within its counted cost if and only if the rounding of its sentences pays for the separators |
| Compressor.ObeysBudgetIff | src/crates/ruflo-cli/src/compressor.rs:38-52 | for every budget and all scores the reported tokens stay within the budget (or the preserved cost), if and only if the preserved sentences and those with a length divisible by four leave together the rounding that their separators need |
| Compressor.ObeysBudgetIffOneTight | src/crates/ruflo-cli/src/compressor.rs:38-52 | with nothing preserved: if and only if at most one sentence has a length divisible by four |
| Compressor.SeparatorsCanExceedBudget | src/crates/ruflo-cli/src/compressor.rs:46-52 | a message outside that condition: its compression counts 2 tokens for a budget of 2 and reports 3 |
| Chunker.Chunk | src/crates/ruflo-cli/src/embeddings.rs:580-633 | the sentences are cut greedily into blocks, whole sentences in a row or one oversized sentence, each block closed only when the next sentence does not fit, and the chunks are these blocks; so the words of the sentences and the visible characters of the text come through in order, no chunk is blank or over the limit (at least one word), and if no sentence alone exceeds the limit no two neighbouring chunks would have fitted into one |
| Chunker.PiecesMean | src/crates/ruflo-cli/src/embeddings.rs:590-601 | the sentences end where a full stop, exclamation mark, question mark or line end stands and nowhere else, and together are the text up to a blank tail |
| Chunker.CutIsUnique | src/crates/ruflo-cli/src/embeddings.rs:602-633 | sentences and limit determine the blocks and so the chunks |
| Chunker.ChunksOfCut | src/crates/ruflo-cli/src/embeddings.rs:602-633 | what every such cut guarantees: words, visible characters, sizes, packing |
| Chunker.HardSplit | src/crates/ruflo-cli/src/embeddings.rs:617-621 | the loop cuts an oversized sentence into runs of limit words, the last possibly shorter |
| Chunker.RunsHoldWords | src/crates/ruflo-cli/src/embeddings.rs:617-621 | these runs hold the sentence's words in order, between one and limit words each |
| Chunker.WordsOfJoin | src/crates/ruflo-cli/src/embeddings.rs:610-620 | words joined by spaces are read back as the same words |
| Ledger.LedgerFile.AppendReceipt | src/crates/ruflo-cli/src/flywheel_ledger.rs:106-131 | the new line has the given event, payload, id and time, checks out against the hash of the last parsable entry (zeros if there is none), nothing changes if the file cannot be opened, and a ledger built by appending stays one |
| Ledger.LedgerFile.VerifyLedger | src/crates/ruflo-cli/src/flywheel_ledger.rs:135-169 | the loop returns all parsable entries and whether each checks out against its predecessor |
| Ledger.HeadDeterminesLedger | src/crates/ruflo-cli/src/flywheel_ledger.rs:91-102 | with an ideal digest the head hash of an appended ledger determines its whole content |
| Ledger.EditIsNoticed | src/crates/ruflo-cli/src/flywheel_ledger.rs:143-167 | changing one field of one entry makes verification fail, except exactly for the hash field of the last entry |
| Ledger.OnlyPrefixesVerify | src/crates/ruflo-cli/src/flywheel_ledger.rs:143-147 | a ledger put together from entries of an appended one, in any order and number, verifies if and only if it is a prefix |
| Ledger.RemovalIsNoticed | src/crates/ruflo-cli/src/flywheel_ledger.rs:143-147 | removing an entry is noticed if and only if it is not the last |
| Ledger.ExchangeIsNoticed | src/crates/ruflo-cli/src/flywheel_ledger.rs:143-147 | exchanging two entries is always noticed |
| Ledger.IssuedSignatures | src/crates/ruflo-cli/src/flywheel_ledger.rs:155-166 | among verifying ledgers with issued signatures only, the prefixes are exactly those whose hashes equal their body digests |
| Ledger.HashFieldIsFree | src/crates/ruflo-cli/src/flywheel_ledger.rs:166 | without that equality any run of entries can be cut out of a ledger unnoticed, by changing the hash field of the entry before it |
| Promotion.LedgerAlwaysVerifies | src/crates/ruflo-cli/src/flywheel_ledger.rs:106-169 | in every interleaving of appending and promoting threads, with unparsable lines in between and writes that fail, the ledger verifies |
| Promotion.PromotionsAreLinear | src/crates/ruflo-cli/src/flywheel_ledger.rs:174-209 | in every interleaving the installed champions form one chain that ends in the present one, and no expected hash lets two promotions succeed |
| Promotion.InstallsAsExpected | src/crates/ruflo-cli/src/flywheel_ledger.rs:176-193 | in every interleaving a thread that was asked to promote can go on to install if and only if the champion file holds the hash its caller expects at that moment, and is refused otherwise; what it installs is the candidate, digest, replaced hash and time of that request |
| Promotion.WorksOnRequest | src/crates/ruflo-cli/src/flywheel_ledger.rs:174-196 | in every interleaving every thread works on its latest request with the caller's values, through the change of locks up to the receipt |
| Promotion.WritesAsAsked | src/crates/ruflo-cli/src/flywheel_ledger.rs:106-131 | the line that a thread writes holds the event and payload it was asked for, or the promotion of the caller's candidate, chained to the head of the ledger |
| Promotion.PromoteAlone | src/crates/ruflo-cli/src/flywheel_ledger.rs:174-196 | a promotion that nobody disturbs installs the candidate, appends exactly its receipt and frees the lock |
| Promotion.StaleIsRefused | src/crates/ruflo-cli/src/flywheel_ledger.rs:178-182 | one with a stale hash changes nothing |
| Promotion.ReceiptsMatchInstallations | src/crates/ruflo-cli/src/flywheel_ledger.rs:190-196 | written promotion receipts are matched one to one with installed champions, each line carrying what its thread had installed, never outnumber them, and cover them all once every thread is idle and no write was lost |
| Promotion.StepKeepsCarried | src/crates/ruflo-cli/src/flywheel_ledger.rs:183-196 | the champion a thread carries to its receipt stays the one it installed, whatever other threads install in between |
| Promotion.RunKeepsInv | src/crates/ruflo-cli/src/flywheel_ledger.rs:106-209 | every run keeps the lock, the chain of entries, the chain of champions and the account of owed, written and lost receipts |
| Promotion.WritesAreNeverBlocked | src/crates/ruflo-cli/src/flywheel_ledger.rs:121-125 | the history variables in the guard of a write never hold a thread back |
| ConfigTree.Get | src/crates/ruflo-cli/src/config_file.rs:75-85 | the walk with one cursor finds exactly what the parts of the key lead to: fields by their name, items by a numeral of their number |
| ConfigTree.IndexIff | src/crates/ruflo-cli/src/config_file.rs:80 | a part is an index if and only if it is a decimal numeral of a 64-bit number, with any leading zeros and perhaps a plus sign |
| ConfigTree.SetItem | src/crates/ruflo-cli/src/config_file.rs:214-223 | setting an item changes that item alone and lengthens the array by nulls just so far that it has the item |
| ConfigTree.SetField | src/crates/ruflo-cli/src/config_file.rs:210-227 | setting a field changes that field alone; what is no container becomes an object with just that field |
| ConfigTree.WayIsOfContainers | src/crates/ruflo-cli/src/config_file.rs:231-254 | on the way to what was set, arrays that were there stay arrays and everything else is an object |
| ConfigTree.ValidKeyIff | src/crates/ruflo-cli/src/config_file.rs:88 | a key is refused if and only if it is empty or a dot stands at an end or beside another dot |
| ConfigTree.GetAfterSet | src/crates/ruflo-cli/src/config_file.rs:204-255 | what was set is what is got, through objects, arrays and replaced scalars |
| ConfigTree.SetAfterGet | src/crates/ruflo-cli/src/config_file.rs:204-255 | setting back what was got changes nothing |
| ConfigTree.SetAfterSet | src/crates/ruflo-cli/src/config_file.rs:204-255 | a second set to the same key gives what it would have given alone |
| ConfigTree.SetKeepsTheRest | src/crates/ruflo-cli/src/config_file.rs:204-255 | a path that diverges, array parts compared as numbers, reads as before; only the null padding of a lengthened array can appear |
| ConfigTree.SetFailsIff | src/crates/ruflo-cli/src/config_file.rs:213-216 | a set fails if and only if its path meets an existing array with a part that is no index |
| ConfigTree.ConfigFile.Set | src/crates/ruflo-cli/src/config_file.rs:87-100 | a failing set leaves the file unchanged, each of the three errors exactly in its case, and otherwise the updated tree is stored |
| ConfigFlatten.Flattened | src/crates/ruflo-cli/src/config_file.rs:257-277 | for an object with non-empty dot-free keys: one entry per leaf, under the key that splits into its path, and nothing else |
| ConfigFlatten.Visit | src/crates/ruflo-cli/src/config_file.rs:258-273 | one visit writes exactly the leaves below a prefix over what was there |
| ConfigFlatten.EntriesAgreeWithGet | src/crates/ruflo-cli/src/config_file.rs:257-277 | distinct leaves have distinct keys, and each entry is what lookup finds under its key |
| ConfigFlatten.RebuildFromFlat | src/crates/ruflo-cli/src/config_file.rs:204-277 | setting all entries into an empty object, in any order, never fails and gives back the tree if and only if no object inside it is empty |
| ConfigFlatten.JoinUndoesSplitKey | src/crates/ruflo-cli/src/config_file.rs:77 | splitting a key at its dots loses nothing and leaves no dot |
| Base32.Base32LowerInline | src/crates/ruflo-cli/src/appliance_advanced.rs:196-213 | for every input the output has ceil(8n/5) letters of the alphabet, and read as base-32 digits they are the input's bits followed by zero bits up to a multiple of five |
| Base32.TakeIn | src/crates/ruflo-cli/src/appliance_advanced.rs:202 | the wrap-around of the 32-bit buffer never touches a pending bit |
| Base32.DecodeUndoesEncode | src/crates/ruflo-cli/src/appliance_advanced.rs:196-213 | decoding the symbols gives the input back |
| Base32.EncodingIsInjective | src/crates/ruflo-cli/src/appliance_advanced.rs:196-213 | distinct inputs have distinct encodings |
| Base32.EncodingIsUnique | src/crates/ruflo-cli/src/appliance_advanced.rs:196-213 | no other symbols meet the definition of the encoding |
| Base32.ComputeCid | src/crates/ruflo-cli/src/appliance_advanced.rs:188-194 | an identifier has 58 letters and decodes to the four header bytes and the digest |
| BudgetLock.MutualExclusion | src/crates/ruflo-cli/src/daemon.rs:117-157 | in every run in which no lock file gets older than LOCK_STALE_MS at most one process is in the critical section, crashes included |
| BudgetLock.NoUpdateIsLost | src/crates/ruflo-cli/src/daemon.rs:1006-1068 | in every such run the ledger is what the completed operations, one after the other, make of the first ledger |
| BudgetLock.LastOperationWins | src/crates/ruflo-cli/src/daemon.rs:1006-1068 | and it is what the last completed operation alone makes of the first ledger: paused until the sentinel for the given reason, or not paused; with exactly the launches younger than a day and the active stamps younger than half an hour, in order |
| BudgetLock.CommitsAsAsked | src/crates/ruflo-cli/src/daemon.rs:1006-1068 | the operation that a process commits is the one it was started for |
| BudgetLock.GivesUpIff | src/crates/ruflo-cli/src/daemon.rs:121-146 | a process that finds a lock file that is not overaged gives up if and only if it has waited more than two seconds |
| BudgetLock.AloneGetsThrough | src/crates/ruflo-cli/src/daemon.rs:1006-1068 | from any state with the lock free an operation that nobody disturbs replaces the ledger and frees the lock |
| BudgetLock.MalformedStays | src/crates/ruflo-cli/src/daemon.rs:163-175 | a ledger that cannot be read is never replaced |
| BudgetLock.CanJoinIffOveraged | src/crates/ruflo-cli/src/daemon.rs:117-157 | from a state in which one process alone is inside, any other live process can get in beside it while the clock stands still, if and only if the lock file is older than LOCK_STALE_MS |
| BudgetLock.SlowOwnerIsJoined | src/crates/ruflo-cli/src/daemon.rs:129-142 | from every initial state: two processes start, one creates the lock file and stays inside longer than LOCK_STALE_MS, and the other can join it |
| BudgetLock.Retain | src/crates/ruflo-cli/src/daemon.rs:201-212 | dropping old stamps in place keeps exactly the recent ones in order |
| BudgetLock.PruneTwice | src/crates/ruflo-cli/src/daemon.rs:198-214 | pruning earlier and again later is pruning later |
| Admission.LimitIsKept | src/crates/ruflo-actions/src/executor.rs:112-125 | in every interleaving the threads executing never exceed the limit, the counter is the admitted calls plus those about to back out, and it is zero with no call in flight |
| Admission.EntryDecides | src/crates/ruflo-actions/src/executor.rs:112-116 | a call is admitted if and only if fewer calls than the limit are in flight when it enters, those backing out included |
| Admission.CallComesAndGoes | src/crates/ruflo-actions/src/executor.rs:112-125 | from every reachable state a whole call is possible, executing if admitted and backing out if not, and leaves counter and calls as they were |

## Left out

- Import scanning, module resolution, printing of tables and JSON, and every other command of the command line.
- `connected_components_petgraph`: the same search as `Components.ConnectedComponents` over numbered nodes. Strongly connected components and shortest paths come from a library that is not part of this model.
- The text of the exported graph: lines carry node, edge and colour; quoting and braces are not modelled.
- Bisection.Bisection: on the cut path nodes without any edge are in neither part, as in the source; nothing more is claimed for them.
- Louvain.LouvainCommunities: the gain is an arbitrary real function, so nothing is said about modularity or about rounding; a graph with nodes but no links cannot arise and its branch is not modelled.
- Calendar dates are computed on unbounded integers; day numbers within 719468 of the end of the 64-bit range overflow in the source.
- Timestamps.ParseAfterPrint: strings the parser accepts but the printer never makes, such as 30 February or signed fields, are modelled, but no identity is claimed for them.
- Backups.SettingsDir.BackupSettings: a failing write and the directory path are not modelled; names are compared within one directory.
- Scores and preserved spans are function parameters: the word lists and logarithms behind them add nothing to the results, which hold for all of them.
- ConfigTree.SetFailsIff: an index so large that the array cannot be allocated makes the source abort; the model grows the array.
- Nested update works on owned values instead of a mutable reference: a tree has one owner, so what a caller can see is the same; a partly updated tree in memory after an error is not visible because it is dropped. `load`, `find`, `reset` and `import` are reduced to the stored tree and the defaults.
- Digests and signatures are ideal: distinct contents have distinct digests and strings, and no digest contains itself. SHA-256, HMAC, hexadecimal text and JSON text are not modelled.
- Promotion.ReceiptsMatchInstallations: events named "promote" that are appended by other callers are excluded, several processes sharing one ledger are not modelled, and the bookkeeping after the receipt (accept gate, transaction list) is left out. A receipt whose file cannot be opened counts as lost.
- The second receipts file, which is written after the ledger and never read by verification.
- Base32.Base32LowerInline: the bitwise or of a shifted buffer and a byte is written as addition, the low eight bits being zero.
- BudgetLock.MutualExclusion: once a lock file is older than LOCK_STALE_MS nothing is claimed but that others can get in (`BudgetLock.CanJoinIffOveraged`); the clock is taken not to run backwards, and receipts, the spend record and the printed summary are left out.
- Admission.LimitIsKept: fewer than 2^64 threads, the range of the counter; validation before the counter and the action itself are left out, and a panic inside the action is not modelled.
- The advisor, consent and notifier state files, the bounded event queue, and the simple state machines of issues, claims and deployments: easy members that would add no new kind of argument.
