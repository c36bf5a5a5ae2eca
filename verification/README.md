# Verified models of libnuma's and numactl's algorithms

libnuma hands memory and processors of a NUMA machine to programs; numactl, numastat and numademo are tools on top of
it. Most of the code wraps system calls. This project models what lies between the calls: bit masks kept in 64-bit
words, two parsers and a printer for hexadecimal masks, the language of node and cpu lists, the node-to-cpu cache, and
the buffer and table algorithms of the tools. Each algorithm is a Dafny method or class in the form of the C code (loops
over words, text edited in place, flags that are set and cleared) and is proved against a specification; the lemmas
beside it say what the specification means.

`long` has 64 bits and `int` 32. Contents of files in /proc and /sys, the answers of the kernel and the events of the
option parser are parameters. Number scanning follows section 7.22.1.4 of ISO/IEC 9899:2011.

| file | subject |
|---|---|
| Wrappers, Sets, Words, Bitmasks | words as bits; `struct bitmask` as a set, word-level and bit-level routines |
| CText | strtoul and the number formats |
| MaskPrinter, MaskParser, MaskRoundTrip, MaskReader | hexadecimal masks: one printer, two parsers, their agreement |
| NumberLists, ListParsers, ListPrinters, ListRoundTrips, ListLanguage | node and cpu lists: meaning, parsers, printers, round trips, and what every written list comes to |
| NodeCache, CacheThreads | the node-to-cpu cache, from one thread with a history and from any number of threads |
| RunMasks | running on node sets and asking back |
| MersenneTwister, HashTable, TableFold, NodeTotals, PointerChase, Distance, ShmDump, Interleave, Options | the algorithms of the tools |

Findings, where the code does less than its documentation or a reader would expect. Each has a lemma with the exact
condition, and most a lemma with an input that shows it:

- An update marks the whole cache stale with one flag, and the first query takes it down. Of the nodes asked about
  before the update, only the one of that first query is refreshed (NodeCache.UpdateRefreshes; SecondNodeStaysOld is an
  example). The manual page, numa.3:969-972, reads as if every node were.
- A file that cannot be read during an update replaces a good cache entry, and later queries return the replacement as a
  success (NodeCache.FailedReadIsKept).
- interleave_next passes over node 0 when it comes from the highest possible node (Interleave.NextIsSuccessor, with
  the example NodeZeroPassedOver).
- An inverted node list is documented as all nodes except those of the list (numa.3:390, numactl.8:97-98). The code
  flips as many low numbers as there are nodes, so that this holds exactly when the nodes are numbered without gaps
  (NumberLists.InvertedAllowedList); with the nodes 0 and 2, "!0" is the node 1, which does not exist
  (NumberLists.NotNodeZero).
- copy_bitmask_to_bitmask moves whole words, so stray bits above the source's size become members of a larger target
  (Bitmasks.CopyKeepsMembers, with the example StrayBitSurfaces).
- The check against binding cpus on shared memory tests a variable that is never set: a cpu binding is accepted after
  any accepted sequence without a size or mode, with or without a segment (Options.CpuBindAnywhere).
- A lookup of a missing name in a full table would send numastat round for ever (HashTable.LookupEnds, with the example
  FullTable), and 2^32 list nodes would leave the pointer chase without an end (PointerChase.NullExists).

The loop in hardware() that prints the node list would lose the end of its last range for a maximum above the highest
node (ListRoundTrips.NodeRangesParseBack). It is never given one: the maximum is found by the loop that fills the mask,
and with it every list parses back (ListRoundTrips.ShowNodes).

## Model

| member | source | states |
|---|---|---|
| Words.OrBit | libnuma.c:1749 | a bit of x \| y is a bit of x or of y, for words of any width; with Words.AndBit it ties word operations to sets |
| Words.AndBit | libnuma.c:1897 | a bit of x & y is a bit of both |
| Words.SameBits | libnuma.c:152-170 | words with equal bits are equal, so the set view loses nothing |
| Bitmasks.Bitmask.SetBit | libnuma.c:161-170 | one number joins or leaves the set, numbers at or above the size never do, and no other bit of any word changes |
| Bitmasks.Bitmask.Weight | libnuma.c:268-276 | the weight is the cardinality of the set |
| Bitmasks.Bitmask.Equal | libnuma.c:258-265 | masks of any two sizes are equal exactly when they have the same members |
| Bitmasks.Bitmask.FindFirst | util.c:37-44 | the least member, and -1 exactly for the empty set |
| Bitmasks.Bitmask.CopyTo | libnuma.c:1253-1265 | the target's words afterwards, for a larger and for a smaller target |
| Bitmasks.CopyKeepsMembers | libnuma.c:1253-1265 | the copy has the source's members below its size exactly when the source has no stray bits between the sizes |
| CText.StrtoulHex | libnuma.c:1410 | up to sixteen hexadecimal digits before another character are read whole, to their value, without saturation |
| CText.StrtoulDecimal | libnuma.c:2087-2089 | a printed decimal number after blanks is read back in base 0 |
| CText.StrtoulForm | libnuma.c:2087-2090 | blanks, a sign, "0x", digits and anything behind them: where the number ends, its base, its value, the sign and the largest word for what is too large |
| CText.StrtoulNothing | libnuma.c:2143-2146 | without a digit nothing is consumed |
| MaskPrinter.Print | test/tbitmap.c:41-65 | the length of the text is returned, and the buffer holds the groups of the mask, highest first and separated by commas, or as much of that as fits in front of a NUL when only the last group reaches its end |
| MaskPrinter.GroupBit | test/tbitmap.c:54-60 | bit i of the value printed for group c is bit 32c + i of the mask, and bits at or above the size are not printed |
| MaskPrinter.MaskTextLength | test/tbitmap.c:49-62 | the length of the text: one digit for four bits or less of the highest group, eight and a comma for each other group |
| MaskParser.Parse | libnuma.c:1384-1416 | on every line the in-place scan ends and yields the return code, the words and the edited line of ParseFrom; without a newline nothing changes |
| MaskRoundTrip.JoinedField | libnuma.c:1395-1407 | deleting the comma joins the last two groups to one field and leaves the text in front untouched |
| MaskRoundTrip.PrintThenParse | libnuma.c:1384-1416 | for every size and contents, and whatever follows the newline, the printed mask is parsed successfully to words with exactly its bits below the size |
| MaskRoundTrip.PrintThenParseInto | libnuma.c:1399-1416 | into fewer words than were printed: refused exactly then, and the words that are there are filled |
| MaskRoundTrip.RoundTrip | test/tbitmap.c:84-90 | print, append a newline, parse: success, the same set, and clean tail bits, whatever the target held |
| MaskReader.ReadMask | libnuma.c:461-513 | on any text: no number or too many numbers return -1 and change nothing; otherwise the low words become the paired groups, at most longsperbits(size) of them, and the weight is returned |
| MaskReader.ToHalfBits | libnuma.c:461-513 | of a number that is too long the low 32 bits are used |
| MaskReader.ReadersAgree | libnuma.c:461-513 | on every printed mask the forward reader, run on a cleared mask, gives the words of the backward parser; it finds nothing exactly for the empty mask and never too much |
| NumberLists.ParseIsMeaning | libnuma.c:2111-2204 | a list is refused exactly when it is ill-formed or names a number out of range, and otherwise stands for the union of its items, flipped after "!"; "all" overrides what came before |
| NumberLists.OnePassIsMeaning | libnuma.c:2134-2188 | filling the mask while scanning gives the same as parsing first and interpreting then |
| NumberLists.RelativeSpan | libnuma.c:2082-2097 | "+a-b" selects the allowed members of rank a to b, only that of rank a when b is smaller, and is refused exactly when a or b reaches the weight or a selected cpu is not configured |
| NumberLists.SelectMember | libnuma.c:2093-2096 | selecting by the rank of a member gives the member back |
| Sets.RankIsCardinality | libnuma.c:2093-2096 | the rank of the mask's size is the number of members |
| NumberLists.NodeListsStayAllowed | libnuma.c:2153-2187 | a node list without "!" and device names is within the allowed nodes |
| NumberLists.CpuListsStayConfigured | libnuma.c:2269-2302 | a cpu list without "all" is within the configured cpus |
| NumberLists.InvertedCpuList | libnuma.c:2303-2310 | "!" before a cpu list without "all" is exactly the complement in the configured cpus |
| NumberLists.InvertedAll | libnuma.c:2264-2267 | "!all" is that complement exactly when no allowed cpu lies beyond the configured ones |
| NumberLists.FlipIsComplement | libnuma.c:2189-2197 | for every mask, flipping as many low numbers as there are nodes gives the other nodes exactly when the nodes have no gaps and the mask holds only nodes |
| NumberLists.InvertedNodeList | libnuma.c:2111-2204 | the same for the result of parsing any node list with "!" |
| NumberLists.InvertedAllowedList | numa.3:388-391 | a list with "!" and without device names, taken within the nodes, stands for all other nodes exactly when the nodes have no gaps |
| NumberLists.NotNodeZero | libnuma.c:2189-2197 | with the nodes 0 and 2, "!0" parses to the node 1 |
| ListParsers.GetNr | libnuma.c:2082-2097 | the end of the number and its value, for relative numbers the member of that rank, or a value that is out of range |
| ListParsers.ParseCpuString | libnuma.c:2239-2317 | null exactly for refused lists, otherwise a new mask with the set the list stands for; which set that is, the ListLanguage rows say |
| ListParsers.ParseNodeString | libnuma.c:2111-2204 | the same for node lists, with device names resolved by a given function |
| ListLanguage.AbsoluteList | libnuma.c:2111-2317 | any list of numbers and ranges, plain or inverted: refused exactly when a number is not configured (cpus) or not allowed (nodes); otherwise a number stands for itself and a range for its first number and the allowed ones up to its last |
| ListLanguage.RelativeList | libnuma.c:2082-2097 | the same with "+": the numbers are positions in the allowed set, and a range is that of the positions |
| ListLanguage.AllList | libnuma.c:2262-2267 | "all", alone or behind other parts, is the allowed set, and is refused exactly when those parts are |
| ListLanguage.DeviceList | libnuma.c:2147-2160 | a device name at the end adds the nodes of the device, or gets the list refused |
| ListLanguage.TailRefused | libnuma.c:2187-2189 | anything else behind the parts, and a comma with nothing behind it, gets the list refused |
| ListLanguage.NumberInAnyForm | libnuma.c:2087-2090 | a number may have blanks and a sign in front and be hexadecimal or octal |
| ListPrinters.PrintNodeCpus | numactl.c:284-335 | the compressed text is the list of maximal ranges, and the count is the weight |
| ListPrinters.CpuRangesText | numactl.c:295-326 | the text is the maximal ranges in order, each after a blank, with commas between them |
| ListPrinters.PrintNodes | numactl.c:354-383 | the text of the range printer that works node by node, as a function of the ranges |
| ListPrinters.NodeRangesText | numactl.c:354-383 | with the highest node as the maximum the text is the maximal ranges with commas between them |
| ListRoundTrips.CpuRangesParseBack | numactl.c:295-326 | the compressed cpu text of every mask of configured cpus parses back to the mask |
| ListRoundTrips.NodeRangesParseBack | numactl.c:354-383 | for any maximum the node text parses back to the set exactly when the highest node of the set is that maximum or stands alone; otherwise it is refused |
| ListRoundTrips.HardwareParsesBack | numactl.c:354-383 | with the highest node as the maximum the text of every set parses back to the set |
| ListRoundTrips.SetConfiguredNodes | libnuma.c:362-388 | the mask is the set of nodes found, and the maximum is the highest of them; 0 without the directory, -1 with an empty one |
| ListRoundTrips.CountNodes | libnuma.c:693-710 | the number of configured nodes is the number of nodes |
| ListRoundTrips.ShowNodes | numactl.c:343-383 | from any nodes found in sysfs to the printed list: it parses back to exactly these nodes |
| NodeCache.NodeCpuCache.NodeToCpus | libnuma.c:1538-1616 | the cache, the return code and the buffer afterwards, for every node number, buffer size and file, readable or not |
| NodeCache.UselessCpumap | libnuma.c:1575-1616 | a cpumap that cannot be read, has no newline, or is refused: -1 and every cpu for which the buffer has room, and nothing newly cached |
| NodeCache.PrintedCpumap | libnuma.c:1569-1616 | a cpumap as the kernel prints it: success, the mask that was printed as far as the buffer has room, and exactly it in the cache |
| NodeCache.NoSuchNode | libnuma.c:1551-1554 | a node out of range: -1, with buffer and cache as they were |
| NodeCache.CachedAnswer | libnuma.c:1557-1567 | from the cache: the cached cpus, or -1 and an empty buffer if that is too small |
| NodeCache.AnswersAreLastReads | libnuma.c:1557-1616 | in every history with readable files each answer is the content at the node's latest reread |
| NodeCache.RereadMeaning | libnuma.c:1557-1558 | a question gets to the file exactly when the node was never asked about or it is the first question within range since an update |
| NodeCache.FirstAfterUpdateIsFresh | numa.3:969-972 | the first question within range after an update is answered from the file as it is then |
| NodeCache.UpdateRefreshes | libnuma.c:1557-1566 | until the next update a question is answered from after the update exactly when it is about the node of the first question after it or about a node that was never asked about before it |
| NodeCache.SecondNodeStaysOld | libnuma.c:1557-1566 | an example: of two nodes asked about before an update, the second one asked about after it gets the old content |
| NodeCache.FixedFilesAreTransparent | libnuma.c:1538-1616 | with unchanging files the cached function is the uncached parse |
| NodeCache.FailedReadIsKept | libnuma.c:1599-1614 | after a failed read the next question returns the fallback as a success exactly when the node was cached before (or its file says the same) |
| CacheThreads.CacheSafety | libnuma.c:1418-1429 | in every interleaving of queries and updates no access goes through a bad or freed pointer, one array is installed and stays, masks reachable from it are never freed and always true, and every finished query has the true cpus of its node |
| CacheThreads.InvNext | libnuma.c:1548-1616 | every single access by any thread keeps the invariant behind that |
| CacheThreads.RunLasts | libnuma.c:1599-1614 | what was once in the cache stays allocated and unchanged to the end of the run |
| CacheThreads.QueriesFinish | libnuma.c:1538-1616 | a query ends after at most longs + 10 accesses of its own, whatever the other threads do |
| CacheThreads.CachedNodesAreNotRead | libnuma.c:1557-1567 | once a node is cached and no update pending, no query of any thread reads its file until the next update |
| CacheThreads.UpdateIsTaken | libnuma.c:1557-1558 | while the mark is up the next query in range takes it down and reads its file, cached or not |
| RunMasks.CollectCpus | libnuma.c:1731-1751 | skipping zero words and OR-ing whole words gives exactly the cpus of the allowed readable nodes of the set |
| RunMasks.GetRunNodeMask | libnuma.c:1867-1905 | a node is in the result exactly when it is allowed, readable, shares a cpu with the affinity and fits the result's size |
| RunMasks.RunThenGet | libnuma.c:1720-1764 | with disjoint nodes, asking back gives exactly the allowed existing nodes of the set that have cpus; it fails exactly when there is none |
| RunMasks.NodeOfCpu | libnuma.c:1630-1657 | the first node with the cpu, -1 exactly if there is none, and with disjoint nodes the inverse of node-to-cpus |
| MersenneTwister.Generator.Refill | mt.c:27-46 | the buffer is the next 624 words of the sequence, although it is overwritten in place in three phases |
| MersenneTwister.Generator.Random | mt.h:9-20 | each call returns the next word of the sequence, across refills |
| MersenneTwister.Draw | mt.c:10-46 | for every n, n draws from a fresh generator are the first n words of the recurrence: the seed, and then each word from three before it |
| MersenneTwister.Recurrence | mt.c:10-46 | the recurrence bit by bit, with its constants: which bits of which words are shifted, masked and added |
| HashTable.Table.Insert | numastat.c:131-144 | the entry goes to the first blank slot of its walk, collisions are counted, and the table invariant is kept |
| HashTable.Table.Lookup | numastat.c:116-129 | a lookup in a table that is not full ends and finds the index first inserted for the name, or -1 |
| HashTable.HashIsPolynomial | numastat.c:106-114 | the place of a name is its polynomial in 33, modulo 2^32 and modulo 151 |
| HashTable.WalkMeetsFirst | numastat.c:116-129 | across collisions and the end of the table, the first entry the walk meets for a name is the one inserted first |
| HashTable.LookupEnds | numastat.c:116-129 | a lookup ends exactly when the table is not full or the name is in it |
| HashTable.InsertAllAndLookup | numastat.c:116-144 | any sequence of at most 150 insertions and then a lookup |
| TableFold.DisplayTable | numastat.c:538-598 | the nested loops end and print the sections of Fold, for any widths, flags and screen width |
| TableFold.FoldShowsAll | numastat.c:542-598 | the sections show every visible data column once and in order and no hidden one |
| TableFold.SectionLines | numastat.c:553-595 | every displayed row of a section has the header columns and the same data columns |
| TableFold.SectionRows | numastat.c:551-561 | the rows of every section are exactly those whose flags ask for it, in the order of the map and each once |
| TableFold.SectionCells | numastat.c:565-589 | every line has the left header columns and then exactly the columns of the section whose flags ask for it, from left to right |
| TableFold.SectionsInOrder | numastat.c:536-598 | the sections start at columns to be shown and follow one another from left to right |
| TableFold.SectionsCover | numastat.c:536-598 | every column to be shown lies in a section |
| TableFold.SectionEnd | numastat.c:589-593 | a section ends in front of the first column, to be shown or not, that does not fit, or behind the last |
| TableFold.SectionFits | numastat.c:576-593 | a line is no wider than the screen, or than the headers and the section's first column, and a section that is not the last ends only in front of a column that does not fit |
| TableFold.FoldSections | numastat.c:542-598 | every section starts at a visible column and ends where its start makes it end |
| NodeTotals.SortNodes | numastat.c:1182-1195 | the node map is put into increasing order and keeps its numbers |
| NodeTotals.Table.Add | numastat.c:1083-1091 | a quantity is added to four cells and no other, in the column of its node, which is the only one with that header; all cells and totals stay the sums of what was added |
| NodeTotals.TotalColumn | numastat.c:1088-1091 | a row's total, and the grand total, is the sum over the node columns, after any stream |
| NodeTotals.TotalRow | numastat.c:1088-1091 | a column's total, and the grand total, is the sum over the rows, after any stream |
| NodeTotals.AddAll | numastat.c:1060-1091 | the whole table after a stream: headers, cells, both totals and the grand total |
| NodeTotals.FillHeaders | numastat.c:1197-1218 | every column has the header of its node in either format, and "Total" comes last |
| NodeTotals.HeaderNumber | numastat.c:1205-1211 | a header is the word and the number of the node in decimal |
| NodeTotals.HeadersDiffer | numastat.c:1203-1217 | a column has the header of a node exactly when it is the node's; "Total" is no node's |
| PointerChase.Init | numademo.c:125-141 | after filling, sorting by any permutation and relinking in place, every node holds the pointer of its index |
| PointerChase.SuccessorMeans | numademo.c:134-140 | a node points to the one behind the place it was filled at, the last of these to nowhere, and the numbers wrap at 2^32 |
| PointerChase.Chase | numademo.c:186-189 | the chase ends at the null pointer, visits no node twice and makes fewer than nmemb hops |
| PointerChase.NextIsNew | numademo.c:134-140 | since successors are injective and node 0 is nobody's, the next node has not been visited |
| PointerChase.NullExists | numademo.c:134-140 | a null pointer exists exactly when the index of every node fits an unsigned int |
| Distance.ParseNumbers | distance.c:36-52 | the k-th number goes to the k-th existing node of the row, numbers beyond those to the entries behind the row, at most as many as the row is long, and no other entry of the table changes |
| Distance.ReadTable | distance.c:54-110 | it fails exactly when a file in front of the first missing one has no line, and leaves no table then; otherwise the table holds the numbers of all lines up to the first empty file, for every sparse node set |
| Distance.NumbersOfLine | distance.c:36-52 | a line of numbers as the kernel writes it is read as these numbers |
| Distance.FirstNumber | distance.c:43 | a number may have a sign and be hexadecimal or octal, and is cut to an int |
| Distance.DistanceInLine | distance.c:112-122 | with such lines the distance from a to b is the number in a's line with as many before it as there are nodes below b |
| Distance.Distances.NumaDistance | distance.c:112-122 | for all pairs of numbers: what the table keeps, 0 if reading failed or there is nothing for the pair, and with well-formed files the rank(b)-th number of a's line |
| ShmDump.DumpShm | shm.c:201-232 | the printed lines are the maximal runs of pages without a default policy, in bytes from the start of the file |
| ShmDump.DumpByAddress | shm.c:184-232 | for every address: a line covers it exactly if the policy of its page is not the default, and says policy and mask; the lines go up and are not split without need |
| ShmDump.DumpShmNodes | shm.c:240-263 | the printed lines are the maximal runs of pages on one node |
| ShmDump.NodesByAddress | shm.c:234-263 | for every address of the segment the lines say the node of its page |
| ShmDump.RunsIsCut | shm.c:215-229 | the runs partition the region, are uniform, and neighbours differ |
| ShmDump.CutIsRuns | shm.c:215-229 | there is no other such partition |
| ShmDump.IntervalsGiveBackPages | shm.c:188-232 | the printed intervals give back every page's policy and mask exactly once, and leave out exactly the default pages |
| Interleave.InterleaveNext | shm.c:276-285 | it ends for every mask with a member, at the first member from its starting point on |
| Interleave.NextIsSuccessor | shm.c:276-285 | that is the cyclic successor, except from the highest possible node when node 0 is a member |
| Interleave.VerifyShm | shm.c:288-349 | no warning exactly when every page has the policy and the mask and lies where it should; otherwise the first warning is about the first page that does not; and the report has exactly the warnings that are due, page by page |
| Interleave.CleanMeans | shm.c:304-345 | for each of the seven policies, what no warning says about the policy, the mask and the node of every page, and exactly what it takes |
| Interleave.PlainWarnings | shm.c:304-345 | which of the five warnings a page gets under the policies without an order |
| Interleave.InterleaveWarnings | shm.c:319-332 | which it gets when interleaved, and where the report ends |
| Interleave.WantedMeans | shm.c:276-285 | the order that is asked for: the given node first, then each time the successor in the mask of the page before |
| Interleave.CleanIsWalk | shm.c:319-332 | a clean interleave report means the pages walk cyclically through the mask |
| Interleave.RoundsOfWalk | shm.c:319-332 | such a walk meets every member once a round, and once more on the way of the unfinished round |
| Interleave.CleanMeansBalanced | shm.c:288-349 | then the page counts of two nodes of the mask differ by at most one in every window of pages |
| Options.Run | numactl.c:528-798 | for every option sequence: a command is run, a segment or the hardware shown, or text printed, exactly under conditions on the sequence alone |
| Options.AcceptedMeaning | numactl.c:528-770 | the loop accepts a sequence exactly when every option is proper, no option is in conflict with an earlier one, and each has before it the attach, policy or node list it needs |
| Options.ExecMeaning | numactl.c:772-798 | a command is run exactly when every option can stand in front of one (no attach, length, offset, huge, shmmode, dump, touch, verify or hardware), with at most one policy, no balancing after it and no --all after a node or cpu list |
| Options.AcceptedByName | numactl.c:528-770 | acceptance with every option by its name: which arguments have to be valid, which options exclude which behind them, and which need others before them |
| Options.ExecByName | numactl.c:772-798 | the same for a command to be run |
| Options.OutcomesByName | numactl.c:528-798 | what the other outcomes depend on |
| Options.ShmMeaning | numactl.c:428-468 | sizes and modes come before every attach, policies and cpu bindings after all of them, what acts on a segment after one, and cpu bindings and sizes exclude one another |
| Options.DumpNeedsAttach | numactl.c:790-791 | the guard against dumping without a segment never fires |
| Options.CpuBindAnywhere | numactl.c:439-461 | a valid cpu binding behind any sequence is accepted exactly when the sequence is and has no size or mode, attached segment or not |

## Left out

- ListParsers.ParseNodeString: the nodes of a device name come from a given function; the lookup through sockets and sysfs is not part of this model.
- ListParsers.ParseCpuString: the masks are assumed large enough for all configured cpus and allowed numbers, as the library allocates them.
- MaskPrinter.Print: a buffer that ends before the last group, where the remaining size would wrap around to a huge one, is not modelled, nor are sizes near 2^31.
- MaskParser.Parse: `numa_parse_bitmap` ends with a pointer in front of the line, which the model shows as index -1.
- CacheThreads.CacheSafety: accesses are interleaved one at a time; reorderings that relaxed atomics allow, failed allocations and unreadable files are not modelled there.
- NodeCache.NodeCpuCache.NodeToCpus: what getdelim leaves in the line after a failed read is not modelled; the file then counts as unreadable.
- RunMasks.RunThenGet: the kernel is taken to store the affinity it is given, and to refuse an empty one.
- Interleave.VerifyShm: the kernel never shows an empty mask for an interleaved page; the code would not end on one.
- Distance.ParseNumbers: surplus numbers that would be written beyond the end of the table are not modelled.
- Distance.ReadTable: the same restriction for every line.
- Distance.Distances.NumaDistance: lines with more numbers than there are nodes, which would spill into other rows, are left out.
- ListPrinters.PrintNodeCpus: without --cpu-compress every cpu is printed by itself, which is not modelled.
- ShmDump.DumpShm: the hexadecimal addresses and the names of policies and masks are printed by routines that are not modelled.
- ListRoundTrips.ShowNodes: the node mask is taken to have a bit for every node in sysfs, as the kernel's own masks have.
- HashTable.Table.Insert: inserting into a full table, which would not end, is not modelled.
- TableFold.DisplayTable: how a cell's text is justified, how flags are derived from cells, and the blank line between sections.
- NodeTotals.Table.Add: quantities are real numbers; rounding of doubles is not modelled, nor is the parsing of numa_maps.
- PointerChase.Chase: the timing around the loop, and the side effect behind it.
- Options.Run: option arguments and the calls made for them appear only as success or failure.
- System calls, sysfs and /proc access, getopt, memory policies and home nodes: their behaviour is the kernel's or the C library's.
- I/O device affinity, netlink and sysfs helpers: sockets and regular expressions.
- The version 1 twins of the interfaces: they repeat the version 2 logic.
- STREAM, cache clearing, memhog, migspeed and migratepages: benchmarks and thin drivers.
