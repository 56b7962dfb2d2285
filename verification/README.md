# Verification of the cores of fingerpori

fingerpori listens to a radio receiver, closes in on transmissions with a squelch, and reports
them over the network. Around that it carries self-contained algorithms, and this project models
six of them and proves what they promise:

- a splay tree with parent pointers and its free list (`src/splay.c`), with its two clients, the
  interning table (`src/spsymbol.c`) and the per-ship cache (`src/cache.c`);
- a reader/writer lock made of one mutex and two condition variables (`src/rwlock.c`);
- a JSON printer and parser over linked items (`src/cJSON.c`);
- the squelch and the sample history (`src/receiver.c`);
- a streaming FIR filter over a wrapping buffer (`src/filter.c`);
- the delivery of events, from a tail-pointer queue (`src/out_json.c`) through a form post to a
  sequence-numbered window (`web/app.js`), and the hash the tables use (`src/crc32.c`).

Each algorithm comes twice: as a pure specification, about which the laws are proved, and as
imperative code on the heap (nodes with links, arrays, loops) that is proved to do what the
specification says. The lock is a step system, one step per C statement.

| file | what it holds |
|---|---|
| `SplayTrees.dfy`, `SplayCost.dfy` | trees as values: order, splaying, splitting; their amortised cost |
| `SplayLinks.dfy`, `SplayHeap.dfy`, `SplayPool.dfy` | the same on nodes with three links, and the free list |
| `Symbols.dfy`, `Cache.dfy` | the two clients of the tree |
| `RwLock.dfy` | the lock |
| `Decimals.dfy` | numbers as texts: the four formats, what is read back, what is lost |
| `JsonText.dfy` | texts and values: what is printed, what is parsed, the round trip |
| `JsonGrammar.dfy` | the grammar of RFC 8259, and that the parser reads every text of it as what it denotes |
| `JsonConform.dfy`, `JsonErrors.dfy` | that the printers write that grammar, and how; what the parser does with texts outside it |
| `JsonItems.dfy`, `JsonBuffers.dfy` | items on the heap and the trees they carry; character buffers |
| `JsonPrinter.dfy`, `JsonParser.dfy`, `JsonLists.dfy` | the two-pass printer, the parser, the list operations |
| `Squelch.dfy`, `Receiver.dfy`, `Filter.dfy` | the squelch, the history buffer, the filter |
| `Delivery.dfy`, `Crc.dfy` | the queue and the event server; the hash |

`dafny verify dfyconfig.toml` checks everything.

Where the code falls short of what its comments or its users expect, the exact condition is proved
and an input that fails is given:

- The comment on `_sp_enq` says equal keys go left; they go right. It is right just when the key is
  absent, which is the only case `sp_install` makes (`EqualsGoLeftJustWhenNone`, `EqualKeyGoesRight`).
- A look-up that misses does not splay, so misses are not amortised: searches for an absent key stay
  within the bound for look-ups if and only if one of them compares at most 12 floor(log2 n) + 3 keys
  (`MissesWithinPromise`); key 0 after n ascending installs compares n + 1 (`MissesNotAmortised`).
- A thread past its check of `valid` can still take a lock that was destroyed, and no other can
  (`DestroyIsFinal`, `DestroyRaced`).
- A surrogate pair is put together with an or instead of an addition: right just when bit 6 of the
  high surrogate is clear (`JoinedRight`); the text of U+20000 decodes to U+10000 (`SurrogateLost`).
- An escape cut short makes the string parser read past the terminator, just when it stands before the
  closing quote (`UnescapeWild`), as in a text of a quote and a backslash (`EscapeCutShort`); behind the
  value it is harmless (`EscapeBehindValue`).
- Printing keeps a number just when it is whole, or has at most six decimals between a millionth and
  10^9, or at most seven digits beyond (`ReadExact`, `SameJustWhenExact`); 0.1234567 loses its last digit
  (`DigitLost`).
- The 64 characters of `print_number` hold every number but whole ones of 64 characters and more
  (`FitsJustWhen`); 10^63 is one (`WholeTooLong`).
- `receiver_run` compares `len/num_ch` where `len` samples are copied, so with two channels the
  history buffer is overrun from some positions on (`FitsOutsideGap`). Full reads from a file or from the
  device never come there (`FullReadsFit`); one short read of 100 frames and two full ones of 4096 do
  (`StereoGap`, `StereoRun`).
- A web client further behind than the window is sent undefined entries, and never catches up again
  (`EntriesExact`, `DeliveredJustWhenOnTime`); eleven events between two polls are enough (`LateClient`).
- Strings of one length have one hash just when their difference hashes to 0 (`HashLinear`): never for a
  difference in the low seven bits within four consecutive bytes (`NearStringsDiffer`), but for one
  within five (`FiveBytesCollide`).

## Model

| member | source | states |
|---|---|---|
| SplayHeap.SpTree.Splay | src/splay.c:684-773 | from any well-linked search tree and any node in it: that node becomes the root, the in-order sequence and the node set stay, every downlink and uplink agree again, and the loop counter rises by the number of rounds |
| SplayCost.SplayCost | src/splay.c:684-773 | one splay takes at most 1 + 2(drop of potential + 3 floor(log2 n)) rounds, the potential being the sum of the logarithms of subtree sizes |
| SplayHeap.SpTree.Lookup | src/splay.c:121-141 | finds the node just when the key is there, makes it the root and keeps the in-order sequence; on a miss the tree stays; the comparisons rise by one and one for every node above the place where the search ends, which is the node found, and the rounds by what the splay did |
| SplayCost.StraightHalved | src/splay.c:694-757 | a stretch of k nodes that bend the same way takes half as many rounds, rounded up |
| SplayCost.RunPasses | src/splay.c:121-141 | a run of look-ups compares once for each and once for every node above each foot, and its rounds are half the nodes climbed over at least and those at most |
| SplayCost.LookupsAmortised | src/splay.c:343-346 | any m look-ups of keys that are there, on an ordered n-node tree, cost at most m(6L+1)+2nL splay rounds, L = floor(log2 n), and at most m plus twice that many key comparisons |
| SplayCost.AnyLookupsAmortised | src/splay.c:121-141 | any look-ups at all on any n-node tree, h of which find their key: the same bound in h for the rounds, and for the comparisons that bound plus what the misses compare, each its way down the tree of its moment |
| SplayCost.Log2IsFloor | src/splay.c:343-346 | the L of these bounds: 2^L <= n < 2^(L+1) |
| SplayHeap.SpTree.LookupAll | src/splay.c:121-141 | a run of look-ups on the heap: answers each by whether the key is there, keeps the in-order sequence, and raises `lkpcmps` by the number of look-ups and of the nodes they pass, and `splayloops` by half the nodes climbed over at least, both within those bounds |
| SplayCost.MixedRunAmortised | src/splay.c:343-346 | any m look-ups, installs and deletes, in any mix, from the empty tree raise the three counters together by at most m(24 floor(log2 m)+7) and the comparisons of the look-ups that miss |
| SplayHeap.SpTree.Serve | src/splay.c:121-400 | a run of look-ups, installs and deletes on the heap: each finds its key just when the tree of its moment has it, the tree ends as the fold of the run, the three counters rise by exactly its cost, within that bound from an empty tree, and nodes in use minus elements stay as they were |
| SplayCost.SplitCost | src/splay.c:481-597 | one split compares at most 3 + 3(drop of potential + 2 floor(log2 n)) keys |
| SplayCost.MissesWithinPromise | src/splay.c:121-141 | on any ordered tree, searches for any absent key stay within the comparisons promised for look-ups, however many they are, if and only if one of them compares at most 12L+3 keys |
| SplayCost.MissesRepeat | src/splay.c:121-141 | m searches for any absent key leave any tree as it is, take no splay round, and compare the whole way down m times |
| SplayCost.MissesNotAmortised | src/splay.c:121-141 | after n installs in any n different nodes, every search for one absent key compares n+1 times, for ever, and leaves the tree as it was |
| SplayHeap.SpTree.Enq | src/splay.c:481-597 | terminates; n becomes the root over the two halves of the split, all links right, the node set grows by n alone, and the comparisons rise by the depth of the place where the key was missing |
| SplayTrees.SplitIsCut | src/splay.c:499-597 | the two halves one after the other are the tree's nodes in order, all smaller keys on the left and all the rest on the right |
| SplayTrees.EqualsGoLeftJustWhenNone | src/splay.c:473-476 | what the comment says of equal keys holds if and only if the key is not in the tree |
| SplayTrees.EqualKeyGoesRight | src/splay.c:510 | a one-node tree whose equal key goes to the right |
| SplayTrees.InstalledInOrder | src/splay.c:151-166 | an absent key enters the in-order sequence at its place, everything else in order around it |
| SplayHeap.SpTree.Install | src/splay.c:151-166 | returns the node with the key as root; an absent key gets a node off the free list or a fresh one, the count of entries rises by one then and else not, no other node leaves the free list, and entries minus elements stay in balance |
| SplayHeap.SpTree.DeqRight | src/splay.c:609-666 | takes the least node out of the right subtree, semi-splaying, and leaves the rest well linked |
| SplayCost.DeqHalves | src/splay.c:609-666 | taking the least node out halves the left spine: of s nodes (s+1)/2 stay on it, above the right subtree of the one taken out |
| SplayHeap.SpTree.Delete | src/splay.c:379-400 | removes exactly n, gives it to the free list, and keeps order, links and the element count |
| SplayTrees.RemovedInOrder | src/splay.c:379-400 | the in-order sequence loses that one element, and its successor is the new root |
| SplayHeap.SpTree.FHead | src/splay.c:177-188 | the first node in order, NULL for the empty tree |
| SplayHeap.SpTree.FNext | src/splay.c:247-279 | the in-order successor over uplinks, NULL after the last |
| SplayHeap.SuccessorAt | src/splay.c:247-279 | that successor is the next element of the in-order sequence |
| SplayHeap.SpTree.Scan | src/splay.c:198-206 | visits every node from the given one on, once, in key order |
| SplayHeap.SpTree.Null | src/splay.c:224-237 | every node goes to the free list, right subtrees first; the counters are reset, except on an empty tree |
| SplayPool.Pool.AllocBlk | src/splay.c:77-97 | takes the first free node, or makes 200 and takes one, which leaves 199; nodes allocated stay nodes in use plus nodes free |
| SplayPool.Pool.FreeBlk | src/splay.c:66-71 | puts the node first on the free list and keeps that balance |
| Symbols.SymTab.LookupMem | src/spsymbol.c:43-73 | the id of the name in the table, or 0 |
| Symbols.SymTab.InternMem | src/spsymbol.c:75-118 | the id the name has, or a fresh one that is entered; NULL gives 0 and no change |
| Symbols.SymTab.FreeMem | src/spsymbol.c:149-188 | the table loses that name alone, and the tree its node if the chain is empty |
| Symbols.SymTab.NullDb | src/spsymbol.c:123-142 | every entry is freed once, every node goes back, and the table is empty |
| Symbols.SymTab.Serve | src/spsymbol.c:43-188 | any run of the three operations, on any hash function: the table ends as the fold of the run, and every call answered what the table said at that point |
| Symbols.RunStable | src/spsymbol.c:62-70 | in such a run a name keeps its id until it is freed: interning is idempotent and look-ups agree |
| Symbols.RunDistinct | src/spsymbol.c:97-101 | in such a run distinct names have distinct ids, hash collisions or not, and a name interned anew gets an id that no name in the table has |
| Symbols.RunFinds | src/spsymbol.c:62-72 | from an empty table a look-up finds a name if and only if it was interned and not freed since |
| Symbols.IdsDistinct | src/spsymbol.c:106-116 | while chains hang under the node of their hash and hold the table, ids tell names apart |
| Cache.Cache.Get | src/cache.c:163-198 | the ship's entry, or a blank one under a new node |
| Cache.Cache.Position | src/cache.c:204-229 | the report joins the ship's record, and every other ship's stays the fold of its own reports |
| Cache.Cache.VesselData | src/cache.c:235-275 | the same for a class A vessel's data |
| Cache.Cache.VesselDataB | src/cache.c:277-308 | the same for class B data |
| Cache.Cache.VesselDataBB | src/cache.c:310-334 | the same for the second part of class B data |
| Cache.Cache.VesselName | src/cache.c:336-364 | the same for a name and a destination |
| Cache.Cache.Persons | src/cache.c:366-383 | the same for the number of persons on board |
| Cache.LatestIsOwn | src/cache.c:163-198 | a ship's record is the fold of the reports for that ship alone |
| Cache.PositionLasts | src/cache.c:204-229 | the last position report of a ship is what its entry has in all seven fields of a position, latitude and longitude each its own |
| Cache.NameLasts | src/cache.c:235-364 | the last class A data or name report gives name and destination |
| Cache.CallsignLasts | src/cache.c:235-308 | the last class A or first part class B report gives the call sign |
| Cache.HullLasts | src/cache.c:235-334 | the last of the three data reports gives type and measures; those of class B clear the IMO number and the draught |
| Cache.DataTimeLasts | src/cache.c:235-364 | the last of the four data reports gives the time of the data |
| Cache.PersonsLasts | src/cache.c:366-383 | the last report of persons gives their number and its time |
| Cache.MmsiLasts | src/cache.c:204-229 | an entry that was reported on has the ship's MMSI |
| Cache.NeverGiven | src/cache.c:181-194 | a field that no report has given is as in a new entry |
| Cache.BlankIs | src/cache.c:181-194 | a new entry has zeros, minus ones and no strings |
| Cache.KeyIs | src/cache.c:169 | the key is the MMSI in 32 bits |
| Cache.Cache.Rotate | src/cache.c:143-157 | hands over exactly the records since the last rotation and starts empty, with no node or entry in common |
| Cache.Free | src/cache.c:99-118 | visits every entry once in ascending key order and empties the tree, though every step reshapes it |
| Cache.FreeAside | src/cache.c:99-118 | freeing a rotated tree gives its nodes to the free list the live cache uses, and leaves the live cache intact |
| Cache.PositionAside | src/cache.c:204-229 | a report to the live cache leaves a rotated tree and its records untouched |
| RwLock.InvKept | src/rwlock.c:130-289 | every step of any number of threads keeps mutual exclusion inside the mutex, the counters, the exclusion of writers and the promises to sleepers |
| RwLock.WriterAlone | src/rwlock.c:214-238 | in every reachable state a writer that holds the lock holds it alone |
| RwLock.CountersTell | src/rwlock.c:130-289 | in every reachable state the four counters are the numbers of threads in the four roles |
| RwLock.NoReaderSleeps | src/rwlock.c:264-289 | in every reachable state with the mutex free no reader sleeps while no writer is active |
| RwLock.WaiterAwake | src/rwlock.c:180-194 | no lost wakeup: with the mutex and the lock free and anybody waiting, some waiter is awake |
| RwLock.WaiterCanWin | src/rwlock.c:130-154 | and it has the lock after its own next five statements |
| RwLock.ReadLockEnds | src/rwlock.c:130-154 | rwl_rdlock, run by itself, takes the lock whatever number of readers hold it, and sleeps if and only if a writer is active |
| RwLock.TryReadLockEnds | src/rwlock.c:160-178 | rwl_tryrdlock takes it beside any readers, and gives up with everything as it was if and only if a writer is active |
| RwLock.WriteLockEnds | src/rwlock.c:214-238 | rwl_wrlock takes the lock if and only if nobody is active, and else sleeps |
| RwLock.TryWriteLockEnds | src/rwlock.c:244-262 | rwl_trywrlock likewise, and else gives up with everything as it was |
| RwLock.WokenReaderTakes | src/rwlock.c:143-150 | a woken reader takes the lock and no longer waits, beside any other readers |
| RwLock.WokenWriterTakes | src/rwlock.c:227-234 | a woken writer takes the free lock and no longer waits |
| RwLock.WokenInVain | src/rwlock.c:143-146 | a waiter woken while the lock is taken against it sleeps again, and nothing else has changed |
| RwLock.SpuriousChangesNothing | src/rwlock.c:145 | so a wakeup for no reason ends in the same state |
| RwLock.ReadUnlockEnds | src/rwlock.c:180-194 | rwl_rdunlock takes one from the readers and wakes nobody while readers are left or no writer waits |
| RwLock.LastReadUnlockSignals | src/rwlock.c:188-190 | the last reader wakes any one sleeping writer |
| RwLock.WriteUnlockWakesReaders | src/rwlock.c:275-279 | rwl_wrunlock wakes every sleeping reader if readers wait, writers or not |
| RwLock.WriteUnlockSignals | src/rwlock.c:280-283 | else any one sleeping writer, if writers wait |
| RwLock.WriteUnlockEnds | src/rwlock.c:264-289 | else nobody |
| RwLock.DestroyEnds | src/rwlock.c:74-110 | rwl_destroy clears the flag if and only if nobody is active and nobody waits, and else changes nothing |
| RwLock.NoCallAfterDestroy | src/rwlock.c:134-135 | a call on a destroyed lock changes nothing |
| RwLock.DestroyFindsNobody | src/rwlock.c:74-110 | a destroy that goes through finds no holder and no waiter |
| RwLock.DestroyIsFinal | src/rwlock.c:74-110 | afterwards the lock can be taken if and only if some thread had passed its check of the valid flag and not yet locked the mutex |
| RwLock.DestroyRaced | src/rwlock.c:74-110 | such a state is reached by two threads in five steps |
| JsonText.ValueBack | src/cJSON.c:267-470 | parsing any printed tree, at any depth, formatted or not, gives the tree with its numbers as they were written and stops where the print ended, whatever follows that cannot extend a number |
| JsonText.ParsePrint | src/cJSON.c:252-264 | cJSON_Parse of either print of any tree is that tree with its numbers as written, duplicate names and order included; it is the same tree if and only if no number lost anything, and literally the same if all are whole |
| JsonGrammar.JsonRead | src/cJSON.c:96-412 | every JSON text of RFC 8259, whatever its white space, the form of its numbers and the escapes in its strings, is parsed to its end, and comes out as what it denotes if and only if no string has an escaped NUL or a surrogate pair whose high half has bit 6 |
| JsonConform.PrintIsJson | src/cJSON.c:119-470 | both printers write a JSON text of RFC 8259 for any tree, which denotes the tree with its numbers as written |
| JsonConform.Tight | src/cJSON.c:415-470 | an object and a list as printed without format |
| JsonConform.Laid | src/cJSON.c:415-470 | the same with format: lines, tabs, and the blank behind a comma |
| JsonText.SameJustWhenExact | src/cJSON.c:119-140 | every value of the tree survives if and only if every number in it is one that printing loses nothing of |
| JsonText.StringBack | src/cJSON.c:143-236 | every string survives escaping and unescaping |
| JsonConform.StringIsQuoted | src/cJSON.c:203-236 | what is printed for a string is one of section 7 of RFC 8259: no control character, quote or backslash but in one of its escapes |
| JsonConform.PlainStays | src/cJSON.c:217 | a string is printed as it is if and only if it has no quote, no backslash and nothing below 32 |
| JsonGrammar.LettersRead | src/cJSON.c:143-200 | every string of that section is read to its quote, and comes out as its UTF-8 if and only if it has no escaped NUL and no pair that is put together wrongly |
| JsonGrammar.UnitRead | src/cJSON.c:168-188 | an escape of four hex digits, each in either case, gives the UTF-8 of the code point, as a UTF-8 reader gives it back |
| JsonGrammar.LettersCounted | src/cJSON.c:148 | the buffer made for a string has one place for a character or a short escape and five for a `u` escape |
| JsonErrors.OddEscape | src/cJSON.c:193 | a backslash before any other character stands for that character |
| JsonErrors.LowDropped | src/cJSON.c:170 | an escaped NUL and a low surrogate on its own are left out |
| JsonErrors.HighDropped | src/cJSON.c:174 | so is a high surrogate that no escape follows |
| JsonErrors.BothDropped | src/cJSON.c:176 | and a high surrogate together with an escape that is no low one |
| Decimals.NumberBack | src/cJSON.c:96-141 | what print_number writes of any number, in whichever of its formats, parse_number reads to the end as the number that format rounds to |
| Decimals.ReadExact | src/cJSON.c:119-140 | that number is the one printed if and only if it is whole, or has at most six decimals in the range of %f, or at most seven digits in the range of %e |
| Decimals.ReadNear | src/cJSON.c:119-140 | how far it can be off: DBL_EPSILON for %d and %.0f, half a millionth for %f, half a unit of the seventh digit for %e |
| Decimals.FormatChosen | src/cJSON.c:119-137 | a number is written without a point if and only if it is within 2^-52 of a C int or of the whole number below, and else with an exponent if and only if it is below a millionth or above 10^9 |
| Decimals.TiesToEven | src/cJSON.c:134-136 | a number halfway between two is rounded to the even one |
| Decimals.HalfWritten | src/cJSON.c:136 | -0.5 is written -0.500000 |
| Decimals.TenMillionthWritten | src/cJSON.c:135 | a ten millionth is written 1.000000e-07 |
| Decimals.DigitLost | src/cJSON.c:136 | 0.1234567 is written 0.123457 |
| Decimals.FitsJustWhen | src/cJSON.c:128-137 | a number with the exponent of any double fits its 64 characters, terminator included, if and only if it is not a whole one of more than 63 |
| Decimals.WholeTooLong | src/cJSON.c:130-134 | 10^63 does not fit |
| JsonText.ParseDisciplined | src/cJSON.c:252-279 | any parse ends, with a strict suffix left or a failure inside the text, and leaves what C defines only if some escape in the text is incomplete |
| JsonText.UnescapeWild | src/cJSON.c:147-196 | the string parser leaves what C defines if and only if, before the closing quote, an escape is cut short or a `u` has fewer than four hex digits |
| JsonText.EscapeCutShort | src/cJSON.c:147-158 | a quote and a backslash are such a text |
| JsonText.EscapeBehindValue | src/cJSON.c:252-260 | the text `1\` parses to 1 although its escape is cut short |
| JsonText.ValueDisciplined | src/cJSON.c:267-412 | the same for every value inside a text, whatever its nesting |
| JsonErrors.ListStopsAtValue | src/cJSON.c:309-325 | in a list, after any good elements, ep stands where a value should start |
| JsonErrors.ListStopsAfter | src/cJSON.c:322-324 | after any good elements, ep stands where neither a comma nor the bracket is |
| JsonErrors.RecordStops | src/cJSON.c:388-410 | in an object, after any good pairs, ep stands where its next pair fails |
| JsonErrors.MemberStopsAtName | src/cJSON.c:391 | a pair fails where its name should start |
| JsonErrors.MemberStopsAtColon | src/cJSON.c:394 | or where its colon should stand |
| JsonErrors.MemberStopsAtValue | src/cJSON.c:395 | or where its value should start |
| JsonErrors.RecordStopsAfter | src/cJSON.c:409-411 | after any good pairs, ep stands where neither a comma nor the brace is |
| JsonErrors.LooseNumbers | src/cJSON.c:101-110 | 07 is 7, a sign alone is 0, 7. leaves its point, 7e has an empty exponent |
| JsonText.UnescapeFits | src/cJSON.c:148-150 | the decoded string is never longer than the size loop counted, and that loop stays in the text |
| JsonText.JoinedRight | src/cJSON.c:172-178 | the joined pair is the code point of RFC 2781, section 2.2, if and only if bit 6 of the high surrogate is clear |
| JsonText.SurrogateLost | src/cJSON.c:172-178 | the quoted pair of U+20000 decodes to the UTF-8 of U+10000 |
| JsonParser.Parser.SkipBlanks | src/cJSON.c:249 | stops at the first character above 32 or at the end; NULL stays NULL |
| JsonParser.Parser.ParseString | src/cJSON.c:143-200 | fills the item with the decoded string, in a buffer sized by a first pass that is never overrun, and returns the place after the quote |
| JsonParser.PutUtf8 | src/cJSON.c:180-188 | writes the code unit's UTF-8 bytes backwards from the last |
| JsonParser.Parser.ParseNumber | src/cJSON.c:96-116 | sign, integer, fraction and exponent as a mantissa and a power of ten |
| JsonParser.Parser.ParseValue | src/cJSON.c:267-279 | builds below the item exactly the tree the text stands for, out of fresh items, and returns the place after it; or returns NULL with ep at the failure; terminates |
| JsonParser.Parser.ParseArray | src/cJSON.c:300-325 | the items in order, linked both ways, each carrying its value |
| JsonParser.Parser.ParseObject | src/cJSON.c:379-412 | the members in order, linked both ways, each with its name and value |
| JsonParser.Parser.Parse | src/cJSON.c:252-260 | a tree if and only if the text parses, ep NULL if and only if a non-NULL text parses, and otherwise inside the text; on every text whose parse stays within what C defines |
| JsonPrinter.PrintStringPtr | src/cJSON.c:203-236 | the buffer holds the quoted and escaped string and is exactly as long, terminator included |
| JsonPrinter.ArrayFits | src/cJSON.c:341-352 | for every array, depth and format the computed size is enough for the text and its terminator |
| JsonPrinter.ObjectFits | src/cJSON.c:432-442 | the same for every object |
| JsonPrinter.PrintValue | src/cJSON.c:282-297 | over any item that carries a tree whose numbers fit their buffers: a fresh buffer with exactly the text of that tree, never overrun |
| JsonPrinter.PrintArray | src/cJSON.c:328-376 | counts and prints the children, adds up their sizes, allocates and composes |
| JsonPrinter.PrintObject | src/cJSON.c:415-470 | the same with names, tabs and line ends |
| JsonPrinter.PrintItem | src/cJSON.c:263-264 | the printed buffer parses back to the tree the items carry, its numbers as written |
| JsonPrinter.PrintNumber | src/cJSON.c:119-141 | picks one of the four formats by the source's three tests; 21 characters hold any C int, and 64 any number that fits |
| JsonItems.ArraySize | src/cJSON.c:473 | the number of children |
| JsonLists.GetArrayItem | src/cJSON.c:474 | the child at that index, NULL past the end, the first for a negative index |
| JsonLists.GetObjectItem | src/cJSON.c:475 | the first child whose name is the same but for case |
| JsonLists.Strcasecmp | src/cJSON.c:39-44 | 0 if and only if the names are the same but for case, or both NULL |
| JsonLists.SameLetterWhen | src/cJSON.c:42 | two characters count as one if and only if they are the same or the two forms of one letter A to Z |
| JsonLists.AddItemToArray | src/cJSON.c:483 | the item becomes the last of the list, linked both ways |
| JsonLists.AddValue | src/cJSON.c:483 | the array's value gains that value at the end |
| JsonLists.DetachItemFromArray | src/cJSON.c:488-489 | that item comes out alone and the others stay linked in order; nothing changes past the end |
| JsonLists.DetachValue | src/cJSON.c:488-489 | the array's value loses that element, which the detached item still carries |
| JsonLists.DetachItemFromObject | src/cJSON.c:491 | the first child with the name comes out |
| JsonLists.ReplaceItemInArray | src/cJSON.c:495-497 | the new item takes the old one's place in the list |
| JsonLists.ReplaceValue | src/cJSON.c:495-497 | the array's value has the new value at that index and is otherwise the same |
| Squelch.EventsSpaced | src/receiver.c:295-349 | whatever the input, openings and closings alternate, each on a 15-sample tick, the first at sample 990 or later; a closing comes at least 90 samples after its opening and tells the milliseconds between, an opening at least 990 after a closing |
| Squelch.SumBounded | src/receiver.c:299-301 | the integrator never exceeds 39322799 |
| Squelch.QuietOpens | src/receiver.c:299-349 | samples between -1499 and 1499 open the squelch within a number of samples given by the integrator |
| Squelch.LoudCloses | src/receiver.c:299-349 | samples from 3401 up or from -3401 down close it within such a number |
| Squelch.StaysOpen | src/receiver.c:328-349 | once open below the upper threshold it stays open, without an event, on samples between -3400 and 3400 |
| Squelch.StaysClosed | src/receiver.c:328-349 | once closed above the lower threshold it stays closed on samples from 1500 up or from -1500 down |
| Squelch.SignsDoNotMatter | src/receiver.c:329-330 | a stream with the signs of any samples turned round gives the same events and the same state |
| Receiver.SquelchVars.Feed | src/receiver.c:313-349 | one sample moves the variables and reports events as the state machine says |
| Receiver.Receiver.CopyBuffer | src/receiver.c:304-372 | every num_ch-th sample lands in the history, the squelch is fed each filtered sample, each opening's look-back is the 2400 samples before it, and the largest sample is returned |
| Receiver.LookBacksAreWindows | src/receiver.c:345-365 | there is one look-back for each opening, and it is the 2400 samples before the sample the event names |
| Receiver.Receiver.Run | src/receiver.c:374-415 | where the samples fit, the last 4096 of the stream stand before bufpos after every call, and look-backs see the stream itself; too long a call aborts |
| Receiver.MonoFits | src/receiver.c:384-402 | with one channel they always fit |
| Receiver.FitsOutsideGap | src/receiver.c:390 | with more channels they fit if and only if bufpos is not in the gap the comparison leaves |
| Receiver.FullReadsFit | src/receiver.c:384-402 | a stereo receiver that only ever gets full reads, of 1020 frames from a file or 4096 from the device, never comes into the gap |
| Receiver.StereoGap | src/receiver.c:390 | with two channels a short read of 100 frames and two device reads of 4096 fit, and the third full read overruns the buffer |
| Receiver.StereoRun | src/receiver.c:374-415 | that run on a receiver: after the three good calls it stands where the next one overruns |
| Filter.Mac | src/filter.c:43-52 | the dot product of the window and the taps |
| Filter.StridedAt | src/filter.c:109-118 | sample i of a stride is sample i*step of the input |
| Filter.FirFilter.Run | src/filter.c:83-100 | one input, one output of the filter's definition over all input so far |
| Filter.FirFilter.RunBuf | src/filter.c:102-136 | for any step, start and number of wraps: the outputs are those of the definition over every step-th sample, and the peak is returned |
| Filter.OutputIsConvolution | src/filter.c:43-52 | output k is the convolution sum over inputs k-L to k-1, zeros before the start, the current sample left out |
| Filter.OutputsCompose | src/filter.c:102-136 | two calls in a row are one call on the joined input |
| Filter.ImpulseResponse | src/filter.c:83-100 | an impulse gives the taps back in reverse, one sample late, and nothing else |
| OutJson.Queue.Push | src/out_json.c:288-301 | the text joins the end of the queue through the tail pointer |
| OutJson.Queue.Drain | src/out_json.c:246-256 | takes the whole queue; what was drained so far and what is queued are together what was pushed, in order |
| OutJson.PostAll | src/out_json.c:192-230 | the form holds the batch's texts numbered from 0 and their count |
| OutJson.FormRoundTrip | web/app.js:38-43 | reading the numbered fields of such a form gives the texts back in order |
| WebQueue.Server.HandlePush | web/app.js:30-59 | the window is the last 10 events at most, and every waiting client is answered with what it misses |
| WebQueue.Server.LastEvents | web/app.js:61-71 | the last n events, with undefined entries for those that have expired |
| WebQueue.Server.UpdResponse | web/app.js:73-93 | the sequence number, the window's length and the events since the client's number |
| WebQueue.Server.HandleUpd | web/app.js:95-127 | an answer at once, or a listener when there is nothing new |
| WebQueue.FreshStart | web/app.js:98-108 | a client without a number, with 0, or with one the server has not reached starts at the whole window, the last ten events or all of them; any other goes on at its number |
| WebQueue.FirstAnswer | web/app.js:95-127 | the first answer to a client that comes after the first event is that window |
| WebQueue.Server.Hangup | web/app.js:122 | a client that hangs up takes its listener alone out of the list |
| WebQueue.EntriesExact | web/app.js:61-71 | a response is exactly the missed events, in order, if and only if the client is no further behind than the window is long |
| WebQueue.DeliveredInOrder | web/app.js:95-127 | over any run of pushes and polls that are on time a client is sent every event from its first on, once, in order, through long polls too |
| WebQueue.DeliveredJustWhenOnTime | web/app.js:61-127 | and if and only if: after one late answer it never again has them all |
| WebQueue.LateClient | web/app.js:61-71 | a client told of one event that asks again after eleven more gets a hole where the second event was |
| WebQueue.Deliver | web/app.js:30-127 | any posts and requests of any number of clients, run on the server: every client ends as its own run over the shared events says, and has been sent them all, once and in order, if and only if it was always on time |
| Crc.CrcState.Init | src/crc32.c:50-66 | the table holds, at i, the shifted polynomials of the bits of i |
| Crc.CrcState.Crc32n | src/crc32.c:69-84 | the hash of the bytes |
| Crc.CrcState.Crc32 | src/crc32.c:87-102 | the same for a string up to its terminator |
| Crc.SingleBits | src/crc32.c:58-62 | each of the seven low bits of a byte has its own shift of the polynomial, the eighth none |
| Crc.HashOfSplay | src/crc32.c:76-81 | the hash of one five-letter string |
| Crc.HashLinear | src/crc32.c:76-81 | on inputs of one length the hash of an exclusive or is the exclusive or of the hashes |
| Crc.NearStringsDiffer | src/crc32.c:76-81 | strings of one length whose low seven bits differ, and only within four consecutive bytes, never collide |
| Crc.FiveBytesCollide | src/crc32.c:76-81 | two five-letter strings that collide |
| Crc.StepBound | src/crc32.c:79 | keys stay below 2^31 |

## Left out

- Sound capture, serial port, MySQL, curl, files, syslog, start-up and the browser side: input, output and foreign calls.
- Allocation failure everywhere, and the frees of cJSON items and buffers (`cJSON_Delete`): allocation is total.
- `src/splay.c:103-113` (`sp_free_freelist`): it counts freed nodes twice and leaves the list head dangling, so the balance of nodes stops there.
- Widths of the statistics counters, of `sp_allocated` and of the queue's running numbers: they are unbounded.
- SplayHeap.SpTree.Lookup: the comparison counter passes through an `int` in the source, which cuts it; here it is unbounded.
- SplayHeap.SpTree.Install: the caller's `data` pointer is set by the clients, as in the source.
- Symbols.SymTab.InternMem: the id is the entry itself, not the address cast to a key of 32 bits, and the allocator may not hand out a freed entry's address again.
- Symbols.SymTab.Serve: `symbol_null_db` is not one of the requests of a run.
- Cache.Cache.Get: an entry's 21 fields are one record-valued field, and coordinates are reals.
- Cache.Free: freeing an entry's strings is the list of entries it returns.
- Cache.PositionAside: written out for one of the six updates; all six share the same two steps.
- RwLock.InvKept: pthread error returns, cancellation handlers and the destruction of the mutex itself are not steps, and a thread that holds the lock does not ask for it again.
- JsonText.ParsePrint: a number is an exact decimal, as every finite double is; the rounding of a parsed decimal to a double, infinities, not-a-number and the sign of -0 are left out.
- JsonParser.Parser.ParseNumber: the double is a mantissa and a power of ten, without rounding or overflow, and `valueint` is not kept.
- JsonParser.Parser.Parse: texts whose parse comes to a string with an escape cut short, or with fewer than four hex digits after a `u`, are excluded: there the C code reads past the terminator or a variable that was not set.
- JsonPrinter.PrintValue: the array of entry pointers is a sequence; numbers too long for the buffer are excluded, as there the C code writes past it.
- JsonPrinter.PrintArray: likewise.
- JsonPrinter.PrintObject: likewise.
- JsonPrinter.PrintItem: likewise.
- JsonPrinter.PrintNumber: `valueint` is the number cut to a whole one.
- JsonLists.ReplaceItemInArray: the replaced item is returned instead of deleted; the reference flag and the typed array constructors are left out.
- Receiver.Receiver.Run: the wrap of the counter `sql_pos`, the level log, the averaging of a look-back before it is reported (`src/fingerpori.c:17-32`) and the unfinished fingerprint search (`src/receiver.c:185-293`) are left out.
- Filter.FirFilter.RunBuf: samples are reals without rounding, and the conversion to short is any function; the assembly of `src/filter-i386.h` is left out.
- WebQueue.Deliver: a client that hangs up is not one of the deeds of a run.
- WebQueue.Server.HandlePush: the `what` field, JSON decoding and its exceptions, and HTTP headers are left out.
- OutJson.Queue.Drain: the mutex makes push and drain atomic; the posting itself is left out.
- `src/fingerpori.c:34-57`, configuration parsing and duration strings: easy members beside the above.
