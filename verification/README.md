# Verification of the C libraries under c/libs

This project models the data structures and codecs of the vendored C libraries in Dafny and proves that
they do what their documentation promises. `dafny verify dfyconfig.toml` checks it.

| file | models |
|---|---|
| HeapPermute.dfy | heap-permutation.h: Heap's algorithm with one swap after every recursive call |
| UtString.dfy | utstring.h: Knuth-Morris-Pratt with the strong failure table, in both directions |
| Lists.dfy, MergeSort.dfy | linked lists of handles; the bottom-up mergesort of uthash.h and utlist.h |
| UtHash.dfy | uthash.h: the chained hash table threaded with its insertion-order list |
| UtList.dfy | utlist.h: doubly linked lists whose head's prev is the tail |
| PQueue.dfy | pqueue.c: the binary heap whose elements know their position |
| BSearch.dfy, BString.dfy, FindReplace.dfy, BStream.dfy, Split.dfy | bstrlib.c: searches, splices, replacement, buffered streams, split and join |
| Sgml.dfy, Justify.dfy, Base64.dfy, Uu.dfy, YEnc.dfy | bstraux.c: encodings and justification |
| Utf8.dfy | utf8.h: validation, code points, case conversion |
| Bmp.dfy | bmpread.c: the pixel decoders and the row walk |
| Bits.dfy | masks, shifts and powers of two |
| Common.dfy | bytes, null pointers and error results, slices |

How the C is read:

- A pointer to a list node is a handle, an index into one sequence per link field; NULL is -1. Each macro is
  a method that takes and returns these sequences, with the same assignments in the same order. The classes
  `UtHash`, `PriorityQueue`, `Bstring` and `BStream` hold the state and call them.
- `Valid()` of these classes is the invariant. Every operation requires it and ensures it again, so it holds
  after any run of operations; with it come the exact new order, contents or text. For a `Bstring` it says that
  the text ends with a NUL; where bstrlib takes a string without one, `Shaped()` is required and the NUL ensured.
- User callbacks (hash function, comparison, priority order, `tolower`, the reads of a core stream) are
  arbitrary functions. Only sortedness needs a total preorder, and only the heap a strict weak order.
- A failing allocation is a flag of the call where the library promises to recover from it (additions to a
  hash table, insertion into the heap); elsewhere memory is granted.
- Masks, shifts and casts on bytes are written as the quotients and remainders they take; `Bits` proves this
  for the general masks of the hash table and for the bit smearing of snapUpSize.
- Buffers of bstrlib, utf8.h and bmpread.c are arrays that the methods change in place. A string
  argument of a splice or a replacement may lie inside the string it is applied to (`Source`).

Where the code departs from its comments the model follows the code:

- bsplitstrcb does not look for a separator at the character right behind a hit. `Split.AdjacentNotSeen`
  shows a text where a piece keeps a separator and `Split.SplitCleanIff` says for which texts that happens;
  joining still gives the text back.
- bsreada may deliver fewer than n bytes although more are left, when nothing is buffered and the destination
  has room: then it makes one read. `BStream.ReadAppend` says exactly how many come and when that is all,
  `BStream.ShortRead` shows a case.
- The stream readers may leave the buffer of the stream without a final NUL, so `BStream` keeps `Shaped()` for
  it, not `Valid()`. `BStream.SentinelLeft` shows a case; the contracts of `BStream.ReadLineAppend` and
  `BStream.ReadAppend` say which byte stands there, and the NUL is kept if and only if that byte is 0:
  bsreadlna keeps the NUL when the terminator was in the buffer. Otherwise the byte is the one of the old buffer
  text followed by the sentinel that stands at the new end, or, when what is put back is longer than that text,
  the one that the buffer already held there (in a buffer that had to grow, anything).
  bsreada keeps the NUL when it reads through the buffer and gets all n bytes. When the core ends before, the byte
  is the first of the last chunk that went through the buffer; with nothing at all to read, or a direct read,
  the NUL is there if it was, or if the buffer had to grow.
- bconcat adds one for the NUL to the sum of the lengths, and bdelete adds position and length, without a check.
  `Bstring.Concat` and `Bstring.Delete` return whether the sum is no int, where the call goes outside the buffer,
  and say exactly when. The model stops there.
- breplace in the middle of a text, and bInsertChrs, ask for no room for the final NUL. `Bstring.Replace`,
  `Justify.BInsertChrs` and `Justify.BJustifyMargin` return whether it goes behind the buffer and say exactly
  when: the new size is at least 2^30 and the old buffer is no larger than it. `BString.NulOutside` shows a
  case. The model stops at such a write.
- findreplaceengine copies a string that lies in its target only where it meets the text from pos on. A longer
  replacement that lies before pos is read after the buffer was resized. `FindReplace.FindReplaceEngine` returns
  whether the buffer had moved by then and says exactly when; `FindReplace.StaleCase` shows a case. The model
  stops before that read.
- bInsertChrs reports a length too large only after it has padded the text.

## Model

| member | source | states |
|---|---|---|
| HeapPermute.HeapPermute | c/libs/heap-permutation.h:62-79 | the loop and its recursive calls append exactly the rows `Rows` and leave the array as `Net` says |
| HeapPermute.Swap | c/libs/heap-permutation.h:55-60 | exchanges two cells and no others |
| HeapPermute.NetEffect | c/libs/heap-permutation.h:62-79 | net effect of a call: for even n the first n cells rotate right by one, for odd n nothing moves; cells from n on stay |
| HeapPermute.RoundEffect | c/libs/heap-permutation.h:68-78 | where every cell stands after i rounds of the loop of one level |
| HeapPermute.RowsCount | c/libs/heap-permutation.h:62-79 | a call on n cells emits n! rows |
| HeapPermute.RowRearranges | c/libs/heap-permutation.h:62-79 | every row is a permutation of the first n cells with the other cells in place |
| HeapPermute.RowsDiffer | c/libs/heap-permutation.h:62-79 | no row is emitted twice when the cells differ |
| HeapPermute.RowsComplete | c/libs/heap-permutation.h:62-79 | every permutation of the first n cells is emitted |
| HeapPermute.EveryPermutationOnce | c/libs/heap-permutation.h:62-79 | on n distinct cells: n! different rows, and a sequence is a row if and only if it is a permutation |
| UtString.BuildTable | c/libs/uthash/utstring.h:162-198 | fills the table with the strong borders of every prefix: the longest border whose next character differs |
| UtString.BuildTableR | c/libs/uthash/utstring.h:202-238 | the same for the mirrored needle, positions counted from the right |
| UtString.Follow | c/libs/uthash/utstring.h:174-177 | following the table from a mismatch loses no border that could still be extended |
| UtString.Skip | c/libs/uthash/utstring.h:256-259 | after a mismatch the table skips no position where the needle could stand |
| UtString.FindWithTable | c/libs/uthash/utstring.h:242-271 | returns the least position of the needle, -1 exactly when there is none |
| UtString.FindWithTableR | c/libs/uthash/utstring.h:275-305 | returns the greatest position of the needle, -1 exactly when there is none |
| UtString.FirstReversed | c/libs/uthash/utstring.h:275-305 | the first occurrence in the mirrored strings is the last one in the strings |
| UtString.UtString.Find | c/libs/uthash/utstring.h:309-351 | from a start of 0 or more the first occurrence there or later, from a negative one the first at that many characters before the end or later; -1 exactly when there is none |
| UtString.UtString.FindR | c/libs/uthash/utstring.h:355-393 | last occurrence that lies wholly in the characters up to and including the start position, a negative one counted from the end; -1 exactly when there is none |
| MergeSort.MergeRuns | c/libs/uthash/uthash.h:988-1026 | merging two runs relinks the nodes in the order of the function `Merge`, prev the inverse of next |
| MergeSort.RunPass | c/libs/uthash/uthash.h:969-1033 | one pass over the list equals the function `Pass`, and counts the merges |
| MergeSort.Sort | c/libs/uthash/uthash.h:961-1043 | the pointer-level sort ends with a well-formed list of `SortFrom`, which is sorted and stable for a total preorder; right head and tail, other links untouched |
| MergeSort.PassRuns | c/libs/uthash/uthash.h:969-1033 | if runs of length n are sorted, after a pass runs of length 2n are |
| MergeSort.PassStable | c/libs/uthash/uthash.h:969-1033 | a pass permutes, and keeps the order of elements that compare equal |
| MergeSort.SortFromCorrect | c/libs/uthash/uthash.h:961-1043 | for every total preorder the result is sorted, a permutation, and stable |
| MergeSort.SortFromMultiset | c/libs/uthash/uthash.h:961-1043 | for every comparison function whatever the result is a permutation |
| UtHash.Redistribute | c/libs/uthash/uthash.h:906-954 | every element of the old chains ends in the chain its hash selects among twice as many; counts, multipliers and the number of non-ideal items are exact |
| UtHash.ExpandBuckets | c/libs/uthash/uthash.h:906-954 | bucket doubling keeps the index, or changes nothing when memory is refused |
| UtHash.IdealIsCeiling | c/libs/uthash/uthash.h:919-921 | shift and mask compute the number of items per bucket rounded up |
| UtHash.TakeOut | c/libs/uthash/uthash.h:862-875 | the relinking and recounting of the deletion takes exactly this element out of its chain and leaves every other chain alone |
| UtHash.PushToBkt | c/libs/uthash/uthash.h:840-851 | the element becomes the head of the bucket its hash selects |
| UtHash.AddToBkt | c/libs/uthash/uthash.h:840-859 | doubles the buckets exactly when the bucket, with the new element, has ten elements for each share of its multiplier and expansion is allowed; if that is refused, and only then, the element is out again with bucket and links as before |
| UtHash.Unlink | c/libs/uthash/uthash.h:450-475 | the insertion-order list loses exactly the element; head and tail stay right |
| UtHash.DeleteHH | c/libs/uthash/uthash.h:450-477 | list and bucket lose the element, or the whole table goes with its last element |
| UtHash.AddToTable | c/libs/uthash/uthash.h:313-333 | counts and indexes a listed element, with the same doubling, or rolls back to the table before exactly when it is refused |
| UtHash.RolledBack | c/libs/uthash/uthash.h:141-149 | taking the listed element out again restores every other link, head and tail |
| UtHash.AppendList | c/libs/uthash/uthash.h:278-284 | the element becomes the last one of the order list |
| UtHash.InsertList | c/libs/uthash/uthash.h:350-381 | the element goes to the position the callback selects |
| UtHash.PlaceUnique | c/libs/uthash/uthash.h:286-293 | that position is the only one with no later element before it and the next one after it |
| UtHash.PlaceSorted | c/libs/uthash/uthash.h:286-293 | an in-order addition keeps a sorted list sorted |
| UtHash.DeleteFromTable | c/libs/uthash/uthash.h:450-477 | index, order list, count, head and tail are those of the remaining elements |
| UtHash.FindInBkt | c/libs/uthash/uthash.h:818-837 | finds the element of the chain with this hash and key, or none |
| UtHash.FindByHashValue | c/libs/uthash/uthash.h:156-166 | bucket search and filter test together find exactly an element with the key |
| UtHash.BloomKeeps | c/libs/uthash/uthash.h:198-202 | after adding a hash value those tests succeed that did before, and those of values with the same last bits, and no other |
| UtHash.BloomEmpty | c/libs/uthash/uthash.h:178-188 | nothing passes the filter of a new table |
| UtHash.Fsck | c/libs/uthash/uthash.h:506-553 | on any table whose chains end, the check passes if and only if every bucket count, both item counts and all back links are right |
| UtHash.IndexConsistent | c/libs/uthash/uthash.h:506-553 | the invariant implies what the check looks at |
| UtHash.FirstOfTable | c/libs/uthash/uthash.h:212-242 | what a new table starts from: the element alone is a sound order list, the empty buckets and the cleared filter a sound index of no element |
| UtHash.Enter | c/libs/uthash/uthash.h:350-415 | both forms of addition keep the invariant or restore the state before; what they do to the buckets, and exactly when they fail |
| UtHash.UtHash.Find | c/libs/uthash/uthash.h:168-173 | an element with the key, NULL exactly when no element has it, for any hash function and filter size; with unique keys it is the lookup in the table's dictionary |
| UtHash.UtHash.Add | c/libs/uthash/uthash.h:427-428 | appends the element to the order and indexes it; a fresh key is a dictionary update; a first element gets 32 buckets, a later one doubles them exactly when its bucket reaches its capacity; fails exactly when one of these allocations is refused, and then everything is as before |
| UtHash.UtHash.AddInOrder | c/libs/uthash/uthash.h:393-394 | inserts before the first element that the callback puts behind it, with the same effect on the dictionary and the buckets, and the same failures |
| UtHash.UtHash.Delete | c/libs/uthash/uthash.h:447-448 | removes exactly this element from order and index, and its key from the dictionary; its bucket has one element less and the others stay |
| UtHash.UtHash.Replace | c/libs/uthash/uthash.h:254-269 | the element with the key leaves, the new one is added at the end; a dictionary update whether or not the key was there; exactly when the buckets double and when the addition fails |
| UtHash.UtHash.Sort | c/libs/uthash/uthash.h:961-1043 | the order becomes the sorted stable permutation of the old one for every total preorder, a permutation for any callback; index and dictionary stay |
| UtHash.UtHash.Clear | c/libs/uthash/uthash.h:1108-1117 | no element and no key is left |
| UtHash.UtHash.Count | c/libs/uthash/uthash.h:1137-1138 | the exact number of elements |
| UtHash.UtHash.Check | c/libs/uthash/uthash.h:506-553 | the consistency check never fails between operations |
| UtHash.ContentsHas | c/libs/uthash/uthash.h:156-166 | with unique keys the table is a dictionary: key to the one element that has it |
| UtHash.ContentsInserted | c/libs/uthash/uthash.h:396-415 | adding under a new key, wherever in the order, is a map update |
| UtHash.ContentsRemoved | c/libs/uthash/uthash.h:450-477 | deleting takes exactly this key out of the map |
| UtHash.ContentsSorted | c/libs/uthash/uthash.h:961-1043 | sorting leaves the map alone |
| UtList.Prepend | c/libs/uthash/utlist.h:624-634 | the new element is first; the head's prev is still the tail |
| UtList.Append | c/libs/uthash/utlist.h:639-651 | the new element is last and the head's prev |
| UtList.AppendElem | c/libs/uthash/utlist.h:803-819 | the new element stands behind the given one, or first when there is none |
| UtList.Delete | c/libs/uthash/utlist.h:706-723 | the list without the element, in all four cases of the macro |
| UtList.Concat | c/libs/uthash/utlist.h:688-701 | the first list followed by the second |
| UtList.LowerBound | c/libs/uthash/utlist.h:672-683 | the last element before the first that does not compare less, NULL when that is the head |
| UtList.BoundUnique | c/libs/uthash/utlist.h:672-683 | that position is the only one with all less before it and none less at it |
| UtList.InsertInorder | c/libs/uthash/utlist.h:656-667 | inserts before the first element that does not compare less; a sorted list stays sorted |
| UtList.DlSort | c/libs/uthash/utlist.h:175-233 | sorted and stable for a total preorder, and head->prev is its tail |
| PQueue.BubbleUp | c/libs/pqueue/pqueue.c:86-104 | repairs an order broken above one cell, permutes the heap and sets every position it changes |
| PQueue.MaxChild | c/libs/pqueue/pqueue.c:107-119 | 0 without children, else the child no other child outranks |
| PQueue.PercolateDown | c/libs/pqueue/pqueue.c:122-139 | repairs an order broken below one cell; just past the heap it changes nothing |
| PQueue.StepUp | c/libs/pqueue/pqueue.c:93-99 | one step up keeps all edges but the one above the hole |
| PQueue.StepDown | c/libs/pqueue/pqueue.c:129-135 | one step down keeps all edges but those below the hole |
| PQueue.Overwritten | c/libs/pqueue/pqueue.c:186-197 | the last element put over another one breaks edges on one side only, and which one the comparison of the code tells |
| PQueue.Reranked | c/libs/pqueue/pqueue.c:169-183 | a new priority breaks edges on one side only, told by the comparison with the old one |
| PQueue.RootIsMax | c/libs/pqueue/pqueue.c:200-213 | no element outranks the one in the first cell |
| PQueue.SubtreeValid | c/libs/pqueue/pqueue.c:284-302 | the recursive check passes exactly when every edge of the subtree respects the order |
| PQueue.IsValidIffOrdered | c/libs/pqueue/pqueue.c:305-309 | pqueue_is_valid tells exactly whether the heap order holds |
| PQueue.PriorityQueue.Insert | c/libs/pqueue/pqueue.c:142-166 | adds exactly the element, the array growing by one step exactly when it is full, or changes nothing and returns 1 exactly when it is full and cannot grow |
| PQueue.PriorityQueue.ChangePriority | c/libs/pqueue/pqueue.c:169-183 | changes one priority, keeps order, positions and contents |
| PQueue.PriorityQueue.Remove | c/libs/pqueue/pqueue.c:186-197 | removes exactly the element |
| PQueue.PriorityQueue.Pop | c/libs/pqueue/pqueue.c:200-213 | NULL exactly when empty, else removes an element that no other outranks |
| PQueue.PriorityQueue.Peek | c/libs/pqueue/pqueue.c:216-224 | the element Pop would return |
| PQueue.PriorityQueue.Print | c/libs/pqueue/pqueue.c:260-281 | prints the live elements, each once, none after one that it outranks, and changes nothing |
| PQueue.PriorityQueue.IsValid | c/libs/pqueue/pqueue.c:305-309 | true exactly when the heap order holds |
| PQueue.PriorityQueue.Size | c/libs/pqueue/pqueue.c:78-83 | the number of elements |
| BSearch.Binstr | c/libs/bstrlib/bstrlib.c:1097-1173 | the unrolled search returns the least match at or after pos, -1 exactly when there is none, and never reads outside the text |
| BSearch.BinstrCaseless | c/libs/bstrlib/bstrlib.c:1231-1268 | the same for the caseless comparison |
| BString.SnapUpSizeIs | c/libs/bstrlib/bstrlib.c:79-101 | below 2^30 the least power of two above the request, at most twice it; above, the request |
| BString.NoByteToSpare | c/libs/bstrlib/bstrlib.c:107-170 | a request is met with no byte to spare if and only if it is at 2^30 or above and was not met before |
| BString.Bstring.constructor | c/libs/bstrlib/bstrlib.c:281-305 | a string of exactly the block, with its NUL |
| BString.Bstring.Balloc | c/libs/bstrlib/bstrlib.c:107-170 | the exact new size, text unchanged; fails exactly on a bad argument or a protected string |
| BString.Bstring.Concat | c/libs/bstrlib/bstrlib.c:355-382 | old text followed by the argument as it was before, even when that lies inside the string; exact error condition, and exactly when the copy goes behind the buffer |
| BString.Bstring.SetStr | c/libs/bstrlib/bstrlib.c:1482-1530 | overwriting splice with padding, the argument taken before any change; exact error condition |
| BString.Bstring.InsertBlk | c/libs/bstrlib/bstrlib.c:1540-1583 | inserting splice with padding, the argument taken before any change; exact error condition |
| BString.Bstring.Replace | c/libs/bstrlib/bstrlib.c:1603-1647 | replacing splice with padding, the argument taken before any change; exact error condition, and exactly when the final NUL goes behind the buffer |
| BString.NulOutside | c/libs/bstrlib/bstrlib.c:1631-1645 | such a replacement: one byte of two replaced by 2^30 - 1 |
| BString.Bstring.Delete | c/libs/bstrlib/bstrlib.c:1039-1061 | the splice that removes a section, negative positions clamped; exact error condition, and exactly when the end of the section is no int |
| BString.DeleteUndoesInsert | c/libs/bstrlib/bstrlib.c:1540-1583 | deleting what was inserted leaves the padded text |
| BString.ReplaceUndone | c/libs/bstrlib/bstrlib.c:1603-1647 | a replacement is deletion and insertion, and the replaced bytes put back restore the text |
| FindReplace.ReplaceEqual | c/libs/bstrlib/bstrlib.c:1693-1703 | the equal-length strategy computes the functional replace-all |
| FindReplace.ReplaceShrinking | c/libs/bstrlib/bstrlib.c:1705-1729 | the shrinking strategy computes it, no move overwriting bytes still needed |
| FindReplace.Collect | c/libs/bstrlib/bstrlib.c:1745-1776 | the growing array holds exactly the leftmost non-overlapping positions; exact overflow condition |
| FindReplace.SpreadAll | c/libs/bstrlib/bstrlib.c:1779-1797 | the backward moves put every piece in its place |
| FindReplace.ReplaceExpanding | c/libs/bstrlib/bstrlib.c:1731-1804 | the expanding strategy computes the functional replace-all or leaves the text alone |
| FindReplace.FindReplaceEngine | c/libs/bstrlib/bstrlib.c:1660-1804 | all three strategies compute leftmost non-overlapping replace-all from pos, with the strings to find and to put taken as they were before, even when they lie inside the text; succeeds if and only if arguments, number of matches and result size permit; exactly when the string to put is needed after its buffer was given back |
| FindReplace.StaleCase | c/libs/bstrlib/bstrlib.c:1779-1797 | such a replacement: the last of six bytes replaced by the first two |
| FindReplace.SameNext | c/libs/bstrlib/bstrlib.c:1695-1699 | searching the half-changed buffer finds what searching the old text would |
| FindReplace.ReplacedLength | c/libs/bstrlib/bstrlib.c:1749-1782 | the length of the result from the number of matches |
| Sgml.ReplacedIsSubstituted | c/libs/bstrlib/bstraux.c:850-862 | replace-all of a single character is substitution of each occurrence |
| Sgml.PassesEncode | c/libs/bstrlib/bstraux.c:850-862 | the four passes together are one per-character substitution |
| Sgml.EncodedQuotable | c/libs/bstrlib/bstraux.c:850-862 | no quote or angle bracket is left |
| Sgml.EncodedInjective | c/libs/bstrlib/bstraux.c:850-862 | different texts have different encodings |
| Sgml.PassIs | c/libs/bstrlib/bstraux.c:851-855 | the passes look for &, ", < and > in this order and put in what SGML has for them |
| Sgml.SgmlEncode | c/libs/bstrlib/bstraux.c:850-862 | success leaves the encoded text and happens if and only if each pass finds its matches and its result within bounds; a failed call leaves the text of the passes before |
| BStream.LineIsShortest | c/libs/bstrlib/bstrlib.c:2098-2154 | the line is the shortest prefix that ends in a terminator, all of the text when there is none |
| BStream.BStream.constructor | c/libs/bstrlib/bstrlib.c:2041-2053 | nothing buffered, all of the core still to come |
| BStream.BStream.Eof | c/libs/bstrlib/bstrlib.c:2068-2071 | true exactly when a read has met the end of the core and nothing is left to deliver |
| BStream.BStream.ReadLineAppend | c/libs/bstrlib/bstrlib.c:2163-2225 | appends exactly the first line of what is undelivered and leaves the rest, whatever the buffer size and the chunks of the core; it has met the end of the core exactly when no terminator is left; the buffer keeps its NUL if the terminator was in it, else exactly when the byte of the old text or the sentinel at the new end is 0 |
| BStream.BStream.ReadLineCore | c/libs/bstrlib/bstrlib.c:2127-2153 | reads straight into the destination, over-read bytes go back to the buffer |
| BStream.BStream.ReadAppend | c/libs/bstrlib/bstrlib.c:2235-2291 | moves a prefix of exactly known length: one read of the core when nothing is buffered and the destination has room, else n bytes or all; n bytes or all came if and only if not directly read or the core was willing; exactly when the end of the core is met and when the buffer keeps its NUL |
| BStream.BStream.PutBack | c/libs/bstrlib/bstrlib.c:2347-2350 | the bytes come before everything undelivered; exact error condition |
| BStream.OneReadEnough | c/libs/bstrlib/bstrlib.c:2250-2262 | one read delivers all it is asked for or all there is if and only if the core is willing to, or there is no choice |
| BStream.ShortRead | c/libs/bstrlib/bstrlib.c:2250-2262 | a core stream of one byte a time: of two bytes asked for one is left |
| BStream.SentinelLeft | c/libs/bstrlib/bstrlib.c:2106-2136 | after a line read at the end of the core the buffer ends with the sentinel, not with a NUL |
| Split.SplitCb | c/libs/bstrlib/bstrlib.c:2676-2692 | pieces free of the character that join to the text, one more than its occurrences |
| Split.SplitUnique | c/libs/bstrlib/bstrlib.c:2676-2692 | no other list of such pieces joins to the text, so splitting also undoes joining |
| Split.SplitStrCb | c/libs/bstrlib/bstrlib.c:2754-2781 | the pieces join to the text for every separator; for the empty one they are the single characters |
| Split.StrPiecesJoin | c/libs/bstrlib/bstrlib.c:2754-2781 | joining gives the text back although some separators are skipped |
| Split.SplitCleanIff | c/libs/bstrlib/bstrlib.c:2771-2779 | a piece still holds the separator if and only if the scan passes one right behind a hit and overlapping no later hit |
| Split.AdjacentNotSeen | c/libs/bstrlib/bstrlib.c:2771-2779 | splitting abab at ab gives an empty piece and ab |
| Split.JoinBlk | c/libs/bstrlib/bstrlib.c:2369-2426 | the joined text, none exactly when its size with the NUL is no int |
| Justify.BInsertChrs | c/libs/bstrlib/bstraux.c:98-110 | the splice that inserts one repeated character; exact error condition, and exactly when the final NUL goes behind the buffer |
| Justify.BJustifyLeft | c/libs/bstrlib/bstraux.c:116-133 | the in-place compaction leaves the words with single separators between them |
| Justify.PiecesAreWords | c/libs/bstrlib/bstraux.c:168-202 | the non-empty pieces of the split are the words of the text |
| Justify.RoundedIs | c/libs/bstrlib/bstraux.c:190 | what rounding share by share comes to: the longer gaps first if they are more, the shorter ones first if they are more, then in turns |
| Justify.GapFits | c/libs/bstrlib/bstraux.c:190 | each rounded gap is the quotient or one more, and the rest still fits |
| Justify.BJustifyMargin | c/libs/bstrlib/bstraux.c:168-202 | the words in order, total length exactly width, the gap before every word of a length given in closed form, at least 1 and differing by at most 1; otherwise left justified; exactly when a NUL goes behind the buffer on the way |
| Base64.BBase64Encode | c/libs/bstrlib/bstraux.c:313-376 | every three bytes as a number in base 64 in the alphabet of RFC 1341, with pads for digits the source has no bits for and a line break behind every 76 characters; none exactly when the length with the NUL is no int |
| Base64.BBase64DecodeEx | c/libs/bstrlib/bstraux.c:398-498 | the bytes whose digits stand before the first pad, everything outside the alphabet passed over; exactly when the text breaks off, with the truncation flag or the null pointer |
| Base64.DecodeSymbolIs | c/libs/bstrlib/bstraux.c:381-391 | a character decodes to its place in the alphabet, the pad to -2, anything else to -1 |
| Base64.RoundTrip | c/libs/bstrlib/bstraux.c:313-498 | decoding undoes encoding through the line breaks, with no truncation error |
| Base64.EncodedLines | c/libs/bstrlib/bstraux.c:320-325 | no encoded line exceeds 76 characters |
| Uu.BUuEncode | c/libs/bstrlib/bstraux.c:727-758 | a line for every 45 bytes: their number and, for every three, the four digits in base 64, in the characters 96 and 33 to 95, and a line break; none exactly when the length with the NUL is no int |
| Uu.BUuDecLine | c/libs/bstrlib/bstraux.c:509-578 | for a line of any characters: exactly when it is given up, which bytes it appends, and exactly when it counts as bad |
| Uu.LineDecodes | c/libs/bstrlib/bstraux.c:509-578 | every line put out decodes to its chunk and is good |
| Uu.RoundTrip | c/libs/bstrlib/bstraux.c:727-758 | the non-empty lines decoded in turn give the source back, with no bad line |
| YEnc.BYEncode | c/libs/bstrlib/bstraux.c:766-788 | every byte goes up by 42, but 19, 214, 224 and 227 become =}, =@, =J and =M, each in its place; none exactly when the length with the NUL is no int |
| YEnc.BYDecode | c/libs/bstrlib/bstraux.c:797-844 | for any text, through the 64-byte staging buffer: escaped characters go down by 106, others by 42, CR, LF and escapes stand for nothing; none exactly when a NUL is not escaped or the last escape escapes nothing |
| YEnc.RoundTrip | c/libs/bstrlib/bstraux.c:766-844 | decoding undoes encoding |
| YEnc.EncodedClean | c/libs/bstrlib/bstraux.c:766-788 | no NUL, CR or LF in the encoded text |
| YEnc.BreakIgnored | c/libs/bstrlib/bstraux.c:823-824 | a line break put between encoded characters changes nothing |
| Utf8.EncodedPasses | c/libs/utf8.h:890-995 | the encoding of a code point passes the checks, announces its length and decodes to it |
| Utf8.PassesEncoded | c/libs/utf8.h:890-995 | bytes that pass the checks are the shortest encoding of what they decode to |
| Utf8.Utf8Valid | c/libs/utf8.h:890-968 | accepts exactly the concatenations of shortest encodings of 1..0x1FFFFF, else returns where a valid prefix ends and the rest is no text; never reads past the NUL |
| Utf8.TextUnique | c/libs/utf8.h:890-968 | the decomposition into code points is unique |
| Utf8.Utf8Len | c/libs/utf8.h:426-451 | the number of code points |
| Utf8.ReadCodepoint | c/libs/utf8.h:970-995 | the code point at a position, and the next position |
| Utf8.CatCodepoint | c/libs/utf8.h:1009-1053 | writes the encoding, or nothing when there is no room |
| Utf8.LwrSameSize | c/libs/utf8.h:1099-1173 | lower case has the same encoded length |
| Utf8.UprSameSize | c/libs/utf8.h:1175-1249 | upper case has the same encoded length |
| Utf8.LwrIsLower | c/libs/utf8.h:1099-1173 | lower casing takes the upper case letter of a pair to the lower one and nothing else anywhere |
| Utf8.UprIsUpper | c/libs/utf8.h:1175-1249 | upper casing takes the lower case letter of a pair to the upper one and nothing else anywhere |
| Utf8.TextOrder | c/libs/utf8.h:312-329 | texts are in the order of their code points |
| Utf8.Utf8Cmp | c/libs/utf8.h:312-329 | the order of two C strings: -1, 0 or 1 |
| Utf8.LwrUndone | c/libs/utf8.h:1099-1173 | lower casing is idempotent, and upper casing undoes every change it makes |
| Utf8.UprUndone | c/libs/utf8.h:1175-1249 | upper casing is idempotent, and lower casing undoes every change it makes |
| Utf8.Convert | c/libs/utf8.h:1059-1097 | in a valid string every code point becomes, in place, the other one of its pair of letters, in the direction asked for, and what is in no pair stays |
| Bmp.LineLengthIs | c/libs/bmpread/bmpread.c:323-340 | the least multiple of 4 bytes that holds the bits; 0 exactly on overflow |
| Bmp.FieldPosition | c/libs/bmpread/bmpread.c:456-538 | the fields of a line follow each other without a gap |
| Bmp.Decode24 | c/libs/bmpread/bmpread.c:456-470 | red, green and blue of every pixel are the third, second and first of its bytes in the file; nothing outside the row is written |
| Bmp.Decode8 | c/libs/bmpread/bmpread.c:474-484 | red, green and blue of every pixel are those of the palette entry its byte tells |
| Bmp.Decode4 | c/libs/bmpread/bmpread.c:489-512 | every pixel is the palette entry of its half byte, the upper one first |
| Bmp.Decode1 | c/libs/bmpread/bmpread.c:517-538 | every pixel is the palette entry of its bit, the uppermost first |
| Bmp.RowsApart | c/libs/bmpread/bmpread.c:566-586 | rows of different lines do not overlap |
| Bmp.Decode | c/libs/bmpread/bmpread.c:543-613 | succeeds exactly when the file has every line; every pixel of the lines it has is in its place, rows in file order or reversed as sign and flag say; what is behind the pixels of a row, and rows not reached, stay as they were |

## Left out

- Handles and sequences stand for pointers in UtHash, UtList, MergeSort and PQueue: updates in place and two
  names for one field are not captured there.
- HASH_SELECT, HASH_REPLACE_INORDER, HASH_EMIT_KEY, the built-in hash functions and the pointer-valued keys of uthash.h.
- Overflow of the 32-bit counters of uthash.h (num_items, num_buckets, the sort's insize): they are unbounded here.
- UtHash.Fsck: on a list that runs in a circle the check does not end; such tables are excluded.
- LL_SORT2 and CDL_SORT2 of utlist.h: the same merge loop as DL_SORT2 without prev, or closed to a circle; nor
  the other circular and singly linked macros.
- pqueue_dump and pqueue_free of pqueue.c: printing and memory. PriorityQueue.Print returns what is printed; the copy it
  works on has positions of its own where the library's does nothing.
- The allocation of the failure table of utstring.h and its casts between size_t and long; positions are unbounded.
- bstrlib functions that fail for lack of memory; the backward searches binstrr and binstrrcaseless; bsbufflength.
- BStream.ReadAppend, BStream.ReadLineAppend: require that what can be read fits an int, as the code does.
- The character bit field of bsreadlnsa is a membership test; bsplitscb, bsplits and bssplitstrcb, and
  callbacks of a split that stop it, are not modelled.
- The char sign of utf8codepoint on bytes that are no valid start; utf8 searches and caseless comparisons.
- The stream plumbing of bsUuDecode around the line codec, netstrings, quoted-printable-like helpers and
  bStrfTime of bstraux.c.
- File and header reading of bmpread.c; the validated sizes are the preconditions of `Bmp.Decode`.
- utarray.h, utringbuffer.h, bstrwrap, munit, tinytime, bsafe and the demo programs.
