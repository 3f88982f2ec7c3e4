# Verified models of the Willows compressor and common controls

This project models the stateful algorithms of the Willows TWIN sources and proves what they are
for. It covers five parts, each in the form the C code has: global variables and structures become
the fields of a class, loops stay loops, and every method is tied to a mathematical description
about which the laws are proved.

**The compressor `lzc`** (modules `Lz...`). `Encode` slides a ring of 4096 bytes over its input and
keeps 256 search trees of 16-byte strings, whose links and keys change while the ring is being
overwritten. `LzOrder` ranks the strings as numbers, so that every tree node owns an open interval of
ranks. `LzForest` says what a well-formed forest is and what adding, replacing and removing a node do
to it. `LzSearch` shows that one search path finds the longest match. `LzWindow` relates the ring,
the registered nodes and a *tape* (4080 blanks and then the text): the ring holds a window of the
tape, every text position in the window is known to the trees, and the byte that is overwritten
belongs to no registered string. `LzFormat` packs units of code and reads them back. `LzHistory` says
what a list of units means, and what `Decode` does with any file. `LzParse` says what `Encode`
promises about the units it sends: each describes the tape and is as long as any match within the
window. `LzCodec` holds the program itself, and ends with `CompressAndExpand`: the
round trip for every byte sequence, with the size bound. `LzReference` states the
format once more in plain numbers, independent of all this, and ties both programs to it.

**The tree view** (modules `Tree...`). Items are linked by handles; a flat list must always be the
preorder walk of the items whose ancestors are all open. `TreeRows` is about such walks, `TreeItems`
about the links, `TreeChanges`, `TreeInsert` and `TreeSort` about what expanding and collapsing,
inserting and sorting change, and `TreeView` holds the control. Its invariant is kept by every
insertion, every sort of children and every request to expand or collapse, with one exception that is
stated exactly (see below).

**Two heap sorts.** `TreeViewSort` is the one of the tree view: it starts at 1 and permutes an index.
`ListViewSort` is the one of the list view: it starts at 0 with the child formulas of a heap that
starts at 1, so that entry 0 is its own child and the parent of entry 1 only. `HeapOrder` holds
the facts both share.

**The growable list** (`WList`) of elements in a block of bytes, and its amortised growth.

**The trackbar** (`Trackbar`): positions to pixels and back.

## Findings

- A request to expand an item that is open, or to collapse one that is closed, ruins the flat list:
  `TView_OnExpand` sets the mark before `TView_IShowSubItems` toggles it
  (commctrl/WTView.c:1963-1971). Expanding again lists the children twice (`Doubled`). Collapsing
  again deletes every row behind the item (`Lost`), so that the list is right only if there is none.
  `TreeView.OnExpand` describes the result of every request, and states as an if-and-only-if over all
  of them when the list stays right; `CollapseClosed` builds a tree of three items for which it does
  not.
- `TVE_TOGGLE` is 3 (include/commctrl.h:2088) and contains the bit of `TVE_COLLAPSE`. No request
  reaches the branch that would toggle (commctrl/WTView.c:1969-1970, `NeverToggles`), and a request to
  toggle that is carried out always leaves the item closed: it toggles if and only if the item was
  open (`Toggle`).
- Top-level items are never sorted: the dummy item's `cChildren` stays 0, and
  commctrl/WTView.c:2580 tests it. After `OnSortChildren` the children of an item are in order if and
  only if it is not the dummy item or they were in order before; `UnsortedTop` is a tree with two
  top-level items that stay out of order.
- `TVI_SORT` sorts nothing either, because `TView_ISortChildren` is empty (commctrl/WTView.c:722-731,
  called at 2285-2286). The new item becomes the first child, so that the children are in order
  afterwards if and only if they were before and the new item is not greater than the first of them
  (`OrderedInFront`, and the contract of `OnInsertItem`). `InsertUnsorted` is an input for which they
  are not.
- Sorting a list view that has had no item yet sifts entry 0 all the same, which the block does not
  have (commctrl/WLView.c:221-234, called with -1 from line 3789). The sort stays inside its block if and
  only if the block has an entry (`OnSortItems`, `SiftsEntryZero`); `SortNothing` is the input.
- A trackbar position need not be read back from its own pixel. `Exact` is the precise condition. Two
  pixels to a position are enough in an ascending range; in a descending one they are not enough for
  positions below zero, because the rounding truncates negative numbers upwards
  (commctrl/WTrackbr.c:1229, `DescendingFails`).

## Model

| member | source | states |
|---|---|---|
| LzOrder.FirstDifferenceDecides | bin/lzc.c:170-171 | Two strings of F bytes are ordered by the first byte in which they differ, and the loop's `cmp` has the sign of their order; equal ranks mean equal strings. |
| LzOrder.BetweenSharesMore | bin/lzc.c:162-176 | A string between two others shares at least as many leading bytes with either as they share with each other: the reason why one search path suffices. |
| LzForest.AddLeaf | bin/lzc.c:165-168 | Hanging a new leaf into an empty place of the search path keeps all 256 trees in order and `dad` inverse to the sons, and registers exactly the new node. |
| LzForest.Replace | bin/lzc.c:177-181 | A node with the same string takes the place of the old one: the trees stay in order, one node goes and one comes. |
| LzForest.Splice | bin/lzc.c:189-202 | Removing a node with one son or none keeps the forest, also where the code writes `dad[NIL]`. |
| LzForest.Deleted | bin/lzc.c:188-202 | In all four cases the writes of `DeleteNode` give a well-formed forest without p and with every other node. |
| LzSearch.LookupFinds | bin/lzc.c:133-147 | The forest really is a set of search trees: following the sons from the root of the first byte leads to every registered node. |
| LzSearch.EmptyTrees | bin/lzc.c:145-146 | After `InitTree` all trees are well formed and empty, whatever the sons of the unused nodes contain. |
| LzSearch.Retext | bin/lzc.c:299-300 | Overwriting bytes of the ring that belong to no registered string leaves every tree in order. |
| LzSearch.VisitSon | bin/lzc.c:163-169 | Going down to a son loses only strings that cannot match better than the ones met so far. |
| LzSearch.PassSon | bin/lzc.c:170-175 | After comparing with a node, the longest match so far covers everything off the remaining path. |
| LzSearch.AllSeen | bin/lzc.c:163-169 | When the path ends, the longest match met on it is the longest match in the whole tree, and over all 256 trees. |
| LzCodec.Lzc.constructor | bin/lzc.c:100-113 | All arrays of the program start as zeros, the text buffer and the links, and no byte has been read or written. |
| LzCodec.Lzc.InitTree | bin/lzc.c:133-147 | Establishes the forest invariant with no node registered. |
| LzCodec.Lzc.Compare | bin/lzc.c:170-171 | `i` is the length of the common prefix, `cmp` the order of the strings. |
| LzCodec.Lzc.Search | bin/lzc.c:160-176 | Either finds the same string or an empty place on the path, with the longest match among all registered strings. |
| LzCodec.Lzc.InsertNode | bin/lzc.c:149-182 | Keeps the forest; `match_length` is the greatest common prefix with any string registered before, attained at `match_position` if positive; registers exactly r and drops only an equal node. |
| LzCodec.Lzc.TakePlace | bin/lzc.c:177-181 | The replacing case: p goes, r comes, the forest is kept. |
| LzCodec.Lzc.FindHeir | bin/lzc.c:189-194 | Finds the only son, or the last node of the left subtree, and terminates. |
| LzCodec.Lzc.DeleteNode | bin/lzc.c:184-203 | Keeps the forest and removes exactly p, in all four cases and when p is in no tree. |
| LzWindow.ByteOnTape | bin/lzc.c:103-107 | A string read linearly, also from the F - 1 bytes behind the ring, shows consecutive bytes of the tape. |
| LzWindow.MatchIsRun | bin/lzc.c:265-283 | A match of two strings of the ring, cut at the lookahead, is a repetition on the tape, also where both overlap. |
| LzWindow.RunIsMatch | bin/lzc.c:170-175 | Every repetition within the window is a match the trees can find. |
| LzWindow.UnitIsLongest | bin/lzc.c:265-283 | The unit chosen for a longest match cannot be beaten by any earlier place of the window; only places before the text where F blanks stand are left out, and only once the window has left the first registered one. |
| LzWindow.UnitDescribes | bin/lzc.c:265-283 | The unit chosen stands for the bytes of the tape at r. |
| LzWindow.DropOldest | bin/lzc.c:298 | After deleting the oldest node every remaining one lies less than N - F positions back, and every younger position is still known. |
| LzWindow.PutOutside | bin/lzc.c:299-300 | The byte read next, and its copy behind the ring, hit no string of the window. |
| LzWindow.PutMovesWindow | bin/lzc.c:299-311 | Writing that byte keeps all trees in order and moves the window by one; the new r is registered nowhere. |
| LzWindow.BlankPeriod | bin/lzc.c:254-255 | Two of the strings registered before the text are equal only if both consist of F blanks. |
| LzWindow.BlanksKnown | bin/lzc.c:254-255 | The strings registered before the text make every position from the first of them on known, by itself unless it is F blanks. |
| LzWindow.Inserted | bin/lzc.c:254-261 | After inserting r, every position in the window is known and the match found is a best one among them. |
| LzWindow.WindowOut | bin/lzc.c:316-323 | At the end of the text the window moves on without a new byte and the lookahead shrinks. |
| LzFormat.UnpackGroup | bin/lzc.c:357-385 | Reading a flag byte and its codes gives the units of the group; unused flag bits read as pairs but find no bytes. |
| LzFormat.UnpackPack | bin/lzc.c:269-294 | Reading recovers every list of units that was packed, with any number of units in the last group. |
| LzFormat.PackAppend | bin/lzc.c:286-294 | Writing the code buffer out when eight units are full, and the rest at the end, is packing the whole list. |
| LzFormat.BufferUnit | bin/lzc.c:269-286 | The code buffer after one more unit: flag bit, code bytes and mask; the mask becomes 0 exactly with the eighth unit. |
| LzFormat.BufferRoom | bin/lzc.c:226-235 | There is always room for one more unit in the 17 bytes of the code buffer, and its flag bit is still clear. |
| LzFormat.PackSize | bin/lzc.c:269-294 | Packing adds at most one byte to every eight bytes of text. |
| LzFormat.UnpackReadable | bin/lzc.c:357-385 | Any bytes, valid or not, read as letters and as pairs of 3 to 18 bytes, nine bytes of text for one byte at most. |
| LzHistory.BackSnoc | bin/lzc.c:372-373 | Writing one byte changes what one ring cell shows and no other. |
| LzHistory.RingIsLastBytes | bin/lzc.c:354-391 | Cell by cell from r on, what the ring shows after a history are its last N bytes in order. |
| LzHistory.LastBytesHeld | bin/lzc.c:354-391 | A ring that shows what a decoder has replayed holds, read from r on, the last N bytes of F zeros, N - F blanks and the output. |
| LzHistory.FlagsStep | bin/lzc.c:359-364 | The high byte of `flags` counts exactly eight units before a new flag byte is read. |
| LzHistory.ExpandedSize | bin/lzc.c:354-391 | On any file, the size of the output is the sum of the lengths of the units read, at most nine times the size behind the header. |
| LzParse.CopyRun | bin/lzc.c:385-390 | Copying byte by byte from the decoder's ring reproduces the run of the tape, also when source and destination overlap. |
| LzParse.ReplayParse | bin/lzc.c:354-391 | A decoder that replays any description of the tape has written the tape. |
| LzParse.LongestOfAll | bin/lzc.c:265-283 | For a text that does not start with a blank, no place of the window at all holds a longer match than the one sent. |
| LzParse.RoundTrip | bin/lzc.c:343-393 | Whatever units describe a text, packed behind any header, are expanded to that text. |
| LzParse.SizeBound | bin/lzc.c:263-334 | The packed units of a text of n bytes take at most n + ceil(n/8) bytes; their lengths sum to n. |
| LzReference.DecompressIs | bin/lzc.c:343-393 | In plain numbers, for every file: behind 14 bytes, eight units to a flag byte, lowest bit first; a letter, or a pair with position b0 + 256 * (b1 / 16) and length 3 + b1 % 16, copied byte by byte from a ring of 4096 cells that starts with 4080 blanks and is written from cell 4080 on. |
| LzReference.RingAfter | bin/lzc.c:354-391 | The decoder's ring is that ring. |
| LzReference.OnePair | bin/lzc.c:374-391 | For every header and pair: 3 to 18 bytes, byte k being what ring cell position + k holds once the bytes before it are written. |
| LzReference.PairBytes | bin/lzc.c:279-282 | The position and the length of a pair the compressor may send, read off its two bytes; the length is 3 to 16. |
| LzReference.FlagBit | bin/lzc.c:269-286 | Bit k of a flag byte is set if and only if unit k is a letter. |
| LzReference.HeaderBytes | bin/lzc.c:211-222 | Ten fixed bytes and the length modulo 2^32, lowest byte first. |
| LzReference.StartsWithBlanks | bin/lzc.c:239-283 | A text that starts with n blanks, 3 <= n <= 16, is sent as a pair of at least n bytes first. |
| LzReference.ThreeBlanks | bin/lzc.c:239-283 | Three blanks are compressed to 17 bytes. |
| LzCodec.Lzc.Fill | bin/lzc.c:237-247 | The blanks and the first bytes of the text are a window of the tape; `len` is 0 only for an empty file. |
| LzCodec.Lzc.Prime | bin/lzc.c:249-261 | Registering the blank strings and the first string gives the state of the loop, with a best match. |
| LzCodec.Lzc.ReadOne | bin/lzc.c:296-313 | One step of the first slide loop keeps the trees, the window and the knowledge of the positions in it, and finds a best match at the new r. |
| LzCodec.Lzc.SkipOne | bin/lzc.c:315-323 | The same for a step after the end of the text. |
| LzCodec.Lzc.Store | bin/lzc.c:263-286 | The code buffer gets the unit for the match, cut at the lookahead; `match_length` becomes its length. |
| LzCodec.Lzc.StorePair | bin/lzc.c:279-282 | The two bytes stored hold the position in 12 bits and the length less 3 in 4. |
| LzCodec.Lzc.Flush | bin/lzc.c:286-294 | A full code buffer goes out; output and buffer together are the units so far, and `codesize` keeps up with the output. |
| LzCodec.Lzc.Round | bin/lzc.c:263-324 | One round of the loop adds one greedy unit, consumes its bytes (at least one) and keeps everything else. |
| LzCodec.Lzc.Encode | bin/lzc.c:205-341 | The output is the header and the packed units of a greedy description of the whole text; `codesize` counts all bytes when there is any text. |
| LzCodec.Lzc.CopyBytes | bin/lzc.c:385-390 | The copy loop writes the bytes the history names, while it changes the ring it reads. |
| LzCodec.Lzc.NextFlag | bin/lzc.c:359-365 | The flag register delivers the flag bits in order and ends where the bytes do. |
| LzCodec.Lzc.ReadUnit | bin/lzc.c:367-390 | One unit is read as the format says and written out; a unit cut off by the end of the file is dropped. |
| LzCodec.Lzc.Decode | bin/lzc.c:343-393 | Terminates on every file and writes what the format in plain numbers says (`LzReference.Expanded`); the ring then is the reference ring of the output, its last N bytes of F zeros, N - F blanks and the output. |
| LzCodec.CompressAndExpand | bin/lzc.c:205-393 | For every byte sequence, expanding what was compressed gives it back; the compressed file has at most 14 + n + ceil(n/8) bytes, begins with the signature, and stands for the text in plain numbers; blanks at the beginning are sent as a pair. |
| HeapOrder.MoveDown | commctrl/WTView.c:191-201 | One step of sifting keeps all edges of the heap but those below the hole, and the bridge over the hole. |
| HeapOrder.TopIsGreatest | commctrl/WTView.c:253-261 | The first entry of a heap is the greatest, for both ways of numbering. |
| HeapOrder.Extract | commctrl/WLView.c:251-257 | Moving the greatest entry behind the heap extends the sorted tail and leaves a heap with a hole. |
| HeapOrder.TailAfterSift | commctrl/WLView.c:256 | Sifting permutes the heap only and leaves the sorted tail in order. |
| ListViewSort.DownHeap | commctrl/WLView.c:207-235 | Sifting in the heap where 2k is a child of k from 0 on: the heap is restored and the entries are permuted; it ends although entry 0 is its own child, and stays inside the block if and only if the block has the entry to sift. |
| ListViewSort.DoHeapSort | commctrl/WLView.c:237-258 | The entries 0 .. Count are sorted and permuted, the others untouched; the sort stays inside the block if and only if that has an entry. |
| ListViewSort.OnSortItems | commctrl/WLView.c:3775-3789 | All items of the list view end up in order, and are the same items, for any number of items; the sort stays inside the block if and only if that has an entry. |
| ListViewSort.SiftsEntryZero | commctrl/WLView.c:248-249 | The first loop sifts entry 0 for every number of items, none included. |
| ListViewSort.SortNothing | commctrl/WLView.c:3789 | A list view that has had no item, whose sort leaves the block. |
| TreeViewSort.DownHeap | commctrl/WTView.c:174-234 | Sifting the index: records stay, the Ord fields are permuted, and the heap read through Ord is restored. |
| TreeViewSort.DoHeapSort | commctrl/WTView.c:236-262 | The keys read through Ord ascend, Ord is a permutation of what it was, and texts, lParams and handles of all records are unchanged. |
| TreeRows.RowsFrame | commctrl/WTView.c:663-719 | The rows depend only on the marks of listed items and the children of listed open ones. |
| TreeRows.Split | commctrl/WTView.c:681-716 | A change at or below one listed item changes only the block of rows behind it; the row after the block is not deeper than the item. |
| TreeRows.ParentBefore | commctrl/WTView.c:511-551 | Every row stands behind the row of its parent, which is open. |
| TreeChanges.ListedIffAncestorsOpen | commctrl/WTView.c:663-719 | An item is in the flat list if and only if all its ancestors are open. |
| TreeChanges.DescendantsFollow | commctrl/WTView.c:663-719 | The listed descendants of a listed item are exactly the rows that follow it, without a gap. |
| TreeChanges.SiblingsFollow | commctrl/WTView.c:702-711 | Siblings are listed in their order. |
| TreeChanges.FlagBits | commctrl/WTView.c:1963-1970 | Which requests collapse and which expand, in terms of bits 0, 1 and 15. |
| TreeChanges.Closing | commctrl/WTView.c:681-696 | Cutting the block of visible descendants and closing them all gives the flat list of the new tree. |
| TreeChanges.Opening | commctrl/WTView.c:697-711 | Putting the children behind a closed item gives the flat list of the tree in which it is open. |
| TreeChanges.AllGone | commctrl/WTView.c:1963-1971 | Losing all rows behind a closed item leaves the list right only if there were none. |
| TreeChanges.ListedTwice | commctrl/WTView.c:1966-1971 | Listing the children of an open item again always makes the list wrong. |
| TreeChanges.NeverToggles | commctrl/WTView.c:1963-1970 | No request passes the tests for collapsing and expanding and still has a bit of TVE_TOGGLE set. |
| TreeChanges.Outcome | commctrl/WTView.c:1963-1971 | What each kind of request does to items and rows, and which of them leave the list right. |
| TreeChanges.OpenedThenClosed | commctrl/WTView.c:663-719 | Expanding a closed item and collapsing it again restores every item and the list. |
| TreeInsert.LinkLinked | commctrl/WTView.c:2160-2238 | A new child at any place leaves all links consistent: parents, first and last children, siblings both ways, levels. |
| TreeInsert.LinkFields | commctrl/WTView.c:2155-2171 | The new item has the text, lParam and cChildren it came with, its parent and level; no other item's data change. |
| TreeInsert.InsertRow | commctrl/WTView.c:2160-2249 | Under an open parent the new row belongs behind the rows of the children before it. |
| TreeInsert.InsertHidden | commctrl/WTView.c:2240-2249 | Under a closed parent the list stays as it is. |
| TreeSort.ComparesKeys | commctrl/WTView.c:2602-2605 | Comparing records compares the texts of the items, or their lParams for a client's callback. |
| TreeSort.FieldsInOrder | commctrl/WTView.c:2559-2633 | What being in order means for the text fields, or the lParam fields, along the children. |
| TreeSort.SequelSorted | commctrl/WTView.c:2598-2609 | The items read through the sorted records are the children in order, each once. |
| TreeSort.RelinkedLinked | commctrl/WTView.c:2614-2622 | Linking them in that order gives a well-formed doubly linked chain with null ends and the same children. |
| TreeSort.RelinkedShows | commctrl/WTView.c:2577-2622 | The order of children that are not shown does not show in the list. |
| TreeSort.OrderedInFront | commctrl/WTView.c:2178-2197 | A new first child leaves the children in order if and only if they were in order and it is not greater than the first of them. |
| TreeViewControl.TreeView.constructor | commctrl/WTView.c:813-821 | A new tree view has the dummy item only, and an empty list. |
| TreeViewControl.TreeView.InsertString | commctrl/WTVLBox.c:756-785 | Inserts a row, behind the last one if the index is too great, and returns where it is. |
| TreeViewControl.TreeView.DeleteString | commctrl/WTVLBox.c:609-639 | Removes a row, or does nothing when there is none. |
| TreeViewControl.TreeView.ItemOfRow | commctrl/WTVLBox.c:788-804 | The handle met in a row is an item whose ancestors are all open, no other row gives the same one, and LB_ERR is met exactly behind the last row. |
| TreeViewControl.TreeView.RowOfItem | commctrl/WTVLBox.c:788-804 | Every item whose ancestors are all open is met in some row, and no other item is. |
| TreeViewControl.TreeView.FindString | commctrl/WTVLBox.c:645-679 | Finds a handle wherever the cyclic search starts, and fails only if it is not listed. |
| TreeViewControl.TreeView.InsertLBItem | commctrl/WTView.c:511-551 | The new row goes directly behind its parent, or behind all rows below its sibling. |
| TreeViewControl.TreeView.OnInsertItem | commctrl/WTView.c:2123-2286 | Inserting puts the item first, last or directly behind a sibling of an open parent, with the text, lParam and cChildren given, and keeps links and flat list right; with TVI_SORT the children are in order afterwards exactly when they were and the item may come first. |
| TreeViewControl.TreeView.ShowSubItems | commctrl/WTView.c:663-719 | Collapsing removes the block of rows below an item and closes exactly these items, recursively; expanding lists the children. |
| TreeViewControl.TreeView.HideSubItems | commctrl/WTView.c:681-696 | The loop that collapses, also for a falsely marked item, where it runs to the end of the list; it terminates. |
| TreeViewControl.TreeView.OnExpand | commctrl/WTView.c:1933-1981 | For every request and item: when it is carried out, what items and rows are afterwards (redundant requests included), and that the list stays right if and only if the request was not redundant. |
| TreeViewControl.TreeView.SortChain | commctrl/WTView.c:2594-2622 | The chain of children is relinked in ascending order, with the same members. |
| TreeViewControl.TreeView.OnSortChildren | commctrl/WTView.c:2559-2633 | The item has the same children, whose texts (or lParams, with a callback) ascend; other lists of children and all other data are untouched, its visible descendants are closed, and the flat list is right again; the children end up in order if and only if the item is not the dummy item or they were in order before. |
| TreeViewControl.CollapseClosed | commctrl/WTView.c:1963-1971 | An input for which a redundant request ruins the list. |
| TreeViewControl.Toggle | commctrl/WTView.c:1963-1970 | A request to toggle that is carried out leaves the item closed, toggles if and only if the item was open, and keeps the list right if and only if the item was open or in the last row. |
| TreeViewControl.SortTop | commctrl/WTView.c:2579-2580 | Sorting the top-level items changes nothing, in every tree view and for every comparison. |
| TreeViewControl.UnsortedTop | commctrl/WTView.c:2579-2580 | Two top-level items that are out of order and stay so when they are sorted. |
| TreeViewControl.SortTexts | commctrl/WTView.c:2604-2622 | Two children that differ in their texts only change places. |
| TreeViewControl.InsertUnsorted | commctrl/WTView.c:2285-2286 | An item inserted with TVI_SORT that ends up out of order. |
| WLists.FewReallocations | commctrl/WLists.c:71-94 | Over every run, requests for room included, insertions reallocate the block at most log2(m) + 2 times. |
| WLists.GrowthIsAmortised | commctrl/WLists.c:147-163 | Over every run of insertions and deletions with m elements at most: AllocatedElements + 1 is twice AllocationSize, there are at most log2(m) + 1 reallocations, and they move fewer than 2m elements. |
| WLists.Run | commctrl/WLists.c:71-246 | Carrying out any run on a new list, requests for room included, gives the elements of the sequence operations, and the reallocations counted on the block itself, with the elements moved, keep these bounds. |
| WLists.RunBounded | commctrl/WLists.c:54-63 | The exact sizes after every run: the room is 2^r - 1 after r reallocations. |
| WLists.InsertElement | commctrl/WLists.c:171-191 | Moving the bytes behind an offset up by one element and filling the gap is inserting into the sequence of elements. |
| WLists.ElementsJoined | commctrl/WLists.c:165-191 | The elements side by side are the bytes of the block, all of them. |
| WLists.RemoveElement | commctrl/WLists.c:233-236 | Moving them down by one element is removing from the sequence. |
| WLists.WLCreate | commctrl/WLists.c:36-68 | Fails for elements of size 0; otherwise the list is empty. |
| WLists.WList.WLSetSize | commctrl/WLists.c:71-94 | Contents unchanged; the list gets exactly the room asked for, in elements and in bytes, if that is more than it has, and an error if not; a negative number counts as unsigned. |
| WLists.WList.WLInsert | commctrl/WLists.c:115-204 | Inserts into the sequence of elements at the clamped index, and the bytes at its place; new memory is taken exactly when the old is full, by how many elements is said for every state. |
| WLists.WList.WLInsertEx | commctrl/WLists.c:96-111 | The same, and returns the index of the new element. |
| WLists.WList.WLDelete | commctrl/WLists.c:206-246 | Removes from the sequence of elements; a locked list and an index out of bounds are errors that change nothing. |
| Trackbars.RoundIsNearest | commctrl/WTrackbr.c:1229 | Rounding gives a nearest integer except for negative numbers more than one half below the next one. |
| Trackbars.PointFrPos | commctrl/WTrackbr.c:1235-1263 | The point lies within the channel for every position. |
| Trackbars.PointStands | commctrl/WTrackbr.c:1235-1263 | Which pixel stands for a position, in whole numbers: the part of the channel before it, cut off to a pixel, or the end of the channel. |
| Trackbars.PointReadIs | commctrl/WTrackbr.c:1209-1232 | What is read at every point: a position at most half a step away, the lower of two, and below zero the next one above; nothing else fits. |
| Trackbars.Trackbar.Reads | commctrl/WTrackbr.c:1209-1232 | The same in the fields of the trackbar, along the axis of its style. |
| Trackbars.ReadBack | commctrl/WTrackbr.c:1209-1263 | A position in the range is read back from its point if and only if the division loses little enough (`Exact`), for ascending and descending ranges. |
| Trackbars.LongChannel | commctrl/WTrackbr.c:1209-1263 | With 2 * Range - 1 pixels every position is read back, in a descending range every one that is not negative. |
| Trackbars.DescendingFails | commctrl/WTrackbr.c:1229 | A position below zero of a descending range that is not read back in a long channel. |
| Trackbars.ReadBackOutside | commctrl/WTrackbr.c:1241-1257 | A position outside the range is read back as the nearer end of the range. |
| Trackbars.Trackbar.ISetThumbPos | commctrl/WTrackbr.c:1266-1284 | The thumb, ten pixels wide, is centred on the pixel of the position along the axis of the style, stated in the fields themselves; the other sides stay, and its centre reads back as `nThumbPos` exactly for an exact position. |

## Left out

- Window messages, drawing, cursors, fonts, timers, scroll bars (`lTopIndx`) and parent notifications of all controls; a notification is taken to say "proceed".
- Failing allocations and locks, null arguments, and lock nesting: `WLLock` and `WLUnlock` are not modelled, `LockCount` is only read by `WLDelete`.
- The widths of C integers: counts, offsets and the trackbar's products are unbounded here, except the bytes of the compressor, its shifted mask and the 32 bits of the size in its header.
- Bit operations of `lzc.c` are written as arithmetic: `& (N - 1)` as a remainder, shifts as multiplication and division, and `|` as addition where the bits are known to be clear (`LzFormat.BufferRoom`).
- `main` of `lzc.c`, its messages, the savings percentage and the file system: a file is a byte sequence, and the size in the header is the length of the input. `Decode` starts with the zeros C puts into `text_buf`.
- LzCodec.Lzc.Round, Flush, Store, Write, Enter and Leave are parts of `Encode` that the source writes in one body, as are NextFlag, ReadUnit and CopyBytes of `Decode`; they are split for the proofs only. The same holds for the parts of `TView_OnInsertItem`, `TView_IShowSubItems`, `TView_OnSortChildren` and `WLInsert`.
- LzCodec.Lzc.Encode: a unit is claimed to be as long as any match in the window, except that places before the text where F blanks stand no longer count from text offset 4065 on. One registered blank string replaces the others, and may leave the trees before their places leave the window. Texts that do not start with a blank are not affected (`LzParse.LongestOfAll`).
- Deleting items of the tree view and recycling their handles: handles are always fresh here.
- `TView_IRecursiveExpand`, the connecting lines (`dwConnect`) and texts supplied by callback or cut at MAXSTRING; item texts are stored in the items, not in `StrList`.
- TreeViewControl.TreeView.OnInsertItem: inserting behind a sibling requires the parent to be open, because the code then reads the item with index -1; the sibling must be a child of the parent.
- TreeViewControl.TreeView.OnExpand: the branch for `TVE_TOGGLE` is omitted because it cannot be reached; the current selection, from where the search for the row starts, is a parameter.
- TreeViewSort.DoHeapSort and ListViewSort.DoHeapSort: the comparison function must order any two keys, transitively, and have no effects; that holds for `lstrcmp` too, which is a parameter. The two sifting functions of the tree view, for a callback and for texts, are one method.
- ListViewSort.OnSortItems: what the source reads and writes behind the end of an empty block is not modelled; the result says that it does.
- The list view's rows, columns and icons; only its sort is modelled.
- Trackbars.ReadBack: the doubles of the source are exact real numbers here, and the channel must have a positive length and the range two different ends.
- Tick marks, selection ranges and range changes of the trackbar; all other controls.
