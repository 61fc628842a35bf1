# The btree access method of Berkeley DB, modelled and proved in Dafny

The project models the btree access method of Berkeley DB 4.8 (`db4/btree`) and proves what it
promises: pages, splits, searches and record counts, the compressed layer on top, the cursors
that every change has to move, compaction, and recovery from the write-ahead log.

`dafny verify dfyconfig.toml` checks all of it.

## How the parts fit together

**Compressed btrees.** A compressed btree stores runs of sorted key/data pairs as prefix-coded
chunks. `CompressInt` is the self-delimiting integer code, `Chunks` the default compressor and
decompressor over byte arrays, `CompressedTree` the chunk being built (`DestBuf`) and the cursor with
its two decompression buffers (`Cursor`). The meaning of a compressed btree is the flat
sequence of pairs in its chunks. `PairMerge` defines sorted merge and deletion on flat
sequences; `MergeInsert` and `MergeDelete` prove that the flag-driven merge loops over chunks do
exactly that. The reason why a deletion can store its chunks without ever splitting them is a
theorem about code lengths in `Chunks`: `PairTriangle`, `ReencodingFits`. What becomes of the chunks
themselves is fixed, too: an insertion begins a new chunk only where the one before is full, and a deletion
only takes pairs away from chunks.

**Pages.** A page (`SlottedPage.Image`) is an index table of byte offsets and an item area that grows
down from the end; key slots of one duplicate set share an offset. The item area is modelled by the
items it holds, but offsets, sizes, alignment and free space are computed as in the source. The
meaning of a page is its sequence of slots. `PageOps`, `PageSplit` and `PageMerge` hold the
routines that change a page in place (class `Page`) and prove what becomes of the slots, of the
sharing of items and of the room. `ItemBytes` gives the bytes of the items that are replaced in place,
since the log of a replacement describes bytes.

**Trees.** `BtreeShape` gives the meaning of a store of pages: the records of the leaves from left
to right. A tree is valid when leaves are at one depth, no page has two parents, separators
bound the keys below them, counts match the live records below them, and the leaves are
linked in order. `BtreeShape`, `BtreeRoot` and `BtreeCounts` prove that page splits, root splits and
count adjustments keep all that; `BtreeSearch` says what a search by key or by number means;
class `BtreeOps.Btree` holds the searches and updates themselves. In a tree without duplicates every key
has one record, so record numbers and keys determine each other in both directions. `PageRecords`
connects the two levels: the records of a page are read off its slots, a page of bytes can be split
exactly where its records can be divided, and the pages that the copying leaves are the halves of the split
of the tree.

**Cursors.** `RecnoCursors` treats `__ram_ca`. Its specification is a line of slots, one for each record
that ever was, in which a deletion only blanks a slot: a cursor's record number, deleted flag and order number
stand for one slot of the line. `SplitCursors` treats cursors across a page split and its undo; `TreeCursors`
and `LoggedOps` prove of the splits themselves, of the tree and of the page images, that every cursor stays with its record.

**Recovery.** `Recovery` gives redo and undo of each log record on one page and the executions of a whole
log; `RecoveryPasses.Store` holds the LSN-guarded recovery functions and the passes over a log. A
crash state is any disk on which every page stands, independently of the others, at its version
after some prefix of the log. `LoggedOps.File` holds the forward routines: each changes pages by the methods
of `Page`, writes its log record, and leaves a file whose log is an execution. What the two
passes reach is thereby what these routines have made of the pages (`Redone`), or what was there before them (`Undone`).

## Where the code does not do what one would expect

- `__bam_psplit` moves the split point to the nearest end of a duplicate set, comparing the keys to the
  right and to the left of it. Going left it never looks at the first key of the page; that key is seen
  only when the 16-bit index of the right-hand key wraps around to 0. So the page is divided if and only
  if two keys behind the first differ or the first choice is the second key (`PageSplit.ChosenDivides`,
  `PageSplit.PSplit`). Otherwise, if only the first key differs, the page is split at 0, which leaves the left
  page empty; and if all keys of the page are one duplicate set the search never ends (`PageSplit.EndsIff`). The
  source relies on a duplicate set taking no more than about a quarter of a page, which excludes the last
  case but not the one before: `PageSplit.EmptyLeftPage` is a full page of 512 bytes with one large
  record and three small duplicates.
- `__ram_ca` compares the cursors with the argument cursor while it changes them. The result is as
  intended if and only if no cursor behind the argument in the list lies between its old and its
  new place (`RecnoCursors.LiveReads`); this holds when the argument is last. Its branch that splits merged order
  numbers is never taken, since a cursor that was moved is always past the record number it tests for.
- Because of that, undoing two deletions in reverse order restores the cursors if and only if the second
  record was not directly in front of the first, or no cursor was on or just in front of the first record
  (`RecnoCursors.NeighboursLost`; `RecnoCursors.UndoOfDeletes` says the same for any order numbers). Otherwise the cursor comes
  back deleted and one record too far (`RecnoCursors.UndoOfTwoDeletes`).
- `__bam_ca_undosplit` looks for cursors on the logged left page; when the left half stayed in place that is
  page 0, which is also the page of a cursor that is not positioned (`SplitCursors.UndoRestores`).
- `__bam_merge_records` computes the distance to its fill goal without a sign: a page that is past its goal from
  the start gets one more record if it fits (`PageMerge.ChooseCount`).

## Model

| member | source | states |
|---|---|---|
| Bytes.DefCmp | db4/btree/bt_compare.c:154-180 | the default comparison has the sign of dictionary order and is 0 exactly for equal strings |
| Bytes.CompareTransitive | db4/btree/bt_compare.c:154-180 | the default comparison is a total order: weak steps compose, and one strict step makes the whole strict |
| Bytes.DefPfx | db4/btree/bt_compare.c:189-213 | for a below b the returned length gives a prefix of b that is above a and not above b, and no shorter prefix is above a |
| Bytes.LcpUltrametric | db4/btree/bt_compress.c:391-470 | what the first and last of three strings share is at least what one of the two neighbouring pairs shares |
| CompressInt.IntRoundTrip | db4/common/db_compint.c:145-469 | decoding any 64-bit integer returns it and consumes exactly the bytes written, whatever follows |
| CompressInt.Int32RoundTrip | db4/common/db_compint.c:479-553 | the 32-bit decoder agrees on every 32-bit value |
| CompressInt.CountIntGrowth | db4/common/db_compint.c:114-135 | code length is monotone, grows by at most one per unit, and is subadditive |
| CompressInt.DecodedSize | db4/common/db_compint.c:479-553 | no bytes that decode to a value are fewer than the code of the value, even where the value wraps around |
| Chunks.DefCompress | db4/btree/bt_compress.c:391-470 | reports the size the pair needs; writes its code behind what is there if it fits and touches nothing if it does not |
| Chunks.DefDecompress | db4/btree/bt_compress.c:480-584 | asks for larger buffers exactly when they are too small, with the sizes needed; otherwise returns the coded pair and the bytes consumed, or rejects malformed input |
| Chunks.EntryRoundTrip | db4/btree/bt_compress.c:391-584 | a coded pair is read back, plain or as a duplicate, consuming exactly its own bytes even with entries following |
| Chunks.NoShorterEntry | db4/btree/bt_compress.c:391-584 | of all byte strings that decode to a pair behind its predecessor, the code written is the shortest |
| Chunks.ChunkRoundTrip | db4/btree/bt_compress.c:391-584 | every nonempty sequence of pairs is recovered from the first key and the chunk's bytes |
| Chunks.PairTriangle | db4/btree/bt_compress.c:391-470 | coding c after a never takes more bytes than coding b after a and then c after b |
| Chunks.ReencodingFits | db4/btree/bt_compress.c:1229-1234 | any nonempty subsequence of a chunk codes in no more bytes than the chunk |
| PairMerge.LessIsDictionaryOrder | db4/db/db_sort_multiple.c:25-49 | pairs are ordered by key in dictionary order, then, with sorted duplicates only, by data in dictionary order; different pairs are ordered one way and not the other |
| PairMerge.OrderTransitive | db4/db/db_sort_multiple.c:25-49 | that order is total |
| PairMerge.MergeSorted | db4/btree/bt_compress.c:916-1134 | the merge of a sorted database and a sorted stream is sorted |
| PairMerge.MergeMembers | db4/btree/bt_compress.c:916-1134 | an overwriting merge holds exactly the first pair of each run of equal stream pairs, and the stored pairs that no stream pair equals |
| PairMerge.StopsAtFirstCollision | db4/btree/bt_compress.c:1018-1041 | where duplicates may not be overwritten, the merge is that of the stream up to its first collision |
| PairMerge.NothingLost | db4/btree/bt_compress.c:1018-1041 | such a merge keeps every stored pair |
| PairMerge.AddsUntilStored | db4/btree/bt_compress.c:1018-1041 | with sorted duplicates such a merge holds the stored pairs and the stream pairs up to the first one that is stored |
| PairMerge.RemoveMembers | db4/btree/bt_compress.c:1140-1321 | deletion keeps exactly the stored pairs that the stream does not name before its first missing pair |
| PairMerge.RemoveSubsequence | db4/btree/bt_compress.c:1140-1321 | what a deletion keeps stays in order |
| CompressedTree.DestBuf.Store | db4/btree/bt_compress.c:676-719 | the first pair of a chunk always goes in; a later one is refused exactly when the chunk would not fit in ovflsize bytes; the buffer holds the code of the pairs stored |
| CompressedTree.Cursor.StartDecompress | db4/btree/bt_compress.c:593-619 | the cursor stands on the first pair of the chunk |
| CompressedTree.Cursor.NextDecompress | db4/btree/bt_compress.c:623-669 | the cursor stands on the next pair, the other buffer still holds the one before, and buffers are resized at most once; at the end of the chunk nothing moves |
| CompressedTree.Cursor.DecompressInto | db4/btree/bt_compress.c:657-667 | the decompression loop yields the next pair after at most one resize |
| CompressedTree.Cursor.GetNext | db4/btree/bt_compress.c:1693-1731 | moves from pair n of the flat sequence to pair n + 1 across chunks, from nowhere to the first, and to nowhere behind the last; a cursor on a deleted pair already stands on the next one |
| CompressedTree.Cursor.GetPrev | db4/btree/bt_compress.c:1550-1611 | moves from pair n to pair n - 1, out of the other buffer or by decompressing the chunk again, from nowhere to the last; in front of the first it stays |
| CompressedTree.Cursor.OnContent | db4/btree/bt_compress.c:593-669 | the current buffer of a cursor on pair n holds pair n of the flat sequence |
| CompressedTree.Cursor.SeekLte | db4/btree/bt_compress.c:727-777 | finds the last chunk that starts at or below a pair |
| ChunkMerging.TakeChunk | db4/btree/bt_compress.c:807-832 | takes the chunk out of the tree, starts decompressing it and returns the first pair of the next chunk |
| ChunkMerging.Flush | db4/btree/bt_compress.c:1112-1124 | the chunk built so far becomes a chunk of the tree at its place in key order |
| MergeInsert.CmpStore | db4/btree/bt_compress.c:901-912 | the pair is stored behind the pairs placed before; the chunk is written out first exactly when it is not empty and the pair would take it past ovflsize |
| MergeInsert.NextStored | db4/btree/bt_compress.c:1101-1109 | decompressing the next stored pair does not disturb the last pair coded, although a buffer is overwritten |
| MergeInsert.Insert | db4/btree/bt_compress.c:916-1134 | for every well-formed database and sorted stream the chunks afterwards hold the sorted merge, are well formed, and hold one pair or at most ovflsize bytes each; a new chunk begins only where the next pair would not have fitted in the one before, and no two chunks are joined; with sorted duplicates and DB_KEYFIRST, DB_KEYLAST or DB_NODUPDATA the stream is added up to the first pair already stored, and there is an error exactly if there is one; otherwise the stream overwrites |
| MergeDelete.KeepCurrent | db4/btree/bt_compress.c:1228-1247 | a stored pair that stays is stored again without ever meeting DB_BUFFER_SMALL, and the copied previous pair is the last pair coded |
| MergeDelete.Delete | db4/btree/bt_compress.c:1140-1321 | for every well-formed database and sorted stream the stream's pairs are removed up to the first missing one and nothing else changes; every chunk left is what remains of one of the old chunks, in their order; DB_NOTFOUND comes back exactly when a pair is missing |
| SlottedPage.PutSlots | db4/db/db_dup.c:110-156 | an inserted item gets its slot; every other slot holds what it held and the page stays valid |
| SlottedPage.DropSlots | db4/db/db_dup.c:23-69 | an item that is not shared goes with its slot; every other slot holds what it held, items stay without gaps |
| SlottedPage.AdjustedSlots | db4/btree/bt_delete.c:167-204 | a further slot shares the item of the slot it is copied from |
| SlottedPage.UnadjustedSlots | db4/btree/bt_delete.c:167-204 | a slot that shares its item goes and the item stays |
| SlottedPage.ReplaceSlots | db4/btree/bt_put.c:735-798 | replacing an item changes only the slots that refer to it, wherever it lies and whether it grows or shrinks; sharing stays and items stay without gaps |
| SlottedPage.UndoRemoval | db4/btree/bt_delete.c:108-127 | the logged index of a copy, chosen before the removal, rebuilds the removed key slot |
| SlottedPage.UndoReplace | db4/btree/bt_rec.c:1059-1107 | replacing an item and putting the old one back restores the page exactly, wherever the item lies and whether it grew or shrank |
| ItemBytes.RemadeOfBody | db4/btree/bt_put.c:827-841 | the bytes that a replacement is given rebuild the entry they came from, header, page number, count and key or overflow reference |
| ItemBytes.BodyOfRemade | db4/btree/bt_put.c:789-798 | whatever bytes of the right form are put in place, they are the bytes of the item afterwards |
| ItemBytes.BackAgain | db4/btree/bt_rec.c:1059-1107 | the type flag is its own inverse: the same flag and the old bytes give the old entry back, whether or not its type had changed |
| ItemBytes.SizeOfBody | db4/dbinc/db_page.h:545-640 | an item takes its length and type, its body and the padding to a multiple of four |
| PageOps.Page.PItem | db4/db/db_dup.c:110-156 | inserts the item if it fits and changes nothing otherwise |
| PageOps.Page.DItem | db4/db/db_dup.c:23-69 | removes the item and moves the offsets of those below it |
| PageOps.Page.AdjIndx | db4/btree/bt_delete.c:167-204 | inserts a copied offset, or removes one |
| PageOps.Page.BamDItem | db4/btree/bt_delete.c:59-158 | the slot goes; its item, and an overflow chain, only when no other key slot shares it; the other slots are unchanged |
| PageOps.Page.RItem | db4/btree/bt_put.c:670-801 | replaces the item of a leaf, or an internal entry with or without a change of its type, and logs a difference from which the bytes of either version are rebuilt |
| PageOps.Page.IRep | db4/btree/bt_put.c:810-845 | an internal entry becomes the given one whichever kinds of key the two have, and the overflow chain of the old one is given back |
| PageOps.FindDiff | db4/btree/bt_put.c:699-720 | the logged prefix and suffix are as long as they can be and rebuild either item from the other |
| PageOps.CopyIndexIffShared | db4/btree/bt_delete.c:108-127 | a key slot is removed without its item exactly when another key slot shares the item |
| PageSplit.Copy | db4/btree/bt_split.c:1245-1310 | copies a run of slots onto an empty page |
| PageSplit.CopyConserves | db4/btree/bt_split.c:1245-1310 | the copy is a valid page holding what the slots held, with the same keys sharing items; only the first key of a right internal page is blanked |
| PageSplit.HalfPoint | db4/btree/bt_split.c:1121-1157 | the first place with half of the bytes before it, strictly inside the page |
| PageSplit.FirstChoice | db4/btree/bt_split.c:1092-1159 | an append or prepend moves one record; otherwise the page is halved |
| PageSplit.AvoidBigKey | db4/btree/bt_split.c:1160-1203 | the nearest place, at most three away and the right one first, whose key is no overflow reference |
| PageSplit.AvoidDuplicates | db4/btree/bt_split.c:1204-1226 | the split point of the first round that finds an end of the duplicate set, the right one first: the nearest end, or 0 when only the first key of the page differs |
| PageSplit.EndsIff | db4/btree/bt_split.c:1204-1226 | with its 16-bit index the search for the end of a duplicate set ends exactly when the keys of the page are not all one set |
| PageSplit.ChosenDivides | db4/btree/bt_split.c:1092-1226 | the place chosen divides the page exactly when two keys behind the first differ or the first choice is the second key; otherwise it is 0 |
| PageSplit.AlwaysDivisible | db4/btree/bt_split.c:1092-1226 | a leaf is divided wherever the insertion is to be exactly when two keys behind the first differ, or half of its bytes come before the second key and it is not the last leaf, or holds two records only |
| PageSplit.EmptyLeftPage | db4/btree/bt_split.c:1204-1226 | a full page on which no duplicate set takes a quarter is split at 0 |
| PageSplit.PSplit | db4/btree/bt_split.c:1043-1236 | unless all keys are one duplicate set, terminates with the two copies of the parts; the split point is on the stride, strictly inside the page, not inside a duplicate set and nearest to the first choice exactly when the page is divisible, and 0 otherwise |
| PageSplit.SplitConserves | db4/btree/bt_split.c:1043-1310 | the two pages together hold the slots of the page in order and no item is shared across them |
| PageMerge.MergePages | db4/btree/bt_compact.c:1622-1650 | the bulk copy of items and rebased offsets, leaving the other page empty |
| PageMerge.MergeConserves | db4/btree/bt_compact.c:1622-1650 | the target's slots are those of both pages in order, every offset stands for the item it stood for, and keys share items as before |
| PageMerge.ChooseCount | db4/btree/bt_compact.c:1344-1388 | the number of whole records that brings the target closest to its fill goal and fits, the smallest such; one record if the target is past the goal already |
| PageMerge.SetSize | db4/btree/bt_compact.c:1345-1371 | the slots of a record with all its duplicates and the room they take |
| PageMerge.MoveSlot | db4/btree/bt_compact.c:1493-1556 | one round of the loop moves the first slot, with its item unless its key repeats one already moved, and the duplicate flags stay right |
| PageMerge.MoveRecords | db4/btree/bt_compact.c:1487-1557 | the chosen slots move to the end of the target in order, sharing kept on both pages |
| PageMerge.FittingPlace | db4/btree/bt_compact.c:1427-1476 | the last place between records, up to the one wanted, whose key the pages above can take, whole or cut down to what separates it from the key before |
| PageMerge.EntrySizeIs | db4/btree/bt_compact.c:1408-1441 | the room asked for a key is the size of the entry it would have on a page above |
| PageMerge.MergeRecords | db4/btree/bt_compact.c:1288-1584 | as many records move as the goal asks for, all of them only through the bulk merge; where the key that would come to stand first does not fit on the pages above, as many as leave a key that fits, and none if there is no such place |
| PageMerge.Merge | db4/btree/bt_compact.c:1234-1285 | the whole page moves if it is empty or leaves `factor` bytes free and is not the leftmost of several; otherwise the records that the goal and the pages above allow; either way the records of the two pages together stay what they were, in order, and no duplicate set is divided |
| SplitCursors.CaSplit | db4/btree/bt_curadj.c:533-553 | every btree cursor on the divided page moves with its record |
| SplitCursors.CaUndoSplit | db4/btree/bt_curadj.c:603-614 | every btree cursor on the new pages moves back |
| SplitCursors.UndoRestores | db4/btree/bt_rec.c:1245-1248 | the undo restores a cursor's place exactly when the cursor was on neither of the pages the undo looks for |
| TreeCursors.CutDivides | db4/btree/bt_split.c:330-565 | the split of a leaf of a tree divides its records between its page and the new one and leaves the records of every other leaf where they were |
| TreeCursors.RootCutDivides | db4/btree/bt_split.c:198-323 | the split of a root that is a leaf divides its records between the two new pages |
| TreeCursors.SplitPage | db4/btree/bt_split.c:330-565 | after a page split every btree cursor refers to the record it referred to, at whatever level the page was and whether or not the parent had room |
| TreeCursors.SplitRoot | db4/btree/bt_split.c:198-323 | the same for a root split |
| RecnoCursors.HighestOrder | db4/btree/bt_recno.c:797-814 | the smallest order number above those of all cursors deleted at the record |
| RecnoCursors.AdjustOne | db4/btree/bt_recno.c:828-889 | one visit of the loop, with the argument as it is at the visit |
| RecnoCursors.RamCa | db4/btree/bt_recno.c:763-903 | what becomes of every cursor of the tree, given where the argument is in the list; cursors of other trees stay |
| RecnoCursors.LiveReads | db4/btree/bt_recno.c:837-895 | reading the argument during the loop is harmless exactly when no cursor behind it lies between its old and new place |
| RecnoCursors.OrderIsPlace | db4/btree/bt_recno.c:59-71 | the comparisons of cursors decide the order of their places among all records that ever were |
| RecnoCursors.AdjustTracks | db4/btree/bt_recno.c:763-903 | every operation leaves every cursor on its place |
| RecnoCursors.AdjustKeepsOrder | db4/btree/bt_recno.c:797-895 | no operation reorders, merges or separates cursors |
| RecnoCursors.RecordsAfter | db4/btree/bt_recno.c:763-903 | where the record of an operation goes, in record numbers; relative to a deleted cursor, before the record with its number |
| RecnoCursors.RunTracks | db4/btree/bt_recno.c:763-903 | through any run of inserts, deletes and cursor movements a cursor that is not deleted names the record of its place |
| RecnoCursors.UndoDelete | db4/btree/bt_rec.c:1311-1321 | undoing a delete restores every record number, deleted flag and the order of the cursors |
| RecnoCursors.UndoInsert | db4/btree/bt_rec.c:1322-1334 | undoing an insert restores them too |
| RecnoCursors.UndoOfDeletes | db4/btree/bt_rec.c:1311-1321 | two deletes undone in reverse restore the cursors exactly unless the second record number is one below the first and a cursor on the first is not deleted or has an order within the second order of the first |
| RecnoCursors.NeighboursLost | db4/btree/bt_rec.c:1311-1321 | with the orders the code takes, they restore the cursors exactly unless the second record was directly in front of the first and some cursor had the number of the first |
| RecnoCursors.UndoOfTwoDeletes | db4/btree/bt_recno.c:876-887 | an instance: the cursor on the first record deleted comes back deleted and one record too far |
| RecnoCursors.UndoAdjustment | db4/btree/bt_rec.c:1300-1335 | an abort undoes an adjustment as if all cursors were compared with the logged position at once |
| Recovery.UndoRedo | db4/btree/bt_rec.c:30-353 | undoing a record after redoing it restores every page that existed before it exactly; a page from the free list gets its LSN back |
| Recovery.CountAdjustedSlots | db4/btree/bt_rec.c:880-917 | the count of one entry grows by the amount logged, the root's total with it, and nothing else on the page changes |
| Recovery.MarkedSlots | db4/btree/bt_rec.c:964-985 | the deleted flag of one data item changes, on a btree leaf the one behind the key, and nothing else on the page does |
| Recovery.UndoReplaced | db4/btree/bt_rec.c:1041-1117 | the logged difference rebuilds the new item and, with the deleted flag of a leaf or the type flag of an internal page, the old page |
| Recovery.SplitPages | db4/btree/bt_rec.c:127-154 | the halves rebuilt from the logged page image hold its records in order |
| Recovery.VersionLsn | db4/dbinc/log.h:374-387 | LSNs grow along the versions of a page |
| Recovery.FreeUntouched | db4/btree/bt_rec.c:30-353 | no record touches a page before the record that takes it from the free list |
| Recovery.RedoStep | db4/dbinc/log.h:374-387 | from pages each at or beyond its version, redoing the next record fails no LSN check and advances exactly the pages that lack it |
| Recovery.UndoStep | db4/dbinc/log.h:374-387 | undoing the last record not yet undone takes exactly the pages that have it one version back |
| Recovery.ChecksLoss | db4/dbinc/log.h:374-380 | the LSN check of redo refuses a record exactly when an earlier update of its page has been lost, pages that were never logged excepted |
| Recovery.ChecksLater | db4/dbinc/log.h:381-387 | where an abort is checked it is refused exactly when a later update of the page still stands |
| RecoveryPasses.Store.AdjRecover | db4/btree/bt_rec.c:776-835 | LSN-guarded redo and undo of an index table change; an undo is never refused |
| RecoveryPasses.Store.CAdjustRecover | db4/btree/bt_rec.c:846-920 | the same of a record count, with the root's total |
| RecoveryPasses.Store.CDelRecover | db4/btree/bt_rec.c:930-993 | the same of a deleted flag |
| RecoveryPasses.Store.ReplRecover | db4/btree/bt_rec.c:1003-1129 | the same of a replaced item, on leaf and internal pages |
| RecoveryPasses.Store.RelinkRecover | db4/btree/bt_rec.c:1351-1453 | the same of the links around an unlinked page, each page by itself |
| RecoveryPasses.Store.SplitRedo | db4/btree/bt_rec.c:86-237 | redoes a split on exactly those of its four pages that lack it |
| RecoveryPasses.Store.SplitUndo | db4/btree/bt_rec.c:238-331 | undoes a split on exactly those of its pages that have it |
| RecoveryPasses.Store.RedoPass | db4/btree/bt_rec.c:30-353 | from any crash state the redo pass reaches the state of every page at the end of the execution, and no LSN check fails |
| RecoveryPasses.Store.RedoAgain | db4/btree/bt_rec.c:30-353 | a second redo pass changes nothing |
| RecoveryPasses.Store.UndoPass | db4/btree/bt_rec.c:30-353 | from any crash state undoing in reverse takes every page back to its version before the undone records |
| RecoveryPasses.UndoRestores | db4/btree/bt_rec.c:30-353 | after a complete undo every page that existed before the log is what it was |
| RecoveryPasses.AnyCrashState | db4/dbinc/log.h:374-387 | redo and undo passes start from the same states: each page at any of its versions, independently |
| RecoveryPasses.CountCommutes | db4/btree/bt_split.c:990-1033 | a split inserts the parent's entry before it logs the parent's count, but logs the split later; replay in log order gives the same page |
| PageRecords.TotalBelow | db4/btree/bt_rsearch.c:464-502 | the total that `__bam_total` computes from the slots of a page is the number of live records below the page |
| PageRecords.LeafTotal | db4/btree/bt_rsearch.c:464-502 | the total of a leaf page is the number of its records that count: all of a recno page, the undeleted data items of the others |
| PageRecords.InternalTotal | db4/btree/bt_rsearch.c:464-502 | the total of an internal page of either kind is the sum of the counts of its entries |
| LoggedOps.File.CopySlot | db4/btree/bt_delete.c:167-204 | copies a slot and writes the record that redoes and undoes it; the log stays an execution |
| LoggedOps.File.DeleteSharedKey | db4/btree/bt_delete.c:59-158 | removes a key slot that shares its item, logged so that the slot can be copied back |
| LoggedOps.File.ReplaceItem | db4/btree/bt_put.c:670-801 | replaces the data of a leaf item under a log record that holds only the difference |
| LoggedOps.File.ReplaceEntry | db4/btree/bt_put.c:810-845 | replaces an internal entry in the same way |
| LoggedOps.File.MarkDeleted | db4/btree/bt_cursor.c:829-841 | sets the deleted flag of one data item, behind the key on a btree leaf, under its log record |
| LoggedOps.File.AdjustCount | db4/btree/bt_rsearch.c:370-418 | adds to the count of one entry, and to the total of a root, under its log record; nothing else on the page changes |
| LoggedOps.File.Relink | db4/btree/bt_delete.c:502-599 | links the neighbours of a page to each other or to a new page, under one log record |
| LoggedOps.File.SplitPage | db4/btree/bt_split.c:330-565 | the two pages hold the slots of the divided one in order; a new leaf stands between the divided one and its next, which points back to it; the parent gets the new entry behind the old one; no other page changes; all is logged, and every cursor stays on its record |
| LoggedOps.File.SplitRoot | db4/btree/bt_split.c:198-323 | the two new pages hold the slots of the root in order and, if they are leaves, are linked to each other; the root holds the two entries, stands one level higher and, with record numbers, holds the total; no other page changes; all is logged, and every cursor stays on its record |
| LoggedOps.TotalOfHalves | db4/btree/bt_split.c:690-694 | no record is lost from the totals when a page is divided |
| LoggedOps.ReplLogged | db4/btree/bt_put.c:694-726 | redoing the logged difference gives the page that the replacement makes |
| LoggedOps.HalvesLogged | db4/btree/bt_split.c:406-484 | the pages that the copying makes are the ones the redo rebuilds from the logged image |
| LoggedOps.SplitLogged | db4/btree/bt_split.c:330-565 | the four pages of a split meet what redo and undo of its record rely on, and redo gives what the split has made of them |
| LoggedOps.RootSplitLogged | db4/btree/bt_split.c:198-323 | the same for a root split |
| LoggedOps.RelinkLogged | db4/btree/bt_delete.c:502-599 | the same for the two neighbours of an unlinked page |
| LoggedOps.File.Redone | db4/btree/bt_rec.c:30-353 | whatever sequence of the routines above has run and wherever a crash left each page, the redo pass gives the pages as the routines left them |
| LoggedOps.File.Undone | db4/btree/bt_rec.c:30-353 | and the undo pass gives back every page that was not taken from the free list as it was before |
| BtreeShape.KeptInOrder | db4/btree/bt_split.c:330-565 | a page split leaves the records below every other page what they were |
| BtreeShape.HalvesGood | db4/btree/bt_split.c:758-1036 | the separator divides the keys and counts of the split page |
| BtreeShape.CutChained | db4/btree/bt_split.c:360-484 | the new leaf is spliced into the chain behind the divided one |
| BtreeShape.CutKeeps | db4/btree/bt_split.c:330-565 | a page split keeps the whole tree: records in order, uniform depth, separators, counts and links |
| BtreeShape.TotalIsLive | db4/btree/bt_rsearch.c:464-502 | the total over a page is the number of live records below it |
| BtreeShape.MovedCount | db4/btree/bt_split.c:1018-1033 | the count a split moves to the new entry is the number of live records on the new page's subtree |
| BtreeRoot.RootCutIsCut | db4/btree/bt_split.c:198-323 | a root split is the split of an only child one level down |
| BtreeRoot.RootCutKeeps | db4/btree/bt_split.c:198-323 | a root split keeps the whole tree and makes it one level higher |
| BtreeSearch.OnePlace | db4/btree/bt_search.c:328-513 | a key has one place in a sequence of records, so trees with the same records answer a search alike |
| BtreeSearch.OneNth | db4/btree/bt_rsearch.c:121-232 | selection by record number is unambiguous, hence the inverse of ranking |
| BtreeSearch.SomeNth | db4/btree/bt_rsearch.c:121-232 | there is an n-th record exactly for n from 1 to the number of live records |
| BtreeSearch.Descend | db4/btree/bt_search.c:507-513 | a step down leaves only smaller keys to the left and larger keys to the right, and the rank counted so far is right |
| BtreeSearch.PlaceInTree | db4/btree/bt_search.c:328-513 | the place found on the leaf is the place in the whole tree |
| BtreeCounts.AdjustKeeps | db4/btree/bt_rsearch.c:370-418 | after a change of one leaf and of the counts along its search path the whole tree is valid again and nothing else has changed |
| BtreeOps.SearchEntries | db4/btree/bt_search.c:365-390 | the binary search of an internal page finds the child whose bounds hold the key; the key in slot 0 counts as below every key |
| BtreeOps.SearchRecs | db4/btree/bt_search.c:365-400 | the binary search of a leaf finds a record of the key, or its insertion point |
| BtreeOps.ToDuplicate | db4/btree/bt_search.c:777-785 | moves to the first or last record of a duplicate set |
| BtreeOps.Separator | db4/btree/bt_split.c:896-929 | the promoted key is a prefix of the right page's first key, above the left page's last key, and no separating prefix makes a smaller entry |
| BtreeOps.PickEntry | db4/btree/bt_rsearch.c:210-221 | the child of an internal page that holds a record number |
| BtreeOps.PickRec | db4/btree/bt_rsearch.c:158-202 | the record of a leaf with a record number, deleted records passed over |
| BtreeOps.Btree.Search | db4/btree/bt_search.c:328-513 | finds the first or last record of a key or its insertion point in the whole tree, the path to it, and the live records on the leaves before |
| BtreeOps.Btree.SearchRecno | db4/btree/bt_search.c:823-833 | the record number returned for a key is the rank of its record, none is returned for an absent or deleted one, and for the key of the n-th live record it is n |
| BtreeOps.SelectRank | db4/btree/bt_search.c:823-833 | selecting the number that a search returned for a key gives the key's record back |
| BtreeOps.RankSelected | db4/btree/bt_search.c:823-833 | where every key has one record, the key of the n-th live record has the number n |
| BtreeOps.OneRank | db4/btree/bt_search.c:823-833 | a key has one number, or none |
| BtreeOps.Btree.RSearch | db4/btree/bt_rsearch.c:121-232 | finds the n-th live record, and fails exactly when there is none |
| BtreeOps.Btree.SplitPage | db4/btree/bt_split.c:330-565 | splits the page that any step of a search stack led to, if and only if the parent has room for the separator, keeping the tree valid and its records in order; DB_NEEDSPLIT leaves the pages alone |
| BtreeOps.Btree.SplitRoot | db4/btree/bt_split.c:573-706 | splits the root with the whole key promoted, keeping the tree valid and its records in order |
| PageRecords.SplitPointDivides | db4/btree/bt_split.c:1092-1236 | a place on the stride is a split point of a page of bytes exactly when it divides the records or entries it holds |
| PageRecords.HalvesAgree | db4/btree/bt_split.c:1043-1310 | the copied halves of a page stand for the halves that the split of the tree makes of it, the blanked first key included |
| PageRecords.DividePage | db4/btree/bt_split.c:330-565 | dividing the bytes of a page and splitting the tree at the same place leaves pages of bytes that stand for the new pages of the tree |
| PageRecords.DivideRoot | db4/btree/bt_split.c:198-323 | the same for the root |
| PageRecords.CountedAgrees | db4/btree/bt_rsearch.c:396-412 | changing a count on a page of bytes changes it in the tree's entry |
| PageRecords.MarkedAgrees | db4/btree/bt_cursor.c:837-841 | marking a record on a page of bytes marks the tree's record |
| PageRecords.RoomAgrees | db4/btree/bt_split.c:864-925 | the room the tree sees on a parent is the free space of its bytes |
| BtreeOps.Btree.Adjust | db4/btree/bt_rsearch.c:370-418 | the counts along a search stack and the root's total change, nothing else does |
| BtreeOps.Btree.MarkDeleted | db4/btree/bt_rsearch.c:370-418 | a logical delete marks the first record of the key, unless absent or marked already, and the counts stay right |
| BtreeOps.Btree.Insert | db4/btree/bt_cursor.c:2133-2210 | without duplicates a put replaces the record of its key, deleted or not, and counts it again if it was deleted; otherwise a new record goes behind those of its key; the tree stays valid and its counts right |

## Left out

- MergeDelete.Delete: the count of deleted pairs is not modelled; the source does not add it reliably when a whole chunk disappears. The same holds for MergeInsert.Insert.
- CompressedTree.Cursor.SeekLte: the btree beneath the chunks is an ordered sequence with a less-or-equal seek and an insert in key order, not the pages of the other modules.
- PageSplit.PSplit: the index of the search for the end of a duplicate set is 16-bit; byte counts and offsets are not, so the end of a page of 64 kilobytes is 65536 and not 0. That a page on which all keys are one duplicate set is never split is required of the caller.
- PageMerge.MergeRecords: the place of the page below its parent and the room on the pages above, which the source reads off its stacks, are parameters; the length of an overflow key there, which the source reads from bytes that are not set, is 0. Moving the page to a lower page number first is left out.
- PageMerge.Merge: the test for the key at which the compaction is to stop.
- BtreeOps.Btree.SplitPage: the modes of `__bam_pinsert` that compaction uses, replacing an entry or only checking for space, are not modelled. The split point is any place that divides the page; PageRecords.DividePage takes the one of PageSplit.PSplit. Pages with overflow keys are not read as records there.
- BtreeOps.Btree.Insert: the leaf is taken to have room; the space check, and choosing where among duplicates a record goes by its data, are not modelled.
- BtreeOps.Btree.RSearch: only the search of existing records in btrees; the flags for inserting past the end, SR_MAX and the next-page stacks of compaction are not modelled.
- BtreeOps.Btree.Search: without the flags for deletion of pages, parents and neighbouring leaves (SR_PARENT, SR_DEL, SR_NEXT, SR_STK_ONLY) and without the flag that passes over deleted duplicates.
- RecnoCursors.RamCa: cursors protected by multiversion concurrency control, streaming offsets and the logging of adjustments are not modelled.
- RecnoCursors.UndoOfDeletes: of two deletes with nothing in between; cursors that are opened, closed or moved between them are not.
- SplitCursors.CaSplit: cursors protected by multiversion concurrency control are not modelled.
- Pages of whole trees (BtreeShape and the modules on it) hold records and entries, not bytes; PageSplit and PageMerge treat the bytes of one page. Overflow keys, off-page duplicate trees and recno trees appear there only as items.
- The item area of a page is a sequence of items, so the moving of bytes within it is not modelled, only where each item lies afterwards, and unaligned or overlapping garbage that a damaged page may hold cannot be expressed. Checksums and encryption, which lengthen the page header, are left out.
- Relocation of compressed cursors after an update and the other compressed cursor operations (set, both, multiple, no-duplicate moves, count, bulk delete) are left out, as is the deletion of keys with all their duplicates.
- On malformed chunks the sizes read are unbounded integers, not 32-bit sums.
- User-supplied comparison, prefix and compression callbacks.
- Locks, latches, the buffer pool, transactions and the retry loop of `__bam_split`; every operation is one sequential step, and page allocation is a parameter.
- The log records of item insertion and removal (addrem), page allocation, merge and root changes, whose undo does not put items back at the same offsets; creating pages missing from the file during recovery; replication clients.
- LoggedOps.File.SplitPage: the page from the free list and the parent's entry are parameters, and so are both entries in LoggedOps.File.SplitRoot; no transaction spans several records.
- RecoveryPasses.Store.CDelRecover: the undo does not clear the deleted flag of the cursors open on the record.
- BtreeRoot.RootCutKeeps: roots of btrees; those of recno trees, made by `__ram_root`, appear only as page images in LoggedOps.File.SplitRoot.
- ItemBytes.Body: padding bytes hold 0, as in the entries that `__bam_pinsert` makes, and words are stored least byte first.
- Emptying pages, the reverse split of the root and the physical removal of deleted records from a tree.
- Compaction of internal pages, freeing pages and truncation of the file.
- Statistics, verification and salvage, byte swapping, upgrades, and the text files behind recno databases.
