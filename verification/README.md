# Verified model of JonoonDB

JonoonDB is a document store. Documents are appended to a log of data files, indexed by
compressed bitmaps over document ids, and found again by SQL queries that reduce to operations on
those bitmaps. This project models that core in Dafny and proves it correct: what a query returns
is what a scan over all live documents would return, and what the log holds survives closing and
opening.

`dafny verify dfyconfig.toml` checks everything.

## How the model is laid out

| files | what they model |
|---|---|
| Words, EwahBits | 64-bit words as integers with their bits, and sequences of words as sets of positions |
| EwahFormat, RunningLengthWord | marker words, buffers of markers and literals, and the words a buffer stands for |
| EwahBoolArray, EwahAppend, EwahNegation | the compressed bitmap as a class: appending, as a function of any buffer, and in-place negation |
| EwahRestored, EwahCompletion | appending to a bitmap that was stored and restored: when it goes wrong, and when that is repaired |
| EwahStream, EwahMerge | the reloading stream over a bitmap, and AND and OR as a merge of two streams |
| EwahReaders, EwahIterator | reading single bits, listing, counting, and the forward iterator |
| EwahSerialization, Bytes | the stored form of a bitmap |
| MamaJennies | intersections and unions of lists of bitmaps |
| Constraints, OrderedSets, EwahIntegerIndexer, VectorIntegerIndexer | comparisons, and the two integer indexes |
| IndexManager | all indexes of a collection, and the fusion of ranges |
| DeleteVector | the deleted ids: set, persisted bitmap and cached bitmap of live ids |
| Varint, BlobFormat, MemoryMappedFile, BlobManager | the append-only log, its record format and its recovery scan |
| LruCache, EvictionProtocol | the cache of mapped files: its eviction, and all interleavings of its locked phases |
| Cursor | id batches and the virtual-table cursor |
| DocumentCollection | the collection over all of these, from insert and delete to query and recovery |

Objects that the source updates in place are classes with the source's fields, and their methods
keep the source's loops. A bitmap's meaning is `Bits()`, a set of naturals; `Structured` says the
buffer parses, `Valid` that no bit lies beyond the size, `Appendable` and `SetBuilt` what `set`
needs and what it establishes. The collection's `Valid` says that log, indexes, id map, id
generator and delete vector all know the same documents under the same ids, so each method's
contract is a step of an invariant over every run of inserts, deletes and queries. The one
exception is a deletion that is refused after a wrong row was opened. `Persisted` says that the
stored row of deleted ids is right, which is what reopening relies on.

## Where the code is not what one would expect

- `inplace_logicalnot` wraps a literal count of 0 when the partial last word lies in a run. The
  exact condition is proved, and bitmaps built by `set` always meet it.
- A restored bitmap does not know its last marker, so `set` starts from the first one. Whether the
  buffer it leaves reads as the right set is decided exactly, for every bitmap in the form in which
  ascending calls of `set` leave it, by the guards of the branches of `set`. A single marker is
  always right. With several, a bit in the last word is right unless it completes the word or the
  first marker has no literals, a bit in the next word is wrong, and a bit further on is right when
  a new marker is opened for the gap. For buffers of 2^31 - 1 words and more, whose markers can be
  full, only "right under the guard" is proved.
- The set of deleted ids in memory stays right through such appends; the stored row is wrong until
  a repair. Deleting an id below a deleted one rebuilds the bitmap. Completing the word that broke
  it repairs it too, under a condition that is proved exactly (`CompletionRepairs`). For other
  appends to a broken bitmap the contract says that the row is what `set` makes of it, and not
  whether that is right.
- A wrong row that is opened gives other deleted ids than were stored, and may make the next
  deletion throw (`RefusingRow`). The id is then in the set but neither stored nor seen by queries
  until something else marks the cached bitmap as out of date.
- The vector index leaves out the operand itself for `<=` and `>=` with a DOUBLE operand that is a
  whole number. The condition for a right answer is proved in both directions, and the query
  theorem holds for the constraints that meet it.
- `jonoondb_filter` does not reset the position within a batch. The cursor is correct nevertheless,
  because a new id sequence starts with an empty batch.

## Model

| member | source | states |
|---|---|---|
| `Collections.Query` | src/jonoondb_api/jonoondb_vtable.cc:316-382 | fails exactly when a constraint has no index or no supported operator; otherwise visits exactly the ids below the document count that are not deleted and for which the indexes answer every constraint with yes, in ascending order, each once, for any batch size; these are the documents that satisfy every constraint when each is answered exactly; both are stated on the fields read from the document's own bytes |
| `Collections.DocumentCollection.Filter` | src/jonoondb_api/document_collection.cc:138-157 | fails exactly when a constraint has no index or no supported operator; otherwise exactly the live documents for which the indexes answer every constraint with yes; that is the scan of the live documents when every index tests its constraints exactly, and never more, in terms of the fields read from each document's own bytes; every invariant of the collection survives |
| `Collections.FieldsOfBytes` | src/jonoondb_api/document_collection.cc:93-97 | what indexes and scans see of a document is read from its own bytes |
| `Collections.DocumentCollection.Candidates` | src/jonoondb_api/document_collection.cc:138-148 | before deletion is applied: the documents the indexes select, or all ids when there are no constraints |
| `Collections.DocumentCollection.WithoutDeleted` | src/jonoondb_api/document_collection.cc:149-156 | intersecting with the live bitmap, or skipping it when it is empty, removes exactly the deleted ids |
| `Collections.DocumentCollection.AllIds` | src/jonoondb_api/document_collection.cc:142-146 | appending the ids one after another gives all ids below the document count |
| `Collections.DocumentCollection.IndexStep` | src/jonoondb_api/document_collection.cc:104-105 | the documents reach every index under the next ids, and nothing else changes |
| `Collections.DocumentCollection.StoreStep` | src/jonoondb_api/document_collection.cc:107-110 | the documents reach the log, compressed as asked for, in files begun only when needed, and the map their places |
| `Collections.DocumentCollection.MultiInsert` | src/jonoondb_api/document_collection.cc:86-120 | the documents get the next ids, and log, indexes, id map and delete vector stay in agreement; the log gains their records, compressed as asked for, and begins files only when needed; the first malformed document, when verification is asked for, is reported and nothing changes |
| `Collections.DocumentCollection.IndexAndStore` | src/jonoondb_api/document_collection.cc:103-113 | the updates of one insert re-establish the agreement of all parts, and no id already in the map moves |
| `Collections.DocumentCollection.AddToDeleteVector` | src/jonoondb_api/document_collection.cc:316-318 | for every id that is not deleted yet: exactly it joins the deleted ones, or nothing changes when it cannot be stored; refused exactly when the bitmap, read from a wrong row, is already longer; from a right bitmap the stored row is right under the guard of the append, and outside it can be restored but not as the deleted ids (bitmaps below 2^31 - 1 words), also after reopening; from any other bitmap it is what `set` makes of it |
| `Collections.DocumentCollection.GetDocumentAndBuffer` | src/jonoondb_api/document_collection.cc:159-171 | missing exactly for ids at or beyond the document count; otherwise the bytes inserted under that id |
| `Collections.DocumentCollection.constructor` | src/jonoondb_api/document_collection.cc:30-77 | opening a log rebuilds the id map, the indexes and the next id from its files, for any batch size; any row that can be read is opened: the ids read from it are the deleted ones, and if it is right, their bitmap is one of which `EwahRestored.AppendIsRight` says what the next append does; all parts agree if and only if those ids are ids of documents |
| `Collections.Reopened` | src/jonoondb_api/document_collection.cc:30-77 | closing and opening again gives the same documents under the same ids at the same places, and the same deleted ids, whenever the stored row is right |
| `Collections.LoadDataFile` | src/jonoondb_api/document_collection.cc:54-72 | batching does not matter: one file yields its records, in order, with the locations their puts returned |
| `Collections.DocumentCollection.LoadDataFiles` | src/jonoondb_api/document_collection.cc:49-73 | scanning the files in key order yields all records and the locations in put order |
| `Collections.EmptyFilesLast` | src/jonoondb_api/document_collection.cc:49-73 | files without records that are not listed change nothing |
| `Collections.ValidIsOnDisk` | src/jonoondb_api/blob_manager.cc:141-171 | what a manager leaves on disk is what reopening it requires |
| `IndexManagement.IndexManager.IndexDocuments` | src/jonoondb_api/index_manager.cc:53-72 | every index holds the value of its column for every document, under consecutive ids |
| `IndexManagement.IndexManager.InsertDocument` | src/jonoondb_api/index_manager.cc:61-68 | one document reaches every index |
| `IndexManagement.IndexManager.CreateIndex` | src/jonoondb_api/index_manager.cc:38-51 | a new index on a column, behind those already there |
| `IndexManagement.IndexManager.constructor` | src/jonoondb_api/index_manager.cc:20-36 | one index for each requested column |
| `IndexManagement.IndexManager.CollectAnswers` | src/jonoondb_api/index_manager.cc:99-141 | with ranges fused, the intersection of the collected bitmaps is the set for which every single constraint answers yes |
| `IndexManagement.IndexManager.AskNext` | src/jonoondb_api/index_manager.cc:103-140 | one constraint or one fused range, answered by the index at the least position with that column |
| `IndexManagement.IndexManager.Filter` | src/jonoondb_api/index_manager.cc:99-144 | exactly the documents for which every constraint answers yes: as the comparison itself when the index at the least position with its column is inverted, as the test of the vector index otherwise; an error exactly when a constraint has no index or one of the four string operators |
| `IndexManagement.FindSlot` | src/jonoondb_api/index_manager.cc:101-138 | the least position of an index on the column, if there is one |
| `IndexManagement.SelectedMeans` | src/jonoondb_api/index_manager.cc:99-144 | a document is selected exactly when every single constraint answers yes on its field |
| `IndexManagement.SelectedConcat` | src/jonoondb_api/index_manager.cc:119-128 | filtering by two lists of constraints one after the other is filtering by their concatenation, so fusing a range changes nothing |
| `IndexManagement.SelectedIsScan` | src/jonoondb_api/index_manager.cc:99-144 | the selection is contained in the scan of all documents, and equals it when each constraint is answered exactly |
| `IndexManagement.AnswerIsSelection` | src/jonoondb_api/index_manager.cc:125-139 | what one index returns for its column is the selection over documents |
| `IndexManagement.FuseLength` | src/jonoondb_api/index_manager.cc:119-128 | two constraints are used up exactly for a lower one directly followed by an upper one on the same column |
| `IndexManagement.DocumentIDGenerator.ReserveID` | src/jonoondb_api/document_id_generator.cc:8-10 | a block of consecutive ids is reserved once |
| `MamaJennies.LogicalAndAll` | src/jonoondb_api/mama_jennies_bitmap.cc:119-147 | the intersection of the list, through two alternating outputs and with the early exit on size 0 |
| `MamaJennies.LogicalOrAll` | src/jonoondb_api/mama_jennies_bitmap.cc:149-172 | the union of the list, through two alternating outputs |
| `MamaJennies.MeetMember` | src/jonoondb_api/mama_jennies_bitmap.cc:119-147 | the folded intersection holds an id exactly when every operand does |
| `MamaJennies.JoinMember` | src/jonoondb_api/mama_jennies_bitmap.cc:149-172 | the folded union holds an id exactly when some operand does |
| `MamaJennies.MeetStaysEmpty` | src/jonoondb_api/mama_jennies_bitmap.cc:140-143 | the early exit is sound |
| `EwahIndexer.EwahIntegerIndexer.Insert` | include/jonoondb_api/ewah_compressed_bitmap_indexer_integer.h:61-72 | the bitmaps of the values keep partitioning the ids: the new id joins exactly the bitmap of its value |
| `EwahIndexer.EwahIntegerIndexer.GetBitmapEQ` | include/jonoondb_api/ewah_compressed_bitmap_indexer_integer.h:163-186 | exactly the ids whose value equals an integer or DOUBLE operand |
| `EwahIndexer.EwahIntegerIndexer.GetBitmapLT` | include/jonoondb_api/ewah_compressed_bitmap_indexer_integer.h:188-221 | exactly the ids whose value is below, or not above, the operand |
| `EwahIndexer.EwahIntegerIndexer.GetBitmapGT` | include/jonoondb_api/ewah_compressed_bitmap_indexer_integer.h:223-240 | exactly the ids whose value is above the operand |
| `EwahIndexer.EwahIntegerIndexer.GetBitmapGTE` | include/jonoondb_api/ewah_compressed_bitmap_indexer_integer.h:242-260 | exactly the ids whose value is not below the operand |
| `EwahIndexer.EwahIntegerIndexer.Filter` | include/jonoondb_api/ewah_compressed_bitmap_indexer_integer.h:78-99 | a scan of the column; an error exactly for an unsupported operator |
| `EwahIndexer.EwahIntegerIndexer.FilterRange` | include/jonoondb_api/ewah_compressed_bitmap_indexer_integer.h:101-156 | a scan of the column for both ends of the range |
| `EwahIndexer.EwahIntegerIndexer.UniteChosen` | include/jonoondb_api/ewah_compressed_bitmap_indexer_integer.h:155 | uniting the bitmaps of the values that satisfy the constraints gives the scan |
| `EwahIndexer.LowerBound` | include/jonoondb_api/ewah_compressed_bitmap_indexer_integer.h:132 | the first key not below the limit |
| `EwahIndexer.UpperBound` | include/jonoondb_api/ewah_compressed_bitmap_indexer_integer.h:130 | the first key above the limit |
| `Constraints.HoldsRounded` | include/jonoondb_api/ewah_compressed_bitmap_indexer_integer.h:106-123 | each comparison of an integer with a DOUBLE operand, restated on the rounded operand |
| `Constraints.TruncateExact` | include/jonoondb_api/ewah_compressed_bitmap_indexer_integer.h:172-174 | the cast test finds a DOUBLE equal to an integer exactly when it is one |
| `VectorIndexer.VectorIntegerIndexer.Filter` | include/jonoondb_api/vector_integer_indexer.h:72-93 | the ids whose value passes the shifted strict comparison of the code; an error exactly for an unsupported operator |
| `VectorIndexer.VectorIntegerIndexer.FilterRange` | include/jonoondb_api/vector_integer_indexer.h:95-132 | the ids whose value lies strictly between the two shifted limits |
| `VectorIndexer.VectorIntegerIndexer.SelectBetween` | include/jonoondb_api/vector_integer_indexer.h:125-129 | the scan shared by all comparisons |
| `VectorIndexer.ExactIffRight` | include/jonoondb_api/vector_integer_indexer.h:186-232 | the code answers a constraint rightly for every value if and only if it is not `<=` or `>=` with a DOUBLE operand that is a whole number |
| `VectorIndexer.MissesEqualValue` | include/jonoondb_api/vector_integer_indexer.h:190-191 | a `<=` with an integral DOUBLE operand does not find the equal value |
| `VectorIndexer.TestsUpToEquality` | include/jonoondb_api/vector_integer_indexer.h:101-123 | even then the answer differs only at the operand itself, and only by leaving it out |
| `DeleteVectors.DeleteVector.OnDocumentDeleted` | src/jonoondb_api/delete_vector.cc:38-65 | for every id that is not deleted yet: refused exactly when no larger id is deleted and the bitmap is longer than the id, which happens only after a wrong row was read; the id then stays in the set, and the cached bitmap is out of date without being marked so; otherwise the set gains it, and the bitmap is made anew by ascending calls of `set`, or is what `set` makes of the old one; the stored row has its size, its word count and its words in little-endian bytes, stated place by place; these stay right when the guard of the append holds, and go wrong, still restorable but not read as the set, when it does not (bitmaps below 2^31 - 1 words); when storing fails, set, dirtiness and row are as before and the bitmap is rebuilt |
| `DeleteVectors.DeleteVector.AddToSerializationBitmap` | src/jonoondb_api/delete_vector.cc:44-51 | a smaller id than the largest makes the bitmap be rebuilt as the set of deleted ids; the largest is given to `set`, which refuses it exactly when the bitmap is longer |
| `DeleteVectors.DeleteVector.OnDocumentsInserted` | src/jonoondb_api/delete_vector.cc:72-76 | new ids are live; the cached bitmap is out of date |
| `DeleteVectors.DeleteVector.Reconstruct` | src/jonoondb_api/delete_vector.cc:80-87 | the deleted ids and the next id, complemented in place, are the live ids |
| `DeleteVectors.DeleteVector.MaybeReconstructBitmap` | src/jonoondb_api/delete_vector.cc:78-90 | afterwards the cached bitmap is the set of live ids |
| `DeleteVectors.DeleteVector.GetDeleteVectorBitmap` | src/jonoondb_api/delete_vector.cc:67-70 | the live ids; the bitmap has size 0 only when there are no documents |
| `DeleteVectors.DeleteVector.StoreBitmap` | src/jonoondb_api/delete_vector.cc:125-154 | the stored row becomes the size, the word count and the words of the bitmap, each in eight bytes, lowest first |
| `DeleteVectors.DeleteVector.RebuildSerializationBitmap` | src/jonoondb_api/delete_vector.cc:47-50 | the bitmap is what ascending calls of `set` for the deleted ids make of the empty one |
| `DeleteVectors.DeleteVector.constructor` | src/jonoondb_api/delete_vector.cc:13-36 | the deleted ids are those read from the stored row, right or wrong; from a right row the bitmap is right except for the position of the last marker, which is right if and only if the bitmap is a single marker or there was no row |
| `DeleteVectors.DeleteVector.LoadBitmap` | src/jonoondb_api/delete_vector.cc:156-192 | iterating the restored bitmap gives exactly the ids that its words stand for, for any row with a well-formed buffer, and the stored ids when the row is right |
| `DeleteVectors.DeleteVector.AppendedIsStored` | src/jonoondb_api/delete_vector.cc:44-55 | the stored row after an append is right under the guard; outside it, it can be restored but does not read as the set |
| `DeleteVectors.PersistsIsRead` | src/jonoondb_api/delete_vector.cc:156-192 | a right row is read as the ids that were stored |
| `DeleteVectors.WrongRow` | src/jonoondb_api/delete_vector.cc:125-154 | a buffer that does not read as the ids, once stored, is restored as the same buffer and so does not either |
| `DeleteVectors.RefusingRow` | src/jonoondb_api/delete_vector.cc:44-51 | a row that an append after a restore leaves, and that is read as three ids only of a bitmap of 129 bits, so that deleting an id in between is refused |
| `DeleteVectors.ReadIds` | src/jonoondb_api/delete_vector.cc:173-175 | iterating a bitmap collects exactly its set |
| `DeleteVectors.LastMarkerIsUnique` | thirdparty/ewah_boolarray/ewah.h:1005-1011 | which restored bitmaps have their last marker at position 0 |
| `Cursors.IDSequence.Next` | src/jonoondb_api/id_seq.cc:18-33 | delivers the next ids in order, a full batch while enough are left; false exactly at the end |
| `Cursors.Cursor.Filter` | src/jonoondb_api/jonoondb_vtable.cc:316-323 | a new scan starts at the first id, also from the middle or the end of another |
| `Cursors.Cursor.Eof` | src/jonoondb_api/jonoondb_vtable.cc:354-376 | true exactly when all ids have been passed, however often it is asked |
| `Cursors.Cursor.Next` | src/jonoondb_api/jonoondb_vtable.cc:340-345 | passes one row |
| `Cursors.Cursor.RowId` | src/jonoondb_api/jonoondb_vtable.cc:378-382 | the next id of the result in ascending order |
| `Cursors.Drain` | src/jonoondb_api/jonoondb_vtable.cc:340-382 | the loop over eof, rowid and next visits all ids, each once |
| `Cursors.ScanAll` | src/jonoondb_api/jonoondb_vtable.cc:316-382 | a filter followed by that loop lists the set of the bitmap in ascending order |
| `EwahBitmap.EwahBoolArray.Set` | thirdparty/ewah_boolarray/ewah.h:808-842 | in every state the buffer that `EwahAppend.AfterSet` describes; when the position of the last marker is right and the bit is at or beyond the size, the set gains exactly it, the word count is the rounded-up size, and the buffer stays well formed; for a smaller bit nothing changes and the answer is false |
| `EwahBitmap.EwahBoolArray.AddLiteralWord` | thirdparty/ewah_boolarray/ewah.h:1040-1058 | one word more, through marker overflow; returns the words added to the buffer |
| `EwahBitmap.EwahBoolArray.AddEmptyWord` | thirdparty/ewah_boolarray/ewah.h:1639-1680 | one clean word more, through run-length overflow |
| `EwahBitmap.EwahBoolArray.AddWord` | thirdparty/ewah_boolarray/ewah.h:985-995 | one word more, clean or literal |
| `EwahBitmap.EwahBoolArray.FastAddStreamOfEmptyWords` | thirdparty/ewah_boolarray/ewah.h:1482-1526 | that many clean words more, 0 included, over as many markers as needed |
| `EwahBitmap.EwahBoolArray.AddStreamOfEmptyWords` | thirdparty/ewah_boolarray/ewah.h:1426-1478 | the same with the size advanced and the buffer words counted |
| `EwahBitmap.EwahBoolArray.AddStreamOfDirtyWords` | thirdparty/ewah_boolarray/ewah.h:1530-1580 | the literal words appended in order, over as many markers as needed |
| `EwahBitmap.EwahBoolArray.CollapseLastWord` | thirdparty/ewah_boolarray/ewah.h:831-840 | turning a completed all-ones literal into a run keeps the words |
| `EwahBitmap.EwahBoolArray.SplitZeroRun` | thirdparty/ewah_boolarray/ewah.h:820-827 | taking the last word out of a zero run and adding it as a literal |
| `EwahBitmap.EwahBoolArray.InplaceLogicalNot` | thirdparty/ewah_boolarray/ewah.h:845-876 | on a bitmap built by `set` the complement below the size, again such a bitmap; on one whose partial last word ends a zero run the buffer no longer parses |
| `EwahBitmap.EwahBoolArray.Reset` | thirdparty/ewah_boolarray/ewah.h:209-214 | the empty bitmap |
| `EwahBitmap.EwahBoolArray.SetSizeInBits` | thirdparty/ewah_boolarray/ewah.h:489-491 | the words are kept |
| `EwahBitmap.EwahBoolArray.Add` | src/jonoondb_api/mama_jennies_bitmap.cc:91-98 | what the library calls: one more bit in ascending order, refused otherwise |
| `EwahBitmap.EwahBoolArray.AppendBit` | thirdparty/ewah_boolarray/ewah.h:810-841 | the three branches of `set`, in every state |
| `EwahAppend.AfterSetAppends` | thirdparty/ewah_boolarray/ewah.h:808-842 | with the position of the last marker right, `set` appends exactly the bit |
| `EwahAppend.FastAddGrows` | thirdparty/ewah_boolarray/ewah.h:1482-1526 | clean words are appended to the words of a well-formed buffer |
| `EwahAppend.SplitRunWraps` | thirdparty/ewah_boolarray/ewah.h:820-827 | a run gives one word back, its length wrapping at 2^32, and the bit becomes a literal |
| `EwahAppend.CollapseKeeps` | thirdparty/ewah_boolarray/ewah.h:831-840 | a last literal of ones becomes a word of a run |
| `EwahRestored.AfterSetStored` | thirdparty/ewah_boolarray/ewah.h:808-842 | ascending calls of `set` keep the form in which bitmaps are stored: partial last word a literal, no marker without a run behind one that is not full, no run continued behind one with room |
| `EwahRestored.AppendIsRight` | thirdparty/ewah_boolarray/ewah.h:808-842 | on a restored bitmap, whose `lastRLW` is 0, the buffer that `set` leaves reads as the old set and the new bit if and only if a single marker is there, or the bit goes into the last word without completing it and the first marker has literals, or a new marker is opened at the end (a gap of words behind a first marker with literals, ones, or a full run); the form is kept then |
| `EwahCompletion.CompletionRepairs` | thirdparty/ewah_boolarray/ewah.h:808-842 | after an append to the next word has broken a restored bitmap, setting the other bits of that word in order takes the miscounted literal back and makes the bitmap read rightly again, if and only if the first marker is not one that announces nothing but ones; the stored form is back too, with the position right, when the last marker has literals |
| `EwahCompletion.WholeWord` | thirdparty/ewah_boolarray/ewah.h:808-842 | whatever the position of the last marker, setting all bits of the next word is adding a word of ones to the marker there, as long as its literal count is not full |
| `EwahRestored.StaleOr` | thirdparty/ewah_boolarray/ewah.h:819-842 | the bit is put into the last word, which no marker announces differently |
| `EwahRestored.StalePush` | thirdparty/ewah_boolarray/ewah.h:1482-1526 | new markers at the end do not depend on the position |
| `EwahRestored.BreaksNextWord` | thirdparty/ewah_boolarray/ewah.h:1040-1058 | the next word is counted in the first marker, so the second one is read as a literal |
| `EwahRestored.BreaksWithoutLiterals` | thirdparty/ewah_boolarray/ewah.h:820-827 | a word is taken from the first run and the second marker is read as a literal |
| `EwahRestored.BreaksRun` | thirdparty/ewah_boolarray/ewah.h:1495-1507 | the gap is put into the first run, over words of ones |
| `EwahRestored.BreaksIntoRun` | thirdparty/ewah_boolarray/ewah.h:831-840 | the completed word is put into the first run, and a literal is read as a marker |
| `EwahRestored.BreaksCount` | thirdparty/ewah_boolarray/ewah.h:831-840 | the completed word is taken from the count of the first marker, and a literal is read as a marker |
| `EwahNegation.InplaceNotIsComplement` | thirdparty/ewah_boolarray/ewah.h:845-876 | the exact guard under which in-place negation is the complement, and what happens outside it |
| `EwahNegation.InplaceNotTwice` | thirdparty/ewah_boolarray/ewah.h:845-876 | negating twice gives the set back |
| `EwahNegation.FlipExpands` | thirdparty/ewah_boolarray/ewah.h:847-860 | flipping markers and literals negates every uncompressed word and keeps the marker structure |
| `EwahBits.ComplementOnes` | thirdparty/ewah_boolarray/ewah.h:866-868 | masking the partial last word cuts the complement at the size |
| `EwahFormat.ExpandConcat` | thirdparty/ewah_boolarray/ewah.h:1039-1058 | concatenated buffers stand for concatenated words |
| `EwahFormat.ExpandAtLast` | thirdparty/ewah_boolarray/ewah.h:1039-1058 | a well-formed buffer ends exactly at its last marker and that marker's literals; only that marker can be empty |
| `EwahFormat.AppendLiterals` | thirdparty/ewah_boolarray/ewah.h:1053-1057 | literals go behind the last marker |
| `EwahFormat.ExtendRun` | thirdparty/ewah_boolarray/ewah.h:1650-1666 | lengthening the run of a last marker without literals |
| `EwahFormat.DetachLastLiteral` | thirdparty/ewah_boolarray/ewah.h:833-838 | taking the last literal off |
| `EwahFormat.Marker` | thirdparty/ewah_boolarray/runninglengthword.h:148-167 | the three fields of a packed marker are the ones put in, within their limits |
| `RunningLengthWords.GetRunningLength` | thirdparty/ewah_boolarray/runninglengthword.h:36-52 | shift and mask read the running length; the mask reads the running bit |
| `RunningLengthWords.SetRunningBitKeepsOthers` | thirdparty/ewah_boolarray/runninglengthword.h:94-99 | the masks write the running bit and keep the other fields |
| `RunningLengthWords.SetRunningLengthKeepsOthers` | thirdparty/ewah_boolarray/runninglengthword.h:126-130 | the masks write the running length, cut to 32 bits, and keep the other fields |
| `RunningLengthWords.SetLiteralWordsKeepsOthers` | thirdparty/ewah_boolarray/runninglengthword.h:139-143 | the masks write the literal count, cut to 31 bits, and keep the other fields |
| `EwahStream.RawIterator.constructor` | thirdparty/ewah_boolarray/ewah.h:1110-1131 | at the start of a stream all words are still to come |
| `EwahStream.RawIterator.Next` | thirdparty/ewah_boolarray/runninglengthword.h:385-393 | loads the next marker; false exactly at the end of the buffer |
| `EwahStream.RawIterator.Read` | thirdparty/ewah_boolarray/runninglengthword.h:395-401 | takes the fields of a marker |
| `EwahStream.RawIterator.DiscardRunningWordsWithReload` | thirdparty/ewah_boolarray/runninglengthword.h:379-383 | drops the words of the run and no others |
| `EwahStream.RawIterator.DiscardFirstWordsWithReload` | thirdparty/ewah_boolarray/runninglengthword.h:448-466 | drops that many words, over as many markers as needed |
| `EwahStream.RawIterator.DischargeUpTo` | thirdparty/ewah_boolarray/runninglengthword.h:283-302 | moves the next words, at most the given number, to the container |
| `EwahStream.RawIterator.Discharge` | thirdparty/ewah_boolarray/runninglengthword.h:258-268 | moves all that is left to the container |
| `EwahStream.RawIterator.Exhausted` | thirdparty/ewah_boolarray/runninglengthword.h:434-439 | a size of 0 means the end of the stream, because only a last marker can be empty |
| `EwahMerge.LogicalAnd` | thirdparty/ewah_boolarray/ewah.h:1785-1827 | terminates, and the container is the intersection, however runs and literals misalign and whichever stream ends first; its size is that of the receiver |
| `EwahMerge.LogicalOr` | thirdparty/ewah_boolarray/ewah.h:1684-1740 | terminates, and the container is the union, with the rest of the longer stream; its size is a whole number of words |
| `EwahMerge.Merge` | thirdparty/ewah_boolarray/ewah.h:1796-1825 | both streams advance together until one ends |
| `EwahMerge.MergeRound` | thirdparty/ewah_boolarray/ewah.h:1796-1824 | one round combines the runs and then the literals of both streams word by word |
| `EwahMerge.AndRuns` | thirdparty/ewah_boolarray/ewah.h:1802-1812 | the run of the predator against the prey, for intersection |
| `EwahMerge.OrRuns` | thirdparty/ewah_boolarray/ewah.h:1702-1713 | the run of the predator against the prey, for union |
| `EwahMerge.CombineLiterals` | thirdparty/ewah_boolarray/ewah.h:1814-1822 | literals of both streams, combined one by one |
| `EwahBits.CombinedOnes` | thirdparty/ewah_boolarray/ewah.h:1814-1822 | combining words bit by bit intersects or unites the sets |
| `EwahReaders.Get` | thirdparty/ewah_boolarray/ewah.h:64-82 | one bit, for any position |
| `EwahReaders.ToArray` | thirdparty/ewah_boolarray/ewah.h:900-934 | the set in ascending order |
| `EwahReaders.AppendRowIDs` | thirdparty/ewah_boolarray/ewah.h:1379-1406 | the set in ascending order, moved by an offset, behind what was there |
| `EwahReaders.NumberOfOnes` | thirdparty/ewah_boolarray/ewah.h:879-897 | the size of the set |
| `EwahReaders.OnesFromComplete` | thirdparty/ewah_boolarray/ewah.h:900-934 | the enumeration holds exactly the set |
| `EwahReaders.OnesFromAscending` | thirdparty/ewah_boolarray/ewah.h:900-934 | the enumeration is strictly ascending |
| `EwahReaders.OnesFromCount` | thirdparty/ewah_boolarray/ewah.h:879-897 | its length is the size of the set |
| `EwahIterator.SetBitForwardIterator.constructor` | thirdparty/ewah_boolarray/ewah.h:751-758 | the iterator begins with the whole enumeration before it |
| `EwahIterator.SetBitForwardIterator.AdvanceToNextSetBit` | thirdparty/ewah_boolarray/ewah.h:684-737 | skips to the next set bit or to the end, losing none |
| `EwahIterator.SetBitForwardIterator.Increment` | thirdparty/ewah_boolarray/ewah.h:647-651 | leaves exactly the positions behind the current one |
| `EwahIterator.SetBitForwardIterator.EndIsEmpty` | thirdparty/ewah_boolarray/ewah.h:617-630 | at the end exactly when nothing is left |
| `EwahIterator.NextInWord` | thirdparty/ewah_boolarray/ewah.h:708-722 | shifting and counting trailing zeros finds the next set bit of a literal |
| `EwahFormat.FieldsByDivision` | thirdparty/ewah_boolarray/runninglengthword.h:148-167 | a marker is a bit, 32 bits of running length and 31 bits of literal count, from the lowest on |
| `Bytes.LittleEndianAt` | src/jonoondb_api/mama_jennies_bitmap.cc:221-227 | byte k of a stored number is its k-th byte from the lowest |
| `EwahSerialization.SerializeBytes` | src/jonoondb_api/mama_jennies_bitmap.cc:211-240 | every byte of a stored bitmap, place by place |
| `EwahSerialization.DeserializeBytes` | src/jonoondb_api/mama_jennies_bitmap.cc:249-273 | the size and words read from any row are the ones with its bytes |
| `EwahSerialization.RowOfFirstId` | src/jonoondb_api/mama_jennies_bitmap.cc:211-240 | the 32 bytes stored for the single id 0 |
| `EwahSerialization.SerializeRoundTrip` | src/jonoondb_api/mama_jennies_bitmap.cc:211-273 | reading back what was stored gives size and words |
| `EwahSerialization.AppendAfterDeserializeBreaks` | thirdparty/ewah_boolarray/ewah.h:1005-1011 | of the bitmap of 0 and 200, restored, `set` makes the right one for 201 and for 400, and for 300 a buffer that does not parse |
| `EwahSerialization.CompressedSize` | thirdparty/ewah_boolarray/ewah.h:1482-1526 | a buffer is at most twice as long as the words it stands for |
| `Words.TestBit` | thirdparty/ewah_boolarray/ewah.h:75-78 | `(w & (1 << k)) != 0` tests bit `k` |
| `Words.TrailingZerosLowest` | thirdparty/ewah_boolarray/ewah.h:716-722 | the lowest set bit |
| `Varint.EncodeVarint` | include/jonoondb_utils/varint.h:10-20 | the loop writes the LEB128 groups |
| `Varint.DecodeVarint` | include/jonoondb_utils/varint.h:23-55 | the loop, fast path included, decodes in 64-bit arithmetic, or reports an eleventh byte |
| `Varint.EncodeBytes` | include/jonoondb_utils/varint.h:10-20 | every byte of an encoding, place by place: seven bits, lowest first, the high bit on all but the last, and no more bytes than needed |
| `Varint.DecodeMeans` | include/jonoondb_utils/varint.h:23-55 | of any bytes, those up to the first without its high bit are read, and their groups add up to the result modulo 2^64; none of the first ten being such is reported |
| `Varint.VarintRoundTrip` | include/jonoondb_utils/varint.h:10-55 | decoding inverts encoding for every 64-bit value, whatever bytes follow |
| `Varint.VarintSizeIsLength` | src/jonoondb_api/blob_manager.cc:31-53 | the threshold table is the encoded length and never exceeds ten |
| `Varint.EncodedLength` | include/jonoondb_utils/varint.h:10-20 | n bytes suffice exactly for the values below 128 to the n |
| `BlobFormat.HeaderRoundTrip` | src/jonoondb_api/blob_manager.cc:65-125 | reading a header inverts writing it and consumes exactly the bytes written |
| `BlobFormat.EstimateBounds` | src/jonoondb_api/blob_manager.cc:179-182 | the estimate bounds the bytes written, compressed or not |
| `BlobFormat.EstimateExact` | src/jonoondb_api/blob_manager.cc:179-182 | without compression the estimate is the number of bytes written; with it, the bound of the library takes the place of the compressed size |
| `BlobFormat.RecordLayout` | src/jonoondb_api/blob_manager.cc:97-125 | every byte of a record: version and flag, the sizes as varints, and the contents as they are or compressed |
| `BlobFormat.RecordRoundTrip` | src/jonoondb_api/blob_manager.cc:278-304 | reading at a record gives its blob and its length, whatever follows |
| `BlobFormat.RecordExtent` | src/jonoondb_api/blob_manager.cc:394-437 | a record occupies exactly the bytes from its offset to the next one |
| `BlobFormat.ExtentsDisjoint` | src/jonoondb_api/blob_manager.cc:394-437 | records of a file do not overlap |
| `BlobFormat.ReadAtOffset` | src/jonoondb_api/blob_manager.cc:278-304 | reading a file at the offset of a record gives its blob |
| `BlobFormat.FaithfulIsPossible` | src/jonoondb_api/blob_manager.cc:401-414 | the assumptions about the compression library can be met |
| `BlobLog.BlobManager.constructor` | src/jonoondb_api/blob_manager.cc:141-171 | a new log with one empty file |
| `BlobLog.BlobManager.Reopen` | src/jonoondb_api/blob_manager.cc:141-171 | continuing the files on disk at their recorded lengths, with the records they held |
| `BlobLog.BlobManager.SwitchToNewDataFile` | src/jonoondb_api/blob_manager.cc:373-392 | the old file's length is recorded, the new one has none yet, and is empty |
| `BlobLog.BlobManager.MakeRoom` | src/jonoondb_api/blob_manager.cc:184-187 | a new file is begun exactly when the estimate does not fit behind the records of the current one; no record has moved |
| `BlobLog.BlobManager.WriteBlobHeader` | src/jonoondb_api/blob_manager.cc:100-125 | the header bytes go behind what was written |
| `BlobLog.BlobManager.PutInternal` | src/jonoondb_api/blob_manager.cc:394-437 | the record goes behind the others of the current file and its location is the old length |
| `BlobLog.BlobManager.Put` | src/jonoondb_api/blob_manager.cc:173-202 | one record more at the returned location: the end of the current file if the estimate fits there, else the start of a new file; too large to compress, or not flushed, leaves all records as they were |
| `BlobLog.BlobManager.WriteAndRollBack` | src/jonoondb_api/blob_manager.cc:189-196 | a failed flush leaves the file with the records it had |
| `BlobLog.BlobManager.MultiPut` | src/jonoondb_api/blob_manager.cc:204-259 | the records in order, at the returned locations, over as many files as needed; when a flush fails, the records of the files completed earlier in the call are there, the last file is empty or nothing has changed, and all others are given up; it is the first flush that fails, and all are stored if and only if none does; every file keeps its earlier records, each new record had room by its estimate where it is, and each new file was begun because the record that came next had no room in the one before |
| `BlobLog.BlobManager.RollBack` | src/jonoondb_api/blob_manager.cc:247-253 | a failed flush leaves the records that were there when the file was last flushed |
| `BlobLog.BlobManager.Get` | src/jonoondb_api/blob_manager.cc:261-305 | the blob of the record that the location was returned for |
| `BlobLog.Locate` | src/jonoondb_api/blob_manager.cc:432-436 | the location of every record ever put names its file and its offset there |
| `BlobLog.AppendLastLocations` | src/jonoondb_api/blob_manager.cc:432-436 | a new record leaves the locations of all others |
| `BlobLog.BlobIterator.GetNextBatch` | src/jonoondb_api/blob_manager.cc:317-367 | the next records of a file with the locations their puts returned; none exactly at the end |
| `BlobLog.EndOfRecords` | src/jonoondb_api/blob_manager.cc:326-331 | the recorded length is reached exactly behind the last record |
| `BlobLog.FileNameManager.GetNextDataFileInfo` | src/jonoondb_api/filename_manager.cc:231-284 | consecutive keys |
| `BlobLog.FileNameManager.UpdateDataFileLength` | src/jonoondb_api/filename_manager.cc:286-326 | one recorded length changes |
| `MappedFiles.MemoryMappedFile.WriteAtCurrentPosition` | include/jonoondb_api/memory_mapped_file.h:87-91 | the bytes before the write position gain the data, and those behind it stay |
| `MappedFiles.MemoryMappedFile.SetCurrentWriteOffset` | include/jonoondb_api/memory_mapped_file.h:59-63 | the write position moves |
| `LruCache.ConcurrentLRUCache.PerformEviction` | include/jonoondb_api/concurrent_lru_cache.h:77-133 | run without interference: afterwards the cache is within its size or holds nothing evictable, and no smaller than its size; removes as many evictable entries as there are too many, or all of them, and each removed one was last added or found before every evictable one that stays |
| `LruCache.ConcurrentLRUCache.CollectKeysToEvict` | include/jonoondb_api/concurrent_lru_cache.h:80-118 | the insertion sort keeps the least recently used evictable keys |
| `LruCache.StampsAreRecency` | include/jonoondb_api/concurrent_lru_cache.h:37-60 | stamps are distinct, none is beyond the counter, and they order the entries by their last use |
| `LruCache.InsertKeepsBest` | include/jonoondb_api/concurrent_lru_cache.h:88-116 | one step of the sort keeps the sorted least-used part of the keys seen |
| `LruCache.BestIsLeastRecentlyUsed` | include/jonoondb_api/concurrent_lru_cache.h:84-118 | the keys kept at the end are a correct choice |
| `LruCache.Consider` | include/jonoondb_api/concurrent_lru_cache.h:86-116 | the inner loop inserts behind the entries not used later, and cuts the list |
| `LruCache.ConcurrentLRUCache.Add` | include/jonoondb_api/concurrent_lru_cache.h:37-45 | the entry has the given flag and gets the largest stamp, all others stay as they were; stamps keep ordering the entries by their last use |
| `LruCache.ConcurrentLRUCache.Find` | include/jonoondb_api/concurrent_lru_cache.h:46-60 | a hit gets the largest stamp, every flag and all other stamps stay, and stamps keep ordering the entries by their last use; a miss changes nothing |
| `LruCache.ConcurrentLRUCache.SetEvictable` | include/jonoondb_api/concurrent_lru_cache.h:62-75 | that entry has the given flag, and its stamp and all other entries stay; false exactly when it is missing |
| `LruCache.ConcurrentLRUCache.EraseKeys` | include/jonoondb_api/concurrent_lru_cache.h:120-132 | only the chosen keys go |
| `EvictionProtocol.StepInv` | include/jonoondb_api/concurrent_lru_cache.h:77-133 | every step of readers, of either phase of an eviction, and of a file switch keeps the invariant |
| `EvictionProtocol.RunInv` | include/jonoondb_api/concurrent_lru_cache.h:77-133 | it holds in every state of every run |
| `EvictionProtocol.CurrentFileStaysCached` | src/jonoondb_api/blob_manager.cc:373-392 | in every run the file being written is cached and not evictable unless a switch is in progress, so the assertion in the switch holds |
| `EvictionProtocol.EraseSparesCurrentFile` | include/jonoondb_api/concurrent_lru_cache.h:120-132 | while no switch to a new file is in progress, no erasure removes the file being written, whenever its keys were chosen |
| `EvictionProtocol.EvictionBoundsCache` | include/jonoondb_api/concurrent_lru_cache.h:77-133 | in every run, an eviction whose two phases are not interrupted leaves at most the maximum size, or the file being written |
| `EvictionProtocol.StepKeepsFlags` | src/jonoondb_api/blob_manager.cc:268-276 | every cached file but the one being written is evictable |
| `EvictionProtocol.StepKeepsAdds` | src/jonoondb_api/blob_manager.cc:268-276 | a reader that missed a file never adds the file being written as evictable |
| `EvictionProtocol.StepKeepsEvictions` | include/jonoondb_api/concurrent_lru_cache.h:80-118 | keys chosen in the first phase of an eviction never include the file being written in the second |

## Left out

- EwahBitmap.EwahBoolArray.Set: sizes and word counts are unbounded naturals; the wrap-around of `size_t` at 2^64 is not modelled.
- EwahMerge.LogicalAnd: the container is a different bitmap from both operands, as at every call in the library; reading while writing one buffer is not modelled.
- EwahIterator.SetBitForwardIterator.constructor: the iterator reads a snapshot of the buffer, not a reference to a bitmap that may change under it; comparing iterators of two bitmaps is left out.
- EwahStream.RawIterator.constructor: the buffered marker and the raw iterator it belongs to are one object.
- IndexManagement.IndexManager.Filter: the map from column to list of indexes is one list in creation order, and the first index of a column answers; a bitmap returned by an index may be shared with it, and later inserts into that index would show through.
- IndexManagement.IndexManager.constructor: the types of columns and the error for an unknown type are left out; every column is an integer column.
- EwahIndexer.EwahIntegerIndexer.GetBitmapLT: DOUBLE operands are exact reals whose rounding fits 64 bits; floating-point rounding of large integers, NaN and other operand types are left out.
- VectorIndexer.VectorIntegerIndexer.Filter: requires that adding or subtracting 1 does not overflow; the 32-bit variant is left out.
- Collections.DocumentCollection.MultiInsert: requires that each record fits an empty file and that blobs are not empty; a failure after ids are reserved, such as a failed flush, leaves the source's state invalid and is not a run of the model.
- BlobLog.BlobManager.MultiPut: a blob too large to compress in the middle of a list is left out; `Put` models it.
- EwahRestored.AppendIsRight: for buffers of 2^31 - 1 words and more (16 GiB) only one direction is proved, because a marker can be full there.
- BlobLog.BlobManager.Get: reads the file itself; the cache it goes through is modelled in LruCache and EvictionProtocol by keys, without the mapped values.
- DeleteVectors.DeleteVector.OnDocumentDeleted: requires, as the source asserts, an id below the next one that is not deleted yet.
- DeleteVectors.DeleteVector.constructor: requires that the stored buffer, if any, can be read: it splits into markers and literals, and only its last marker may be empty. The source reads past the end of any other, or throws when the stored count does not fit the length.
- Collections.DocumentCollection.constructor: the same requirement; when ids beyond the documents are read, the parts do not agree and no further call is modelled.
- EwahSerialization.SerializeBytes: the host stores words lowest byte first; the source copies the words of the buffer as the host has them.
- LruCache.ConcurrentLRUCache.Find: updates of the last-used time are atomic; unsynchronised updates under the shared lock are left out.
- EvictionProtocol.RunInv: every locked region is one atomic step, and there is one writer, as the write lock ensures.
- Varint.DecodeVarint: requires that a last byte or ten bytes are there; the source reads on without knowing the length. The ZigZag functions are left out.
- BlobFormat.RecordRoundTrip: the compression library is two functions of which a size bound and a round trip are assumed.
- SQLite: statements, tables and files are a map from file key to recorded length and one stored row; the text of queries, best-index selection and column values are left out.
- FlatBuffers documents: a document is its bytes and, for each column name, an integer read from them.
- Bitmap operations without a use in queries: padWithZeroes, XOR, negated streams, comparison, append, intersects, logicalnot into another bitmap.
- String, double and blob indexes, option classes, exceptions, object pool, C interface, command line: plumbing, or the integer index again.
