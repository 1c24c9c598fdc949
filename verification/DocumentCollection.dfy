/**
  A collection of documents: the log that keeps their bytes, the indexes over their fields, the
  deleted ids, and the map from document id to the place in the log.
 */
module Collections {
  import opened Words
  import opened Bytes
  import opened EwahBits
  import opened EwahFormat
  import opened EwahBitmap
  import opened EwahMerge
  import opened EwahReaders
  import opened Constraints
  import opened BlobFormat
  import opened BlobLog
  import opened IndexManagement
  import opened DeleteVectors
  import opened EwahSerialization
  import Cursors

  /** How the bytes of a document are read: its fields, and whether they are well formed. */
  datatype Schema = Schema(field: (Blob, string) -> Int64, verify: Blob -> bool)

  function CreateDocument(schema: Schema, buffer: Blob): Document {
    (columnName: string) => schema.field(buffer, columnName)
  }

  function DocumentsOf(schema: Schema, buffers: seq<Blob>): (ds: seq<Document>)
    ensures |ds| == |buffers| && forall i | 0 <= i < |ds| :: ds[i] == CreateDocument(schema, buffers[i])
  {
    seq(|buffers|, i requires 0 <= i < |buffers| => CreateDocument(schema, buffers[i]))
  }

  /** The fields that queries and indexes see are those of the document's own bytes. */
  lemma FieldsOfBytes(schema: Schema, buffers: seq<Blob>, slots: seq<Slot>, cs: seq<Constraint>)
    requires AllAnswerable(slots, cs)
    ensures forall i: nat :: i in Selected(slots, DocumentsOf(schema, buffers), cs) <==>
              && i < |buffers|
              && forall k | 0 <= k < |cs| :: Answers(slots, cs[k], schema.field(buffers[i], cs[k].columnName))
    ensures forall i: nat :: i in Matching(DocumentsOf(schema, buffers), cs) <==>
              i < |buffers| && forall k | 0 <= k < |cs| :: Holds(cs[k], schema.field(buffers[i], cs[k].columnName))
  {
    hide Answers, Holds;
    SelectedMeans(slots, DocumentsOf(schema, buffers), cs);
  }

  ghost function BlobsOf(rs: seq<Record>): (bs: seq<Blob>)
    ensures |bs| == |rs| && forall i | 0 <= i < |bs| :: bs[i] == rs[i].blob
  {
    seq(|rs|, i requires 0 <= i < |rs| => rs[i].blob)
  }

  lemma DocumentsConcat(schema: Schema, a: seq<Blob>, b: seq<Blob>)
    ensures DocumentsOf(schema, a + b) == DocumentsOf(schema, a) + DocumentsOf(schema, b)
  {
  }

  lemma BlobsConcat(a: seq<Record>, b: seq<Record>)
    ensures BlobsOf(a + b) == BlobsOf(a) + BlobsOf(b)
  {
  }

  lemma BlobsOfRecords(blobs: seq<Blob>, compress: bool)
    ensures BlobsOf(RecordsOf(blobs, compress)) == blobs
  {
  }

  /** A data file, as listed when a collection is opened. */
  datatype FileInfo = FileInfo(fileKey: nat, dataLength: int, region: array<Byte>)

  ghost predicate Listed(log: BlobManager, file: FileInfo)
    requires log.Valid()
    reads log, log.Repr
  {
    && file.fileKey < |log.files|
    && file.dataLength == log.fileNameManager.dataLengths[file.fileKey]
    && file.region == log.files[file.fileKey].region
  }

  /** The listed files are the first files of the log, and hold all of its records. */
  ghost predicate FilesOf(log: BlobManager, files: seq<FileInfo>)
    requires log.Valid()
    reads log, log.Repr
  {
    && |files| <= |log.files|
    && (forall k | 0 <= k < |files| :: files[k].fileKey == k && Listed(log, files[k]))
    && (forall k | |files| <= k < |log.files| :: log.records[k] == [])
  }

  /** Files without records at the end change nothing. */
  lemma {:induction false} EmptyFilesLast(lz: Lz4, files: seq<seq<Record>>, n: nat)
    requires AllFilesStorable(lz, files) && n <= |files| && forall k | n <= k < |files| :: files[k] == []
    ensures AllRecords(files) == AllRecords(files[..n]) && Locations(lz, files) == Locations(lz, files[..n])
  {
    if n == |files| {
      assert files[..n] == files;
    } else {
      var init := files[..|files| - 1];
      EmptyFilesLast(lz, init, n);
      assert init[..n] == files[..n];
    }
  }

  lemma FirstFiles(lz: Lz4, files: seq<seq<Record>>)
    requires AllFilesStorable(lz, files)
    ensures AllRecords(files[..0]) == [] && Locations(lz, files[..0]) == []
  {
  }

  /** One file more. */
  lemma NextFile(lz: Lz4, files: seq<seq<Record>>, k: nat)
    requires AllFilesStorable(lz, files) && k < |files|
    ensures AllRecords(files[..k + 1]) == AllRecords(files[..k]) + files[k]
    ensures Locations(lz, files[..k + 1]) == Locations(lz, files[..k]) + FileLocations(lz, k, files[k])
  {
    assert files[..k + 1][..k] == files[..k];
  }

  lemma NextBatch(lz: Lz4, key: nat, rs: seq<Record>, from: nat, batch: seq<Blob>, metadata: seq<BlobMetadata>)
    requires AllStorable(lz, rs) && from + |batch| <= |rs| && |metadata| == |batch|
    requires forall i | 0 <= i < |batch| :: batch[i] == rs[from + i].blob
    requires forall i | 0 <= i < |metadata| :: metadata[i] == BlobMetadata(key, Offset(lz, rs, from + i))
    ensures var to := from + |batch|;
            && BlobsOf(rs)[..to] == BlobsOf(rs)[..from] + batch
            && FileLocations(lz, key, rs)[..to] == FileLocations(lz, key, rs)[..from] + metadata
  {
    hide FileLocations, Offset, AllStorable;
    forall i | 0 <= i < |metadata|
      ensures metadata[i] == FileLocations(lz, key, rs)[from + i]
    {
      FileLocationAt(lz, key, rs, from + i);
    }
  }

  lemma NextDocuments(schema: Schema, blobs: seq<Blob>, from: nat, batch: seq<Blob>, before: seq<Document>)
    requires from + |batch| <= |blobs| && blobs[..from + |batch|] == blobs[..from] + batch
    ensures before + DocumentsOf(schema, blobs[..from + |batch|]) ==
            before + DocumentsOf(schema, blobs[..from]) + DocumentsOf(schema, batch)
  {
    hide DocumentsOf;
    DocumentsConcat(schema, blobs[..from], batch);
  }

  /**
    The loop over the batches of one file: its documents get the next ids, in order, whatever the
    size of the batches.
   */
  method LoadDataFile(schema: Schema, iter: BlobIterator, batchSize: nat, indexer: IndexManager, generator: DocumentIDGenerator)
    returns (docMap: seq<BlobMetadata>)
    requires iter.Valid() && iter.next == 0 && batchSize > 0
    requires indexer.Valid() && {generator, iter, iter.region} !! indexer.Repr && generator.currentID == |indexer.docs|
    modifies iter, indexer.Repr, generator
    ensures indexer.Valid() && fresh(indexer.Repr - old(indexer.Repr)) && indexer.slots == old(indexer.slots)
    ensures AllStorable(iter.lz, iter.rs) && docMap == FileLocations(iter.lz, iter.fileKey, iter.rs)
    ensures indexer.docs == old(indexer.docs) + DocumentsOf(schema, BlobsOf(iter.rs))
    ensures generator.currentID == |indexer.docs|
  {
    hide FileBytes, FileLocations, AllStorable, IndexManager.Valid, BlobIterator.Valid, Offset, DocumentsOf, BlobsOf;
    docMap := [];
    ghost var blobs, locations := BlobsOf(iter.rs), FileLocations(iter.lz, iter.fileKey, iter.rs);
    while true
      invariant iter.Valid() && indexer.Valid() && fresh(indexer.Repr - old(indexer.Repr)) && indexer.slots == old(indexer.slots)
      invariant {generator, iter, iter.region} !! indexer.Repr && generator.currentID == |indexer.docs|
      invariant docMap == locations[..iter.next]
      invariant indexer.docs == old(indexer.docs) + DocumentsOf(schema, blobs[..iter.next])
      decreases |iter.rs| - iter.next
    {
      ghost var from := iter.next;
      var batch, metadata := iter.GetNextBatch(batchSize);
      if |batch| == 0 {
        break;
      }
      NextBatch(iter.lz, iter.fileKey, iter.rs, from, batch, metadata);
      NextDocuments(schema, blobs, from, batch, old(indexer.docs));
      var _ := indexer.IndexDocuments(generator, DocumentsOf(schema, batch));
      docMap := docMap + metadata;
    }
    assert blobs[..|blobs|] == blobs;
  }

  datatype InsertResult = Inserted | InvalidDocument(index: nat)

  datatype Lookup = Found(buffer: Blob) | MissingDocument

  /** One listed file of the log. */
  method LoadListedFile(schema: Schema, log: BlobManager, file: FileInfo, batchSize: nat, indexer: IndexManager, generator: DocumentIDGenerator)
    returns (docMap: seq<BlobMetadata>)
    requires log.Valid() && Listed(log, file) && batchSize > 0
    requires indexer.Valid() && generator !in indexer.Repr && generator.currentID == |indexer.docs|
    requires log.Repr !! indexer.Repr + {generator}
    modifies indexer.Repr, generator
    ensures indexer.Valid() && fresh(indexer.Repr - old(indexer.Repr)) && indexer.slots == old(indexer.slots)
    ensures docMap == FileLocations(log.lz, file.fileKey, log.records[file.fileKey])
    ensures indexer.docs == old(indexer.docs) + DocumentsOf(schema, BlobsOf(log.records[file.fileKey]))
    ensures generator.currentID == |indexer.docs|
  {
    hide FileBytes, Storable, Faithful, FileLocations, IndexManager.Valid;
    assert log.Holds(file.fileKey);
    var iter := new BlobIterator(log.lz, file.fileKey, file.dataLength, file.region, log.records[file.fileKey]);
    docMap := LoadDataFile(schema, iter, batchSize, indexer, generator);
  }

  class DocumentCollection {
    const schema: Schema
    const blobManager: BlobManager
    const indexManager: IndexManager
    const documentIDGenerator: DocumentIDGenerator
    const deleteVector: DeleteVector
    var documentIDMap: seq<BlobMetadata>
    ghost var Repr: set<object>

    /** The parts share no state. */
    ghost predicate Separate()
      reads this, blobManager, indexManager, deleteVector
    {
      && {this, blobManager, indexManager, documentIDGenerator, deleteVector} <= Repr
      && blobManager.Repr <= Repr && indexManager.Repr <= Repr && deleteVector.Repr <= Repr
      && this !in blobManager.Repr + indexManager.Repr + deleteVector.Repr
      && documentIDGenerator !in blobManager.Repr + indexManager.Repr + deleteVector.Repr
      && blobManager.Repr !! indexManager.Repr && blobManager.Repr !! deleteVector.Repr
      && indexManager.Repr !! deleteVector.Repr
    }

    /** The documents inserted so far, by id. */
    ghost function Buffers(): seq<Blob>
      reads blobManager
    {
      BlobsOf(AllRecords(blobManager.records))
    }

    ghost predicate PartsValid()
      reads this, Repr, blobManager, indexManager, deleteVector
    {
      Separate() && blobManager.Valid() && indexManager.Valid() && deleteVector.Coherent() && deleteVector.Attached()
    }

    /** Every part knows the same documents under the same ids. */
    ghost predicate Valid()
      reads this, Repr, blobManager, indexManager, deleteVector
    {
      && PartsValid()
      && documentIDMap == Locations(blobManager.lz, blobManager.records)
      && indexManager.docs == DocumentsOf(schema, Buffers())
      && documentIDGenerator.currentID == deleteVector.nextDocumentId == |Buffers()|
    }

    /**
      Opening a collection on its log: the documents in the data files are read back, indexed and
      given their ids again. A new collection has no files to load.
     */
    constructor (schema: Schema, indexes: seq<(string, IndexType)>, blobManager: BlobManager, dataFilesToLoad: seq<FileInfo>,
                 batchSize: nat, deleteVectorRow: seq<Byte>)
      requires blobManager.Valid() && FilesOf(blobManager, dataFilesToLoad) && batchSize > 0
      requires |AllRecords(blobManager.records)| < WORD_LIMIT
      requires Readable(deleteVectorRow)
      ensures fresh(Repr - blobManager.Repr) && blobManager.Valid() && deleteVector.Opened(deleteVectorRow)
      ensures Valid() <==> AllBelow(RowIds(deleteVectorRow), |AllRecords(blobManager.records)|)
      ensures this.schema == schema && this.blobManager == blobManager && SameColumns(indexManager.slots, indexes)
    {
      hide AllRecords, Locations, Persists, SingleMarker, FilesOf, Readable, RowIds;
      hide BlobManager.Valid, IndexManager.Valid, DeleteVector.Coherent, DeleteVector.Attached, DeleteVector.Tracked, DeleteVector.InStep, DeleteVector.Owned;
      var indexer, generator, docMap := LoadDataFiles(schema, indexes, blobManager, dataFilesToLoad, batchSize);
      var deleted := new DeleteVector(|docMap|, deleteVectorRow);
      assert deleted.Repr !! indexer.Repr && deleted.Repr !! blobManager.Repr && generator !in deleted.Repr;
      this.schema, this.blobManager := schema, blobManager;
      indexManager, documentIDGenerator, deleteVector := indexer, generator, deleted;
      documentIDMap := docMap;
      Repr := {this, blobManager, indexer, generator, deleted} + blobManager.Repr + indexer.Repr + deleted.Repr;
    }

    /** Fresh indexes, filled from the files in key order, each in batches. */
    static method LoadDataFiles(schema: Schema, indexes: seq<(string, IndexType)>, log: BlobManager, files: seq<FileInfo>, batchSize: nat)
      returns (indexer: IndexManager, generator: DocumentIDGenerator, docMap: seq<BlobMetadata>)
      requires log.Valid() && FilesOf(log, files) && batchSize > 0
      ensures indexer.Valid() && fresh(indexer.Repr) && SameColumns(indexer.slots, indexes)
      ensures docMap == Locations(log.lz, log.records)
      ensures indexer.docs == DocumentsOf(schema, BlobsOf(AllRecords(log.records)))
      ensures fresh(generator) && generator !in indexer.Repr && generator.currentID == |docMap|
    {
      hide AllRecords, Locations, FileLocations, IndexManager.Valid, SameColumns, Storable, Faithful, Listed;
      indexer := new IndexManager(indexes);
      generator := new DocumentIDGenerator();
      docMap := [];
      ghost var rs := log.records;
      FirstFiles(log.lz, rs);
      for k := 0 to |files|
        invariant indexer.Valid() && fresh(indexer.Repr) && SameColumns(indexer.slots, indexes)
        invariant fresh(generator) && generator !in indexer.Repr && log.Valid() && log.records == rs && FilesOf(log, files)
        invariant docMap == Locations(log.lz, rs[..k])
        invariant indexer.docs == DocumentsOf(schema, BlobsOf(AllRecords(rs[..k])))
        invariant generator.currentID == |docMap| == |indexer.docs|
      {
        NextFile(log.lz, rs, k);
        BlobsConcat(AllRecords(rs[..k]), rs[k]);
        DocumentsConcat(schema, BlobsOf(AllRecords(rs[..k])), BlobsOf(rs[k]));
        var locations := LoadListedFile(schema, log, files[k], batchSize, indexer, generator);
        docMap := docMap + locations;
      }
      EmptyFilesLast(log.lz, rs, |files|);
    }

    /** Verifies the documents one by one; the position of the first that is not well formed. */
    method VerifyAll(documents: seq<Blob>) returns (firstBad: nat)
      ensures firstBad <= |documents|
      ensures forall i | 0 <= i < firstBad :: schema.verify(documents[i])
      ensures firstBad < |documents| ==> !schema.verify(documents[firstBad])
    {
      firstBad := 0;
      while firstBad < |documents| && schema.verify(documents[firstBad])
        invariant 0 <= firstBad <= |documents|
        invariant forall i | 0 <= i < firstBad :: schema.verify(documents[i])
      {
        firstBad := firstBad + 1;
      }
    }

    /** The new documents go into the indexes, under the next ids. */
    method IndexStep(documents: seq<Blob>) returns (startID: nat)
      requires PartsValid() && documentIDGenerator.currentID == |indexManager.docs|
      modifies this`Repr, indexManager.Repr, documentIDGenerator
      ensures PartsValid() && fresh(Repr - old(Repr)) && indexManager.slots == old(indexManager.slots)
      ensures blobManager.Repr == old(blobManager.Repr) && deleteVector.Repr == old(deleteVector.Repr)
      ensures indexManager.docs == old(indexManager.docs) + DocumentsOf(schema, documents)
      ensures startID == |old(indexManager.docs)| && documentIDGenerator.currentID == |indexManager.docs|
      ensures blobManager.records == old(blobManager.records) && deleteVector.KeepsDeletions()
      ensures deleteVector.nextDocumentId == old(deleteVector.nextDocumentId)
    {
      hide BlobManager.Valid, IndexManager.Valid, DeleteVector.Coherent, DeleteVector.Attached, DeleteVector.Tracked, DeleteVector.InStep;
      startID := indexManager.IndexDocuments(documentIDGenerator, DocumentsOf(schema, documents));
      Repr := Repr + indexManager.Repr;
    }

    /** The new documents go into the log, and their places into the map. */
    method StoreStep(documents: seq<Blob>, compress: bool)
      requires PartsValid() && documentIDMap == Locations(blobManager.lz, blobManager.records)
      requires forall i | 0 <= i < |documents| :: blobManager.Fits(Record(documents[i], compress))
      modifies this`Repr, this`documentIDMap, blobManager.Repr
      ensures PartsValid() && fresh(Repr - old(Repr)) && indexManager.slots == old(indexManager.slots)
      ensures Extends(old(blobManager.records), blobManager.records) && Buffers() == old(Buffers()) + documents
      ensures AllRecords(blobManager.records) == old(AllRecords(blobManager.records)) + RecordsOf(documents, compress)
      ensures Spread(blobManager.lz, blobManager.maxDataFileSize, old(blobManager.records), blobManager.records)
      ensures documentIDMap == Locations(blobManager.lz, blobManager.records) && old(documentIDMap) <= documentIDMap
      ensures indexManager.docs == old(indexManager.docs) && documentIDGenerator.currentID == old(documentIDGenerator.currentID)
      ensures indexManager.Repr == old(indexManager.Repr) && deleteVector.Repr == old(deleteVector.Repr)
      ensures deleteVector.nextDocumentId == old(deleteVector.nextDocumentId) && deleteVector.KeepsDeletions()
    {
      hide AllRecords, Locations, Storable, EstimatedSize, Extends, Spread;
      hide BlobManager.Valid, IndexManager.Valid, DeleteVector.Coherent, DeleteVector.Attached, DeleteVector.Tracked, DeleteVector.InStep;
      ghost var before := AllRecords(blobManager.records);
      BlobsConcat(before, RecordsOf(documents, compress));
      BlobsOfRecords(documents, compress);
      var result := blobManager.MultiPut(documents, compress, _ => true);
      documentIDMap := documentIDMap + result.locations;
      Repr := Repr + blobManager.Repr;
    }

    /** The new documents under the next ids, in the indexes, in the log and in the map. */
    method IndexAndStore(documents: seq<Blob>, compress: bool)
      requires Valid() && documents != [] && |Buffers()| + |documents| < WORD_LIMIT
      requires forall i | 0 <= i < |documents| :: blobManager.Fits(Record(documents[i], compress))
      modifies Repr
      ensures Valid() && fresh(Repr - old(Repr)) && indexManager.slots == old(indexManager.slots)
      ensures deleteVector.KeepsDeletions()
      ensures Extends(old(blobManager.records), blobManager.records)
      ensures AllRecords(blobManager.records) == old(AllRecords(blobManager.records)) + RecordsOf(documents, compress)
      ensures Spread(blobManager.lz, blobManager.maxDataFileSize, old(blobManager.records), blobManager.records)
      ensures Buffers() == old(Buffers()) + documents && old(documentIDMap) <= documentIDMap
    {
      hide AllRecords, Locations, Storable, EstimatedSize, Extends, Spread, DeleteVector.Attached, DeleteVector.Tracked, DeleteVector.InStep;
      hide BlobManager.Valid, IndexManager.Valid, DeleteVector.Coherent;
      DocumentsConcat(schema, Buffers(), documents);
      var startID := IndexStep(documents);
      StoreStep(documents, compress);
      deleteVector.OnDocumentsInserted(startID + |documents|);
    }

    /**
      Several documents: they get the next ids, go into every index and into the log. A document
      that is not well formed, when asked to verify, makes the whole call change nothing.
     */
    method MultiInsert(documents: seq<Blob>, compress: bool, verifyDocuments: bool) returns (result: InsertResult)
      requires Valid() && |Buffers()| + |documents| < WORD_LIMIT
      requires forall i | 0 <= i < |documents| :: blobManager.Fits(Record(documents[i], compress))
      modifies Repr
      ensures Valid() && fresh(Repr - old(Repr)) && indexManager.slots == old(indexManager.slots)
      ensures deleteVector.KeepsDeletions()
      ensures Extends(old(blobManager.records), blobManager.records)
      ensures result.Inserted? <==> verifyDocuments ==> forall i | 0 <= i < |documents| :: schema.verify(documents[i])
      ensures result.Inserted? ==>
                && Buffers() == old(Buffers()) + documents && old(documentIDMap) <= documentIDMap
                && AllRecords(blobManager.records) == old(AllRecords(blobManager.records)) + RecordsOf(documents, compress)
                && Spread(blobManager.lz, blobManager.maxDataFileSize, old(blobManager.records), blobManager.records)
      ensures result.InvalidDocument? ==>
                && result.index < |documents| && !schema.verify(documents[result.index])
                && (forall i | 0 <= i < result.index :: schema.verify(documents[i]))
                && blobManager.records == old(blobManager.records)
                && Buffers() == old(Buffers()) && documentIDMap == old(documentIDMap)
    {
      hide AllRecords, Locations, FileBytes, Spread;
      if documents == [] {
        SpreadNothing(blobManager.lz, blobManager.maxDataFileSize, blobManager.records);
        return Inserted;
      }
      if verifyDocuments {
        var firstBad := VerifyAll(documents);
        if firstBad < |documents| {
          return InvalidDocument(firstBad);
        }
      }
      IndexAndStore(documents, compress);
      return Inserted;
    }

    /**
      One document is deleted; when its row cannot be stored, nothing changes. What is stored is the
      deleted ids under the guard of the code that brings their bitmap up to date, and not outside
      it. Only a bitmap read from a wrong row refuses an id.
     */
    method AddToDeleteVector(docId: nat, storeSucceeds: bool) returns (outcome: DeleteOutcome)
      requires Valid() && docId < |Buffers()| && docId !in deleteVector.deletedDocIds
      modifies Repr
      ensures fresh(Repr - old(Repr)) && blobManager.Valid() && (!outcome.Refused? || old(deleteVector.isDirty) ==> Valid())
      ensures Buffers() == old(Buffers()) && documentIDMap == old(documentIDMap) && indexManager.slots == old(indexManager.slots)
      ensures outcome.Refused? <==>
                !old(deleteVector.Rebuilds(docId)) && docId < old(deleteVector.deleteVecSerializationBitmap.sizeinbits)
      ensures old(deleteVector.Ended()) ==> !outcome.Refused? && deleteVector.Ended()
      ensures !outcome.Refused? ==> (outcome.Deleted? <==> storeSucceeds)
      ensures deleteVector.deletedDocIds == old(deleteVector.deletedDocIds) + if outcome.NotStored? then {} else {docId}
      ensures !outcome.Deleted? ==> deleteVector.stored == old(deleteVector.stored)
      ensures outcome.NotStored? ==> deleteVector.InStep()
      ensures outcome.Deleted? ==>
                var bm := deleteVector.deleteVecSerializationBitmap; RowBytes(deleteVector.stored, bm.sizeinbits, bm.buffer)
      ensures outcome.Deleted? ==>
                if old(deleteVector.Rebuilds(docId)) then deleteVector.InStep() && deleteVector.Persisted()
                else deleteVector.SetAndStored(docId)
      ensures outcome.Deleted? && old(deleteVector.Tracked() && deleteVector.Sound(docId)) ==>
                deleteVector.Tracked() && deleteVector.Persisted()
      ensures outcome.Deleted? && old(deleteVector.InStep()) ==> deleteVector.InStep() && deleteVector.Persisted()
      ensures outcome.Deleted? && old(deleteVector.Tracked() && !deleteVector.Sound(docId)
                                      && |deleteVector.deleteVecSerializationBitmap.buffer| < LARGEST_LITERAL_COUNT) ==>
                !deleteVector.Persisted() && Misread(deleteVector.stored, deleteVector.deletedDocIds)
    {
      hide AllRecords, Locations, Persists, Misread, RowBytes, BlobManager.Valid, IndexManager.Valid, DeleteVector.Coherent, DeleteVector.Attached;
      hide DeleteVector.Sound, DeleteVector.Tracked, DeleteVector.InStep, DeleteVector.Ended, DeleteVector.Rebuilds, DeleteVector.SetAndStored;
      outcome := deleteVector.OnDocumentDeleted(docId, storeSucceeds);
      Repr := Repr + deleteVector.Repr;
    }

    /** The bytes of a document, whatever else has been inserted since. */
    method GetDocumentAndBuffer(docID: nat) returns (r: Lookup)
      requires Valid()
      ensures r.MissingDocument? <==> docID >= |Buffers()|
      ensures r.Found? ==> r.buffer == Buffers()[docID]
    {
      hide AllRecords, Locations, BlobManager.Valid, IndexManager.Valid, DeleteVector.Coherent;
      if docID >= |documentIDMap| {
        return MissingDocument;
      }
      var blob := blobManager.Get(documentIDMap[docID], docID);
      return Found(blob);
    }

    /** All ids, appended one after another. */
    method AllIds() returns (bitmap: EwahBoolArray)
      ensures fresh(bitmap) && bitmap.Valid() && bitmap.Bits() == Range(|documentIDMap|)
    {
      hide Expand, Parses, NoEmptyMarker, Ones, WellFormed, WordCount;
      bitmap := new EwahBoolArray();
      for i := 0 to |documentIDMap|
        invariant bitmap.SetBuilt() && bitmap.sizeinbits == i && bitmap.Bits() == Range(i)
        modifies bitmap
      {
        var added := bitmap.Add(i);
        assert added;
      }
    }

    /** What the indexes select, before deleted documents are removed. */
    method Candidates(constraints: seq<Constraint>) returns (r: Result<EwahBoolArray>)
      requires Valid() && forall k | 0 <= k < |constraints| :: Askable(indexManager.slots, constraints[k])
      ensures r.Ok? <==> AllAnswerable(indexManager.slots, constraints)
      ensures r.Ok? ==> r.value.Valid() && r.value !in deleteVector.Repr
      ensures r.Ok? ==> r.value.Bits() == Selected(indexManager.slots, DocumentsOf(schema, Buffers()), constraints)
    {
      hide AllRecords, Locations, BlobManager.Valid, IndexManager.Valid, DeleteVector.Coherent;
      if |constraints| > 0 {
        r := indexManager.Filter(constraints);
      } else {
        var bitmap := AllIds();
        SelectedAreIds(indexManager.slots, indexManager.docs, constraints);
        return Ok(bitmap);
      }
    }

    /** The up-to-date bitmap of the live ids. */
    method LiveBitmap() returns (live: EwahBoolArray)
      requires Valid()
      modifies deleteVector`isDirty, deleteVector.deleteVecBitmap
      ensures Valid() && deleteVector.KeepsDeletions()
      ensures live.Valid() && live.Bits() == Range(|Buffers()|) - deleteVector.deletedDocIds
      ensures live == deleteVector.deleteVecBitmap && live in deleteVector.Repr && deleteVector.Repr <= Repr
      ensures live.sizeinbits == 0 ==> |Buffers()| == 0
    {
      hide AllRecords, Locations, Persists, BlobManager.Valid, IndexManager.Valid, DeleteVector.Coherent, DeleteVector.Attached, DeleteVector.Tracked, DeleteVector.InStep, Ones;
      live := deleteVector.GetDeleteVectorBitmap();
    }

    /** Takes the deleted ids out of a bitmap of ids. */
    method WithoutDeleted(bitmap: EwahBoolArray) returns (r: EwahBoolArray)
      requires Valid() && bitmap.Valid() && AllBelow(bitmap.Bits(), |Buffers()|) && bitmap !in deleteVector.Repr
      modifies deleteVector`isDirty, deleteVector.deleteVecBitmap
      ensures Valid() && deleteVector.KeepsDeletions()
      ensures r.Valid() && r.Bits() == old(bitmap.Bits()) - deleteVector.deletedDocIds
    {
      hide AllRecords, Valid, DeleteVector.InStep, Ones, Expand, Parses, NoEmptyMarker, OnlyLastEmpty, RunningLength, LiteralCount, WellFormed;
      var live := LiveBitmap();
      LiveOnly(bitmap.Bits(), |Buffers()|, deleteVector.deletedDocIds);
      if live.sizeinbits == 0 {
        return bitmap;
      }
      r := new EwahBoolArray();
      LogicalAnd(bitmap, live, r);
    }

    /**
      The ids of the live documents for which the indexes answer every constraint with yes, or of
      all live documents when there are no constraints. That is the answer of a scan over all
      documents when every index tests its constraints exactly, and never more than it.
     */
    method Filter(constraints: seq<Constraint>) returns (r: Result<EwahBoolArray>)
      requires Valid() && forall k | 0 <= k < |constraints| :: Askable(indexManager.slots, constraints[k])
      modifies deleteVector`isDirty, deleteVector.deleteVecBitmap
      ensures Valid() && deleteVector.KeepsDeletions()
      ensures r.Ok? <==> AllAnswerable(indexManager.slots, constraints)
      ensures r.Ok? ==>
                && r.value.Valid()
                && r.value.Bits() == Selected(indexManager.slots, DocumentsOf(schema, Buffers()), constraints) - deleteVector.deletedDocIds
                && r.value.Bits() <= Matching(DocumentsOf(schema, Buffers()), constraints) - deleteVector.deletedDocIds
      ensures r.Ok? ==>
                forall i: nat :: i in r.value.Bits() <==>
                  && i < |Buffers()| && i !in deleteVector.deletedDocIds
                  && forall k | 0 <= k < |constraints| ::
                       Answers(indexManager.slots, constraints[k], schema.field(Buffers()[i], constraints[k].columnName))
      ensures r.Ok? && (forall k | 0 <= k < |constraints| :: AnsweredExactly(indexManager.slots, constraints[k])) ==>
                forall i: nat :: i in r.value.Bits() <==>
                  && i < |Buffers()| && i !in deleteVector.deletedDocIds
                  && forall k | 0 <= k < |constraints| ::
                       Holds(constraints[k], schema.field(Buffers()[i], constraints[k].columnName))
    {
      hide AllRecords, Locations, Selected, Matching, Valid, AnsweredExactly, Askable, Ones, Answers, Holds;
      var candidates := Candidates(constraints);
      if candidates.Err? {
        return candidates;
      }
      SelectedIsScan(indexManager.slots, DocumentsOf(schema, Buffers()), constraints);
      FieldsOfBytes(schema, Buffers(), indexManager.slots, constraints);
      SelectedAreIds(indexManager.slots, DocumentsOf(schema, Buffers()), constraints);
      var result := WithoutDeleted(candidates.value);
      return Ok(result);
    }
  }

  lemma SelectedAreIds(slots: seq<Slot>, docs: seq<Document>, cs: seq<Constraint>)
    requires AllAnswerable(slots, cs)
    ensures AllBelow(Selected(slots, docs, cs), |docs|)
    ensures cs == [] ==> Selected(slots, docs, cs) == Range(|docs|)
  {
  }

  lemma LiveOnly(ids: set<nat>, n: nat, deleted: set<nat>)
    requires AllBelow(ids, n)
    ensures ids * (Range(n) - deleted) == ids - deleted
    ensures n == 0 ==> ids == {}
  {
  }

  /** What a valid log leaves on disk is what reopening it needs. */
  lemma ValidIsOnDisk(log: BlobManager, regions: seq<array<Byte>>)
    requires log.Valid() && |regions| == |log.files|
    requires forall k | 0 <= k < |regions| :: regions[k] == log.files[k].region
    ensures OnDisk(log.lz, log.maxDataFileSize, regions, log.fileNameManager.dataLengths, log.records)
  {
    hide FileBytes, Storable, Faithful;
    forall j, k | 0 <= j < k < |regions|
      ensures regions[j] != regions[k]
    {
      assert log.files[j].region != log.files[k].region;
    }
    forall k | 0 <= k < |regions|
      ensures regions[k].Length == log.maxDataFileSize && FileBytes(log.lz, log.records[k]) <= regions[k][..]
    {
      assert log.Holds(k);
    }
  }

  /**
    Closing and opening a collection again, with any indexes and in batches of any size: the same
    documents are there under the same ids, at the same places, and the same ones are deleted.
   */
  method Reopened(c: DocumentCollection, indexes: seq<(string, IndexType)>, batchSize: nat) returns (d: DocumentCollection)
    requires c.Valid() && c.deleteVector.Persisted() && batchSize > 0
    ensures d.Valid() && d.schema == c.schema && SameColumns(d.indexManager.slots, indexes)
    ensures d.Buffers() == c.Buffers() && d.documentIDMap == c.documentIDMap
    ensures d.deleteVector.deletedDocIds == c.deleteVector.deletedDocIds
    ensures d.deleteVector.stored == c.deleteVector.stored && d.deleteVector.Persisted() && d.deleteVector.Tracked()
    ensures d.deleteVector.InStep() <==> SingleMarker(c.deleteVector.stored)
  {
    hide AllRecords, Locations, Persists, SingleMarker, IndexManager.Valid, DeleteVector.InStep, Readable, RowIds, Misread;
    hide BlobManager.Valid;
    PersistsIsRead(c.deleteVector.stored, c.deleteVector.deletedDocIds);
    var before := c.blobManager;
    var lengths := before.fileNameManager.dataLengths;
    var regions := seq(|before.files|, k requires 0 <= k < |before.files| reads before => before.files[k].region);
    ValidIsOnDisk(before, regions);
    var log := new BlobManager.Reopen(before.lz, before.maxDataFileSize, regions, lengths, before.records);
    var files := seq(|regions|, k requires 0 <= k < |regions| == |lengths| => FileInfo(k, lengths[k], regions[k]));
    d := new DocumentCollection(c.schema, indexes, log, files, batchSize, c.deleteVector.stored);
  }

  /**
    A whole query through the virtual-table cursor: the rows are the ids of the live documents for
    which the indexes answer yes, in ascending order, each once. Those are the documents that a
    scan would find when every index tests its constraints exactly.
   */
  method Query(c: DocumentCollection, cursor: Cursors.Cursor, constraints: seq<Constraint>, vecSize: nat) returns (r: Result<seq<nat>>)
    requires c.Valid() && cursor.Valid() && cursor !in c.Repr && vecSize > 0
    requires forall k | 0 <= k < |constraints| :: Askable(c.indexManager.slots, constraints[k])
    modifies c.deleteVector`isDirty, c.deleteVector.deleteVecBitmap, cursor
    ensures c.Valid() && c.deleteVector.KeepsDeletions()
    ensures r.Ok? <==> AllAnswerable(c.indexManager.slots, constraints)
    ensures r.Ok? ==> Ascending(r.value)
    ensures r.Ok? ==> forall i: nat :: i in r.value <==>
              && i < |c.Buffers()| && i !in c.deleteVector.deletedDocIds
              && forall k | 0 <= k < |constraints| ::
                   Answers(c.indexManager.slots, constraints[k], c.schema.field(c.Buffers()[i], constraints[k].columnName))
    ensures r.Ok? && (forall k | 0 <= k < |constraints| :: AnsweredExactly(c.indexManager.slots, constraints[k])) ==>
              forall i: nat :: i in r.value <==>
                && i < |c.Buffers()| && i !in c.deleteVector.deletedDocIds
                && forall k | 0 <= k < |constraints| ::
                     Holds(constraints[k], c.schema.field(c.Buffers()[i], constraints[k].columnName))
  {
    hide AllRecords, Locations, BlobManager.Valid, IndexManager.Valid, DeleteVector.Coherent, DeleteVector.Attached;
    hide DeleteVector.Tracked, DeleteVector.InStep, Ascending, Answers, Holds, Selected, Expand, Parses, WellFormed, OnesFrom, Ones, AnsweredExactly;
    var found := c.Filter(constraints);
    if found.Err? {
      return Err(found.message);
    }
    ghost var ids := found.value.Bits();
    var rows := Cursors.ScanAll(cursor, found.value, vecSize);
    assert forall i: nat :: i in rows <==> i in ids;
    return Ok(rows);
  }
}
