/**
  The append-only blob log: records go to the current data file, a new file is started when
  one would not fit, and any record can be read back by file and offset.
 */
module BlobLog {
  import opened Bytes
  import opened Varint
  import opened BlobFormat
  import opened MappedFiles

  datatype BlobMetadata = BlobMetadata(fileKey: nat, offset: nat)

  datatype PutResult = Stored(metadata: BlobMetadata) | TooLargeToCompress | FlushFailed

  /** After a failed flush, the blobs before number `kept` are there: those in files completed earlier in the call. */
  datatype MultiPutResult = AllStored(locations: seq<BlobMetadata>) | FlushFailedAfter(kept: nat)

  /** The recorded data length of each file, by key; -1 until it is first set. */
  class FileNameManager {
    var dataLengths: seq<int>

    constructor ()
      ensures dataLengths == []
    {
      dataLengths := [];
    }

    method GetNextDataFileInfo() returns (fileKey: nat)
      modifies this
      ensures fileKey == |old(dataLengths)| && dataLengths == old(dataLengths) + [-1]
    {
      fileKey := |dataLengths|;
      dataLengths := dataLengths + [-1];
    }

    method UpdateDataFileLength(fileKey: nat, length: int)
      requires fileKey < |dataLengths|
      modifies this
      ensures dataLengths == old(dataLengths)[fileKey := length]
    {
      dataLengths := dataLengths[fileKey := length];
    }
  }

  ghost predicate AllFilesStorable(lz: Lz4, files: seq<seq<Record>>) {
    Faithful(lz) && forall k | 0 <= k < |files| :: AllStorable(lz, files[k])
  }

  /** The records of all files, in the order they were put. */
  ghost function AllRecords(files: seq<seq<Record>>): seq<Record> {
    if files == [] then [] else AllRecords(files[..|files| - 1]) + files[|files| - 1]
  }

  ghost function FileLocations(lz: Lz4, key: nat, rs: seq<Record>): (s: seq<BlobMetadata>)
    requires AllStorable(lz, rs)
    ensures |s| == |rs|
  {
    if rs == [] then []
    else FileLocations(lz, key, rs[..|rs| - 1]) + [BlobMetadata(key, Offset(lz, rs, |rs| - 1))]
  }

  /** Where the records of all files are, in the order they were put. */
  ghost function Locations(lz: Lz4, files: seq<seq<Record>>): (s: seq<BlobMetadata>)
    requires AllFilesStorable(lz, files)
    ensures |s| == |AllRecords(files)|
  {
    if files == [] then []
    else Locations(lz, files[..|files| - 1]) + FileLocations(lz, |files| - 1, files[|files| - 1])
  }

  /** One more record at the end of the last file. */
  ghost function AppendLast(files: seq<seq<Record>>, r: Record): seq<seq<Record>>
    requires files != []
  {
    files[|files| - 1 := files[|files| - 1] + [r]]
  }

  lemma AppendLastLocations(lz: Lz4, files: seq<seq<Record>>, r: Record)
    requires AllFilesStorable(lz, files) && files != [] && Storable(r)
    ensures var next := AppendLast(files, r);
            && AllFilesStorable(lz, next)
            && AllRecords(next) == AllRecords(files) + [r]
            && Locations(lz, next) ==
               Locations(lz, files) + [BlobMetadata(|files| - 1, |FileBytes(lz, files[|files| - 1])|)]
  {
    hide FileBytes, Faithful, Storable;
    var n := |files| - 1;
    var next := AppendLast(files, r);
    var rs := files[n];
    AppendRecord(lz, rs, r);
    assert next[..n] == files[..n] && (rs + [r])[..|rs|] == rs;
  }

  lemma NewFileLocations(lz: Lz4, files: seq<seq<Record>>)
    requires AllFilesStorable(lz, files)
    ensures AllFilesStorable(lz, files + [[]])
    ensures AllRecords(files + [[]]) == AllRecords(files) && Locations(lz, files + [[]]) == Locations(lz, files)
  {
    assert (files + [[]])[..|files|] == files;
  }

  lemma EmptyFile(lz: Lz4)
    requires Faithful(lz)
    ensures AllStorable(lz, []) && FileBytes(lz, []) == []
  {
  }

  /** The file and the place in it of the `i`-th record put. */
  lemma {:induction false} Locate(lz: Lz4, files: seq<seq<Record>>, i: nat) returns (k: nat, n: nat)
    requires AllFilesStorable(lz, files) && i < |AllRecords(files)|
    ensures k < |files| && n < |files[k]| && AllRecords(files)[i] == files[k][n]
    ensures Locations(lz, files)[i] == BlobMetadata(k, Offset(lz, files[k], n))
  {
    var init := files[..|files| - 1];
    if i < |AllRecords(init)| {
      k, n := Locate(lz, init, i);
    } else {
      k, n := |files| - 1, i - |AllRecords(init)|;
      FileLocationAt(lz, k, files[k], n);
    }
  }

  lemma {:induction false} FileLocationAt(lz: Lz4, key: nat, rs: seq<Record>, n: nat)
    requires AllStorable(lz, rs) && n < |rs|
    ensures FileLocations(lz, key, rs)[n] == BlobMetadata(key, Offset(lz, rs, n))
  {
    var init := rs[..|rs| - 1];
    if n < |init| {
      FileLocationAt(lz, key, init, n);
      assert init[..n] == rs[..n];
    }
  }

  /** What is on disk: the file regions and the recorded lengths say which records there are. */
  ghost predicate OnDisk(lz: Lz4, maxDataFileSize: nat, regions: seq<array<Byte>>, dataLengths: seq<int>, records: seq<seq<Record>>)
    reads regions
  {
    && |regions| == |dataLengths| == |records| > 0
    && AllFilesStorable(lz, records)
    && (forall j, k | 0 <= j < k < |regions| :: regions[j] != regions[k])
    && (forall k | 0 <= k < |regions| ::
          && regions[k].Length == maxDataFileSize
          && FileBytes(lz, records[k]) <= regions[k][..]
          && (dataLengths[k] == |FileBytes(lz, records[k])| || (dataLengths[k] == -1 && records[k] == [])))
  }

  lemma Regroup<T>(a: seq<T>, b: seq<T>, c: seq<T>, d: seq<T>)
    ensures a + b + c + d == a + (b + c + d)
    ensures d == [] ==> a + b + c == a + (b + c + d)
  {
  }

  /** Fewer records, fewer bytes. */
  lemma {:induction false} PrefixBytes(lz: Lz4, rs: seq<Record>, all: seq<Record>)
    requires AllStorable(lz, all) && rs <= all
    ensures AllStorable(lz, rs) && FileBytes(lz, rs) <= FileBytes(lz, all)
  {
    hide RecordBytes, Faithful;
    if |rs| == |all| {
      assert rs == all;
    } else {
      PrefixBytes(lz, rs, all[..|all| - 1]);
    }
  }

  /** `now` holds what `before` held and `rs` behind it, at `locations`. */
  ghost predicate Appended(lz: Lz4, before: seq<seq<Record>>, now: seq<seq<Record>>, rs: seq<Record>, locations: seq<BlobMetadata>) {
    && AllFilesStorable(lz, before) && AllFilesStorable(lz, now) && Extends(before, now)
    && AllRecords(now) == AllRecords(before) + rs
    && Locations(lz, now) == Locations(lz, before) + locations
  }

  lemma AppendedNothing(lz: Lz4, files: seq<seq<Record>>)
    requires AllFilesStorable(lz, files)
    ensures Appended(lz, files, files, [], [])
  {
  }

  lemma AppendedMeans(lz: Lz4, before: seq<seq<Record>>, now: seq<seq<Record>>, rs: seq<Record>, locations: seq<BlobMetadata>)
    requires Appended(lz, before, now, rs, locations)
    ensures AllFilesStorable(lz, before) && AllFilesStorable(lz, now) && Extends(before, now)
    ensures AllRecords(now) == AllRecords(before) + rs
    ensures Locations(lz, now) == Locations(lz, before) + locations
  {
  }

  lemma AppendedFile(lz: Lz4, before: seq<seq<Record>>, now: seq<seq<Record>>, rs: seq<Record>, locations: seq<BlobMetadata>)
    requires Appended(lz, before, now, rs, locations)
    ensures Appended(lz, before, now + [[]], rs, locations)
  {
    hide AllRecords, Locations, Faithful, Storable;
    NewFileLocations(lz, now);
  }

  lemma AppendedRecord(lz: Lz4, before: seq<seq<Record>>, now: seq<seq<Record>>, rs: seq<Record>, locations: seq<BlobMetadata>, r: Record)
    requires Appended(lz, before, now, rs, locations) && now != [] && Storable(r)
    ensures Appended(lz, before, AppendLast(now, r), rs + [r],
                     locations + [BlobMetadata(|now| - 1, |FileBytes(lz, now[|now| - 1])|)])
  {
    hide AllRecords, Locations, Faithful, FileBytes;
    AppendLastLocations(lz, now, r);
    var m := BlobMetadata(|now| - 1, |FileBytes(lz, now[|now| - 1])|);
    assert AllRecords(before) + rs + [r] == AllRecords(before) + (rs + [r]);
    assert Locations(lz, before) + locations + [m] == Locations(lz, before) + (locations + [m]);
  }

  /** Whether a record is put into the file behind the records `rs`, by the estimate of its size. */
  ghost predicate HasRoom(lz: Lz4, maxSize: nat, rs: seq<Record>, r: Record)
    requires AllStorable(lz, rs) && Storable(r)
  {
    |FileBytes(lz, rs)| + EstimatedSize(r) <= maxSize
  }

  /** The records from number `from` on each had room behind those before. */
  ghost predicate HadRoom(lz: Lz4, maxSize: nat, rs: seq<Record>, from: nat)
    requires AllStorable(lz, rs)
  {
    forall n | from <= n < |rs| :: HasRoom(lz, maxSize, rs[..n], rs[n])
  }

  lemma HadRoomMore(lz: Lz4, maxSize: nat, rs: seq<Record>, from: nat, r: Record)
    requires AllStorable(lz, rs) && Storable(r) && HadRoom(lz, maxSize, rs, from) && HasRoom(lz, maxSize, rs, r)
    ensures AllStorable(lz, rs + [r]) && HadRoom(lz, maxSize, rs + [r], from)
  {
    hide HasRoom, Faithful, Storable;
    forall n | from <= n < |rs| + 1
      ensures HasRoom(lz, maxSize, (rs + [r])[..n], (rs + [r])[n])
    {
      assert (rs + [r])[..n] == if n == |rs| then rs else rs[..n];
    }
  }

  /**
    How the records put since `before` are spread over files: each had room where it is, and a file
    was begun only when the record at its start had no room in the file before.
   */
  ghost predicate Spread(lz: Lz4, maxSize: nat, before: seq<seq<Record>>, now: seq<seq<Record>>)
    requires AllFilesStorable(lz, now)
  {
    && 0 < |before| <= |now| && before[..|before| - 1] == now[..|before| - 1] && before[|before| - 1] <= now[|before| - 1]
    && HadRoom(lz, maxSize, now[|before| - 1], |before[|before| - 1]|)
    && (forall k | |before| <= k < |now| :: HadRoom(lz, maxSize, now[k], 0))
    && (forall k | |before| <= k < |now| && now[k] != [] :: !HasRoom(lz, maxSize, now[k - 1], now[k][0]))
    && (forall k | |before| <= k < |now| - 1 :: now[k] != [])
  }

  /** The last file is empty, and was begun because `r` had no room in the file before. */
  ghost predicate BegunFor(lz: Lz4, maxSize: nat, now: seq<seq<Record>>, r: Record) {
    && AllFilesStorable(lz, now) && Storable(r)
    && |now| >= 2 && now[|now| - 1] == [] && !HasRoom(lz, maxSize, now[|now| - 2], r)
  }

  lemma SpreadNothing(lz: Lz4, maxSize: nat, files: seq<seq<Record>>)
    requires AllFilesStorable(lz, files) && files != []
    ensures Spread(lz, maxSize, files, files)
  {
  }

  /** One more record in the last file. */
  lemma SpreadRecord(lz: Lz4, maxSize: nat, before: seq<seq<Record>>, now: seq<seq<Record>>, r: Record)
    requires AllFilesStorable(lz, now) && now != [] && Storable(r) && Spread(lz, maxSize, before, now)
    requires HasRoom(lz, maxSize, now[|now| - 1], r)
    requires |now| > |before| && now[|now| - 1] == [] ==> BegunFor(lz, maxSize, now, r)
    ensures AllFilesStorable(lz, AppendLast(now, r)) && Spread(lz, maxSize, before, AppendLast(now, r))
    ensures AppendLast(now, r)[|now| - 1] != []
  {
    hide HasRoom, HadRoom, Faithful, Storable;
    var next, last := AppendLast(now, r), |now| - 1;
    assert next[last] == now[last] + [r];
    assert next[..|before| - 1] == now[..|before| - 1];
    HadRoomMore(lz, maxSize, now[last], if |now| == |before| then |before[last]| else 0, r);
  }

  /** A new file, begun because the last one is not empty and has no room. */
  lemma SpreadFile(lz: Lz4, maxSize: nat, before: seq<seq<Record>>, now: seq<seq<Record>>, r: Record)
    requires AllFilesStorable(lz, now) && now != [] && Spread(lz, maxSize, before, now)
    requires |now| > |before| ==> now[|now| - 1] != []
    requires Storable(r) && !HasRoom(lz, maxSize, now[|now| - 1], r)
    ensures AllFilesStorable(lz, now + [[]]) && Spread(lz, maxSize, before, now + [[]]) && BegunFor(lz, maxSize, now + [[]], r)
  {
    hide HasRoom, Faithful, Storable;
    assert (now + [[]])[..|before| - 1] == now[..|before| - 1];
  }

  /** The first `n` blobs have been put since `before`, at the given locations. */
  ghost predicate PutSoFar(
    lz: Lz4, maxSize: nat, before: seq<seq<Record>>, now: seq<seq<Record>>,
    blobs: seq<Blob>, compress: bool, n: nat, locations: seq<BlobMetadata>)
  {
    && n <= |blobs| && n <= |locations|
    && Appended(lz, before, now, RecordsOf(blobs[..n], compress), locations[..n])
    && Spread(lz, maxSize, before, now)
  }

  lemma PutNothing(lz: Lz4, maxSize: nat, files: seq<seq<Record>>, blobs: seq<Blob>, compress: bool)
    requires AllFilesStorable(lz, files) && files != []
    ensures PutSoFar(lz, maxSize, files, files, blobs, compress, 0, [])
  {
    AppendedNothing(lz, files);
    SpreadNothing(lz, maxSize, files);
  }

  lemma PutFile(
    lz: Lz4, maxSize: nat, before: seq<seq<Record>>, now: seq<seq<Record>>,
    blobs: seq<Blob>, compress: bool, n: nat, locations: seq<BlobMetadata>)
    requires PutSoFar(lz, maxSize, before, now, blobs, compress, n, locations) && n < |blobs| && now != []
    requires AllFilesStorable(lz, now) && (|now| > |before| ==> now[|now| - 1] != [])
    requires var r := Record(blobs[n], compress); Storable(r) && !HasRoom(lz, maxSize, now[|now| - 1], r)
    ensures PutSoFar(lz, maxSize, before, now + [[]], blobs, compress, n, locations)
    ensures BegunFor(lz, maxSize, now + [[]], Record(blobs[n], compress))
  {
    hide Appended, Spread, HasRoom, BegunFor, RecordsOf, AllFilesStorable;
    AppendedFile(lz, before, now, RecordsOf(blobs[..n], compress), locations[..n]);
    SpreadFile(lz, maxSize, before, now, Record(blobs[n], compress));
  }

  lemma PutRecord(
    lz: Lz4, maxSize: nat, before: seq<seq<Record>>, now: seq<seq<Record>>,
    blobs: seq<Blob>, compress: bool, n: nat, locations: seq<BlobMetadata>)
    requires PutSoFar(lz, maxSize, before, now, blobs, compress, n, locations) && n < |blobs| && n == |locations|
    requires AllFilesStorable(lz, now) && now != [] && Storable(Record(blobs[n], compress))
    requires HasRoom(lz, maxSize, now[|now| - 1], Record(blobs[n], compress))
    requires |now| > |before| && now[|now| - 1] == [] ==> BegunFor(lz, maxSize, now, Record(blobs[n], compress))
    ensures PutSoFar(lz, maxSize, before, AppendLast(now, Record(blobs[n], compress)), blobs, compress, n + 1,
                     locations + [BlobMetadata(|now| - 1, |FileBytes(lz, now[|now| - 1])|)])
    ensures AppendLast(now, Record(blobs[n], compress))[|now| - 1] != []
  {
    hide Appended, Spread, HasRoom, BegunFor, FileBytes, Faithful, Storable;
    var r, m := Record(blobs[n], compress), BlobMetadata(|now| - 1, |FileBytes(lz, now[|now| - 1])|);
    AppendedRecord(lz, before, now, RecordsOf(blobs[..n], compress), locations[..n], r);
    SpreadRecord(lz, maxSize, before, now, r);
    assert RecordsOf(blobs[..n + 1], compress) == RecordsOf(blobs[..n], compress) + [r];
    assert (locations + [m])[..n + 1] == locations[..n] + [m];
  }

  /** Locations of later blobs do not matter. */
  lemma PutEarlier(
    lz: Lz4, maxSize: nat, before: seq<seq<Record>>, now: seq<seq<Record>>,
    blobs: seq<Blob>, compress: bool, n: nat, locations: seq<BlobMetadata>, m: BlobMetadata)
    requires PutSoFar(lz, maxSize, before, now, blobs, compress, n, locations)
    ensures PutSoFar(lz, maxSize, before, now, blobs, compress, n, locations + [m])
  {
    hide Appended, Spread;
    assert (locations + [m])[..n] == locations[..n];
  }

  lemma PutMeans(
    lz: Lz4, maxSize: nat, before: seq<seq<Record>>, now: seq<seq<Record>>,
    blobs: seq<Blob>, compress: bool, n: nat, locations: seq<BlobMetadata>)
    requires PutSoFar(lz, maxSize, before, now, blobs, compress, n, locations)
    ensures n <= |blobs| && n <= |locations|
    ensures AllFilesStorable(lz, before) && AllFilesStorable(lz, now) && Extends(before, now) && Spread(lz, maxSize, before, now)
    ensures AllRecords(now) == AllRecords(before) + RecordsOf(blobs[..n], compress)
    ensures Locations(lz, now) == Locations(lz, before) + locations[..n]
  {
    hide Spread, RecordsOf;
    AppendedMeans(lz, before, now, RecordsOf(blobs[..n], compress), locations[..n]);
  }

  class BlobManager {
    const lz: Lz4
    const maxDataFileSize: nat
    const fileNameManager: FileNameManager
    /** The data files on disk, by key; the last one is being written. */
    var files: seq<MemoryMappedFile>
    /** What has been put into each file. */
    ghost var records: seq<seq<Record>>
    ghost var Repr: set<object>

    /** Files are separate. */
    ghost predicate Separate()
      reads this, Repr
    {
      && this in Repr && fileNameManager in Repr
      && (forall k | 0 <= k < |files| :: files[k] in Repr && files[k].region in Repr)
      && (forall j, k | 0 <= j < k < |files| :: files[j] != files[k] && files[j].region != files[k].region)
    }

    /** File `k` holds its records from its start on, within the maximum size. */
    ghost predicate Holds(k: nat)
      requires k < |files| == |records| && files[k] in Repr && files[k].region in Repr && AllFilesStorable(lz, records)
      reads this, Repr
    {
      files[k].region.Length == maxDataFileSize && FileBytes(lz, records[k]) <= files[k].region[..]
    }

    ghost predicate DataValid()
      reads this, Repr
      ensures DataValid() ==> this in Repr
    {
      && Separate()
      && |files| == |records| == |fileNameManager.dataLengths| > 0
      && AllFilesStorable(lz, records)
      && (forall k | 0 <= k < |files| :: Holds(k))
      && files[|files| - 1].currentWriteOffset == |FileBytes(lz, records[|files| - 1])|
    }

    /** The recorded lengths of the first `n` files cover exactly their records. */
    ghost predicate Recorded(n: nat)
      requires DataValid() && n <= |files|
      reads this, Repr
    {
      forall k | 0 <= k < n ::
        || fileNameManager.dataLengths[k] == |FileBytes(lz, records[k])|
        || (fileNameManager.dataLengths[k] == -1 && records[k] == [])
    }

    ghost predicate Valid()
      reads this, Repr
      ensures Valid() ==> this in Repr && AllFilesStorable(lz, records)
    {
      DataValid() && Recorded(|files|)
    }

    /** What every write leaves: only the length of the current file may not have been recorded. */
    ghost predicate Usable()
      reads this, Repr
      ensures Usable() ==> this in Repr && fileNameManager in Repr && |files| == |records| > 0 && AllFilesStorable(lz, records)
    {
      DataValid() && Recorded(|files| - 1)
    }

    constructor (lz: Lz4, maxDataFileSize: nat)
      requires Faithful(lz)
      ensures Valid() && fresh(Repr) && records == [[]]
      ensures this.lz == lz && this.maxDataFileSize == maxDataFileSize && fileNameManager.dataLengths == [-1]
    {
      this.lz := lz;
      this.maxDataFileSize := maxDataFileSize;
      fileNameManager := new FileNameManager();
      records := [[]];
      files := [];
      Repr := {};
      new;
      var _ := fileNameManager.GetNextDataFileInfo();
      var file := new MemoryMappedFile(maxDataFileSize);
      files := [file];
      Repr := {this, fileNameManager, file, file.region};
    }

    /** Reopening: the last file is continued at its recorded length, or at 0 when none was recorded. */
    constructor Reopen(lz: Lz4, maxDataFileSize: nat, regions: seq<array<Byte>>, dataLengths: seq<int>, ghost records: seq<seq<Record>>)
      requires OnDisk(lz, maxDataFileSize, regions, dataLengths, records)
      ensures Valid() && fresh(fileNameManager)
      ensures this.records == records && this.lz == lz && this.maxDataFileSize == maxDataFileSize
      ensures |files| == |regions| && forall k | 0 <= k < |files| :: fresh(files[k]) && files[k].region == regions[k]
      ensures fileNameManager.dataLengths == dataLengths
    {
      this.lz := lz;
      this.maxDataFileSize := maxDataFileSize;
      this.records := records;
      fileNameManager := new FileNameManager();
      files := [];
      Repr := {};
      new;
      hide FileBytes, RecordBytes, Faithful, Storable, AllRecords, Locations;
      fileNameManager.dataLengths := dataLengths;
      EmptyFile(lz);
      var mapped, objects := MapFiles(regions, dataLengths);
      files := mapped;
      Repr := {this, fileNameManager} + objects;
      assert Separate();
      forall k | 0 <= k < |files|
        ensures Holds(k)
      {
        assert files[k].region == regions[k];
      }
    }

    /** Every file mapped, with the write position at its recorded length, or at 0 when there is none. */
    static method MapFiles(regions: seq<array<Byte>>, dataLengths: seq<int>)
      returns (files: seq<MemoryMappedFile>, ghost objects: set<object>)
      requires |regions| == |dataLengths|
      requires forall k | 0 <= k < |regions| :: -1 <= dataLengths[k] <= regions[k].Length
      ensures |files| == |regions|
      ensures forall k | 0 <= k < |files| :: fresh(files[k]) && files[k] in objects && regions[k] in objects
      ensures forall k | 0 <= k < |files| :: files[k].region == regions[k]
      ensures forall k | 0 <= k < |files| :: files[k].currentWriteOffset == if dataLengths[k] != -1 then dataLengths[k] else 0
      ensures forall j, k | 0 <= j < k < |files| :: files[j] != files[k]
    {
      files, objects := [], {};
      for k := 0 to |regions|
        invariant |files| == k
        invariant forall j | 0 <= j < k :: fresh(files[j]) && files[j] in objects && regions[j] in objects
        invariant forall j | 0 <= j < k :: files[j].region == regions[j]
        invariant forall j | 0 <= j < k :: files[j].currentWriteOffset == if dataLengths[j] != -1 then dataLengths[j] else 0
        invariant forall i, j | 0 <= i < j < k :: files[i] != files[j]
      {
        var file := new MemoryMappedFile.Map(regions[k], if dataLengths[k] != -1 then dataLengths[k] else 0);
        files := files + [file];
        objects := objects + {file, regions[k]};
      }
    }

    /** Records the length of the current file and continues in a new, empty one. */
    method SwitchToNewDataFile()
      requires Usable()
      modifies Repr
      ensures Valid() && fresh(Repr - old(Repr)) && records == old(records) + [[]]
      ensures fileNameManager.dataLengths ==
              old(fileNameManager.dataLengths)[|old(files)| - 1 := old(files[|files| - 1].currentWriteOffset)] + [-1]
    {
      hide FileBytes, RecordBytes, Faithful, Storable, AllRecords, Locations;
      var current := |files| - 1;
      EmptyFile(lz);
      NewFileLocations(lz, records);
      var _ := fileNameManager.GetNextDataFileInfo();
      var file := new MemoryMappedFile(maxDataFileSize);
      fileNameManager.UpdateDataFileLength(current, files[current].currentWriteOffset);
      files := files + [file];
      records := records + [[]];
      Repr := Repr + {file, file.region};
      assert Separate();
      forall k | 0 <= k < |files|
        ensures Holds(k)
      {
        if k <= current {
          assert old(Holds(k)) && files[k] == old(files)[k] && records[k] == old(records)[k];
        }
      }
      assert DataValid();
      assert Recorded(|files|);
    }

    /** The header, written piece by piece. */
    method WriteBlobHeader(file: MemoryMappedFile, h: BlobHeader)
      requires file.currentWriteOffset + |HeaderBytes(h)| <= file.region.Length
      modifies file, file.region
      ensures file.currentWriteOffset == old(file.currentWriteOffset) + |HeaderBytes(h)|
      ensures file.region[..file.currentWriteOffset] == old(file.region[..file.currentWriteOffset]) + HeaderBytes(h)
    {
      hide Encode;
      ghost var before := file.region[..file.currentWriteOffset];
      var verAndFlags: Byte := 0x10 + if h.compressed then 1 else 0;
      file.WriteAtCurrentPosition([verAndFlags]);
      var varint := EncodeVarint(h.blobSize);
      file.WriteAtCurrentPosition(varint);
      ghost var size, compSize := Encode(h.blobSize), if h.compressed then Encode(h.compSize) else [];
      if h.compressed {
        varint := EncodeVarint(h.compSize);
        file.WriteAtCurrentPosition(varint);
      }
      Regroup(before, [verAndFlags], size, compSize);
    }

    /** The file bytes of a record: the header, then the contents. */
    method WriteRecord(file: MemoryMappedFile, r: Record)
      requires Faithful(lz) && Storable(r)
      requires file.currentWriteOffset + |RecordBytes(lz, r)| <= file.region.Length
      modifies file, file.region
      ensures file.currentWriteOffset == old(file.currentWriteOffset) + |RecordBytes(lz, r)|
      ensures file.region[..file.currentWriteOffset] ==
              old(file.region[..file.currentWriteOffset]) + RecordBytes(lz, r)
    {
      hide HeaderBytes, Encode;
      ghost var before := file.region[..file.currentWriteOffset];
      var stored := StoredBytes(lz, r);
      WriteBlobHeader(file, HeaderOf(lz, r));
      file.WriteAtCurrentPosition(stored);
      assert before + HeaderBytes(HeaderOf(lz, r)) + stored == before + (HeaderBytes(HeaderOf(lz, r)) + stored);
    }

    /** Writes the record at the end of the current file. */
    method PutInternal(r: Record) returns (metadata: BlobMetadata)
      requires Usable() && Storable(r)
      requires files[|files| - 1].currentWriteOffset + EstimatedSize(r) <= maxDataFileSize
      modifies Repr
      ensures Usable() && Repr == old(Repr) && files == old(files)
      ensures old(records) != [] && records == AppendLast(old(records), r)
      ensures metadata == BlobMetadata(|files| - 1, |FileBytes(lz, old(records)[|files| - 1])|)
      ensures fileNameManager.dataLengths == old(fileNameManager.dataLengths)
    {
      hide FileBytes, RecordBytes, Faithful, Storable;
      var current := |files| - 1;
      assert Holds(current);
      var offset := files[current].currentWriteOffset;
      EstimateBounds(lz, r);
      AppendRecord(lz, records[current], r);
      WriteRecord(files[current], r);
      records := AppendLast(records, r);
      assert Separate();
      forall k | 0 <= k < current
        ensures Holds(k) && records[k] == old(records)[k]
      {
        assert old(Holds(k)) && files[k].region[..] == old(files[k].region[..]);
      }
      assert Holds(current);
      metadata := BlobMetadata(current, offset);
    }

    /** Starts a new file when the estimate does not fit in the current one. */
    method MakeRoom(r: Record)
      requires Usable() && Storable(r) && EstimatedSize(r) <= maxDataFileSize
      modifies Repr
      ensures Usable() && fresh(Repr - old(Repr)) && (old(Valid()) ==> Valid())
      ensures files[|files| - 1].currentWriteOffset + EstimatedSize(r) <= maxDataFileSize
      ensures AllRecords(records) == AllRecords(old(records)) && Extends(old(records), records)
      ensures AllFilesStorable(lz, old(records)) && Locations(lz, records) == Locations(lz, old(records))
      ensures old(records) != []
      ensures records == if |FileBytes(lz, old(records)[|old(records)| - 1])| + EstimatedSize(r) <= maxDataFileSize
                         then old(records) else old(records) + [[]]
    {
      hide FileBytes, RecordBytes, Faithful, Storable, EstimatedSize, AllRecords, Locations;
      if EstimatedSize(r) + files[|files| - 1].currentWriteOffset > maxDataFileSize {
        NewFileLocations(lz, records);
        EmptyFile(lz);
        SwitchToNewDataFile();
      }
    }

    /** `Recorded` for the current file, by writing down its length. */
    method RecordLength()
      requires Usable()
      modifies fileNameManager
      ensures Valid()
    {
      hide FileBytes, Faithful, Storable;
      fileNameManager.UpdateDataFileLength(|files| - 1, files[|files| - 1].currentWriteOffset);
      forall k | 0 <= k < |files|
        ensures Holds(k)
      {
        assert old(Holds(k));
      }
    }

    /**
      One blob. When the flush fails, the write position is moved back and nothing is added.
     */
    method Put(blob: Blob, compress: bool, flushSucceeds: bool) returns (result: PutResult)
      requires Valid() && 0 < |blob| < UINT64_LIMIT
      requires Storable(Record(blob, compress)) ==> EstimatedSize(Record(blob, compress)) <= maxDataFileSize
      modifies Repr
      ensures Valid() && fresh(Repr - old(Repr)) && AllFilesStorable(lz, old(records))
      ensures Extends(old(records), records)
      ensures result.TooLargeToCompress? <==> compress && |blob| > LZ4_MAX_INPUT_SIZE
      ensures result.FlushFailed? <==> !result.TooLargeToCompress? && !flushSucceeds
      ensures old(records) != []
      ensures !result.TooLargeToCompress? ==>
                var r, last := Record(blob, compress), |old(records)| - 1;
                var end := |FileBytes(lz, old(records)[last])|;
                if end + EstimatedSize(r) <= maxDataFileSize then
                  && |records| == |old(records)|
                  && (result.Stored? ==> records[last] == old(records)[last] + [r] && result.metadata == BlobMetadata(last, end))
                else
                  && |records| == |old(records)| + 1
                  && (result.Stored? ==> records[last + 1] == [r] && result.metadata == BlobMetadata(last + 1, 0))
      ensures result.Stored? ==>
                && AllRecords(records) == AllRecords(old(records)) + [Record(blob, compress)]
                && Locations(lz, records) == Locations(lz, old(records)) + [result.metadata]
      ensures !result.Stored? ==>
                AllRecords(records) == AllRecords(old(records)) && Locations(lz, records) == Locations(lz, old(records))
    {
      hide FileBytes, RecordBytes, Faithful, EstimatedSize, AllRecords, Locations, Valid, Usable, Since;
      var r := Record(blob, compress);
      Begin();
      if compress && |blob| > LZ4_MAX_INPUT_SIZE {
        return TooLargeToCompress;
      }
      EmptyFile(lz);
      MakeRoom(r);
      if !flushSucceeds {
        WriteAndRollBack(r);
        return FlushFailed;
      }
      AppendLastLocations(lz, records, r);
      var metadata := PutInternal(r);
      RecordLength();
      return Stored(metadata);
    }

    /** A write whose flush fails: the bytes may be there, but the position is restored. */
    method WriteAndRollBack(r: Record)
      requires Valid() && Storable(r)
      requires files[|files| - 1].currentWriteOffset + EstimatedSize(r) <= maxDataFileSize
      modifies Repr
      ensures Valid() && Repr == old(Repr) && records == old(records)
    {
      hide FileBytes, RecordBytes, Faithful, Storable;
      var current := |files| - 1;
      assert Holds(current);
      var currentOffsetInFile := files[current].currentWriteOffset;
      EstimateBounds(lz, r);
      ghost var before := files[current].region[..currentOffsetInFile];
      assert before == FileBytes(lz, records[current]);
      WriteRecord(files[current], r);
      assert files[current].region[..currentOffsetInFile] ==
             files[current].region[..files[current].currentWriteOffset][..currentOffsetInFile] == before;
      files[current].SetCurrentWriteOffset(currentOffsetInFile);
      assert forall k | 0 <= k < |files| - 1 :: files[k].region[..] == old(files[k].region[..]);
      assert forall k | 0 <= k < |files| - 1 :: old(Holds(k)) && Holds(k);
      assert before <= files[current].region[..] && Holds(current);
    }

    /** `base` is what was there when the current file was last flushed: its recorded length, or none, says so. */
    ghost predicate Since(base: seq<seq<Record>>)
      requires Usable()
      reads this, Repr
      ensures Since(base) ==> |base| == |records| && AllFilesStorable(lz, base)
    {
      && |base| == |records| && base[..|base| - 1] == records[..|base| - 1]
      && base[|base| - 1] <= records[|base| - 1] && AllFilesStorable(lz, base)
      && (fileNameManager.dataLengths[|base| - 1] == |FileBytes(lz, base[|base| - 1])|
          || (fileNameManager.dataLengths[|base| - 1] == -1 && base[|base| - 1] == []))
    }

    lemma Begin()
      requires Valid()
      ensures Usable() && Since(records)
      ensures files[|files| - 1].currentWriteOffset == |FileBytes(lz, records[|records| - 1])|
    {
    }

    /** The code compares the write position. */
    lemma RoomByOffset(r: Record)
      requires Usable() && Storable(r)
      ensures HasRoom(lz, maxDataFileSize, records[|records| - 1], r) <==>
              EstimatedSize(r) + files[|files| - 1].currentWriteOffset <= maxDataFileSize
    {
    }

    /** A record written since the last flush. */
    method PutSince(r: Record, ghost base: seq<seq<Record>>) returns (metadata: BlobMetadata)
      requires Usable() && Since(base) && Storable(r)
      requires files[|files| - 1].currentWriteOffset + EstimatedSize(r) <= maxDataFileSize
      modifies Repr
      ensures Usable() && Since(base) && Repr == old(Repr)
      ensures old(records) != [] && records == AppendLast(old(records), r)
      ensures metadata == BlobMetadata(|records| - 1, |FileBytes(lz, old(records)[|old(records)| - 1])|)
    {
      hide FileBytes, RecordBytes, Faithful, Storable, EstimatedSize;
      metadata := PutInternal(r);
    }

    /** A new file, in which nothing has been written since the last flush. */
    method NextFile() returns (baseOffsetInFile: nat)
      requires Usable()
      modifies Repr
      ensures Usable() && fresh(Repr - old(Repr)) && records == old(records) + [[]] && Since(records)
      ensures baseOffsetInFile == |FileBytes(lz, records[|records| - 1])| == files[|files| - 1].currentWriteOffset == 0
    {
      hide FileBytes, Faithful, Storable;
      EmptyFile(lz);
      SwitchToNewDataFile();
      Begin();
      baseOffsetInFile := files[|files| - 1].currentWriteOffset;
    }

    /** A failed flush: the write position goes back to where the current file was last flushed. */
    method RollBack(baseOffsetInFile: nat, ghost base: seq<seq<Record>>)
      requires Usable() && Since(base)
      requires baseOffsetInFile == |FileBytes(lz, base[|base| - 1])|
      modifies Repr
      ensures Valid() && records == base && Repr == old(Repr)
    {
      hide FileBytes, RecordBytes, Faithful, Storable;
      var current := |files| - 1;
      assert Holds(current);
      PrefixBytes(lz, base[current], records[current]);
      files[current].SetCurrentWriteOffset(baseOffsetInFile);
      records := base;
      assert Separate();
      forall k | 0 <= k < |files|
        ensures Holds(k)
      {
        if k < current {
          assert base[k] == base[..current][k] == old(records)[..current][k];
          assert old(Holds(k));
        }
      }
      forall k | 0 <= k < current
        ensures records[k] == old(records)[k]
      {
        assert base[k] == base[..current][k];
      }
    }

    /**
      Several blobs, each going to a new file when it does not fit. A file is flushed before the
      next one is begun and at the end; `flushSucceeds` says which of these flushes do. When one
      fails, what was written since the last one is given up.
     */
    method MultiPut(blobs: seq<Blob>, compress: bool, flushSucceeds: nat -> bool) returns (result: MultiPutResult)
      requires Valid()
      requires forall i | 0 <= i < |blobs| :: Fits(Record(blobs[i], compress))
      modifies Repr
      ensures Valid() && fresh(Repr - old(Repr)) && AllFilesStorable(lz, old(records))
      ensures Extends(old(records), records)
      ensures |records| >= |old(records)| && Spread(lz, maxDataFileSize, old(records), records)
      ensures var flushes := |records| - |old(records)|;
              (forall n | 0 <= n < flushes :: flushSucceeds(n)) && (result.AllStored? <==> flushSucceeds(flushes))
      ensures result.AllStored? ==>
                && |result.locations| == |blobs|
                && AllRecords(records) == AllRecords(old(records)) + RecordsOf(blobs, compress)
                && Locations(lz, records) == Locations(lz, old(records)) + result.locations
                && (|records| > |old(records)| ==> records[|records| - 1] != [])
      ensures result.FlushFailedAfter? ==>
                && result.kept <= |blobs|
                && AllRecords(records) == AllRecords(old(records)) + RecordsOf(blobs[..result.kept], compress)
                && Locations(lz, old(records)) <= Locations(lz, records)
                && if |records| == |old(records)| then result.kept == 0 && records == old(records)
                   else
                     result.kept < |blobs| && BegunFor(lz, maxDataFileSize, records, Record(blobs[result.kept], compress))
    {
      hide FileBytes, Faithful, Storable, EstimatedSize, Since, Usable, AllRecords, Locations, Extends, Valid, RecordsOf, AppendLast;
      hide Spread, HasRoom, BegunFor, PutSoFar;
      var metadata := [];
      var flushes, kept := 0, 0;
      ghost var before, base := records, records;
      Begin();
      var baseOffsetInFile := files[|files| - 1].currentWriteOffset;
      PutNothing(lz, maxDataFileSize, records, blobs, compress);
      for i := 0 to |blobs|
        invariant Usable() && fresh(Repr - old(Repr)) && Since(base)
        invariant flushes + |before| == |records| == |base| && forall n | 0 <= n < flushes :: flushSucceeds(n)
        invariant if flushes == 0 then kept == 0 && base == before
                  else
                    && records[|records| - 1] != []
                    && kept < |blobs| && BegunFor(lz, maxDataFileSize, base, Record(blobs[kept], compress))
        invariant base != [] && baseOffsetInFile == |FileBytes(lz, base[|base| - 1])| && |metadata| == i
        invariant PutSoFar(lz, maxDataFileSize, before, base, blobs, compress, kept, metadata)
        invariant PutSoFar(lz, maxDataFileSize, before, records, blobs, compress, i, metadata)
      {
        var r := Record(blobs[i], compress);
        RoomByOffset(r);
        if EstimatedSize(r) + files[|files| - 1].currentWriteOffset > maxDataFileSize {
          if !flushSucceeds(flushes) {
            RollBack(baseOffsetInFile, base);
            PutMeans(lz, maxDataFileSize, before, records, blobs, compress, kept, metadata);
            return FlushFailedAfter(kept);
          }
          flushes := flushes + 1;
          PutFile(lz, maxDataFileSize, before, records, blobs, compress, i, metadata);
          baseOffsetInFile := NextFile();
          RoomByOffset(r);
          base, kept := records, i;
        }
        PutRecord(lz, maxDataFileSize, before, records, blobs, compress, i, metadata);
        var m := PutSince(r, base);
        PutEarlier(lz, maxDataFileSize, before, base, blobs, compress, kept, metadata, m);
        metadata := metadata + [m];
      }
      if !flushSucceeds(flushes) {
        RollBack(baseOffsetInFile, base);
        PutMeans(lz, maxDataFileSize, before, records, blobs, compress, kept, metadata);
        return FlushFailedAfter(kept);
      }
      RecordLength();
      PutMeans(lz, maxDataFileSize, before, records, blobs, compress, |blobs|, metadata);
      assert blobs[..|blobs|] == blobs && metadata[..|blobs|] == metadata;
      return AllStored(metadata);
    }

    /** A record that has a place in an empty file. */
    predicate Fits(r: Record) {
      Storable(r) && EstimatedSize(r) <= maxDataFileSize
    }

    /** The blob of the `i`-th record put, found by the location that the put returned. */
    method Get(metadata: BlobMetadata, ghost i: nat) returns (blob: Blob)
      requires Valid() && i < |AllRecords(records)| && Locations(lz, records)[i] == metadata
      ensures blob == AllRecords(records)[i].blob
    {
      hide FileBytes, RecordBytes, Faithful, Storable, AllRecords, Locations, Offset;
      ghost var k, n := Locate(lz, records, i);
      assert Holds(k);
      ReadAtOffset(lz, records[k], n, files[k].region[..]);
      var bytes := files[metadata.fileKey].region[..];
      var read := ReadRecord(lz, bytes[metadata.offset..]);
      return read.blob;
    }
  }

  function RecordsOf(blobs: seq<Blob>, compress: bool): (rs: seq<Record>)
    ensures |rs| == |blobs| && forall i | 0 <= i < |rs| :: rs[i] == Record(blobs[i], compress)
  {
    seq(|blobs|, i requires 0 <= i < |blobs| => Record(blobs[i], compress))
  }

  /** Later contents keep what each file held: files are only added, and records only appended. */
  ghost predicate Extends(before: seq<seq<Record>>, after: seq<seq<Record>>) {
    |before| <= |after| && forall k | 0 <= k < |before| :: before[k] <= after[k]
  }

  /** The recovery scan of one data file, up to its recorded length. */
  class BlobIterator {
    const lz: Lz4
    const fileKey: nat
    const dataLength: int
    const region: array<Byte>
    var currentOffset: nat
    /** The records of the file, and how many have been returned. */
    ghost const rs: seq<Record>
    ghost var next: nat

    ghost predicate Valid()
      reads this, region
      ensures Valid() ==> AllStorable(lz, rs) && next <= |rs|
    {
      && AllStorable(lz, rs) && next <= |rs|
      && FileBytes(lz, rs) <= region[..]
      && currentOffset == Offset(lz, rs, next)
      && (dataLength == |FileBytes(lz, rs)| || (dataLength == -1 && rs == []))
    }

    constructor (lz: Lz4, fileKey: nat, dataLength: int, region: array<Byte>, ghost rs: seq<Record>)
      requires AllStorable(lz, rs) && FileBytes(lz, rs) <= region[..]
      requires dataLength == |FileBytes(lz, rs)| || (dataLength == -1 && rs == [])
      ensures Valid() && next == 0
      ensures this.rs == rs && this.lz == lz && this.fileKey == fileKey && this.region == region
    {
      this.lz := lz;
      this.fileKey := fileKey;
      this.dataLength := dataLength;
      this.region := region;
      this.rs := rs;
      currentOffset := 0;
      next := 0;
    }

    /** The next records, at most `batchSize` of them, with their locations; none at the end of the file. */
    method GetNextBatch(batchSize: nat) returns (blobs: seq<Blob>, metadata: seq<BlobMetadata>)
      requires Valid() && batchSize > 0
      modifies this
      ensures Valid() && next == if batchSize <= |rs| - old(next) then old(next) + batchSize else |rs|
      ensures |blobs| == |metadata| == next - old(next)
      ensures forall i | 0 <= i < |blobs| :: blobs[i] == rs[old(next) + i].blob
      ensures forall i | 0 <= i < |metadata| :: metadata[i] == BlobMetadata(fileKey, Offset(lz, rs, old(next) + i))
    {
      hide FileBytes, RecordBytes, Faithful, Storable, Offset, ReadRecord, RecordReadable, AllStorable;
      blobs, metadata := [], [];
      while |blobs| < batchSize
        invariant Valid() && old(next) <= next && |blobs| == |metadata| == next - old(next) <= batchSize
        invariant forall i | 0 <= i < |blobs| :: blobs[i] == rs[old(next) + i].blob
        invariant forall i | 0 <= i < |metadata| :: metadata[i] == BlobMetadata(fileKey, Offset(lz, rs, old(next) + i))
        decreases |rs| - next
      {
        var position := currentOffset;
        EndOfRecords(lz, rs, next);
        if position >= dataLength {
          break;
        }
        ReadAtOffset(lz, rs, next, region[..]);
        var read := ReadRecord(lz, region[..][position..]);
        blobs := blobs + [read.blob];
        currentOffset := currentOffset + read.length;
        metadata := metadata + [BlobMetadata(fileKey, position)];
        next := next + 1;
      }
    }
  }

  /** The offset after the last record, and only that one, is the length of the file. */
  lemma EndOfRecords(lz: Lz4, rs: seq<Record>, n: nat)
    requires AllStorable(lz, rs) && n <= |rs|
    ensures if n == |rs| then Offset(lz, rs, n) == |FileBytes(lz, rs)| else Offset(lz, rs, n) < |FileBytes(lz, rs)|
  {
    if n == |rs| {
      assert rs[..n] == rs;
    } else {
      RecordExtent(lz, rs, n);
    }
  }
}
