/**
  The records of a data file: a header byte (version and compression flag), the size of the
  blob, the compressed size when compressed, and the stored bytes.
 */
module BlobFormat {
  import opened Bytes
  import opened Varint

  const BLOB_HEADER_VERSION: nat := 1
  const LZ4_MAX_INPUT_SIZE: nat := 0x7E00_0000

  type Blob = seq<Byte>

  /** The compression library: bytes to bytes, and back given the original size. */
  datatype Lz4 = Lz4(compress: Blob -> seq<Byte>, decompress: (seq<Byte>, nat) -> Blob)

  /** `LZ4_compressBound` */
  function CompressBound(size: nat): nat {
    size + size / 255 + 16
  }

  /** What is relied on: the output is within the bound, and decompression ignores what follows it. */
  ghost predicate Faithful(lz: Lz4) {
    && (forall b: Blob | |b| <= LZ4_MAX_INPUT_SIZE :: 0 < |lz.compress(b)| <= CompressBound(|b|))
    && (forall b: Blob, rest: seq<Byte> | |b| <= LZ4_MAX_INPUT_SIZE :: lz.decompress(lz.compress(b) + rest, |b|) == b)
  }

  datatype BlobHeader = BlobHeader(version: nat, compressed: bool, blobSize: UInt64, compSize: UInt64)

  /** The bytes `WriteBlobHeader` writes. */
  function HeaderBytes(h: BlobHeader): seq<Byte> {
    [0x10 + if h.compressed then 1 else 0] + Encode(h.blobSize) + if h.compressed then Encode(h.compSize) else []
  }

  /** The size estimate made before compressing; a negative size stands for no compression. */
  function GetHeaderSize(blobSize: UInt64, compBlobSize: int): nat
    requires compBlobSize < UINT64_LIMIT
  {
    GetVarintSize(blobSize) + (if compBlobSize > -1 then GetVarintSize(compBlobSize) else 0) + 1
  }

  datatype HeaderResult = Header(header: BlobHeader, length: nat) | BadHeader

  predicate HeaderReadable(s: seq<Byte>) {
    && s != [] && Readable(s[1..])
    && (Decode(s[1..]).Decoded? && s[0] % 2 == 1 ==>
          Decode(s[1..]).count < |s| && Readable(s[1 + Decode(s[1..]).count..]))
  }

  /** The header read at the start of `s`, and its length. */
  function ReadBlobHeader(s: seq<Byte>): HeaderResult
    requires HeaderReadable(s)
  {
    var version, compressed := s[0] / 16, s[0] % 2 == 1;
    match Decode(s[1..])
    case TooLong => BadHeader
    case Decoded(blobSize, n) =>
      if !compressed then Header(BlobHeader(version, false, blobSize, 0), 1 + n)
      else
        match Decode(s[1 + n..])
        case TooLong => BadHeader
        case Decoded(compSize, m) => Header(BlobHeader(version, true, blobSize, compSize), 1 + n + m)
  }

  /** Reading a header inverts writing it and consumes exactly the bytes written. */
  lemma HeaderRoundTrip(h: BlobHeader, rest: seq<Byte>)
    requires h.version == BLOB_HEADER_VERSION && (!h.compressed ==> h.compSize == 0)
    ensures HeaderReadable(HeaderBytes(h) + rest)
    ensures ReadBlobHeader(HeaderBytes(h) + rest) == Header(h, |HeaderBytes(h)|)
  {
    hide Encode, Decode, Readable;
    var s := HeaderBytes(h) + rest;
    var e, c := Encode(h.blobSize), if h.compressed then Encode(h.compSize) else [];
    assert s[1..] == e + (c + rest);
    VarintRoundTrip(h.blobSize, c + rest);
    assert s[1 + |e|..] == c + rest;
    if h.compressed {
      VarintRoundTrip(h.compSize, rest);
    }
  }

  /** A blob as it was put: its bytes, and whether it is stored compressed. */
  datatype Record = Record(blob: Blob, compressed: bool)

  /** Blobs are not empty, and a compressed one is within the library's limit. */
  predicate Storable(r: Record) {
    0 < |r.blob| < UINT64_LIMIT && (r.compressed ==> |r.blob| <= LZ4_MAX_INPUT_SIZE)
  }

  function StoredBytes(lz: Lz4, r: Record): seq<Byte> {
    if r.compressed then lz.compress(r.blob) else r.blob
  }

  function HeaderOf(lz: Lz4, r: Record): BlobHeader
    requires Storable(r) && (r.compressed ==> |lz.compress(r.blob)| < UINT64_LIMIT)
  {
    BlobHeader(BLOB_HEADER_VERSION, r.compressed, |r.blob|, if r.compressed then |lz.compress(r.blob)| else 0)
  }

  /** The bytes of a record in the file. */
  ghost function RecordBytes(lz: Lz4, r: Record): (s: seq<Byte>)
    requires Faithful(lz) && Storable(r)
    ensures |s| > 0
  {
    HeaderBytes(HeaderOf(lz, r)) + StoredBytes(lz, r)
  }

  /** The number of bytes reserved for a record before it is written. */
  function EstimatedSize(r: Record): nat
    requires Storable(r)
  {
    if r.compressed then GetHeaderSize(|r.blob|, CompressBound(|r.blob|)) + CompressBound(|r.blob|)
    else GetHeaderSize(|r.blob|, -1) + |r.blob|
  }

  lemma VarintSizeMonotone(a: UInt64, b: UInt64)
    requires a <= b
    ensures GetVarintSize(a) <= GetVarintSize(b)
  {
  }

  /** The estimate bounds what is written. */
  lemma EstimateBounds(lz: Lz4, r: Record)
    requires Faithful(lz) && Storable(r)
    ensures |RecordBytes(lz, r)| <= EstimatedSize(r)
  {
    VarintSizeIsLength(|r.blob|);
    if r.compressed {
      var n := |lz.compress(r.blob)|;
      VarintSizeIsLength(n);
      VarintSizeMonotone(n, CompressBound(|r.blob|));
    }
  }

  /** And is exact without compression; with it, the library's bound takes the place of what is not known yet. */
  lemma EstimateExact(lz: Lz4, r: Record)
    requires Faithful(lz) && Storable(r)
    ensures !r.compressed ==> EstimatedSize(r) == |RecordBytes(lz, r)|
    ensures r.compressed ==>
              var bound := |r.blob| + |r.blob| / 255 + 16;
              EstimatedSize(r) == 1 + |Encode(|r.blob|)| + |Encode(bound)| + bound
  {
    VarintSizeIsLength(|r.blob|);
    if r.compressed {
      VarintSizeIsLength(CompressBound(|r.blob|));
    }
  }

  /** The bytes of a record, place by place: version 1 and the compression flag, the sizes, the contents. */
  lemma RecordLayout(lz: Lz4, r: Record) returns (n: nat, m: nat)
    requires Faithful(lz) && Storable(r)
    ensures var s, stored := RecordBytes(lz, r), if r.compressed then lz.compress(r.blob) else r.blob;
            && 0 < n && 1 + n + m <= |s|
            && s[0] == 16 * 1 + (if r.compressed then 1 else 0)
            && IsVarint(s[1..1 + n], |r.blob|)
            && (if r.compressed then IsVarint(s[1 + n..1 + n + m], |stored|) else m == 0)
            && s[1 + n + m..] == stored
  {
    hide Encode, IsVarint;
    var h, s := HeaderOf(lz, r), RecordBytes(lz, r);
    var size, compSize := Encode(h.blobSize), if r.compressed then Encode(h.compSize) else [];
    n, m := |size|, |compSize|;
    EncodeBytes(h.blobSize);
    EncodeBytes(h.compSize);
    assert s[1..1 + n] == size && s[1 + n..1 + n + m] == compSize;
  }

  /** What a reader takes a record to be: the blob and the bytes consumed. */
  datatype ReadResult = Read(blob: Blob, length: nat) | Unreadable

  predicate RecordReadable(s: seq<Byte>) {
    && HeaderReadable(s)
    && match ReadBlobHeader(s)
       case BadHeader => true
       case Header(h, n) => n <= |s| && (!h.compressed ==> n + h.blobSize <= |s|)
  }

  function ReadRecord(lz: Lz4, s: seq<Byte>): ReadResult
    requires RecordReadable(s)
  {
    match ReadBlobHeader(s)
    case BadHeader => Unreadable
    case Header(h, n) =>
      if h.compressed then Read(lz.decompress(s[n..], h.blobSize), n + h.compSize)
      else Read(s[n..n + h.blobSize], n + h.blobSize)
  }

  lemma Follow<T>(a: seq<T>, b: seq<T>, c: seq<T>)
    ensures a + b + c == a + (b + c)
    ensures (a + b + c)[|a|..] == b + c && (a + b + c)[|a|..|a| + |b|] == b
  {
  }

  /** Reading at a record gives its blob and ends exactly at its end, whatever follows. */
  lemma RecordRoundTrip(lz: Lz4, r: Record, rest: seq<Byte>)
    requires Faithful(lz) && Storable(r)
    ensures RecordReadable(RecordBytes(lz, r) + rest)
    ensures ReadRecord(lz, RecordBytes(lz, r) + rest) == Read(r.blob, |RecordBytes(lz, r)|)
  {
    hide HeaderBytes, HeaderReadable, ReadBlobHeader;
    var h, stored := HeaderOf(lz, r), StoredBytes(lz, r);
    HeaderRoundTrip(h, stored + rest);
    Follow(HeaderBytes(h), stored, rest);
  }

  /** Storing the bytes as they are, with one byte of padding, is a faithful library. */
  lemma FaithfulIsPossible()
    ensures Faithful(Lz4((b: Blob) => b + [0], (s: seq<Byte>, n: nat) => if n <= |s| then s[..n] else []))
  {
    forall b: Blob, rest: seq<Byte>
      ensures (b + [0] + rest)[..|b|] == b
    {
    }
  }

  ghost predicate AllStorable(lz: Lz4, rs: seq<Record>) {
    Faithful(lz) && forall k | 0 <= k < |rs| :: Storable(rs[k])
  }

  /** The bytes of a file that holds the records. */
  ghost function FileBytes(lz: Lz4, rs: seq<Record>): seq<Byte>
    requires AllStorable(lz, rs)
  {
    if rs == [] then [] else FileBytes(lz, rs[..|rs| - 1]) + RecordBytes(lz, rs[|rs| - 1])
  }

  /** Where record `n` starts. */
  ghost function Offset(lz: Lz4, rs: seq<Record>, n: nat): nat
    requires AllStorable(lz, rs) && n <= |rs|
  {
    |FileBytes(lz, rs[..n])|
  }

  /** Record `n` occupies the bytes from its offset up to the next one. */
  lemma {:induction false} RecordExtent(lz: Lz4, rs: seq<Record>, n: nat)
    requires AllStorable(lz, rs) && n < |rs|
    ensures Offset(lz, rs, n + 1) == Offset(lz, rs, n) + |RecordBytes(lz, rs[n])| <= |FileBytes(lz, rs)|
    ensures FileBytes(lz, rs)[Offset(lz, rs, n)..Offset(lz, rs, n + 1)] == RecordBytes(lz, rs[n])
  {
    hide RecordBytes, Faithful, Storable;
    assert rs[..n + 1][..n] == rs[..n];
    if n == |rs| - 1 {
      assert rs[..n + 1] == rs;
    } else {
      var init := rs[..|rs| - 1];
      RecordExtent(lz, init, n);
      assert init[..n] == rs[..n] && init[..n + 1] == rs[..n + 1];
    }
  }

  /** Records do not overlap: each ends at or before the start of every later one. */
  lemma {:induction false} ExtentsDisjoint(lz: Lz4, rs: seq<Record>, m: nat, n: nat)
    requires AllStorable(lz, rs) && m < n < |rs|
    ensures Offset(lz, rs, m) + |RecordBytes(lz, rs[m])| <= Offset(lz, rs, n)
    decreases n - m
  {
    RecordExtent(lz, rs, m);
    if m + 1 < n {
      ExtentsDisjoint(lz, rs, m + 1, n);
    }
  }

  /** Reading a file at the offset of record `n` gives its blob and the offset of the next record. */
  lemma ReadAtOffset(lz: Lz4, rs: seq<Record>, n: nat, region: seq<Byte>)
    requires AllStorable(lz, rs) && n < |rs| && FileBytes(lz, rs) <= region
    ensures Offset(lz, rs, n) <= |region| && RecordReadable(region[Offset(lz, rs, n)..])
    ensures ReadRecord(lz, region[Offset(lz, rs, n)..]) == Read(rs[n].blob, |RecordBytes(lz, rs[n])|)
    ensures Offset(lz, rs, n + 1) == Offset(lz, rs, n) + |RecordBytes(lz, rs[n])| <= |FileBytes(lz, rs)|
  {
    hide FileBytes, RecordBytes, ReadRecord, RecordReadable, Faithful;
    RecordExtent(lz, rs, n);
    var from, to := Offset(lz, rs, n), Offset(lz, rs, n + 1);
    RecordRoundTrip(lz, rs[n], region[to..]);
    assert region[from..to] == FileBytes(lz, rs)[from..to];
    assert region[from..] == region[from..to] + region[to..];
  }

  /** Appending a record to a file. */
  lemma AppendRecord(lz: Lz4, rs: seq<Record>, r: Record)
    requires AllStorable(lz, rs) && Storable(r)
    ensures AllStorable(lz, rs + [r])
    ensures FileBytes(lz, rs + [r]) == FileBytes(lz, rs) + RecordBytes(lz, r)
    ensures Offset(lz, rs + [r], |rs|) == |FileBytes(lz, rs)|
    ensures forall n | 0 <= n <= |rs| :: Offset(lz, rs + [r], n) == Offset(lz, rs, n)
  {
    assert (rs + [r])[..|rs|] == rs;
    forall n | 0 <= n <= |rs|
      ensures (rs + [r])[..n] == rs[..n]
    {
    }
  }
}
