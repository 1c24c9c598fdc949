/**
  The stored form of a bitmap: its size in bits, the number of its words, and the words.
 */
module EwahSerialization {
  import opened Words
  import opened EwahBits
  import opened EwahFormat
  import opened EwahNegation
  import opened EwahAppend
  import opened EwahRestored
  import opened Bytes

  function WordBytes(b: seq<Word>): (s: seq<Byte>)
    ensures |s| == 8 * |b|
  {
    if b == [] then [] else LittleEndian(b[0], 8) + WordBytes(b[1..])
  }

  /** `Serialize` */
  function Serialize(sizeinbits: nat, buffer: seq<Word>): seq<Byte> {
    LittleEndian(sizeinbits, 8) + LittleEndian(|buffer|, 8) + WordBytes(buffer)
  }

  lemma ByteLimit()
    ensures Pow256(8) == WORD_LIMIT
  {
    assert Pow256(4) == 0x1_0000_0000;
  }

  lemma {:induction false} ReadWord(s: seq<Byte>)
    requires |s| == 8
    ensures FromLittleEndian(s) < WORD_LIMIT
  {
    ReadBound(s);
    ByteLimit();
  }

  lemma {:induction false} ReadBound(s: seq<Byte>)
    ensures FromLittleEndian(s) < Pow256(|s|)
  {
    if s != [] {
      ReadBound(s[1..]);
    }
  }

  /** `readBuffer` */
  function ReadWords(s: seq<Byte>): (b: seq<Word>)
    requires |s| % 8 == 0
    ensures 8 * |b| == |s|
  {
    if s == [] then []
    else
      ReadWord(s[..8]);
      [FromLittleEndian(s[..8])] + ReadWords(s[8..])
  }

  /** The size in bits and the words that `Deserialize` reads; the stored word count must fit the length. */
  function Deserialize(s: seq<Byte>): (nat, seq<Word>)
    requires Restorable(s)
  {
    (FromLittleEndian(s[..8]), ReadWords(s[16..]))
  }

  predicate Restorable(s: seq<Byte>) {
    |s| >= 16 && |s| % 8 == 0 && (|s| - 16) / 8 == FromLittleEndian(s[8..16])
  }

  /** The bytes of a stored bitmap, place by place: the size, the number of words, and the words, each lowest byte first. */
  ghost predicate RowBytes(row: seq<Byte>, sizeinbits: nat, buffer: seq<Word>) {
    && |row| == 16 + 8 * |buffer|
    && (forall k | 0 <= k < 8 :: row[k] == ByteOf(sizeinbits, k))
    && (forall k | 0 <= k < 8 :: row[8 + k] == ByteOf(|buffer|, k))
    && (forall j, k | 0 <= j < |buffer| && 0 <= k < 8 :: row[16 + 8 * j + k] == ByteOf(buffer[j], k))
  }

  lemma {:induction false} WordBytesAt(b: seq<Word>, j: nat, k: nat)
    requires j < |b| && k < 8
    ensures WordBytes(b)[8 * j + k] == ByteOf(b[j], k)
  {
    hide ByteOf, LittleEndian;
    LittleEndianAt(b[j], 8, k);
    if j > 0 {
      WordBytesAt(b[1..], j - 1, k);
    }
  }

  lemma {:induction false} ReadWordsAt(s: seq<Byte>, j: nat, k: nat)
    requires |s| % 8 == 0 && 8 * j < |s| && k < 8
    ensures ByteOf(ReadWords(s)[j], k) == s[8 * j + k]
  {
    hide ByteOf, FromLittleEndian;
    if j == 0 {
      FromLittleEndianAt(s[..8], k);
      ReadWord(s[..8]);
    } else {
      ReadWordsAt(s[8..], j - 1, k);
    }
  }

  /** What is stored, byte by byte. */
  lemma SerializeBytes(sizeinbits: nat, buffer: seq<Word>)
    ensures RowBytes(Serialize(sizeinbits, buffer), sizeinbits, buffer)
  {
    hide ByteOf, LittleEndian, WordBytes;
    var row := Serialize(sizeinbits, buffer);
    forall k | 0 <= k < 8
      ensures row[k] == ByteOf(sizeinbits, k) && row[8 + k] == ByteOf(|buffer|, k)
    {
      LittleEndianAt(sizeinbits, 8, k);
      LittleEndianAt(|buffer|, 8, k);
    }
    forall j, k | 0 <= j < |buffer| && 0 <= k < 8
      ensures row[16 + 8 * j + k] == ByteOf(buffer[j], k)
    {
      WordBytesAt(buffer, j, k);
    }
  }

  /** And what is read from any row: the size and the words that have its bytes. */
  lemma DeserializeBytes(row: seq<Byte>)
    requires Restorable(row)
    ensures var (size, b) := Deserialize(row); RowBytes(row, size, b) && size < WORD_LIMIT
  {
    hide ByteOf, FromLittleEndian, ReadWords;
    var (size, b) := Deserialize(row);
    ReadWord(row[..8]);
    forall k | 0 <= k < 8
      ensures row[k] == ByteOf(size, k) && row[8 + k] == ByteOf(|b|, k)
    {
      FromLittleEndianAt(row[..8], k);
      FromLittleEndianAt(row[8..16], k);
    }
    forall j, k | 0 <= j < |b| && 0 <= k < 8
      ensures row[16 + 8 * j + k] == ByteOf(b[j], k)
    {
      ReadWordsAt(row[16..], j, k);
    }
  }

  lemma {:induction false} WordBytesRoundTrip(b: seq<Word>)
    ensures ReadWords(WordBytes(b)) == b
  {
    if b != [] {
      var s := WordBytes(b);
      ByteLimit();
      LittleEndianRoundTrip(b[0], 8);
      assert s[..8] == LittleEndian(b[0], 8) && s[8..] == WordBytes(b[1..]);
      WordBytesRoundTrip(b[1..]);
    }
  }

  /** Reading back what was stored gives the size and the words. */
  lemma SerializeRoundTrip(sizeinbits: nat, buffer: seq<Word>)
    requires sizeinbits < WORD_LIMIT && |buffer| < WORD_LIMIT
    ensures var s := Serialize(sizeinbits, buffer);
            Restorable(s) && Deserialize(s) == (sizeinbits, buffer)
  {
    hide WordBytes, ReadWords, Pow256, LittleEndian, FromLittleEndian;
    var s := Serialize(sizeinbits, buffer);
    ByteLimit();
    LittleEndianRoundTrip(sizeinbits, 8);
    LittleEndianRoundTrip(|buffer|, 8);
    assert s[..8] == LittleEndian(sizeinbits, 8) && s[8..16] == LittleEndian(|buffer|, 8);
    assert s[16..] == WordBytes(buffer);
    WordBytesRoundTrip(buffer);
  }

  /** A compressed buffer is at most twice as long as the words it stands for. */
  lemma {:induction false} CompressedSize(b: seq<Word>)
    requires Parses(b) && NoEmptyMarker(b)
    ensures |b| <= 2 * |Expand(b)|
  {
    if b != [] {
      CompressedSize(b[Span(b[0])..]);
    }
  }

  lemma BufferFitsUint64(b: seq<Word>, last: nat, size: nat)
    requires WellFormed(b, last) && Parses(b) && |Expand(b)| == WordCount(size) && size < WORD_LIMIT
    ensures |b| < WORD_LIMIT
  {
    ExpandAtLast(b, last);
    CompressedSize(b[..last]);
  }

  /** The bitmap of 0 and 200: two markers with a literal each. */
  function TwoMarkers(): seq<Word> {
    [Marker(false, 0, 1), OneBit(0), Marker(false, 2, 1), OneBit(8)]
  }

  /** It is the one that `set` builds. */
  lemma TwoMarkersStored()
    ensures StoredForm(TwoMarkers(), 201, {0, 200}, 2)
  {
    hide StoredForm, AfterSet, RunningLength, LiteralCount, RunningBit;
    EmptyForm();
    AfterSetStored([0], 0, {}, 0, 0);
    FirstSet();
    var first := [Marker(false, 0, 1), OneBit(0)];
    AfterSetStored(first, 1, {} + {0}, 0, 200);
    SecondSet(first);
    assert {} + {0} + {200} == {0, 200};
  }

  lemma FirstSet()
    ensures Tail([0], 0).Hangs() && AfterSet(Tail([0], 0), 0, 0) == Tail([Marker(false, 0, 1), OneBit(0)], 0)
  {
    hide RunningLength, LiteralCount;
    ZeroMarker();
  }

  /** The row of the single deleted id 0, in full. */
  lemma RowOfFirstId()
    ensures Tail([0], 0).Hangs()
    ensures Serialize(1, AfterSet(Tail([0], 0), 0, 0).buffer) ==
            [1, 0, 0, 0, 0, 0, 0, 0] + [2, 0, 0, 0, 0, 0, 0, 0] + [0, 0, 0, 0, 2, 0, 0, 0] + [1, 0, 0, 0, 0, 0, 0, 0]
  {
    hide AfterSet, RunningLength, LiteralCount, LittleEndian, FromLittleEndian, Pow256;
    FirstSet();
    SmallNumber(1);
    SmallNumber(2);
    MarkerOfOneLiteral();
    var m, w := Marker(false, 0, 1), OneBit(0);
    assert WordBytes([m, w]) == LittleEndian(m, 8) + LittleEndian(w, 8) by {
      assert [m, w][1..] == [w] && [w][1..] == [];
    }
  }

  lemma SmallNumber(x: Byte)
    ensures LittleEndian(x, 8) == [x, 0, 0, 0, 0, 0, 0, 0]
  {
    assert LittleEndian(0, 4) == [0, 0, 0, 0];
    assert LittleEndian(0, 7) == [0, 0, 0, 0, 0, 0, 0];
  }

  lemma MarkerOfOneLiteral()
    ensures LittleEndian(Marker(false, 0, 1), 8) == [0, 0, 0, 0, 2, 0, 0, 0]
  {
    hide RunningLength, LiteralCount;
    assert Marker(false, 0, 1) == 0x2_0000_0000;
    assert LittleEndian(2, 4) == [2, 0, 0, 0];
    assert LittleEndian(0x200, 5) == [0, 2, 0, 0, 0];
    assert LittleEndian(0x2_0000, 6) == [0, 0, 2, 0, 0, 0];
    assert LittleEndian(0x200_0000, 7) == [0, 0, 0, 2, 0, 0, 0];
  }

  lemma SecondSet(first: seq<Word>)
    requires first == [Marker(false, 0, 1), OneBit(0)]
    ensures Tail(first, 0).Hangs() && AfterSet(Tail(first, 0), 1, 200) == Tail(TwoMarkers(), 2)
  {
    hide RunningLength, LiteralCount, RunMarkers, FastAdd;
    FastAddPushes(Tail(first, 0), false, 2);
    RunMarkersStep(false, 2);
    assert first + [Marker(false, 2, 0)] == [first[0], first[1], Marker(false, 2, 0)];
  }

  /**
    `Deserialize` leaves `lastRLW` at 0. Of the bitmap of 0 and 200, restored, `set` makes the right
    one for 201 and for 400, but for 300 a buffer that does not even parse.
   */
  lemma AppendAfterDeserializeBreaks()
    ensures var b := TwoMarkers();
            && StoredForm(b, 201, {0, 200}, 2) && Tail(b, 0).Hangs()
            && ReadsAs(AfterSet(Tail(b, 0), 201, 201).buffer, {0, 200, 201})
            && ReadsAs(AfterSet(Tail(b, 0), 201, 400).buffer, {0, 200, 400})
            && !Parses(AfterSet(Tail(b, 0), 201, 300).buffer)
  {
    hide StoredForm, AfterSet, Bit, Bitwise, ReadsAs;
    hide RunningLength, LiteralCount;
    var b := TwoMarkers();
    TwoMarkersStored();
    var _ := AppendIsRight(b, 201, {0, 200}, 2, 0, 201);
    var _ := AppendIsRight(b, 201, {0, 200}, 2, 0, 400);
    NotCompleted(b);
    assert {0, 200} + {201} == {0, 200, 201} && {0, 200} + {400} == {0, 200, 400};
    NextWordInFirst(b);
  }

  lemma NotCompleted(b: seq<Word>)
    requires b != [] && b[|b| - 1] == OneBit(8)
    ensures LastWith(b, 201) != ALL_ONES
  {
    hide Bitwise;
    WordOpBit(Or, OneBit(8), OneBit(9), 0);
    Pow2Bit(8, 0);
    Pow2Bit(9, 0);
    FillWordBit(true, 0);
  }

  lemma NextWordInFirst(b: seq<Word>)
    requires b == TwoMarkers()
    ensures Tail(b, 0).Hangs() && !Parses(AfterSet(Tail(b, 0), 201, 300).buffer)
  {
    hide Expand, Parses, NoEmptyMarker, RunningLength, LiteralCount, Pow2;
    TooManyLiterals(WithLiteralCount(b[0], 2), b[1], b[2]);
    assert AfterSet(Tail(b, 0), 201, 300).buffer == [WithLiteralCount(b[0], 2), b[1], b[2], OneBit(8), OneBit(44)];
  }

  /** Read as markers, the words `1 << 8` and `1 << 44` announce 0 and 2048 literals. */
  lemma BitsAsMarkers()
    ensures LiteralCount(OneBit(8)) == 0 && LiteralCount(OneBit(44)) == 2048
  {
    assert Pow2(8) == 256 && Pow2(11) == 2048;
    FieldLimits();
    Pow2Sum(33, 11);
    MarkerFields(0, 128, 0);
    MarkerFields(0, 0, 2048);
  }

  lemma TooManyLiterals(m: Word, x: Word, y: Word)
    requires LiteralCount(m) == 2
    ensures !Parses([m, x, y, OneBit(8), OneBit(44)])
  {
    hide Expand, NoEmptyMarker, OnlyLastEmpty, RunningLength, LiteralCount, Pow2;
    BitsAsMarkers();
    var w1, w := OneBit(8), OneBit(44);
    ExpandSegment([m, x, y]);
    ExpandSegment([w1]);
    assert Span([w][0]) > |[w]|;
    ParsesSuffix([w1], [w]);
    ParsesSuffix([m, x, y], [w1] + [w]);
    assert [m, x, y, w1, w] == [m, x, y] + ([w1] + [w]);
  }
}
