/**
  The deleted ids of a collection: the set itself, its persisted bitmap, and the cached bitmap
  of the live ids that queries intersect with.
 */
module DeleteVectors {
  import opened Words
  import opened EwahBits
  import opened EwahFormat
  import opened EwahAppend
  import opened EwahRestored
  import opened EwahCompletion
  import opened EwahBitmap
  import opened EwahSerialization
  import opened EwahReaders
  import opened EwahIterator
  import opened Bytes
  import opened OrderedSets

  /** The stored row reads back as the bitmap of `ids`, in the form that ascending appends leave. */
  ghost predicate StoredAs(row: seq<Byte>, ids: set<nat>, last: nat) {
    Restorable(row) && var (size, b) := Deserialize(row); StoredForm(b, size, ids, last)
  }

  /** What is stored is the set `ids`; an empty row stands for NULL. */
  ghost predicate Persists(row: seq<Byte>, ids: set<nat>) {
    if row == [] then ids == {} else exists last :: StoredAs(row, ids, last)
  }

  /** A stored row that can be read: NULL, or a bitmap whose buffer has its last marker at `last`. */
  ghost predicate ReadableAt(row: seq<Byte>, last: nat) {
    row == [] || (Restorable(row) && var b := Deserialize(row).1; WellFormed(b, last) && Parses(b))
  }

  ghost predicate Readable(row: seq<Byte>) {
    exists last :: ReadableAt(row, last)
  }

  /** The ids that are read from it, whatever was meant to be stored. */
  ghost function RowIds(row: seq<Byte>): set<nat>
    requires Readable(row)
  {
    if row == [] then {} else Ones(Expand(Deserialize(row).1))
  }

  /** The row can be taken for a bitmap, but not for that of `ids`. */
  ghost predicate Misread(row: seq<Byte>, ids: set<nat>) {
    Restorable(row) && !ReadsAs(Deserialize(row).1, ids)
  }

  /** What is stored rightly is what is read. */
  lemma PersistsIsRead(row: seq<Byte>, ids: set<nat>)
    requires Persists(row, ids)
    ensures Readable(row) && RowIds(row) == ids && !Misread(row, ids)
  {
    hide StoredForm, Expand, Parses, NoEmptyMarker, Ones, Deserialize, FromLittleEndian;
    if row == [] {
      assert ReadableAt(row, 0);
    } else {
      var last :| StoredAs(row, ids, last);
      var (size, b) := Deserialize(row);
      FormOf(b, size, ids, last);
      assert ReadableAt(row, last);
    }
  }

  /** NULL, or a bitmap of a single marker with its literals. */
  predicate SingleMarker(row: seq<Byte>) {
    row == [] || (Restorable(row) && var b := Deserialize(row).1; b != [] && Span(b[0]) == |b|)
  }

  /** Only a marker at the very start can be both the first and the last one. */
  lemma LastMarkerIsUnique(b: seq<Word>, last: nat)
    requires WellFormed(b, last)
    ensures WellFormed(b, 0) <==> last == 0
    ensures last == 0 <==> Span(b[0]) == |b|
  {
    if last > 0 {
      assert b[..last][0] == b[0];
    }
  }

  lemma FormReads(b: seq<Word>, size: nat, ids: set<nat>, last: nat)
    requires StoredForm(b, size, ids, last)
    ensures ReadsAs(b, ids)
  {
  }

  /** A bitmap of ids that is stored reads back as them. */
  lemma RightRow(b: seq<Word>, size: nat, ids: set<nat>, last: nat)
    requires StoredForm(b, size, ids, last) && AllBelow(ids, WORD_LIMIT - 1)
    ensures Persists(Serialize(size, b), ids)
  {
    hide StoredForm, Expand, Parses, NoEmptyMarker, Ones, Deserialize, Restorable;
    FormOf(b, size, ids, last);
    FormEnds(b, size, ids, last);
    BufferFitsUint64(b, last, size);
    SerializeRoundTrip(size, b);
    assert |Serialize(size, b)| >= 16;
    assert StoredAs(Serialize(size, b), ids, last);
  }

  /** One that does not read as them does not either when it is stored. */
  lemma WrongRow(b: seq<Word>, size: nat, ids: set<nat>)
    requires !ReadsAs(b, ids) && size < WORD_LIMIT && |b| < WORD_LIMIT
    ensures var row := Serialize(size, b); Misread(row, ids) && !Persists(row, ids)
    ensures Restorable(Serialize(size, b)) && Deserialize(Serialize(size, b)) == (size, b)
  {
    hide StoredForm, ReadsAs, Deserialize, Restorable;
    SerializeRoundTrip(size, b);
    var row := Serialize(size, b);
    assert row != [] by {
      assert |row| >= 16;
    }
    if Persists(row, ids) {
      var last :| StoredAs(row, ids, last);
      FormReads(b, size, ids, last);
    }
  }

  /** What ascending calls of `set` make of the empty bitmap. */
  ghost function Built(s: seq<nat>): (t: Tail)
    requires Ascending(s)
    ensures t.Hangs()
  {
    ZeroMarker();
    if s == [] then Tail([0], 0)
    else AfterSet(Built(s[..|s| - 1]), EndOf(s[..|s| - 1]), s[|s| - 1])
  }

  ghost predicate BuiltBy(t: Tail, ids: set<nat>, s: seq<nat>) {
    Ascending(s) && (forall x: nat :: x in s <==> x in ids) && t == Built(s)
  }

  /** The bitmap made by giving the ids to `set` one by one, lowest first. */
  ghost predicate BuiltFrom(t: Tail, ids: set<nat>) {
    exists s :: BuiltBy(t, ids, s)
  }

  /** The size of the bitmap then. */
  ghost function EndOf(s: seq<nat>): nat {
    if s == [] then 0 else s[|s| - 1] + 1
  }

  lemma BuildNothing()
    ensures BuiltBy(Tail([0], 0), {}, []) && EndOf([]) == 0
  {
  }

  lemma BuildMore(t: Tail, ids: set<nat>, s: seq<nat>, size: nat, id: nat)
    requires BuiltBy(t, ids, s) && size == EndOf(s) && forall x | x in ids :: x < id
    ensures t.Hangs() && size <= id && BuiltBy(AfterSet(t, size, id), ids + {id}, s + [id]) && EndOf(s + [id]) == id + 1
  {
    hide AfterSet;
    assert forall k | 0 <= k < |s| :: s[k] in ids;
    assert (s + [id])[..|s|] == s;
  }

  /** `Refused` and `NotStored` are the two exceptions; only the second undoes what was begun. */
  datatype DeleteOutcome = Deleted | NotStored | Refused

  class DeleteVector {
    var nextDocumentId: nat
    var deletedDocIds: set<nat>
    var deleteVecBitmap: EwahBoolArray
    var deleteVecSerializationBitmap: EwahBoolArray
    var isDirty: bool
    /** The bitmap column of the collection's row; empty stands for NULL. */
    var stored: seq<Byte>
    ghost var Repr: set<object>

    ghost predicate Owned()
      reads this
    {
      && Repr == {this, deleteVecBitmap, deleteVecSerializationBitmap}
      && deleteVecBitmap != deleteVecSerializationBitmap
    }

    /** The set of live ids. */
    ghost function Live(): set<nat>
      reads this
    {
      Range(nextDocumentId) - deletedDocIds
    }

    /** The cached bitmap, unless marked dirty, is the set of live ids; deleted ids are ids. */
    ghost predicate Coherent()
      reads this, Repr
      ensures Coherent() ==> Owned()
    {
      && Owned()
      && AllBelow(deletedDocIds, nextDocumentId) && nextDocumentId < WORD_LIMIT
      && (!isDirty ==> deleteVecBitmap.Valid() && deleteVecBitmap.Bits() == Live())
      && (!isDirty && deleteVecBitmap.sizeinbits == 0 ==> nextDocumentId == 0)
    }

    /** The serialization bitmap is the set of deleted ids, and knows its last marker. */
    ghost predicate InStep()
      reads this, Repr
    {
      var bm := deleteVecSerializationBitmap;
      Owned() && StoredForm(bm.buffer, bm.sizeinbits, deletedDocIds, bm.lastRLW)
    }

    /** The same, except that the position of the last marker may be 0 still, as after a restore. */
    ghost predicate TrackedAt(last: nat)
      reads this, Repr
    {
      var bm := deleteVecSerializationBitmap;
      Owned() && StoredForm(bm.buffer, bm.sizeinbits, deletedDocIds, last) && (bm.lastRLW == 0 || bm.lastRLW == last)
    }

    ghost predicate Tracked()
      reads this, Repr
    {
      exists last :: TrackedAt(last)
    }

    /** What `set` needs in order not to leave the buffer. */
    ghost predicate Attached()
      reads this, Repr
      ensures Attached() ==> Owned()
    {
      Owned() && deleteVecSerializationBitmap.End().Hangs()
    }

    /** The serialization bitmap ends at a deleted id, so that `set` accepts every larger id that is not deleted. */
    ghost predicate Ended()
      reads this, Repr
    {
      var bm := deleteVecSerializationBitmap;
      Owned() && (bm.sizeinbits > 0 ==> bm.sizeinbits - 1 in deletedDocIds)
    }

    /** Deleting `docId` makes the serialization bitmap be rebuilt. */
    ghost predicate Rebuilds(docId: nat)
      reads this
    {
      exists d :: d in deletedDocIds && d > docId
    }

    /** Deleting `docId` rebuilds the serialization bitmap, or the code's guard for appending holds. */
    ghost predicate Sound(docId: nat)
      requires Attached()
      reads this, Repr
    {
      var bm := deleteVecSerializationBitmap;
      Rebuilds(docId) || (bm.sizeinbits <= docId && AppendsRightly(bm.End(), bm.sizeinbits, docId))
    }

    /** `docId` has been given to `set`, whatever the serialization bitmap was, and the result has been stored. */
    twostate predicate SetAndStored(docId: nat)
      requires old(Attached())
      reads this, Repr
    {
      var bm, before := deleteVecSerializationBitmap, old(deleteVecSerializationBitmap);
      && Owned() && old(before.sizeinbits) <= docId && bm.sizeinbits == docId + 1
      && bm.End() == AfterSet(old(before.End()), old(before.sizeinbits), docId)
      && stored == Serialize(docId + 1, bm.buffer)
    }

    /** The deleted ids, the stored row and the standing of the serialization bitmap are as before. */
    twostate predicate KeepsDeletions()
      reads this, Repr
    {
      && deletedDocIds == old(deletedDocIds) && stored == old(stored)
      && (old(Attached()) ==> Attached()) && (old(Ended()) ==> Ended()) && (old(Tracked()) ==> Tracked()) && (old(InStep()) ==> InStep())
    }

    /** What is stored reads back as the set of deleted ids. */
    ghost predicate Persisted()
      reads this
    {
      Persists(stored, deletedDocIds)
    }

    /** What opening a collection on a row gives: the ids read from it, and, if it is right, a bitmap that is. */
    ghost predicate Opened(row: seq<Byte>)
      requires Readable(row)
      reads this, Repr
    {
      && Attached() && stored == row && deletedDocIds == RowIds(row) && deleteVecSerializationBitmap.lastRLW == 0
      && (row != [] ==> RowBytes(row, deleteVecSerializationBitmap.sizeinbits, deleteVecSerializationBitmap.buffer))
      && (Persisted() ==> Tracked() && (InStep() <==> SingleMarker(row)))
    }

    /**
      Opening a collection with any row that can be read. The position of the last marker is not
      stored; it is right exactly when the bitmap is a single marker with its literals.
     */
    constructor (nextDocId: nat, row: seq<Byte>)
      requires nextDocId < WORD_LIMIT && Readable(row)
      ensures Opened(row) && fresh(Repr) && nextDocumentId == nextDocId
      ensures Coherent() <==> AllBelow(deletedDocIds, nextDocId)
    {
      hide StoredForm, SingleMarker, Persists, Readable, RowIds, RowBytes, Tracked, InStep, Attached;
      hide Expand, Parses, NoEmptyMarker, OnlyLastEmpty, Ones, WellFormed, WordCount, RunningLength, LiteralCount;
      nextDocumentId := nextDocId;
      deletedDocIds := {};
      deleteVecBitmap := new EwahBoolArray();
      deleteVecSerializationBitmap := new EwahBoolArray();
      isDirty := nextDocId > 0;
      stored := row;
      new;
      Repr := {this, deleteVecBitmap, deleteVecSerializationBitmap};
      LoadBitmap();
    }

    lemma TrackedIsAttached()
      requires Tracked()
      ensures Attached() && Ended()
    {
      hide Expand, Parses, NoEmptyMarker, Ones, Packed;
      var last :| TrackedAt(last);
      FirstMarkerHangs(deleteVecSerializationBitmap.buffer, last);
    }

    /** Restores the serialization bitmap from the stored row, if any, except for the position of its last marker. */
    method LoadBitmap()
      requires Owned() && Readable(stored) && deletedDocIds == {}
      requires var bm := deleteVecSerializationBitmap; bm.buffer == [0] && bm.lastRLW == 0 && bm.sizeinbits == 0
      modifies this`deletedDocIds, deleteVecSerializationBitmap
      ensures Opened(stored)
    {
      hide Expand, Parses, NoEmptyMarker, Ones, Deserialize, Restorable, StoredForm, Persists, RowBytes;
      var bm := deleteVecSerializationBitmap;
      if stored == [] {
        EmptyForm();
        assert TrackedAt(0);
        TrackedIsAttached();
        assert SingleMarker(stored);
        return;
      }
      ghost var last :| ReadableAt(stored, last);
      var (size, b) := Deserialize(stored);
      bm.buffer := b;
      bm.sizeinbits := size;
      deletedDocIds := ReadIds(b, last);
      DeserializeBytes(stored);
      FirstMarkerHangs(b, last);
      if Persisted() {
        RestoredIsTracked();
      }
    }

    /** A right row that has just been restored. */
    lemma RestoredIsTracked()
      requires Owned() && stored != [] && Persisted() && deleteVecSerializationBitmap.lastRLW == 0
      requires Deserialize(stored) == (deleteVecSerializationBitmap.sizeinbits, deleteVecSerializationBitmap.buffer)
      ensures Tracked() && (InStep() <==> SingleMarker(stored))
    {
      hide Expand, Parses, NoEmptyMarker, Ones, Deserialize, Restorable, StoredForm;
      var (size, b) := Deserialize(stored);
      var last :| StoredAs(stored, deletedDocIds, last);
      assert TrackedAt(last);
      FormOf(b, size, deletedDocIds, last);
      LastMarkerIsUnique(b, last);
      if StoredForm(b, size, deletedDocIds, 0) {
        FormOf(b, size, deletedDocIds, 0);
      }
    }

    /** Puts the ids into an empty bitmap, in ascending order. */
    method AddAll(bitmap: EwahBoolArray, ids: set<nat>)
      requires bitmap.buffer == [0] && bitmap.lastRLW == 0 && bitmap.sizeinbits == 0
      modifies bitmap
      ensures StoredForm(bitmap.buffer, bitmap.sizeinbits, ids, bitmap.lastRLW) && BuiltFrom(bitmap.End(), ids)
    {
      hide StoredForm, AfterSet, BuiltBy, EndOf;
      EmptyForm();
      BuildNothing();
      var rest := ids;
      ghost var s: seq<nat> := [];
      assert ids - rest == {};
      while rest != {}
        invariant rest <= ids && StoredForm(bitmap.buffer, bitmap.sizeinbits, ids - rest, bitmap.lastRLW)
        invariant forall k, x | k in ids - rest && x in rest :: k < x
        invariant BuiltBy(bitmap.End(), ids - rest, s) && bitmap.sizeinbits == EndOf(s)
        decreases rest
      {
        var id := Least(rest);
        FormEnds(bitmap.buffer, bitmap.sizeinbits, ids - rest, bitmap.lastRLW);
        AfterSetStored(bitmap.buffer, bitmap.sizeinbits, ids - rest, bitmap.lastRLW, id);
        BuildMore(bitmap.End(), ids - rest, s, bitmap.sizeinbits, id);
        s := s + [id];
        var added := bitmap.Set(id);
        assert added;
        assert ids - rest + {id} == ids - (rest - {id});
        rest := rest - {id};
      }
      assert ids - rest == ids;
      assert BuiltBy(bitmap.End(), ids, s);
    }

    /**
      The largest deleted id is given to the serialization bitmap; any other makes it be rebuilt.
      What was read from a wrong row may make the bitmap refuse the id, which then stays in the set.
      Otherwise the set is right, and the bitmap and the stored row stay right under the code's own
      guard, and go wrong outside it.
     */
    method OnDocumentDeleted(docId: nat, storeSucceeds: bool) returns (outcome: DeleteOutcome)
      requires Coherent() && Attached() && docId < nextDocumentId && docId !in deletedDocIds
      modifies Repr
      ensures Attached() && fresh(Repr - old(Repr)) && nextDocumentId == old(nextDocumentId)
      ensures outcome.Refused? <==> !old(Rebuilds(docId)) && docId < old(deleteVecSerializationBitmap.sizeinbits)
      ensures outcome.Refused? ==>
                && !old(Ended()) && deletedDocIds == old(deletedDocIds) + {docId} && stored == old(stored)
                && deleteVecSerializationBitmap.End() == old(deleteVecSerializationBitmap.End())
                && deleteVecSerializationBitmap.sizeinbits == old(deleteVecSerializationBitmap.sizeinbits)
                && (Coherent() <==> old(isDirty))
      ensures !outcome.Refused? ==> Coherent() && Ended() && (outcome.Deleted? <==> storeSucceeds)
      ensures outcome.Deleted? ==> deletedDocIds == old(deletedDocIds) + {docId} && isDirty
      ensures outcome.Deleted? ==>
                RowBytes(stored, deleteVecSerializationBitmap.sizeinbits, deleteVecSerializationBitmap.buffer)
      ensures outcome.NotStored? ==>
                deletedDocIds == old(deletedDocIds) && isDirty == old(isDirty) && stored == old(stored)
                && InStep() && BuiltFrom(deleteVecSerializationBitmap.End(), deletedDocIds)
      ensures outcome.Deleted? ==>
                if old(Rebuilds(docId)) then
                  InStep() && Persisted() && BuiltFrom(deleteVecSerializationBitmap.End(), deletedDocIds)
                else SetAndStored(docId)
      ensures outcome.Deleted? && old(Tracked() && Sound(docId)) ==> Tracked() && Persisted()
      ensures outcome.Deleted? && old(Tracked() && !Sound(docId) && |deleteVecSerializationBitmap.buffer| < LARGEST_LITERAL_COUNT) ==>
                !Tracked() && !Persisted() && Misread(stored, deletedDocIds)
      ensures outcome.Deleted? && old(InStep()) ==> InStep() && Persisted()
    {
      hide StoredForm, AfterSet, Range, AppendsRightly, ReadsAs, Persists, Misread, Serialize, RowBytes, BuiltFrom;
      hide Expand, Parses, NoEmptyMarker, OnlyLastEmpty, Ones, WellFormed, WordCount, RunningLength, LiteralCount;
      ghost var ids, t, size := deletedDocIds, deleteVecSerializationBitmap.End(), deleteVecSerializationBitmap.sizeinbits;
      deletedDocIds := deletedDocIds + {docId};
      var added := AddToSerializationBitmap(docId);
      if !added {
        assert docId in old(Live()) && docId !in Live();
        return Refused;
      }
      ghost var rebuilt := Rebuilds(docId);
      if storeSucceeds {
        StoreBitmap();
        isDirty := true;
        if rebuilt {
          InStepIsStored();
        } else if old(InStep() || Tracked()) {
          ghost var last: nat := t.last;
          if !old(InStep()) {
            last :| old(TrackedAt(last));
          }
          AppendedIsStored(t, size, ids, last, docId);
        }
        return Deleted;
      }
      deletedDocIds := deletedDocIds - {docId};
      RebuildSerializationBitmap();
      InStepIsEnded();
      return NotStored;
    }

    lemma InStepIsEnded()
      requires InStep()
      ensures Tracked() && Attached() && Ended()
    {
      hide StoredForm;
      assert TrackedAt(deleteVecSerializationBitmap.lastRLW);
      TrackedIsAttached();
    }

    /** A bitmap in step with the set is stored rightly. */
    lemma InStepIsStored()
      requires InStep() && AllBelow(deletedDocIds, WORD_LIMIT - 1)
      requires stored == Serialize(deleteVecSerializationBitmap.sizeinbits, deleteVecSerializationBitmap.buffer)
      ensures Tracked() && Persisted() && Attached() && Ended()
    {
      hide StoredForm, Persists, Serialize;
      var bm := deleteVecSerializationBitmap;
      RightRow(bm.buffer, bm.sizeinbits, deletedDocIds, bm.lastRLW);
      InStepIsEnded();
    }

    /** A bitmap that `set` has appended to is stored rightly under the guard, and only then. */
    lemma AppendedIsStored(t: Tail, size: nat, ids: set<nat>, last: nat, docId: nat)
      requires StoredForm(t.buffer, size, ids, last) && (t.last == 0 || t.last == last) && t.Hangs() && size <= docId
      requires Owned() && deletedDocIds == ids + {docId} && AllBelow(deletedDocIds, WORD_LIMIT - 1)
      requires deleteVecSerializationBitmap.End() == AfterSet(t, size, docId)
      requires deleteVecSerializationBitmap.sizeinbits == docId + 1
      requires stored == Serialize(docId + 1, deleteVecSerializationBitmap.buffer)
      ensures AppendsRightly(t, size, docId) ==> Tracked() && Persisted()
      ensures !AppendsRightly(t, size, docId) && |t.buffer| < LARGEST_LITERAL_COUNT ==>
                !Tracked() && !Persisted() && Misread(stored, deletedDocIds)
      ensures t.last == last ==> InStep() && Persisted()
    {
      hide StoredForm, Persists, Serialize, AfterSet, AppendsRightly, ReadsAs, Misread;
      var b := deleteVecSerializationBitmap.buffer;
      var last' := AppendIsRight(t.buffer, size, ids, last, t.last, docId);
      if t.last == last {
        AfterSetStored(t.buffer, size, ids, last, docId);
        InStepIsStored();
      }
      if AppendsRightly(t, size, docId) {
        RightRow(b, docId + 1, deletedDocIds, last');
        assert TrackedAt(last');
      } else if |t.buffer| < LARGEST_LITERAL_COUNT {
        AfterSetLength(t, size, docId);
        WrongRow(b, docId + 1, deletedDocIds);
        forall k | TrackedAt(k)
          ensures false
        {
          FormReads(b, docId + 1, deletedDocIds, k);
        }
      }
    }

    /** Brings the serialization bitmap up to the set, which `docId` has just joined, unless it refuses the id. */
    method AddToSerializationBitmap(docId: nat) returns (added: bool)
      requires Attached() && docId in deletedDocIds
      modifies deleteVecSerializationBitmap
      ensures added <==> Rebuilds(docId) || old(deleteVecSerializationBitmap.sizeinbits) <= docId
      ensures Attached()
      ensures Rebuilds(docId) ==> InStep() && Ended() && BuiltFrom(deleteVecSerializationBitmap.End(), deletedDocIds)
      ensures added && !Rebuilds(docId) ==>
                && Ended() && deleteVecSerializationBitmap.sizeinbits == docId + 1
                && deleteVecSerializationBitmap.End() ==
                   AfterSet(old(deleteVecSerializationBitmap.End()), old(deleteVecSerializationBitmap.sizeinbits), docId)
      ensures !added ==>
                && deleteVecSerializationBitmap.End() == old(deleteVecSerializationBitmap.End())
                && deleteVecSerializationBitmap.sizeinbits == old(deleteVecSerializationBitmap.sizeinbits)
    {
      hide StoredForm, AfterSet, BuiltFrom;
      if forall d | d in deletedDocIds :: d <= docId {
        added := deleteVecSerializationBitmap.Set(docId);
      } else {
        RebuildSerializationBitmap();
        InStepIsEnded();
        added := true;
      }
    }

    method RebuildSerializationBitmap()
      requires Owned()
      modifies deleteVecSerializationBitmap
      ensures InStep() && BuiltFrom(deleteVecSerializationBitmap.End(), deletedDocIds)
    {
      hide StoredForm, BuiltFrom;
      deleteVecSerializationBitmap.Reset();
      AddAll(deleteVecSerializationBitmap, deletedDocIds);
    }

    method StoreBitmap()
      requires Owned()
      modifies this`stored
      ensures stored == Serialize(deleteVecSerializationBitmap.sizeinbits, deleteVecSerializationBitmap.buffer)
      ensures RowBytes(stored, deleteVecSerializationBitmap.sizeinbits, deleteVecSerializationBitmap.buffer)
    {
      SerializeBytes(deleteVecSerializationBitmap.sizeinbits, deleteVecSerializationBitmap.buffer);
      stored := Serialize(deleteVecSerializationBitmap.sizeinbits, deleteVecSerializationBitmap.buffer);
    }

    method OnDocumentsInserted(nextDocId: nat)
      requires Coherent() && nextDocumentId < nextDocId < WORD_LIMIT
      modifies this`nextDocumentId, this`isDirty
      ensures Coherent() && nextDocumentId == nextDocId && Repr == old(Repr)
      ensures KeepsDeletions()
    {
      hide StoredForm;
      ghost var last := if Tracked() then var k :| TrackedAt(k); k else 0;
      nextDocumentId := nextDocId;
      isDirty := true;
      assert old(TrackedAt(last)) ==> TrackedAt(last);
    }

    /** The deleted ids and the next id, complemented: the live ids. */
    method Reconstruct(bitmap: EwahBoolArray)
      requires AllBelow(deletedDocIds, nextDocumentId) && bitmap as object != this
      modifies bitmap
      ensures bitmap.Valid() && bitmap.Bits() == Live() && bitmap.sizeinbits == nextDocumentId + 1
    {
      hide Expand, Parses, NoEmptyMarker, Ones, WellFormed, WordCount, Range, RunningLength, LiteralCount, BuiltFrom;
      bitmap.Reset();
      AddAll(bitmap, deletedDocIds);
      // The next id makes the bitmap long enough.
      var added := bitmap.Add(nextDocumentId);
      assert added;
      bitmap.InplaceLogicalNot();
      assert Range(nextDocumentId + 1) - (deletedDocIds + {nextDocumentId}) == Live();
    }

    /** Rebuilds the bitmap of live ids if it is out of date. */
    method MaybeReconstructBitmap()
      requires Coherent()
      modifies this`isDirty, deleteVecBitmap
      ensures Coherent() && !isDirty && KeepsDeletions()
    {
      hide Expand, Parses, NoEmptyMarker, Ones, WellFormed, WordCount, Range, StoredForm;
      ghost var last := if Tracked() then var k :| TrackedAt(k); k else 0;
      if isDirty {
        Reconstruct(deleteVecBitmap);
        isDirty := false;
      }
      assert old(TrackedAt(last)) ==> TrackedAt(last);
    }

    /** The bitmap of the live ids. */
    method GetDeleteVectorBitmap() returns (bm: EwahBoolArray)
      requires Coherent()
      modifies this`isDirty, deleteVecBitmap
      ensures Coherent() && !isDirty && KeepsDeletions()
      ensures bm == deleteVecBitmap && bm.Valid() && bm.Bits() == Live()
      ensures bm.sizeinbits == 0 ==> nextDocumentId == 0
    {
      MaybeReconstructBitmap();
      bm := deleteVecBitmap;
    }
  }

  /** `for (auto docId : bitmap)` */
  method ReadIds(b: seq<Word>, ghost last: nat) returns (ids: set<nat>)
    requires WellFormed(b, last)
    ensures Parses(b) && ids == Ones(Expand(b))
  {
    var it := new SetBitForwardIterator(b, last);
    ghost var ws := Expand(b);
    OnesFromComplete(ws, 0);
    ids := {};
    while !it.AtEnd()
      invariant it.Valid() && fresh(it) && it.ws == ws
      invariant forall i: nat :: i in ids || i in it.Remaining() <==> i in OnesFrom(ws, 0)
      decreases |it.Remaining()|
    {
      ghost var before := it.Remaining();
      var id := it.Deref();
      it.Increment();
      assert before == [id] + it.Remaining();
      ids := ids + {id};
    }
  }

  /** The bitmap of 0 and all of 64 to 127: a literal and a run of ones. */
  function LiteralAndRun(): seq<Word> {
    [Marker(false, 0, 1), OneBit(0)] + [Marker(true, 1, 0)]
  }

  /** Read as a marker, the word `1` is empty. */
  lemma OneAsMarker()
    ensures LiteralCount(OneBit(0)) == 0 && RunningLength(OneBit(0)) == 0
  {
    FieldLimits();
    MarkerFields(1, 0, 0);
  }

  lemma MarkerAsLiteral()
    ensures Ones([OneBit(0), Marker(true, 1, 0)]) == {0, 64, 65}
  {
    hide RunningLength, LiteralCount, Bit, Ones;
    var s := [OneBit(0), Marker(true, 1, 0)];
    assert s[1] == Pow2(2) - 1;
    forall k: nat
      ensures k in Ones(s) <==> k in {0, 64, 65}
    {
      InOnes(s, k);
      Pow2Bit(0, k % WORD_BITS);
      MaskBit(2, k % WORD_BITS);
    }
  }

  /** The second marker is taken for a literal, and the last literal for an empty marker. */
  lemma SecondMarkerAsLiteral()
    ensures var c := [Marker(false, 0, 2)] + [OneBit(0), Marker(true, 1, 0)] + [OneBit(0)];
            WellFormed(c, 3) && Parses(c) && Ones(Expand(c)) == {0, 64, 65}
  {
    hide RunningLength, LiteralCount, Parses, Expand, NoEmptyMarker, Ones, Pow2;
    var m, s, e := Marker(false, 0, 2), [OneBit(0), Marker(true, 1, 0)], [OneBit(0)];
    OneAsMarker();
    MarkerAsLiteral();
    ExpandSegment(e);
    ExpandSegment([m] + s);
    FromFirst(m, s, e);
    assert ([m] + s + e)[..3] == [m] + s;
    assert Run(m) == [] && Run(OneBit(0)) == [] && e[1..] == [];
    assert Expand([m] + s + e) == s;
  }

  /**
    A row that `set` itself leaves, and that refuses an id: 0 and 64 to 127 restored, 128 appended.
    It is read as {0, 64, 65} of 129 bits, so that no id from 66 to 128 can be added.
   */
  lemma RefusingRow() returns (row: seq<Byte>)
    ensures var b := LiteralAndRun();
            && StoredForm(b, 128, {0} + WordAt(64), 2) && Tail(b, 0).Hangs()
            && row == Serialize(129, AfterSet(Tail(b, 0), 128, 128).buffer)
            && Readable(row) && RowIds(row) == {0, 64, 65} && Deserialize(row).0 == 129
  {
    hide StoredForm, AfterSet, RunningLength, LiteralCount, Parses, Expand, NoEmptyMarker, Ones, Serialize, Deserialize, Restorable;
    EmptyForm();
    AfterSetStored([0], 0, {}, 0, 0);
    FirstSet();
    var first, b := [Marker(false, 0, 1), OneBit(0)], LiteralAndRun();
    CompletedAtEnd(first, 1, {} + {0}, 0, 64);
    assert {} + {0} == {0};
    FirstMarkerHangs(b, 2);
    var c := [Marker(false, 0, 2)] + [OneBit(0), Marker(true, 1, 0)] + [OneBit(0)];
    NextLiteral(b);
    SecondMarkerAsLiteral();
    row := Serialize(129, c);
    SerializeRoundTrip(129, c);
    RowLength(129, c);
    assert ReadableAt(row, 3);
  }

  lemma NextLiteral(b: seq<Word>)
    requires b == LiteralAndRun()
    ensures Tail(b, 0).Hangs()
    ensures AfterSet(Tail(b, 0), 128, 128).buffer ==
            [Marker(false, 0, 2)] + [OneBit(0), Marker(true, 1, 0)] + [OneBit(0)]
  {
    hide RunningLength, LiteralCount, FastAdd, Pow2, AddLiteral;
    var rest := [OneBit(0), Marker(true, 1, 0)];
    assert b == [Marker(false, 0, 1)] + rest;
    LiteralBehind(Marker(false, 0, 1), rest, OneBit(0));
    assert Dist(128, 128) == 1 && 128 % WORD_BITS == 0;
  }

  lemma LiteralBehind(m: Word, rest: seq<Word>, w: Word)
    requires LiteralCount(m) <= |rest| && LiteralCount(m) < LARGEST_LITERAL_COUNT
    ensures var t := Tail([m] + rest, 0);
            t.Hangs() && AddLiteral(t, w).buffer == [WithLiteralCount(m, LiteralCount(m) + 1)] + rest + [w]
  {
    hide RunningLength, LiteralCount;
  }

  lemma RowLength(size: nat, b: seq<Word>)
    ensures |Serialize(size, b)| >= 16
  {
  }
}
