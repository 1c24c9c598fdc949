/**
  Delivering the ids of a result: batches of ids, and the virtual-table cursor over them.
 */
module Cursors {
  import opened Words
  import opened EwahBits
  import opened EwahFormat
  import opened EwahBitmap
  import opened EwahReaders
  import opened EwahIterator

  class IDSequence {
    const iter: SetBitForwardIterator
    const vecSize: nat
    /** The ids of the current batch. */
    var current: seq<nat>
    /** All ids of the result, and how many have been delivered in batches. */
    ghost const ids: seq<nat>
    ghost var delivered: nat

    ghost predicate Valid()
      reads this, iter
    {
      && iter.Valid() && vecSize > 0
      && |current| <= delivered <= |ids| && |iter.Remaining()| == |ids| - delivered
      && (forall j | 0 <= j < |iter.Remaining()| :: iter.Remaining()[j] == ids[delivered + j])
      && (forall j | 0 <= j < |current| :: current[j] == ids[delivered - |current| + j])
    }

    constructor (bitmap: EwahBoolArray, vecSize: nat)
      requires bitmap.Structured() && vecSize > 0
      ensures Valid() && fresh(iter) && current == [] && delivered == 0
      ensures ids == OnesFrom(bitmap.Contents(), 0) && this.vecSize == vecSize
    {
      iter := new SetBitForwardIterator(bitmap.buffer, bitmap.lastRLW);
      this.vecSize := vecSize;
      current := [];
      ids := OnesFrom(bitmap.Contents(), 0);
      delivered := 0;
    }

    /** Fills the next batch; false when there is nothing left. */
    method Next() returns (more: bool)
      requires Valid()
      modifies this, iter
      ensures Valid() && more == (old(delivered) < |ids|)
      ensures |current| == delivered - old(delivered)
      ensures delivered == if vecSize <= |ids| - old(delivered) then old(delivered) + vecSize else |ids|
    {
      hide OnesFrom, Bit, Expand, Parses, SetBitForwardIterator.Valid;
      iter.EndIsEmpty();
      current := [];
      if iter.AtEnd() {
        return false;
      }
      var index := 0;
      while index < vecSize && !iter.AtEnd()
        invariant Valid() && 0 <= index == |current| <= vecSize && delivered == old(delivered) + index
        invariant iter.AtEnd() <==> delivered == |ids|
      {
        ghost var before := iter.Remaining();
        var id := iter.Deref();
        iter.Increment();
        iter.EndIsEmpty();
        assert before[0] == id && before[1..] == iter.Remaining();
        current := current + [id];
        delivered := delivered + 1;
        index := index + 1;
      }
      return true;
    }
  }

  class Cursor {
    var idSeq: IDSequence?
    var idSeqIndex: int
    /** How many rows the scan has passed since the last filter. */
    ghost var passed: nat
    /** The last thing asked was whether the scan is over, and it was not. */
    ghost var atRow: bool
    ghost var Repr: set<object>

    ghost predicate Valid()
      reads this, Repr
      ensures Valid() ==> this in Repr
    {
      && this in Repr && idSeqIndex >= -1
      && (idSeq != null ==>
            && idSeq in Repr && idSeq.iter in Repr && this != idSeq as object && this != idSeq.iter as object
            && idSeq.Valid()
            && passed <= |idSeq.ids|
            && (if 0 <= idSeqIndex < |idSeq.current| then passed == idSeq.delivered - |idSeq.current| + idSeqIndex
                else passed == idSeq.delivered)
            && (atRow ==> 0 <= idSeqIndex < |idSeq.current|))
      && (idSeq == null ==> !atRow)
    }

    constructor ()
      ensures Valid() && idSeq == null && Repr == {this}
    {
      Repr := {this};
      idSeq := null;
      idSeqIndex := -1;
      passed := 0;
      atRow := false;
    }

    /** Starts a scan over the ids of `bitmap`. The index within the batch is left as it was. */
    method Filter(bitmap: EwahBoolArray, vecSize: nat)
      requires Valid() && bitmap.Structured() && vecSize > 0
      modifies this
      ensures Valid() && idSeq != null && fresh(Repr - {this}) && passed == 0 && !atRow
      ensures idSeq.ids == OnesFrom(bitmap.Contents(), 0)
    {
      hide SetBitForwardIterator.Valid, OnesFrom, WellFormed, Expand, Parses, Bit;
      idSeq := new IDSequence(bitmap, vecSize);
      Repr := {this, idSeq, idSeq.iter};
      passed := 0;
      atRow := false;
    }

    /** Whether every id has been passed; otherwise the cursor is at the next row. */
    method Eof() returns (over: bool)
      requires Valid() && idSeq != null
      modifies Repr
      ensures Valid() && Repr == old(Repr) && idSeq == old(idSeq) && passed == old(passed)
      ensures over <==> passed == |idSeq.ids|
      ensures atRow == !over
    {
      hide SetBitForwardIterator.Valid, OnesFrom;
      if idSeqIndex == -1 {
        var more := idSeq.Next();
        if more {
          idSeqIndex := 0;
          atRow := true;
          return false;
        }
      } else if idSeqIndex < |idSeq.current| {
        atRow := true;
        return false;
      } else {
        var more := idSeq.Next();
        if more {
          idSeqIndex := 0;
          atRow := true;
          return false;
        }
      }
      atRow := false;
      return true;
    }

    method Next()
      requires Valid() && idSeq != null && atRow
      modifies this
      ensures Valid() && Repr == old(Repr) && idSeq == old(idSeq) && passed == old(passed) + 1 && !atRow
    {
      idSeqIndex := idSeqIndex + 1;
      passed := passed + 1;
      atRow := false;
    }

    method RowId() returns (rowid: nat)
      requires Valid() && idSeq != null && atRow
      ensures passed < |idSeq.ids| && rowid == idSeq.ids[passed]
    {
      return idSeq.current[idSeqIndex];
    }
  }

  /** A whole scan visits the ids of the bitmap in ascending order, each once. */
  method ScanAll(cursor: Cursor, bitmap: EwahBoolArray, vecSize: nat) returns (rows: seq<nat>)
    requires cursor.Valid() && bitmap.Structured() && vecSize > 0
    modifies cursor
    ensures rows == OnesFrom(bitmap.Contents(), 0)
    ensures Ascending(rows) && forall i: nat :: i in rows <==> i in bitmap.Bits()
  {
    hide OnesFrom, Bit, Expand, Parses, Ones, Ascending;
    cursor.Filter(bitmap, vecSize);
    rows := Drain(cursor);
    OnesFromComplete(bitmap.Contents(), 0);
    OnesFromAscending(bitmap.Contents(), 0);
  }

  /** The loop `while (!eof) { rowid; next; }` on a scan that is about to start. */
  method Drain(cursor: Cursor) returns (rows: seq<nat>)
    requires cursor.Valid() && cursor.idSeq != null && cursor.passed == 0
    modifies cursor.Repr
    ensures rows == old(cursor.idSeq.ids)
  {
    hide OnesFrom, Bit, Expand, Parses, SetBitForwardIterator.Valid, IDSequence.Valid;
    ghost var ids := cursor.idSeq.ids;
    rows := [];
    var over := cursor.Eof();
    while !over
      invariant cursor.Valid() && cursor.Repr == old(cursor.Repr) && cursor.idSeq != null && cursor.idSeq == old(cursor.idSeq)
      invariant cursor.passed <= |ids| && rows == ids[..cursor.passed]
      invariant over <==> cursor.passed == |ids|
      invariant cursor.atRow == !over
      decreases |ids| - cursor.passed
    {
      var row := cursor.RowId();
      rows := rows + [row];
      cursor.Next();
      over := cursor.Eof();
    }
    assert ids[..|ids|] == ids;
  }
}
