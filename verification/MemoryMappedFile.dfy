/**
  A data file mapped into memory, with the position of the next write.
 */
module MappedFiles {
  import opened Bytes

  class MemoryMappedFile {
    const region: array<Byte>
    var currentWriteOffset: nat

    constructor (size: nat)
      ensures fresh(region) && region.Length == size && currentWriteOffset == 0
    {
      region := new Byte[size];
      currentWriteOffset := 0;
    }

    /** Another mapping of a file that exists. */
    constructor Map(region: array<Byte>, writeOffset: nat)
      requires writeOffset <= region.Length
      ensures this.region == region && currentWriteOffset == writeOffset
    {
      this.region := region;
      currentWriteOffset := writeOffset;
    }

    method SetCurrentWriteOffset(offset: nat)
      requires offset <= region.Length
      modifies this
      ensures currentWriteOffset == offset
    {
      currentWriteOffset := offset;
    }

    /** Copies the data to the write position and moves the position behind it. */
    method WriteAtCurrentPosition(data: seq<Byte>)
      requires currentWriteOffset + |data| <= region.Length
      modifies this, region
      ensures currentWriteOffset == old(currentWriteOffset) + |data|
      ensures region[..currentWriteOffset] == old(region[..currentWriteOffset]) + data
      ensures region[currentWriteOffset..] == old(region[..])[currentWriteOffset..]
    {
      var from := currentWriteOffset;
      forall i | 0 <= i < |data| {
        region[from + i] := data[i];
      }
      currentWriteOffset := currentWriteOffset + |data|;
    }
  }
}
