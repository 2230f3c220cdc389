/** A cache for a single block. */
module BlockCache {
  import opened Machine

  class BlockCache {
    var blockIndex: uint32
    const block: array<byte>
    var isValid: bool
    var hitCounter: uint32
    var missCounter: uint32

    /** The index and the contents of the cached block, if there is one. */
    ghost function Cached(): Option<(uint32, seq<byte>)>
      reads this, block
    {
      if isValid then Some((blockIndex, block[..])) else None
    }

    constructor (blockSize: nat)
      ensures Cached() == None && fresh(block) && block.Length == blockSize && hitCounter == missCounter == 0
    {
      blockIndex, isValid, hitCounter, missCounter := 0, false, 0, 0;
      block := new byte[blockSize];
    }

    method Clear()
      modifies this
      ensures Cached() == None && hitCounter == missCounter == 0
    {
      hitCounter, missCounter, isValid := 0, 0, false;
    }

    /** Declares the scratch area to be a cached block. */
    method Commit(index: uint32) returns (r: array<byte>)
      modifies this`blockIndex, this`isValid
      ensures r == block && Cached() == Some((index, block[..]))
    {
      blockIndex, isValid := index, true;
      return block;
    }

    method Evict(index: uint32)
      modifies this`isValid
      ensures Cached() == if old(Cached()).Some? && old(Cached()).value.0 == index then None else old(Cached())
    {
      if blockIndex == index {
        isValid := false;
      }
    }

    /** Looks a block up and counts whether it was there. */
    method GetBlock(index: uint32) returns (r: array?<byte>)
      modifies this`hitCounter, this`missCounter
      ensures r == if Cached().Some? && Cached().value.0 == index then block else null
      ensures hitCounter == if r != null then Wrap(old(hitCounter) + 1) else old(hitCounter)
      ensures missCounter == if r == null then Wrap(old(missCounter) + 1) else old(missCounter)
    {
      if isValid && index == blockIndex {
        hitCounter := Wrap(hitCounter + 1);
        return block;
      } else {
        missCounter := Wrap(missCounter + 1);
        return null;
      }
    }

    /** The memory where a block can be stored; whatever was cached there is given up. */
    method GetScratchArea() returns (r: array<byte>)
      modifies this`isValid
      ensures r == block && Cached() == None
    {
      isValid := false;
      return block;
    }
  }
}
