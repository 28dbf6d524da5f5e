/**
 * `io/read.rs`: a read block borrows the slot of the oldest unread block,
 * is read from like a stream, and releases the slot when dropped.
 */
module IoRead {
  import opened Wrappers
  import opened ByteTypes
  import opened Ring
  import opened Io

  /** An in-progress read of the ring's open read slot. */
  class ReadBlock {
    const ring: Ring
    /** The slot and the number of valid bytes in it. */
    const ptr: array<byte>
    const size: nat
    var bytesRead: nat

    ghost predicate Valid()
      reads this, ring, ring.slots
    {
      && ring.Valid() && ring.readOpen
      && ptr == ring.slots[ring.ReadSlot()]
      && size <= ptr.Length && ptr[..size] == ring.queue[0].data
      && bytesRead <= size
    }

    /** The block's bytes. */
    function Data(): (d: Bytes)
      reads this, ptr
      requires size <= ptr.Length
      ensures |d| == size
    {
      ptr[..size]
    }

    constructor (ring: Ring, ptr: array<byte>, size: nat)
      ensures this.ring == ring && this.ptr == ptr && this.size == size && bytesRead == 0
    {
      this.ring := ring;
      this.ptr := ptr;
      this.size := size;
      bytesRead := 0;
    }

    /**
     * `ReadBlock::new` (also the reader's `next`): no block once the ring
     * reports end-of-data; otherwise the oldest unread block, and when the
     * ring hands out none the read lock is released.
     */
    static method New(rd: Reader) returns (b: Option<ReadBlock>)
      requires rd.ring.Valid()
      modifies rd.ring`readOpen, rd.ring`readLocked, rd.ring.host`log
      ensures rd.ring.Valid()
      ensures b.Some? == (!rd.ring.readerEod && old(rd.ring.ReadReady()))
      ensures rd.ring.readerEod ==> rd.ring.host.log == old(rd.ring.host.log) + [Event(rd.ring.key, Call.Eod)]
      ensures rd.ring.readerEod ==> unchanged(rd.ring)
      ensures b.Some? ==> rd.ring.host.log == old(rd.ring.host.log) + [Event(rd.ring.key, Call.Eod), Event(rd.ring.key, Call.GetNextRead)]
      ensures b.Some? ==> fresh(b.value) && b.value.Valid() && b.value.ring == rd.ring && b.value.bytesRead == 0
      ensures b.Some? ==> b.value.Data() == rd.ring.queue[0].data && rd.ring.readLocked == old(rd.ring.readLocked)
      ensures b.None? && !rd.ring.readerEod ==>
        rd.ring.host.log == old(rd.ring.host.log) + [Event(rd.ring.key, Call.Eod), Event(rd.ring.key, Call.GetNextRead), Event(rd.ring.key, Call.UnlockRead)]
      ensures b.None? && !rd.ring.readerEod ==>
        rd.ring.readOpen == old(rd.ring.readOpen) && rd.ring.readLocked == (old(rd.ring.readLocked) && rd.ring.Fails(Call.UnlockRead))
    {
      var eod := rd.ring.Eod();
      if eod {
        return None;
      }
      var p, n := rd.ring.GetNextRead();
      if p == null {
        var _ := rd.ring.UnlockRead();
        return None;
      }
      var blk := new ReadBlock(rd.ring, p, n);
      return Some(blk);
    }

    /** `block`: the block's bytes. */
    function Block(): (d: Bytes)
      requires Valid()
      reads this, ring, ring.slots
      ensures d == ring.queue[0].data
    {
      ptr[..size]
    }

    /**
     * `Read::read`: copies as many of the unread bytes as fit into `buf`,
     * leaving the rest of `buf` alone; zero bytes once the block is used up.
     */
    method Read(buf: array<byte>) returns (n: nat)
      requires Valid() && buf !in ring.slots
      modifies this`bytesRead, buf
      ensures Valid()
      ensures n == Min(buf.Length, size - old(bytesRead))
      ensures buf[..n] == Data()[old(bytesRead)..old(bytesRead) + n]
      ensures buf[n..] == old(buf[n..])
      ensures bytesRead == old(bytesRead) + n
    {
      assert buf != ptr;
      var left := size - bytesRead;
      if left == 0 {
        return 0;
      }
      n := if left <= buf.Length then left else buf.Length;
      forall i | 0 <= i < n {
        buf[i] := ptr[bytesRead + i];
      }
      bytesRead := bytesRead + n;
    }

    /**
     * Dropping the block (or `done`): marks the slot cleared, releasing it
     * to the writer; an error is ignored.
     */
    method Drop()
      requires Valid()
      modifies ring`rcount, ring`readOpen, ring`readerEod, ring`queue, ring.host`log
      ensures ring.Valid()
      ensures ring.host.log == old(ring.host.log) + [Event(ring.key, Call.MarkCleared)]
      ensures !ring.Fails(Call.MarkCleared) ==>
        ring.queue == old(ring.queue[1..]) && ring.readerEod == old(ring.queue[0].eod) && !ring.readOpen
      ensures ring.Fails(Call.MarkCleared) ==> unchanged(ring)
    {
      var _ := ring.MarkCleared();
    }
  }
}
