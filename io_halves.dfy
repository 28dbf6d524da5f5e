/**
 * `io.rs`: the write and read halves of a ring, whose blocks take and
 * release the ring's lock themselves. A write block commits and unlocks
 * when dropped; a read block has its slot marked cleared as soon as it is
 * handed out and unlocks when dropped. These are the halves the
 * high-level push and pop operations are built on.
 */
module Halves {
  import opened Wrappers
  import opened ByteTypes
  import opened Errors
  import opened Ring

  /** The write half of a ring. */
  datatype WriteHalf = WriteHalf(ring: Ring) {

    /**
     * `next`: takes the write lock and the next free slot. No block when
     * locking fails, or when there is no free slot, in which case the
     * lock is released again.
     */
    method Next() returns (b: Option<WriteBlock>)
      requires ring.Valid()
      modifies ring`writeLocked, ring`writeOpen, ring.host`log
      ensures ring.Valid()
      ensures ring.Fails(Call.LockWrite) ==>
        b.None? && ring.host.log == old(ring.host.log) + [Event(ring.key, Call.LockWrite)] && unchanged(ring)
      ensures b.Some? <==>
        (!ring.Fails(Call.LockWrite) && !ring.Fails(Call.GetNextWrite) && !old(ring.writeOpen) && |old(ring.queue)| < ring.nbufs)
      ensures b.Some? ==>
        ring.host.log == old(ring.host.log) + [Event(ring.key, Call.LockWrite), Event(ring.key, Call.GetNextWrite)]
      ensures b.Some? ==> fresh(b.value) && b.value.Valid() && b.value.ring == ring && b.value.bytesWritten == 0 && !b.value.eod
      ensures b.Some? ==> ring.writeLocked
      ensures !ring.Fails(Call.LockWrite) && b.None? ==>
        && ring.host.log == old(ring.host.log) + [Event(ring.key, Call.LockWrite), Event(ring.key, Call.GetNextWrite), Event(ring.key, Call.UnlockWrite)]
        && ring.writeLocked == ring.Fails(Call.UnlockWrite) && ring.writeOpen == old(ring.writeOpen)
    {
      var locked := ring.LockWrite();
      if !locked {
        return None;
      }
      var ptr := ring.GetNextWrite();
      if ptr == null {
        var _ := ring.UnlockWrite();
        return None;
      }
      var blk := new WriteBlock(ring, ptr);
      return Some(blk);
    }
  }

  /** An in-progress write into the ring's open write slot. */
  class WriteBlock {
    const ring: Ring
    const ptr: array<byte>
    var bytesWritten: nat
    var eod: bool

    ghost predicate Valid()
      reads this, ring, ring.slots
    {
      ring.Valid() && ring.writeOpen && ptr == ring.slots[ring.WriteSlot()] && bytesWritten <= ring.bufsz
    }

    constructor (ring: Ring, ptr: array<byte>)
      ensures this.ring == ring && this.ptr == ptr && bytesWritten == 0 && !eod
    {
      this.ring := ring;
      this.ptr := ptr;
      bytesWritten := 0;
      eod := false;
    }

    /** `eod`: the block will end the data. */
    method MarkEod()
      modifies this`eod
      ensures eod
    {
      eod := true;
    }

    /**
     * `Write::write`: copies all of `buf` after the bytes already written,
     * or nothing at all when it would not fit in the slot.
     */
    method Write(buf: Bytes) returns (r: Result<nat, IoError>)
      requires Valid()
      modifies this`bytesWritten, ptr, ring`contents
      ensures Valid()
      ensures r.Err? <==> old(bytesWritten) + |buf| > ring.bufsz
      ensures r.Err? ==> unchanged(this) && unchanged(ptr)
      ensures r.Ok? ==> r.value == |buf| && bytesWritten == old(bytesWritten) + |buf|
      ensures r.Ok? ==> ptr[..] == Splice(old(ptr[..]), old(bytesWritten), buf)
    {
      if bytesWritten + |buf| > ptr.Length {
        return Err(TooManyBytes);
      }
      ghost var c0 := ring.contents;
      ghost var s0 := ptr[..];
      forall i | 0 <= i < |buf| {
        ptr[bytesWritten + i] := buf[i];
      }
      assert ptr[..] == Splice(s0, bytesWritten, buf);
      ring.contents := c0[ring.WriteSlot() := ptr[..]];
      WrapMod(ring.rcount, |ring.queue|, ring.nbufs);
      StoredWrite(c0, ring.contents, ring.filled, ring.eodAt, ring.ReadSlot(), ring.queue);
      bytesWritten := bytesWritten + |buf|;
      return Ok(|buf|);
    }

    /**
     * Dropping (or committing) the block: raises end-of-data first when
     * asked to, marks the bytes written filled and releases the write
     * lock. Errors from the ring are ignored.
     */
    method Drop()
      requires Valid()
      modifies ring`filled, ring`eodAt, ring`wcount, ring`eodPending, ring`writeOpen, ring`queue, ring`writeLocked, ring.host`log
      ensures ring.Valid()
      ensures ring.host.log == old(ring.host.log)
        + (if eod then [Event(ring.key, Call.EnableEod)] else [])
        + [Event(ring.key, Call.MarkFilled(bytesWritten)), Event(ring.key, Call.UnlockWrite)]
      ensures var raised := old(ring.eodPending) || (eod && !ring.Fails(Call.EnableEod));
        if !ring.Fails(Call.MarkFilled(bytesWritten)) then
          ring.queue == old(ring.queue) + [Committed(old(ptr[..bytesWritten]), raised || bytesWritten < ring.bufsz)]
          && !ring.writeOpen && !ring.eodPending
        else
          ring.queue == old(ring.queue) && ring.writeOpen && ring.eodPending == raised
      ensures ring.writeLocked == (old(ring.writeLocked) && ring.Fails(Call.UnlockWrite))
    {
      if eod {
        var _ := ring.EnableEod();
      }
      var _ := ring.MarkFilled(bytesWritten);
      var _ := ring.UnlockWrite();
    }
  }

  /** The read half of a ring; `done` once end-of-data or a lock failure was seen. */
  class ReadHalf {
    const ring: Ring
    var done: bool

    /** `reader` on a data or header client: a fresh half, not done. */
    constructor (ring: Ring)
      ensures this.ring == ring && !done
    {
      this.ring := ring;
      done := false;
    }

    /**
     * `next`: nothing once done. Otherwise takes the read lock (a failure
     * makes the half done) and the oldest unread block, marks its slot
     * cleared right away and becomes done when the ring then reports
     * end-of-data. When no block is handed out the lock is kept.
     */
    method Next() returns (b: Option<ReadBlock>)
      requires ring.Valid()
      modifies this`done, ring`readLocked, ring`readOpen, ring`rcount, ring`readerEod, ring`queue, ring.host`log
      ensures ring.Valid()
      ensures old(done) ==> b.None? && done && unchanged(ring) && ring.host.log == old(ring.host.log)
      ensures !old(done) && ring.Fails(Call.LockRead) ==>
        b.None? && done && unchanged(ring) && ring.host.log == old(ring.host.log) + [Event(ring.key, Call.LockRead)]
      ensures b.Some? <==>
        (!old(done) && !ring.Fails(Call.LockRead) && !ring.Fails(Call.GetNextRead) && !old(ring.readOpen) && |old(ring.queue)| > 0)
      ensures !old(done) && !ring.Fails(Call.LockRead) && b.None? ==>
        && !done && ring.readLocked && ring.readOpen == old(ring.readOpen) && ring.queue == old(ring.queue)
        && ring.host.log == old(ring.host.log) + [Event(ring.key, Call.LockRead), Event(ring.key, Call.GetNextRead)]
      ensures b.Some? ==> fresh(b.value) && b.value.Valid() && b.value.ring == ring && b.value.bytesRead == 0
      ensures b.Some? ==> b.value.data == old(ring.queue[0].data) && ring.readLocked
      ensures b.Some? ==>
        ring.host.log == old(ring.host.log) + [Event(ring.key, Call.LockRead), Event(ring.key, Call.GetNextRead), Event(ring.key, Call.MarkCleared), Event(ring.key, Call.Eod)]
      ensures b.Some? && !ring.Fails(Call.MarkCleared) ==>
        ring.queue == old(ring.queue[1..]) && !ring.readOpen && done == old(ring.queue[0].eod)
      ensures b.Some? && ring.Fails(Call.MarkCleared) ==>
        ring.queue == old(ring.queue) && ring.readOpen && done == old(ring.readerEod)
    {
      if done {
        return None;
      }
      var locked := ring.LockRead();
      if !locked {
        done := true;
        return None;
      }
      var p, n := Claim();
      if p == null {
        return None;
      }
      var blk := new ReadBlock(ring, p, n, p[..n]);
      return Some(blk);
    }

    /**
     * The part of `next` after locking: takes the oldest unread block,
     * marks its slot cleared and checks for end-of-data.
     */
    method Claim() returns (p: array?<byte>, n: nat)
      requires ring.Valid() && ring.readLocked && !done
      modifies this`done, ring`readOpen, ring`rcount, ring`readerEod, ring`queue, ring.host`log
      ensures ring.Valid() && ring.readLocked
      ensures (p != null) == old(ring.ReadReady())
      ensures p == null ==>
        && ring.host.log == old(ring.host.log) + [Event(ring.key, Call.GetNextRead)]
        && done == old(done) && ring.readOpen == old(ring.readOpen) && ring.queue == old(ring.queue)
      ensures p != null ==>
        && ring.host.log == old(ring.host.log) + [Event(ring.key, Call.GetNextRead), Event(ring.key, Call.MarkCleared), Event(ring.key, Call.Eod)]
        && p in ring.slots && n <= p.Length && p[..n] == old(ring.queue[0].data)
      ensures p != null && !ring.Fails(Call.MarkCleared) ==>
        ring.queue == old(ring.queue[1..]) && !ring.readOpen && done == old(ring.queue[0].eod)
      ensures p != null && ring.Fails(Call.MarkCleared) ==>
        ring.queue == old(ring.queue) && ring.readOpen && done == old(ring.readerEod)
    {
      p, n := ring.GetNextRead();
      if p == null {
        return;
      }
      var _ := ring.MarkCleared();
      var eod := ring.Eod();
      if eod {
        done := true;
      }
    }
  }

  /** An in-progress read of a block whose slot was already marked cleared. */
  class ReadBlock {
    const ring: Ring
    const ptr: array<byte>
    const blockSize: nat
    var bytesRead: nat
    /** The block's bytes as they were handed out. */
    ghost const data: Bytes

    ghost predicate Valid()
      reads this, ptr
    {
      ptr in ring.slots && blockSize <= ptr.Length && ptr[..blockSize] == data && bytesRead <= blockSize
    }

    constructor (ring: Ring, ptr: array<byte>, blockSize: nat, ghost data: Bytes)
      requires blockSize <= ptr.Length && ptr[..blockSize] == data && ptr in ring.slots
      ensures this.ring == ring && this.ptr == ptr && this.blockSize == blockSize && this.data == data
      ensures bytesRead == 0 && Valid()
    {
      this.ring := ring;
      this.ptr := ptr;
      this.blockSize := blockSize;
      this.data := data;
      bytesRead := 0;
    }

    /**
     * `Read::read`: fills all of `buf` with the next unread bytes, or
     * reads nothing when fewer are left than `buf` holds.
     */
    method Read(buf: array<byte>) returns (r: Result<nat, IoError>)
      requires Valid() && buf !in ring.slots
      modifies this`bytesRead, buf
      ensures Valid()
      ensures r.Err? <==> old(bytesRead) + buf.Length > blockSize
      ensures r.Err? ==> unchanged(this) && unchanged(buf)
      ensures r.Ok? ==> r.value == buf.Length && bytesRead == old(bytesRead) + buf.Length
      ensures r.Ok? ==> buf[..] == data[old(bytesRead)..bytesRead]
    {
      assert buf != ptr;
      if bytesRead + buf.Length > blockSize {
        return Err(TooManyBytes);
      }
      forall i | 0 <= i < buf.Length {
        buf[i] := ptr[bytesRead + i];
      }
      assert forall i :: 0 <= i < buf.Length ==> buf[i] == data[bytesRead + i];
      bytesRead := bytesRead + buf.Length;
      return Ok(buf.Length);
    }

    /** `read_block`: the whole block. */
    function ReadBlock(): (d: Bytes)
      requires Valid()
      reads this, ptr
      ensures d == data
    {
      ptr[..blockSize]
    }

    /** Dropping the block releases the read lock; an error is ignored. */
    method Drop()
      modifies ring`readLocked, ring.host`log
      ensures ring.host.log == old(ring.host.log) + [Event(ring.key, Call.UnlockRead)]
      ensures ring.readLocked == (old(ring.readLocked) && ring.Fails(Call.UnlockRead))
    {
      var _ := ring.UnlockRead();
    }
  }
}
