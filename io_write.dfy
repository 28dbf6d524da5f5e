/**
 * `io/write.rs`: a write block borrows the open write slot of a ring,
 * fills it in place and commits it when dropped.
 */
module IoWrite {
  import opened Wrappers
  import opened ByteTypes
  import opened Errors
  import opened Ring
  import opened Io

  /** An in-progress write into the ring's open write slot. */
  class WriteBlock {
    const ring: Ring
    /** The slot itself: writes land in shared memory directly. */
    const bytes: array<byte>
    var bytesWritten: nat
    /** No byte count was given yet: the whole slot is committed. */
    var writeAll: bool
    var eod: bool

    ghost predicate Valid()
      reads this, ring, ring.slots
    {
      ring.Valid() && ring.writeOpen && bytes == ring.slots[ring.WriteSlot()]
    }

    /** The number of bytes `mark_filled` is given when the block is dropped. */
    function FillCount(): nat
      reads this
    {
      if writeAll then bytes.Length else bytesWritten
    }

    constructor (ring: Ring, bytes: array<byte>)
      ensures this.ring == ring && this.bytes == bytes
      ensures bytesWritten == 0 && writeAll && !eod
    {
      this.ring := ring;
      this.bytes := bytes;
      bytesWritten := 0;
      writeAll := true;
      eod := false;
    }

    /**
     * `WriteBlock::new` (also the writer's `next`): asks for the next free
     * slot; when there is none the write lock is released and there is no
     * block.
     */
    static method New(w: Writer) returns (b: Option<WriteBlock>)
      requires w.ring.Valid()
      modifies w.ring`writeOpen, w.ring`writeLocked, w.ring.host`log
      ensures w.ring.Valid()
      ensures b.Some? == old(w.ring.WriteReady())
      ensures b.Some? ==> w.ring.host.log == old(w.ring.host.log) + [Event(w.ring.key, Call.GetNextWrite)]
      ensures b.Some? ==> w.ring.writeLocked == old(w.ring.writeLocked)
      ensures b.Some? ==> fresh(b.value) && b.value.Valid() && b.value.ring == w.ring
      ensures b.Some? ==> b.value.bytesWritten == 0 && b.value.writeAll && !b.value.eod
      ensures b.None? ==> w.ring.host.log == old(w.ring.host.log) + [Event(w.ring.key, Call.GetNextWrite), Event(w.ring.key, Call.UnlockWrite)]
      ensures b.None? ==> w.ring.writeLocked == (old(w.ring.writeLocked) && w.ring.Fails(Call.UnlockWrite))
      ensures b.None? ==> w.ring.writeOpen == old(w.ring.writeOpen)
    {
      var ptr := w.ring.GetNextWrite();
      if ptr == null {
        var _ := w.ring.UnlockWrite();
        return None;
      }
      var blk := new WriteBlock(w.ring, ptr);
      return Some(blk);
    }

    /** `block`: the slot, to be written in place. */
    function Block(): (a: array<byte>)
      requires Valid()
      reads this, ring, ring.slots
      ensures a == bytes && a.Length == ring.bufsz
    {
      bytes
    }

    /** `increment_filled`: counts `n` more bytes as written; nothing is checked. */
    method IncrementFilled(n: nat)
      modifies this`writeAll, this`bytesWritten
      ensures !writeAll && bytesWritten == old(bytesWritten) + n
    {
      writeAll := false;
      bytesWritten := bytesWritten + n;
    }

    /** `mark_eod`: the block will end the data. */
    method MarkEod()
      modifies this`eod
      ensures eod
    {
      eod := true;
    }

    /**
     * `Write::write`: copies all of `buf` after the bytes already written,
     * or nothing at all when it would not fit in the slot.
     */
    method Write(buf: Bytes) returns (r: Result<nat, IoError>)
      requires Valid()
      modifies this`writeAll, this`bytesWritten, bytes, ring`contents
      ensures Valid()
      ensures r.Err? <==> old(bytesWritten) + |buf| > ring.bufsz
      ensures r.Err? ==> unchanged(this) && unchanged(bytes)
      ensures r.Ok? ==> r.value == |buf| && bytesWritten == old(bytesWritten) + |buf| && !writeAll
      ensures r.Ok? ==> bytes[..] == Splice(old(bytes[..]), old(bytesWritten), buf)
    {
      if bytesWritten + |buf| > bytes.Length {
        return Err(TooManyBytes);
      }
      ghost var c0 := ring.contents;
      ghost var s0 := bytes[..];
      forall i | 0 <= i < |buf| {
        bytes[bytesWritten + i] := buf[i];
      }
      assert bytes[..] == Splice(s0, bytesWritten, buf);
      ring.contents := c0[ring.WriteSlot() := bytes[..]];
      WrapMod(ring.rcount, |ring.queue|, ring.nbufs);
      StoredWrite(c0, ring.contents, ring.filled, ring.eodAt, ring.ReadSlot(), ring.queue);
      IncrementFilled(|buf|);
      return Ok(|buf|);
    }

    /**
     * Dropping (or committing) the block: raises end-of-data first when
     * asked to, then marks `FillCount()` bytes filled. Errors from the ring
     * are ignored; the write lock stays with the writer.
     */
    method Drop()
      requires Valid()
      modifies this`bytesWritten, ring`filled, ring`eodAt, ring`wcount, ring`eodPending, ring`writeOpen, ring`queue, ring.host`log
      ensures ring.Valid()
      ensures ring.host.log == old(ring.host.log)
        + (if eod then [Event(ring.key, Call.EnableEod)] else [])
        + [Event(ring.key, Call.MarkFilled(old(FillCount())))]
      ensures var n := old(FillCount());
        var raised := old(ring.eodPending) || (eod && !ring.Fails(Call.EnableEod));
        if !ring.Fails(Call.MarkFilled(n)) && n <= ring.bufsz then
          ring.queue == old(ring.queue) + [Committed(old(bytes[..n]), raised || n < ring.bufsz)]
          && !ring.writeOpen && !ring.eodPending
        else
          ring.queue == old(ring.queue) && ring.writeOpen && ring.eodPending == raised
    {
      if eod {
        var _ := ring.EnableEod();
      }
      if writeAll {
        bytesWritten := bytes.Length;
      }
      var _ := ring.MarkFilled(bytesWritten);
    }
  }
}
