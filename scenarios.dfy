/**
 * The crate's own block-level test scenarios, replayed on a fresh ring
 * whose foreign calls all succeed. A ring just created is in the state a
 * freshly built client leaves its data ring in (empty, unlocked, no
 * end-of-data), so each scenario starts from `Host.Create`.
 */
module Scenarios {
  import opened Wrappers
  import opened ByteTypes
  import opened Ring
  import opened Io
  import opened IoWrite
  import opened IoRead
  import H = Halves
  import HL = HighLevel

  /** A fresh healthy ring of `nbufs` slots of `bufsz` bytes. */
  method FreshRing(nbufs: nat, bufsz: nat) returns (ring: Ring)
    requires nbufs > 0
    ensures fresh(ring) && fresh(ring.host) && ring.host.faults == {}
    ensures forall i :: 0 <= i < |ring.slots| ==> fresh(ring.slots[i])
    ensures ring.Valid() && ring.Initial() && ring.nbufs == nbufs && ring.bufsz == bufsz
  {
    var host := new Host({});
    var r := host.Create(0x2a, nbufs, bufsz, 1);
    ring := r;
  }

  /**
   * One block written through a writer guard and committed; the writer
   * guard is then dropped.
   */
  method WriteOne(ring: Ring, data: Bytes, eod: bool)
    requires ring.Valid() && ring.host.faults == {}
    requires !ring.writeLocked && !ring.writeOpen && !ring.eodPending && |ring.queue| < ring.nbufs && |data| <= ring.bufsz
    modifies ring`writeLocked, ring`filled, ring`eodAt, ring`wcount, ring`eodPending, ring`writeOpen
    modifies ring`queue, ring`contents, ring.slots, ring.host`log
    ensures ring.Valid() && !ring.writeLocked && !ring.writeOpen && !ring.eodPending
    ensures ring.queue == old(ring.queue) + [Committed(data, eod || |data| < ring.bufsz)]
  {
    var w := Writer.New(ring);
    CommitOne(w.value, data, eod);
    w.value.Drop();
  }

  /** `next` on a writer guard, one `write` of `data`, `mark_eod` when asked, then the block's drop. */
  method CommitOne(w: Writer, data: Bytes, eod: bool)
    requires w.ring.Valid() && w.ring.host.faults == {}
    requires w.ring.writeLocked && !w.ring.writeOpen && !w.ring.eodPending
    requires |w.ring.queue| < w.ring.nbufs && |data| <= w.ring.bufsz
    modifies w.ring`writeLocked, w.ring`filled, w.ring`eodAt, w.ring`wcount, w.ring`eodPending, w.ring`writeOpen
    modifies w.ring`queue, w.ring`contents, w.ring.slots, w.ring.host`log
    ensures w.ring.Valid() && w.ring.writeLocked && !w.ring.writeOpen && !w.ring.eodPending
    ensures w.ring.queue == old(w.ring.queue) + [Committed(data, eod || |data| < w.ring.bufsz)]
  {
    var b := WriteBlock.New(w);
    var blk := b.value;
    var written := blk.Write(data);
    assert blk.bytes[..|data|] == data;
    if eod {
      blk.MarkEod();
    }
    blk.Drop();
  }

  /**
   * A reader guard taken on a ring holding one block tagged end-of-data:
   * `ReadBlock::new` hands out that block once; after its drop the reader
   * reports end-of-data and the next `ReadBlock::new` hands out nothing.
   */
  method ReadUntilEod(ring: Ring) returns (first: Bytes, thenNone: bool)
    requires ring.Valid() && ring.host.faults == {}
    requires !ring.readLocked && !ring.readOpen && !ring.readerEod
    requires |ring.queue| == 1 && ring.queue[0].eod
    modifies ring`readLocked, ring`readOpen, ring`rcount, ring`readerEod, ring`queue, ring.host`log
    ensures ring.Valid() && ring.queue == []
    ensures first == old(ring.queue[0].data) && thenNone
  {
    var rd := Reader.New(ring);
    var rb := ReadBlock.New(rd.value);
    first := rb.value.Block();
    rb.value.Drop();
    var next := ReadBlock.New(rd.value);
    thenNone := next.None?;
  }

  /**
   * `test_read_write_implicit_eod`: three bytes committed to a block of
   * four read back once as those three bytes, after which the reader
   * reports end-of-data and hands out no block.
   */
  method ImplicitEodReadsOnce() returns (first: Bytes, thenNone: bool)
    ensures first == [0, 1, 2] && thenNone
  {
    var ring := FreshRing(4, 4);
    WriteOne(ring, [0, 1, 2], false);
    first, thenNone := ReadUntilEod(ring);
  }

  /**
   * `test_read_write_explicit_eod`: a full block of four bytes marked
   * end-of-data before its commit reads back once, after which the reader
   * hands out no block.
   */
  method ExplicitEodReadsOnce() returns (first: Bytes, thenNone: bool)
    ensures first == [0, 1, 2, 3] && thenNone
  {
    var ring := FreshRing(4, 4);
    WriteOne(ring, [0, 1, 2, 3], true);
    first, thenNone := ReadUntilEod(ring);
  }

  /**
   * `test_read_write`: four bytes written into a larger block (the default
   * block is many pages; eight bytes here) read back as those four bytes,
   * and, the block being short, the reader is then at end-of-data.
   */
  method ShortWriteReadsBack() returns (first: Bytes, atEod: bool)
    ensures first == [0, 1, 2, 3] && atEod
  {
    var ring := FreshRing(4, 8);
    WriteOne(ring, [0, 1, 2, 3], false);
    var rd := Reader.New(ring);
    var rb := ReadBlock.New(rd.value);
    first := rb.value.Block();
    rb.value.Drop();
    atEod := ring.readerEod;
  }

  /**
   * `test_implicit_eod` of the write and read halves: a full block of eight
   * bytes and a block of seven are pushed onto a fresh ring of 8-byte
   * blocks; the read half pops both and then, at end-of-data, nothing.
   */
  method HalvesImplicitEod() returns (a: Option<Bytes>, b: Option<Bytes>, c: Option<Bytes>)
    ensures a == Some([0, 1, 2, 3, 4, 5, 6, 7]) && b == Some([0, 1, 2, 3, 4, 5, 6]) && c.None?
  {
    var ring := FreshRing(4, 8);
    PushTwo(ring, [0, 1, 2, 3, 4, 5, 6, 7], [0, 1, 2, 3, 4, 5, 6]);
    a, b, c := PopThree(ring);
  }

  /** Two `push`es of blocks that fit onto an empty healthy ring with room for both. */
  method PushTwo(ring: Ring, x: Bytes, y: Bytes)
    requires ring.Valid() && ring.host.faults == {} && ring.Initial() && ring.nbufs >= 2
    requires |x| <= ring.bufsz && |y| <= ring.bufsz
    modifies ring`filled, ring`eodAt, ring`wcount, ring`eodPending, ring`writeOpen
    modifies ring`queue, ring`writeLocked, ring`contents, ring.host`log, ring.slots
    ensures ring.Valid() && !ring.readLocked && !ring.readOpen && !ring.readerEod
    ensures ring.queue == [Committed(x, |x| < ring.bufsz), Committed(y, |y| < ring.bufsz)]
  {
    var half := H.WriteHalf(ring);
    var r1 := HL.Push(half, x);
    var r2 := HL.Push(half, y);
  }

  /** Three `pop`s on a fresh read half of a ring holding a full block and then a short one. */
  method PopThree(ring: Ring) returns (a: Option<Bytes>, b: Option<Bytes>, c: Option<Bytes>)
    requires ring.Valid() && ring.host.faults == {} && !ring.readLocked && !ring.readOpen && !ring.readerEod
    requires |ring.queue| == 2 && !ring.queue[0].eod && ring.queue[1].eod
    modifies ring`readLocked, ring`readOpen, ring`rcount, ring`readerEod, ring`queue, ring.host`log
    ensures a == Some(old(ring.queue[0].data)) && b == Some(old(ring.queue[1].data)) && c.None?
  {
    var half := new H.ReadHalf(ring);
    a := HL.Pop(half);
    b := HL.Pop(half);
    c := HL.Pop(half);
  }
}
