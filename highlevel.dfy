/**
 * `highlevel.rs`: pushing a byte slice as one block onto a ring and
 * popping the next whole block off it, on the write and read halves and
 * on the data ring of a client.
 */
module HighLevel {
  import opened Wrappers
  import opened ByteTypes
  import opened Errors
  import opened Ring
  import opened Halves
  import opened Client

  /** `next` on the write half hands out a block now. */
  ghost predicate WriteReady(ring: Ring)
    reads ring
  {
    !ring.Fails(Call.LockWrite) && !ring.Fails(Call.GetNextWrite) && !ring.writeOpen && |ring.queue| < ring.nbufs
  }

  /** `next` on a read half that is not done hands out a block now. */
  ghost predicate ReadReady(ring: Ring)
    reads ring
  {
    !ring.Fails(Call.LockRead) && !ring.Fails(Call.GetNextRead) && !ring.readOpen && |ring.queue| > 0
  }

  /** No call on `ring` fails. */
  ghost predicate Healthy(ring: Ring)
    reads ring, ring.host
  {
    forall e :: e in ring.host.faults ==> e.key != ring.key
  }

  /**
   * `WriteHalf::push` as written: takes the next block, writes `data` into
   * it and commits it. The block is committed even when `data` does not
   * fit: it is then committed empty, which also marks end-of-data.
   */
  method PushAsWritten(half: WriteHalf, data: Bytes) returns (r: Result<nat, PsrdadaError>)
    requires half.ring.Valid()
    modifies half.ring`filled, half.ring`eodAt, half.ring`wcount, half.ring`eodPending, half.ring`writeOpen
    modifies half.ring`queue, half.ring`writeLocked, half.ring`contents, half.ring.host`log, half.ring.slots
    ensures half.ring.Valid()
    ensures r.Ok? <==> old(WriteReady(half.ring)) && |data| <= half.ring.bufsz
    ensures r.Ok? ==> r.value == |data|
    ensures r.Err? ==> r.error == DadaWriteError
    ensures !old(WriteReady(half.ring)) ==>
      half.ring.queue == old(half.ring.queue) && half.ring.writeOpen == old(half.ring.writeOpen)
    ensures old(WriteReady(half.ring)) ==>
      var ring := half.ring;
      var fits := |data| <= ring.bufsz;
      var n := if fits then |data| else 0;
      && ring.host.log == old(ring.host.log) + [Event(ring.key, Call.LockWrite), Event(ring.key, Call.GetNextWrite),
                                                Event(ring.key, Call.MarkFilled(n)), Event(ring.key, Call.UnlockWrite)]
      && ring.writeLocked == ring.Fails(Call.UnlockWrite)
      && if ring.Fails(Call.MarkFilled(n)) then ring.queue == old(ring.queue) && ring.writeOpen
         else ring.queue == old(ring.queue) + [Committed(if fits then data else [], old(ring.eodPending) || n < ring.bufsz)]
              && !ring.writeOpen && !ring.eodPending
  {
    var next := half.Next();
    if next.None? {
      return Err(DadaWriteError);
    }
    var fits := WriteAndDrop(next.value, data);
    r := if fits then Ok(|data|) else Err(DadaWriteError);
  }

  /** The body of `push` once it holds a fresh block: write `data`, then drop the block. */
  method WriteAndDrop(block: WriteBlock, data: Bytes) returns (fits: bool)
    requires block.Valid() && block.bytesWritten == 0 && !block.eod
    modifies block`bytesWritten, block.ptr, block.ring`contents
    modifies block.ring`filled, block.ring`eodAt, block.ring`wcount, block.ring`eodPending, block.ring`writeOpen
    modifies block.ring`queue, block.ring`writeLocked, block.ring.host`log
    ensures block.ring.Valid()
    ensures fits == (|data| <= block.ring.bufsz)
    ensures var ring := block.ring;
      var n := if fits then |data| else 0;
      && ring.host.log == old(ring.host.log) + [Event(ring.key, Call.MarkFilled(n)), Event(ring.key, Call.UnlockWrite)]
      && ring.writeLocked == (old(ring.writeLocked) && ring.Fails(Call.UnlockWrite))
      && if ring.Fails(Call.MarkFilled(n)) then ring.queue == old(ring.queue) && ring.writeOpen
         else ring.queue == old(ring.queue) + [Committed(if fits then data else [], old(ring.eodPending) || n < ring.bufsz)]
              && !ring.writeOpen && !ring.eodPending
  {
    var written := block.Write(data);
    assert written.Ok? ==> block.ptr[..block.bytesWritten] == data;
    block.Drop();
    fits := written.Ok?;
  }

  /**
   * `WriteHalf::push`, corrected: data that does not fit a block is
   * refused before a block is taken, so a failed push commits nothing.
   */
  method Push(half: WriteHalf, data: Bytes) returns (r: Result<nat, PsrdadaError>)
    requires half.ring.Valid()
    modifies half.ring`filled, half.ring`eodAt, half.ring`wcount, half.ring`eodPending, half.ring`writeOpen
    modifies half.ring`queue, half.ring`writeLocked, half.ring`contents, half.ring.host`log, half.ring.slots
    ensures half.ring.Valid()
    ensures r.Ok? <==> old(WriteReady(half.ring)) && |data| <= half.ring.bufsz
    ensures r.Ok? ==> r.value == |data|
    ensures r.Err? ==> r.error == DadaWriteError
    ensures r.Err? ==> half.ring.queue == old(half.ring.queue) && half.ring.writeOpen == old(half.ring.writeOpen)
    ensures |data| > half.ring.bufsz ==> half.ring.host.log == old(half.ring.host.log)
    ensures r.Ok? ==>
      var ring := half.ring;
      && ring.host.log == old(ring.host.log) + [Event(ring.key, Call.LockWrite), Event(ring.key, Call.GetNextWrite),
                                                Event(ring.key, Call.MarkFilled(|data|)), Event(ring.key, Call.UnlockWrite)]
      && ring.writeLocked == ring.Fails(Call.UnlockWrite)
      && if ring.Fails(Call.MarkFilled(|data|)) then ring.queue == old(ring.queue) && ring.writeOpen
         else ring.queue == old(ring.queue) + [Committed(data, old(ring.eodPending) || |data| < ring.bufsz)]
              && !ring.writeOpen && !ring.eodPending
  {
    if |data| > half.ring.bufsz {
      return Err(DadaWriteError);
    }
    r := PushAsWritten(half, data);
  }

  /**
   * `ReadHalf::pop`: the next whole block as an owned copy, or nothing
   * when `next` hands out no block; the block's drop releases the read
   * lock.
   */
  method Pop(half: ReadHalf) returns (r: Option<Bytes>)
    requires half.ring.Valid()
    modifies half`done, half.ring`readLocked, half.ring`readOpen, half.ring`rcount, half.ring`readerEod
    modifies half.ring`queue, half.ring.host`log
    ensures half.ring.Valid()
    ensures r.Some? <==> !old(half.done) && old(ReadReady(half.ring))
    ensures r.Some? ==> r.value == old(half.ring.queue[0].data)
    ensures r.None? ==> half.ring.queue == old(half.ring.queue)
    ensures r.Some? ==>
      var ring := half.ring;
      && ring.host.log == old(ring.host.log) + [Event(ring.key, Call.LockRead), Event(ring.key, Call.GetNextRead),
                                                Event(ring.key, Call.MarkCleared), Event(ring.key, Call.Eod), Event(ring.key, Call.UnlockRead)]
      && ring.readLocked == ring.Fails(Call.UnlockRead)
      && if ring.Fails(Call.MarkCleared) then ring.queue == old(ring.queue) && ring.readOpen && half.done == old(ring.readerEod)
         else ring.queue == old(ring.queue[1..]) && !ring.readOpen && half.done == old(ring.queue[0].eod)
  {
    var next := half.Next();
    if next.None? {
      return None;
    }
    var block := next.value;
    var bytes := block.ReadBlock();
    block.Drop();
    return Some(bytes);
  }

  /**
   * `DadaClient::push_data`: `push`, as written, on the write half of the
   * data ring. Data that does not fit a free block fails, yet commits an
   * empty block, as `PushAsWritten` does.
   */
  method PushData(client: DadaClient, data: Bytes) returns (r: Result<nat, PsrdadaError>)
    requires client.Valid()
    modifies client.dataBuf`filled, client.dataBuf`eodAt, client.dataBuf`wcount, client.dataBuf`eodPending
    modifies client.dataBuf`writeOpen, client.dataBuf`queue, client.dataBuf`writeLocked, client.dataBuf`contents
    modifies client.dataBuf.host`log, client.dataBuf.slots
    ensures client.Valid()
    ensures r.Ok? <==> old(WriteReady(client.dataBuf)) && |data| <= client.DataBufSize()
    ensures r.Ok? ==> r.value == |data|
    ensures r.Err? ==> r.error == DadaWriteError
    ensures !old(WriteReady(client.dataBuf)) ==> client.dataBuf.queue == old(client.dataBuf.queue)
    ensures old(WriteReady(client.dataBuf)) ==>
      var ring := client.dataBuf;
      var fits := |data| <= ring.bufsz;
      var n := if fits then |data| else 0;
      !ring.Fails(Call.MarkFilled(n)) ==>
        ring.queue == old(ring.queue) + [Committed(if fits then data else [], old(ring.eodPending) || n < ring.bufsz)]
  {
    var (_, dc) := client.Split();
    var writer := dc.Writer();
    ghost var h := client.headerBuf;
    assert forall i :: 0 <= i < |h.slots| ==> h.slots[i] !in client.dataBuf.slots;
    r := PushAsWritten(writer, data);
    assert h.Valid();
  }

  /** `DadaClient::pop_data`: `pop` on a fresh read half of the data ring. */
  method PopData(client: DadaClient) returns (r: Option<Bytes>)
    requires client.Valid()
    modifies client.dataBuf`readLocked, client.dataBuf`readOpen, client.dataBuf`rcount, client.dataBuf`readerEod
    modifies client.dataBuf`queue, client.dataBuf.host`log
    ensures client.Valid()
    ensures r.Some? <==> old(ReadReady(client.dataBuf))
    ensures r.Some? ==> r.value == old(client.dataBuf.queue[0].data)
    ensures r.Some? && !client.dataBuf.Fails(Call.MarkCleared) ==> client.dataBuf.queue == old(client.dataBuf.queue[1..])
    ensures r.None? ==> client.dataBuf.queue == old(client.dataBuf.queue)
  {
    var (_, dc) := client.Split();
    var reader := dc.Reader();
    r := Pop(reader);
  }

  /**
   * On an empty, healthy data ring, a block pushed with `push_data` is the
   * block `pop_data` returns next.
   */
  method PushThenPop(client: DadaClient, data: Bytes) returns (pushed: Result<nat, PsrdadaError>, popped: Option<Bytes>)
    requires client.Valid() && Healthy(client.dataBuf)
    requires client.dataBuf.queue == [] && !client.dataBuf.writeOpen && !client.dataBuf.readOpen
    requires |data| <= client.DataBufSize()
    modifies client.dataBuf, client.dataBuf.host`log, client.dataBuf.slots
    ensures client.Valid()
    ensures pushed == Ok(|data|) && popped == Some(data)
    ensures client.dataBuf.queue == []
  {
    pushed := PushData(client, data);
    popped := PopData(client);
  }

  /**
   * The as-written `push` of five bytes onto a fresh ring of one 4-byte
   * block: the push fails, yet one block is committed, holding no bytes
   * and tagged end-of-data.
   */
  method OverflowCommitsEmptyBlock() returns (r: Result<nat, PsrdadaError>, committed: nat, size: nat, eod: bool)
    ensures r == Err(DadaWriteError)
    ensures committed == 1 && size == 0 && eod
  {
    var host := new Host({});
    var ring := host.Create(0x1234, 1, 4, 1);
    r := PushAsWritten(WriteHalf(ring), [1, 2, 3, 4, 5]);
    assert ring.queue == [Committed([], true)];
    assert ring.ReadSlot() == 0 && Wrap(0, 1) == 0;
    assert StoredAt(ring.contents, ring.filled, ring.eodAt, 0, ring.queue[0]);
    committed, size, eod := ring.wcount, ring.filled[0], ring.eodAt[0];
  }

  /** The corrected `push` of the same five bytes fails and commits nothing. */
  method OverflowRefused() returns (r: Result<nat, PsrdadaError>, committed: nat)
    ensures r == Err(DadaWriteError) && committed == 0
  {
    var host := new Host({});
    var ring := host.Create(0x1234, 1, 4, 1);
    r := Push(WriteHalf(ring), [1, 2, 3, 4, 5]);
    committed := ring.wcount;
  }
}
