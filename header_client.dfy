/**
 * The header I/O of `headers.rs`: a header is written as one whole
 * zero-padded block of the header ring and read back from the next block.
 */
module HeaderIo {
  import opened Wrappers
  import opened ByteTypes
  import opened Errors
  import opened Ring
  import opened Halves
  import opened Client
  import opened HighLevel
  import opened Headers

  /** The block `push_header` writes: the serialisation, zero-padded to `bufsz`. */
  function HeaderBlock(h: Header, order: seq<Bytes>, bufsz: nat): (b: Bytes)
    requires forall i :: 0 <= i < |order| ==> order[i] in h
    requires EncodedSize(Entries(h, order)) <= bufsz
    ensures |b| == bufsz
    ensures b[..EncodedSize(Entries(h, order))] == Encode(Entries(h, order))
    ensures forall i :: EncodedSize(Entries(h, order)) <= i < bufsz ==> b[i] == NUL
  {
    EncodedSizeIsLength(Entries(h, order));
    var e := Encode(Entries(h, order));
    assert (e + Zeros(bufsz - |e|))[..|e|] == e;
    e + Zeros(bufsz - |e|)
  }

  /**
   * `HeaderClient::push_header`: serialises the header, copies it over a
   * block-sized buffer of zeros and pushes that buffer. A serialisation
   * longer than the block makes the copy panic, so it must fit.
   */
  method PushHeader(hc: HeaderClient, h: Header, order: seq<Bytes>) returns (r: Result<nat, PsrdadaError>)
    requires IsOrderOf(order, h) && hc.buf.Valid()
    requires EncodedSize(Entries(h, order)) <= hc.buf.bufsz
    modifies hc.buf`filled, hc.buf`eodAt, hc.buf`wcount, hc.buf`eodPending, hc.buf`writeOpen
    modifies hc.buf`queue, hc.buf`writeLocked, hc.buf`contents, hc.buf.host`log, hc.buf.slots
    ensures hc.buf.Valid()
    ensures r.Ok? <==> old(WriteReady(hc.buf))
    ensures r.Ok? ==> r.value == hc.buf.bufsz
    ensures r.Err? ==> r.error == DadaWriteError && hc.buf.queue == old(hc.buf.queue)
    ensures r.Ok? && !hc.buf.Fails(Call.MarkFilled(hc.buf.bufsz)) ==>
      hc.buf.queue == old(hc.buf.queue) + [Committed(HeaderBlock(h, order, hc.buf.bufsz), old(hc.buf.eodPending))]
  {
    var bytes := HeaderToBytes(h, order);
    var bufsz := hc.buf.bufsz;
    var whole := bytes + Zeros(bufsz - |bytes|);
    assert whole == HeaderBlock(h, order, bufsz);
    r := Push(hc.Writer(), whole);
  }

  /**
   * `HeaderClient::pop_header`: pops the next block of the header ring and
   * parses it; `HeaderEodError` when there is no block.
   */
  method PopHeader(hc: HeaderClient) returns (r: Result<Header, PsrdadaError>)
    requires hc.buf.Valid()
    modifies hc.buf`readLocked, hc.buf`readOpen, hc.buf`rcount, hc.buf`readerEod, hc.buf`queue, hc.buf.host`log
    ensures hc.buf.Valid()
    ensures r == if old(ReadReady(hc.buf)) then BytesToHeader(old(hc.buf.queue[0].data)) else Err(HeaderEodError)
    ensures old(ReadReady(hc.buf)) && !hc.buf.Fails(Call.MarkCleared) ==> hc.buf.queue == old(hc.buf.queue[1..])
    ensures !old(ReadReady(hc.buf)) ==> hc.buf.queue == old(hc.buf.queue)
  {
    var reader := hc.Reader();
    var bytes := Pop(reader);
    if bytes.None? {
      return Err(HeaderEodError);
    }
    r := BytesToHeader(bytes.value);
  }

  /** `DadaClient::push_header`: `push_header` on the header client. */
  method ClientPushHeader(client: DadaClient, h: Header, order: seq<Bytes>) returns (r: Result<nat, PsrdadaError>)
    requires IsOrderOf(order, h) && client.Valid()
    requires EncodedSize(Entries(h, order)) <= client.HeaderBufSize()
    modifies client.headerBuf`filled, client.headerBuf`eodAt, client.headerBuf`wcount, client.headerBuf`eodPending
    modifies client.headerBuf`writeOpen, client.headerBuf`queue, client.headerBuf`writeLocked, client.headerBuf`contents
    modifies client.headerBuf.host`log, client.headerBuf.slots
    ensures client.Valid()
    ensures r.Ok? <==> old(WriteReady(client.headerBuf))
    ensures r.Ok? ==> r.value == client.HeaderBufSize()
    ensures r.Err? ==> r.error == DadaWriteError && client.headerBuf.queue == old(client.headerBuf.queue)
    ensures r.Ok? && !client.headerBuf.Fails(Call.MarkFilled(client.HeaderBufSize())) ==>
      client.headerBuf.queue == old(client.headerBuf.queue)
        + [Committed(HeaderBlock(h, order, client.HeaderBufSize()), old(client.headerBuf.eodPending))]
  {
    var (hc, _) := client.Split();
    ghost var d := client.dataBuf;
    assert forall i :: 0 <= i < |d.slots| ==> d.slots[i] !in client.headerBuf.slots;
    r := PushHeader(hc, h, order);
    assert d.Valid();
  }

  /** `DadaClient::pop_header`: `pop_header` on the header client. */
  method ClientPopHeader(client: DadaClient) returns (r: Result<Header, PsrdadaError>)
    requires client.Valid()
    modifies client.headerBuf`readLocked, client.headerBuf`readOpen, client.headerBuf`rcount, client.headerBuf`readerEod
    modifies client.headerBuf`queue, client.headerBuf.host`log
    ensures client.Valid()
    ensures r == if old(ReadReady(client.headerBuf)) then BytesToHeader(old(client.headerBuf.queue[0].data)) else Err(HeaderEodError)
    ensures old(ReadReady(client.headerBuf)) && !client.headerBuf.Fails(Call.MarkCleared) ==>
      client.headerBuf.queue == old(client.headerBuf.queue[1..])
    ensures !old(ReadReady(client.headerBuf)) ==> client.headerBuf.queue == old(client.headerBuf.queue)
  {
    var (hc, _) := client.Split();
    r := PopHeader(hc);
  }

  /** A popped header block decodes to the header pushed into it. */
  lemma HeaderBlockRoundTrip(h: Header, order: seq<Bytes>, bufsz: nat)
    requires |h| > 0 && WellFormed(h) && IsOrderOf(order, h)
    requires EncodedSize(Entries(h, order)) <= bufsz
    ensures BytesToHeader(HeaderBlock(h, order, bufsz)) == Ok(h)
  {
    EncodedSizeIsLength(Entries(h, order));
    RoundTripPadded(h, order, bufsz - EncodedSize(Entries(h, order)));
  }

  /** A header block parsed after the round trip through the ring. */
  lemma PoppedHeader(popped: Result<Header, PsrdadaError>, block: Bytes, h: Header, order: seq<Bytes>, bufsz: nat)
    requires |h| > 0 && WellFormed(h) && IsOrderOf(order, h)
    requires EncodedSize(Entries(h, order)) <= bufsz
    requires block == HeaderBlock(h, order, bufsz) && popped == BytesToHeader(block)
    ensures popped == Ok(h)
  {
    HeaderBlockRoundTrip(h, order, bufsz);
  }

  /**
   * On an empty, healthy header ring, `pop_header` after `push_header`
   * gives back the header that was pushed.
   */
  method PushThenPopHeader(hc: HeaderClient, h: Header, order: seq<Bytes>)
    returns (pushed: Result<nat, PsrdadaError>, popped: Result<Header, PsrdadaError>)
    requires hc.buf.Valid() && Healthy(hc.buf)
    requires hc.buf.queue == [] && !hc.buf.writeOpen && !hc.buf.readOpen
    requires |h| > 0 && WellFormed(h) && IsOrderOf(order, h)
    requires EncodedSize(Entries(h, order)) <= hc.buf.bufsz
    modifies hc.buf, hc.buf.host`log, hc.buf.slots
    ensures hc.buf.Valid()
    ensures pushed == Ok(hc.buf.bufsz) && popped == Ok(h)
    ensures hc.buf.queue == []
  {
    pushed := PushHeader(hc, h, order);
    ghost var block := hc.buf.queue[0].data;
    popped := PopHeader(hc);
    PoppedHeader(popped, block, h, order, hc.buf.bufsz);
  }
}
