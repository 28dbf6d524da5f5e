/**
 * `client.rs`: the paired client holding a data ring at `key` and a header
 * ring at `key + 1`, its split into a header and a data client, its reset
 * and its teardown.
 */
module Client {
  import opened Wrappers
  import opened Errors
  import opened Ring
  import opened Halves

  const I32_MIN: int := -0x8000_0000
  const I32_MAX: int := 0x7fff_ffff

  predicate IsI32(x: int) {
    I32_MIN <= x <= I32_MAX
  }

  /** `key + 1` on an `i32`, wrapping as a release build does. */
  function HeaderKey(key: int): (k: int)
    requires IsI32(key)
    ensures IsI32(k) && k != key
    ensures key < I32_MAX ==> k == key + 1
  {
    if key == I32_MAX then I32_MIN else key + 1
  }

  /** The client for the header ring. */
  datatype HeaderClient = HeaderClient(buf: Ring) {
    /** `reader`: a fresh read half of the header ring. */
    method Reader() returns (r: ReadHalf)
      ensures fresh(r) && r.ring == buf && !r.done
    {
      r := new ReadHalf(buf);
    }

    /** `writer`: the write half of the header ring. */
    function Writer(): (w: WriteHalf)
      ensures w.ring == buf
    {
      WriteHalf(buf)
    }
  }

  /** The client for the data ring. */
  datatype DataClient = DataClient(buf: Ring) {
    /** `reader`: a fresh read half of the data ring. */
    method Reader() returns (r: ReadHalf)
      ensures fresh(r) && r.ring == buf && !r.done
    {
      r := new ReadHalf(buf);
    }

    /** `writer`: the write half of the data ring. */
    function Writer(): (w: WriteHalf)
      ensures w.ring == buf
    {
      WriteHalf(buf)
    }
  }

  /** First index of `steps` whose call fails, or `|steps|` when none does. */
  function FirstFault(steps: seq<Event>, faults: set<Event>): (i: nat)
    ensures i <= |steps|
    ensures forall j :: 0 <= j < i ==> steps[j] !in faults
    ensures i < |steps| ==> steps[i] in faults
  {
    if steps == [] then 0
    else if steps[0] in faults then 0
    else 1 + FirstFault(steps[1..], faults)
  }

  /** The calls of `reset` up to and including the first that fails. */
  function Upto(steps: seq<Event>, i: nat): seq<Event>
    requires i <= |steps|
  {
    if i < |steps| then steps[..i + 1] else steps
  }

  /** The error `reset` returns when step `i` of its six fails. */
  function ResetError(i: nat): PsrdadaError {
    if i == 2 || i == 3 then DadaEodError else DadaLockingError
  }

  /** The six calls `reset` makes on the rings at `dk` and `hk`, in order. */
  function ResetCalls(dk: int, hk: int): (s: seq<Event>)
    ensures |s| == 6
  {
    [ Event(dk, Call.LockWrite), Event(hk, Call.LockWrite),
      Event(dk, Call.Reset), Event(hk, Call.Reset),
      Event(dk, Call.UnlockWrite), Event(hk, Call.UnlockWrite) ]
  }

  /** A ring's cursors and flags as `ipcbuf_reset` leaves them. */
  ghost predicate Cleared(r: Ring)
    reads r
  {
    r.queue == [] && r.wcount == 0 && r.rcount == 0
    && !r.eodPending && !r.readerEod && !r.writeOpen && !r.readOpen
  }

  /** The data and header rings of one client; `owned` is the `allocated` flag: the client created them. */
  datatype DadaClient = DadaClient(owned: bool, dataBuf: Ring, headerBuf: Ring) {

    /** Two distinct rings on one host. */
    ghost predicate Wired() {
      dataBuf != headerBuf && dataBuf.host == headerBuf.host
    }

    /** Both rings are consistent and share no slot. */
    ghost predicate Valid()
      reads dataBuf, dataBuf.slots, headerBuf, headerBuf.slots
    {
      && Wired() && dataBuf.Valid() && headerBuf.Valid()
      && (forall a :: a in dataBuf.slots ==> a !in headerBuf.slots)
    }

    /** `split`: a header client and a data client over the two rings. */
    function Split(): (r: (HeaderClient, DataClient))
      ensures r.0.buf == headerBuf && r.1.buf == dataBuf
    {
      (HeaderClient(headerBuf), DataClient(dataBuf))
    }

    /** `data_buf_size`, `header_buf_size`, `data_buf_count`, `header_buf_count`. */
    function DataBufSize(): nat { dataBuf.bufsz }
    function HeaderBufSize(): nat { headerBuf.bufsz }
    function DataBufCount(): nat { dataBuf.nbufs }
    function HeaderBufCount(): nat { headerBuf.nbufs }

    /** The six calls of `reset`, in order. */
    function ResetSteps(): seq<Event> {
      ResetCalls(dataBuf.key, headerBuf.key)
    }

    /** The step at which `reset` stops: the first failing call, or 6. */
    ghost function ResetStop(): nat {
      FirstFault(ResetSteps(), dataBuf.host.faults)
    }

    /**
     * `connect`: attaches to the data ring at `key` and the header ring at
     * `key + 1`; `DadaInitError` when either attachment fails.
     */
    static method Connect(host: Host, key: int) returns (r: Result<(Ring, Ring), PsrdadaError>)
      requires IsI32(key)
      modifies host`log
      ensures var d := Event(key, Call.Connect) !in host.faults && key in host.rings;
        host.log == old(host.log) + [Event(key, Call.Connect)] + (if d then [Event(HeaderKey(key), Call.Connect)] else [])
      ensures r.Ok? <==>
        && Event(key, Call.Connect) !in host.faults && key in host.rings
        && Event(HeaderKey(key), Call.Connect) !in host.faults && HeaderKey(key) in host.rings
      ensures r.Ok? ==> r.value == (host.rings[key], host.rings[HeaderKey(key)])
      ensures r.Err? ==> r.error == DadaInitError
    {
      var data := host.Connect(key);
      if data == null {
        return Err(DadaInitError);
      }
      var header := host.Connect(HeaderKey(key));
      if header == null {
        return Err(DadaInitError);
      }
      return Ok((data, header));
    }

    /** `new`: a client over existing rings, which it will not destroy. */
    static method New(host: Host, key: int) returns (r: Result<DadaClient, PsrdadaError>)
      requires IsI32(key)
      modifies host`log
      ensures var d := Event(key, Call.Connect) !in host.faults && key in host.rings;
        host.log == old(host.log) + [Event(key, Call.Connect)] + (if d then [Event(HeaderKey(key), Call.Connect)] else [])
      ensures r.Ok? <==>
        && Event(key, Call.Connect) !in host.faults && key in host.rings
        && Event(HeaderKey(key), Call.Connect) !in host.faults && HeaderKey(key) in host.rings
      ensures r.Ok? ==> r.value == DadaClient(false, host.rings[key], host.rings[HeaderKey(key)])
      ensures r.Ok? && host.Registry() ==> r.value.Wired()
      ensures r.Err? ==> r.error == DadaInitError
    {
      var bufs := Connect(host, key);
      if bufs.Err? {
        return Err(bufs.error);
      }
      r := Ok(DadaClient(false, bufs.value.0, bufs.value.1));
    }

    /**
     * `reset`: write-locks both rings, resets both, unlocks both, in that
     * order, stopping at the first call that fails.
     */
    method Reset() returns (r: Result<(), PsrdadaError>)
      requires Valid()
      modifies dataBuf`writeLocked, headerBuf`writeLocked
      modifies dataBuf`wcount, dataBuf`rcount, dataBuf`queue, dataBuf`eodPending, dataBuf`readerEod, dataBuf`writeOpen, dataBuf`readOpen
      modifies headerBuf`wcount, headerBuf`rcount, headerBuf`queue, headerBuf`eodPending, headerBuf`readerEod, headerBuf`writeOpen, headerBuf`readOpen
      modifies dataBuf.host`log
      ensures Valid()
      ensures dataBuf.host.log == old(dataBuf.host.log) + Upto(ResetSteps(), ResetStop())
      ensures r.Ok? <==> ResetStop() == 6
      ensures r.Err? ==> r.error == ResetError(ResetStop())
      ensures dataBuf.writeLocked == if ResetStop() == 0 then old(dataBuf.writeLocked) else ResetStop() <= 4
      ensures headerBuf.writeLocked == if ResetStop() <= 1 then old(headerBuf.writeLocked) else ResetStop() <= 5
      ensures if ResetStop() >= 3 then Cleared(dataBuf) else dataBuf.queue == old(dataBuf.queue)
      ensures if ResetStop() >= 4 then Cleared(headerBuf) else headerBuf.queue == old(headerBuf.queue)
    {
      r := LockBoth();
      if r.Err? {
        return;
      }
      r := ResetBoth();
      if r.Err? {
        return;
      }
      r := UnlockBoth();
    }

    /** Steps 0 and 1 of `reset`. */
    method LockBoth() returns (r: Result<(), PsrdadaError>)
      requires Valid()
      modifies dataBuf`writeLocked, headerBuf`writeLocked, dataBuf.host`log
      ensures Valid()
      ensures var s := ResetStop();
        && (r.Ok? <==> s >= 2)
        && (r.Err? ==> r.error == DadaLockingError && dataBuf.host.log == old(dataBuf.host.log) + Upto(ResetSteps(), s))
        && (r.Ok? ==> dataBuf.host.log == old(dataBuf.host.log) + ResetSteps()[..2])
        && dataBuf.writeLocked == (if s == 0 then old(dataBuf.writeLocked) else true)
        && headerBuf.writeLocked == (if s <= 1 then old(headerBuf.writeLocked) else true)
    {
      var steps := ResetSteps();
      var ok := dataBuf.LockWrite();
      if !ok {
        assert steps[0] in dataBuf.host.faults;
        return Err(DadaLockingError);
      }
      ok := headerBuf.LockWrite();
      if !ok {
        assert steps[1] in dataBuf.host.faults;
        return Err(DadaLockingError);
      }
      assert steps[0] !in dataBuf.host.faults && steps[1] !in dataBuf.host.faults;
      return Ok(());
    }

    /** Steps 2 and 3 of `reset`, both rings being write-locked. */
    method ResetBoth() returns (r: Result<(), PsrdadaError>)
      requires Valid() && dataBuf.writeLocked && headerBuf.writeLocked && ResetStop() >= 2
      modifies dataBuf`wcount, dataBuf`rcount, dataBuf`queue, dataBuf`eodPending, dataBuf`readerEod, dataBuf`writeOpen, dataBuf`readOpen
      modifies headerBuf`wcount, headerBuf`rcount, headerBuf`queue, headerBuf`eodPending, headerBuf`readerEod, headerBuf`writeOpen, headerBuf`readOpen
      modifies dataBuf.host`log
      ensures Valid()
      ensures var s := ResetStop();
        && (r.Ok? <==> s >= 4)
        && (r.Err? ==> r.error == DadaEodError && dataBuf.host.log == old(dataBuf.host.log) + Upto(ResetSteps(), s)[2..])
        && (r.Ok? ==> dataBuf.host.log == old(dataBuf.host.log) + ResetSteps()[2..4])
        && (if s >= 3 then Cleared(dataBuf) else dataBuf.queue == old(dataBuf.queue))
        && (if s >= 4 then Cleared(headerBuf) else headerBuf.queue == old(headerBuf.queue))
    {
      var steps := ResetSteps();
      var ok := dataBuf.Reset();
      if !ok {
        assert steps[2] in dataBuf.host.faults;
        return Err(DadaEodError);
      }
      ok := headerBuf.Reset();
      if !ok {
        assert steps[3] in dataBuf.host.faults;
        return Err(DadaEodError);
      }
      assert steps[2] !in dataBuf.host.faults && steps[3] !in dataBuf.host.faults;
      return Ok(());
    }

    /** Steps 4 and 5 of `reset`. */
    method UnlockBoth() returns (r: Result<(), PsrdadaError>)
      requires Valid() && ResetStop() >= 4
      modifies dataBuf`writeLocked, headerBuf`writeLocked, dataBuf.host`log
      ensures Valid()
      ensures var s := ResetStop();
        && (r.Ok? <==> s == 6)
        && (r.Err? ==> r.error == DadaLockingError)
        && dataBuf.host.log == old(dataBuf.host.log) + Upto(ResetSteps(), s)[4..]
        && dataBuf.writeLocked == (old(dataBuf.writeLocked) && s == 4)
        && headerBuf.writeLocked == (old(headerBuf.writeLocked) && s <= 5)
    {
      var steps := ResetSteps();
      var ok := dataBuf.UnlockWrite();
      if !ok {
        assert steps[4] in dataBuf.host.faults;
        return Err(DadaLockingError);
      }
      ok := headerBuf.UnlockWrite();
      if !ok {
        assert steps[5] in dataBuf.host.faults;
        return Err(DadaLockingError);
      }
      assert steps[4] !in dataBuf.host.faults && steps[5] !in dataBuf.host.faults;
      return Ok(());
    }

    /**
     * Dropping the client: when it created the rings it destroys both,
     * ignoring failures; a connected client leaves them alone.
     */
    method Drop()
      requires Wired() && dataBuf.host.Registry()
      modifies dataBuf`alive, headerBuf`alive, dataBuf.host`log, dataBuf.host`rings
      ensures dataBuf.host.Registry()
      ensures !owned ==> unchanged(dataBuf.host) && unchanged(dataBuf`alive, headerBuf`alive)
      ensures owned ==>
        dataBuf.host.log == old(dataBuf.host.log) + [Event(dataBuf.key, Call.Destroy), Event(headerBuf.key, Call.Destroy)]
      ensures owned ==>
        && dataBuf.alive == (old(dataBuf.alive) && dataBuf.Fails(Call.Destroy))
        && headerBuf.alive == (old(headerBuf.alive) && headerBuf.Fails(Call.Destroy))
      ensures owned ==>
        var d := !dataBuf.Fails(Call.Destroy) && old(dataBuf.alive);
        var h := !headerBuf.Fails(Call.Destroy) && old(headerBuf.alive);
        dataBuf.host.rings ==
          old(dataBuf.host.rings) - (if d then {dataBuf.key} else {}) - (if h then {headerBuf.key} else {})
    {
      if owned {
        var _ := dataBuf.Destroy();
        var _ := headerBuf.Destroy();
      }
    }

    /**
     * `build`: a client owning the two rings just created, reset once;
     * when the reset fails the client is dropped, destroying both rings.
     */
    static method Build(dataBuf: Ring, headerBuf: Ring) returns (r: Result<DadaClient, PsrdadaError>)
      requires DadaClient(true, dataBuf, headerBuf).Valid() && dataBuf.host.Registry()
      modifies dataBuf, headerBuf, dataBuf.host`log, dataBuf.host`rings
      ensures dataBuf.host.Registry()
      ensures var c := DadaClient(true, dataBuf, headerBuf);
        && (r.Ok? <==> c.ResetStop() == 6)
        && (r.Ok? ==> r.value == c && c.Valid() && Cleared(dataBuf) && Cleared(headerBuf))
        && (r.Ok? ==> !dataBuf.writeLocked && !headerBuf.writeLocked && dataBuf.host.rings == old(dataBuf.host.rings))
        && (r.Ok? ==> dataBuf.host.log == old(dataBuf.host.log) + c.ResetSteps())
        && (r.Err? ==> r.error == ResetError(c.ResetStop()))
        && (r.Err? ==> dataBuf.host.log == old(dataBuf.host.log) + Upto(c.ResetSteps(), c.ResetStop())
                         + [Event(dataBuf.key, Call.Destroy), Event(headerBuf.key, Call.Destroy)])
      ensures r.Err? ==>
        && dataBuf.alive == (old(dataBuf.alive) && dataBuf.Fails(Call.Destroy))
        && headerBuf.alive == (old(headerBuf.alive) && headerBuf.Fails(Call.Destroy))
      ensures r.Err? ==>
        var d := !dataBuf.Fails(Call.Destroy) && old(dataBuf.alive);
        var h := !headerBuf.Fails(Call.Destroy) && old(headerBuf.alive);
        dataBuf.host.rings ==
          old(dataBuf.host.rings) - (if d then {dataBuf.key} else {}) - (if h then {headerBuf.key} else {})
    {
      var c := DadaClient(true, dataBuf, headerBuf);
      var reset := c.Reset();
      if reset.Err? {
        c.Drop();
        return Err(reset.error);
      }
      return Ok(c);
    }
  }
}
