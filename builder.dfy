/**
 * `builder.rs`: a builder collecting the sizes and flags of a new pair of
 * rings, and `build`, which creates the data ring at `key` and the header
 * ring at `key + 1`, optionally locks and pages both, and hands them to a
 * client that owns them, tearing down what it created when a step fails.
 */
module Builder {
  import opened Wrappers
  import opened Errors
  import opened Ring
  import opened Client

  /** The settings `build` resolves, defaults filled in. */
  datatype Config = Config(numBufs: nat, bufSize: nat, numHeaders: nat, headerSize: nat, lock: bool, page: bool)

  function UnwrapOr<T>(o: Option<T>, default: T): (v: T)
    ensures o.Some? ==> v == o.value
    ensures o.None? ==> v == default
  {
    if o.Some? then o.value else default
  }

  /** `ipcbuf_create` succeeds on the host as it is now. */
  ghost predicate Creates(host: Host, key: int, nbufs: nat, bufsz: nat)
    reads host
  {
    Event(key, Call.Create(nbufs, bufsz, 1)) !in host.faults && key !in host.rings && nbufs > 0
  }

  /** The optional locking and paging calls of `build`, in order. */
  function SetupCalls(dk: int, hk: int, lock: bool, page: bool): (s: seq<Event>)
    ensures |s| == (if lock then 2 else 0) + (if page then 2 else 0)
  {
    StageCalls(dk, hk, Call.ShmLock, lock) + StageCalls(dk, hk, Call.Page, page)
  }

  /** One optional step of `build`: the call on the data ring, then on the header ring, or nothing. */
  function StageCalls(dk: int, hk: int, call: Call, on: bool): (s: seq<Event>)
    ensures |s| == if on then 2 else 0
  {
    if on then [Event(dk, call), Event(hk, call)] else []
  }

  /** The builder: a key and the settings given so far. */
  datatype DadaClientBuilder = DadaClientBuilder(
    key: int,
    numBufs: Option<nat>, bufSize: Option<nat>, numHeaders: Option<nat>, headerSize: Option<nat>,
    lock: Option<bool>, page: Option<bool>)
  {
    /** `new`: a builder for `key` with nothing set. */
    static function New(key: int): (b: DadaClientBuilder)
      ensures b.key == key
      ensures b.numBufs.None? && b.bufSize.None? && b.numHeaders.None? && b.headerSize.None?
      ensures b.lock.None? && b.page.None?
    {
      DadaClientBuilder(key, None, None, None, None, None, None)
    }

    /** The setters: each records its value and leaves the rest alone. */
    function NumBufs(value: nat): DadaClientBuilder { this.(numBufs := Some(value)) }
    function BufSize(value: nat): DadaClientBuilder { this.(bufSize := Some(value)) }
    function NumHeaders(value: nat): DadaClientBuilder { this.(numHeaders := Some(value)) }
    function HeaderSize(value: nat): DadaClientBuilder { this.(headerSize := Some(value)) }
    function Lock(value: bool): DadaClientBuilder { this.(lock := Some(value)) }
    function Page(value: bool): DadaClientBuilder { this.(page := Some(value)) }

    /**
     * The settings `build` uses: four data blocks of 128 pages, eight
     * header blocks of one page, neither locked nor paged, unless set.
     */
    function Resolve(pageSize: nat): (c: Config)
      ensures c.numBufs == UnwrapOr(numBufs, 4) && c.bufSize == UnwrapOr(bufSize, 128 * pageSize)
      ensures c.numHeaders == UnwrapOr(numHeaders, 8) && c.headerSize == UnwrapOr(headerSize, pageSize)
      ensures c.lock == UnwrapOr(lock, false) && c.page == UnwrapOr(page, false)
    {
      Config(UnwrapOr(numBufs, 4), UnwrapOr(bufSize, 128 * pageSize), UnwrapOr(numHeaders, 8),
             UnwrapOr(headerSize, pageSize), UnwrapOr(lock, false), UnwrapOr(page, false))
    }

    /**
     * `build`. Creates the data ring (`DadaInitError` on failure) and the
     * header ring (on failure the data ring is destroyed, and the error
     * is `DadaInitError`, or `DadaDestroyError` when that destruction
     * fails); then locks and pages as configured, tearing both rings down
     * on a failure; then builds the client, which resets both rings.
     */
    method Build(host: Host, pageSize: nat) returns (r: Result<DadaClient, PsrdadaError>)
      requires IsI32(key) && host.Registry()
      modifies host`log, host`rings
      ensures host.Registry()
      ensures var c := Resolve(pageSize);
        var hk := HeaderKey(key);
        !old(Creates(host, key, c.numBufs, c.bufSize)) ==>
          && r == Err(DadaInitError) && host.rings == old(host.rings)
          && host.log == old(host.log) + [Event(key, Call.Create(c.numBufs, c.bufSize, 1))]
      ensures var c := Resolve(pageSize);
        var hk := HeaderKey(key);
        var created := [Event(key, Call.Create(c.numBufs, c.bufSize, 1)), Event(hk, Call.Create(c.numHeaders, c.headerSize, 1))];
        old(Creates(host, key, c.numBufs, c.bufSize)) && !old(Creates(host, hk, c.numHeaders, c.headerSize)) ==>
          && host.log == old(host.log) + created + [Event(key, Call.Destroy)]
          && r == Err(if Event(key, Call.Destroy) in host.faults then DadaDestroyError else DadaInitError)
          && (Event(key, Call.Destroy) !in host.faults ==> host.rings == old(host.rings))
      ensures var c := Resolve(pageSize);
        var hk := HeaderKey(key);
        var created := [Event(key, Call.Create(c.numBufs, c.bufSize, 1)), Event(hk, Call.Create(c.numHeaders, c.headerSize, 1))];
        var setup := SetupCalls(key, hk, c.lock, c.page);
        var s := FirstFault(setup, host.faults);
        var dOk := Event(key, Call.Destroy) !in host.faults;
        var hOk := Event(hk, Call.Destroy) !in host.faults;
        old(Creates(host, key, c.numBufs, c.bufSize)) && old(Creates(host, hk, c.numHeaders, c.headerSize)) && s < |setup| ==>
          && host.log == old(host.log) + created + setup[..s + 1]
               + [Event(key, Call.Destroy)] + (if dOk then [Event(hk, Call.Destroy)] else [])
          && r == Err(if dOk && hOk then DadaShmemLockError else DadaDestroyError)
          && (dOk && hOk ==> host.rings == old(host.rings))
      ensures var c := Resolve(pageSize);
        var hk := HeaderKey(key);
        var created := [Event(key, Call.Create(c.numBufs, c.bufSize, 1)), Event(hk, Call.Create(c.numHeaders, c.headerSize, 1))];
        var setup := SetupCalls(key, hk, c.lock, c.page);
        var reset := ResetCalls(key, hk);
        var s := FirstFault(reset, host.faults);
        old(Creates(host, key, c.numBufs, c.bufSize)) && old(Creates(host, hk, c.numHeaders, c.headerSize))
          && FirstFault(setup, host.faults) == |setup| ==>
          && host.log == old(host.log) + created + setup + Upto(reset, s)
               + (if s < 6 then [Event(key, Call.Destroy), Event(hk, Call.Destroy)] else [])
          && (r.Ok? <==> s == 6)
          && (r.Err? ==> r.error == ResetError(s))
      ensures var c := Resolve(pageSize);
        r.Ok? ==>
          && r.value.owned && r.value.Valid()
          && r.value.dataBuf.key == key && r.value.headerBuf.key == HeaderKey(key)
          && r.value.DataBufCount() == c.numBufs && r.value.DataBufSize() == c.bufSize
          && r.value.HeaderBufCount() == c.numHeaders && r.value.HeaderBufSize() == c.headerSize
          && Cleared(r.value.dataBuf) && Cleared(r.value.headerBuf)
          && host.rings == old(host.rings)[key := r.value.dataBuf][HeaderKey(key) := r.value.headerBuf]
    {
      var c := Resolve(pageSize);
      var bufs := CreateRings(host, key, c);
      if bufs.Err? {
        return Err(bufs.error);
      }
      var (data, header) := bufs.value;
      r := Finish(host, key, c, data, header);
    }

    /** The steps of `build` after both rings exist: locking and paging, then the client. */
    static method Finish(host: Host, key: int, c: Config, data: Ring, header: Ring) returns (r: Result<DadaClient, PsrdadaError>)
      requires IsI32(key) && DadaClient(true, data, header).Valid() && host.Registry() && data.host == host
      requires data.Initial() && header.Initial() && data.key == key && header.key == HeaderKey(key)
      requires data.nbufs == c.numBufs && data.bufsz == c.bufSize
      requires header.nbufs == c.numHeaders && header.bufsz == c.headerSize
      modifies data, header, host`log, host`rings
      ensures host.Registry()
      ensures var hk := HeaderKey(key);
        var setup := SetupCalls(key, hk, c.lock, c.page);
        var s := FirstFault(setup, host.faults);
        var dOk := Event(key, Call.Destroy) !in host.faults;
        var hOk := Event(hk, Call.Destroy) !in host.faults;
        s < |setup| ==>
          && host.log == old(host.log) + setup[..s + 1]
               + [Event(key, Call.Destroy)] + (if dOk then [Event(hk, Call.Destroy)] else [])
          && r == Err(if dOk && hOk then DadaShmemLockError else DadaDestroyError)
          && (dOk && hOk ==> host.rings == old(host.rings) - {key} - {hk})
      ensures var hk := HeaderKey(key);
        var setup := SetupCalls(key, hk, c.lock, c.page);
        var reset := ResetCalls(key, hk);
        var s := FirstFault(reset, host.faults);
        FirstFault(setup, host.faults) == |setup| ==>
          && host.log == old(host.log) + setup + Upto(reset, s)
               + (if s < 6 then [Event(key, Call.Destroy), Event(hk, Call.Destroy)] else [])
          && (r.Ok? <==> s == 6)
          && (r.Err? ==> r.error == ResetError(s))
      ensures r.Ok? ==>
          && r.value == DadaClient(true, data, header) && r.value.Valid()
          && Cleared(data) && Cleared(header) && host.rings == old(host.rings)
    {
      var setup := Setup(data, header, c.lock, c.page);
      if setup.Err? {
        return Err(setup.error);
      }
      r := DadaClient.Build(data, header);
    }

    /** The two `ipcbuf_create` calls of `build` and the cleanup after the second failing. */
    static method CreateRings(host: Host, key: int, c: Config) returns (r: Result<(Ring, Ring), PsrdadaError>)
      requires IsI32(key) && host.Registry()
      modifies host`log, host`rings
      ensures host.Registry()
      ensures var hk := HeaderKey(key);
        var created := [Event(key, Call.Create(c.numBufs, c.bufSize, 1)), Event(hk, Call.Create(c.numHeaders, c.headerSize, 1))];
        && (!old(Creates(host, key, c.numBufs, c.bufSize)) ==>
              && r == Err(DadaInitError) && host.rings == old(host.rings)
              && host.log == old(host.log) + created[..1])
        && (old(Creates(host, key, c.numBufs, c.bufSize)) && !old(Creates(host, hk, c.numHeaders, c.headerSize)) ==>
              && host.log == old(host.log) + created + [Event(key, Call.Destroy)]
              && r == Err(if Event(key, Call.Destroy) in host.faults then DadaDestroyError else DadaInitError)
              && (Event(key, Call.Destroy) !in host.faults ==> host.rings == old(host.rings)))
        && (r.Ok? <==> old(Creates(host, key, c.numBufs, c.bufSize)) && old(Creates(host, hk, c.numHeaders, c.headerSize)))
        && (r.Ok? ==>
              && host.log == old(host.log) + created
              && var (data, header) := r.value;
              && fresh(data) && fresh(header) && DadaClient(true, data, header).Valid()
              && data.Initial() && header.Initial()
              && data.key == key && header.key == hk && data.host == host
              && data.nbufs == c.numBufs && data.bufsz == c.bufSize
              && header.nbufs == c.numHeaders && header.bufsz == c.headerSize
              && host.rings == old(host.rings)[key := data][hk := header])
    {
      var data := host.Create(key, c.numBufs, c.bufSize, 1);
      if data == null {
        return Err(DadaInitError);
      }
      var header := host.Create(HeaderKey(key), c.numHeaders, c.headerSize, 1);
      if header == null {
        var ok := data.Destroy();
        if !ok {
          return Err(DadaDestroyError);
        }
        return Err(DadaInitError);
      }
      assert forall a :: a in data.slots ==> a !in header.slots;
      return Ok((data, header));
    }

    /** The optional locking and paging of both rings, tearing both down on a failure. */
    static method Setup(data: Ring, header: Ring, lock: bool, page: bool) returns (r: Result<(), PsrdadaError>)
      requires DadaClient(true, data, header).Wired() && data.host.Registry()
      requires data.alive && header.alive
      modifies data`alive, header`alive, data.host`log, data.host`rings
      ensures data.host.Registry()
      ensures var setup := SetupCalls(data.key, header.key, lock, page);
        var s := FirstFault(setup, data.host.faults);
        && (r.Ok? <==> s == |setup|)
        && (r.Ok? ==> data.host.log == old(data.host.log) + setup && unchanged(data.host`rings, data`alive, header`alive))
        && (r.Err? ==> TornDown(data, header, old(data.host.log) + setup[..s + 1], old(data.host.rings), r.error))
    {
      ghost var locks := StageCalls(data.key, header.key, Call.ShmLock, lock);
      ghost var pages := StageCalls(data.key, header.key, Call.Page, page);
      ComposeStages(data.host.log, locks, pages, data.host.faults);
      r := Stage(data, header, Call.ShmLock, lock);
      if r.Ok? {
        r := Stage(data, header, Call.Page, page);
      }
    }

    /**
     * When `on`, `ipcbuf_lock` (for `ShmLock`) or `ipcbuf_page` (for
     * `Page`) on the data ring, then on the header ring, tearing both down
     * on a failure.
     */
    static method Stage(data: Ring, header: Ring, call: Call, on: bool) returns (r: Result<(), PsrdadaError>)
      requires call == Call.ShmLock || call == Call.Page
      requires DadaClient(true, data, header).Wired() && data.host.Registry()
      requires data.alive && header.alive
      modifies data`alive, header`alive, data.host`log, data.host`rings
      ensures data.host.Registry()
      ensures var calls := StageCalls(data.key, header.key, call, on);
        var s := FirstFault(calls, data.host.faults);
        && (r.Ok? <==> s == |calls|)
        && (r.Ok? ==> data.host.log == old(data.host.log) + calls && unchanged(data.host`rings, data`alive, header`alive))
        && (r.Err? ==> TornDown(data, header, old(data.host.log) + calls[..s + 1], old(data.host.rings), r.error))
    {
      var calls := StageCalls(data.key, header.key, call, on);
      if !on {
        assert data.host.log == old(data.host.log) + calls;
        return Ok(());
      }
      var ok;
      if call == Call.ShmLock {
        ok := data.ShmLock();
      } else {
        ok := data.Page();
      }
      if !ok {
        assert calls[0] in data.host.faults;
        r := Teardown(data, header);
        return;
      }
      if call == Call.ShmLock {
        ok := header.ShmLock();
      } else {
        ok := header.Page();
      }
      if !ok {
        assert calls[0] !in data.host.faults && calls[1] in data.host.faults;
        r := Teardown(data, header);
        return;
      }
      assert calls[0] !in data.host.faults && calls[1] !in data.host.faults;
      return Ok(());
    }

    /** Destroys the data ring, then the header ring, stopping at a failure. */
    static method Teardown(data: Ring, header: Ring) returns (r: Result<(), PsrdadaError>)
      requires DadaClient(true, data, header).Wired() && data.host.Registry()
      requires data.alive && header.alive
      modifies data`alive, header`alive, data.host`log, data.host`rings
      ensures data.host.Registry() && r.Err?
      ensures TornDown(data, header, old(data.host.log), old(data.host.rings), r.error)
    {
      var ok := data.Destroy();
      if !ok {
        return Err(DadaDestroyError);
      }
      ok := header.Destroy();
      if !ok {
        return Err(DadaDestroyError);
      }
      return Err(DadaShmemLockError);
    }
  }

  /**
   * The teardown after a failed lock or page: the log is `log0` followed
   * by destroying the data ring and, when that succeeds, the header ring;
   * the error is `DadaShmemLockError` when both went, `DadaDestroyError`
   * otherwise; and when both went, neither is registered any more.
   */
  ghost predicate TornDown(data: Ring, header: Ring, log0: seq<Event>, rings0: map<int, Ring>, e: PsrdadaError)
    reads data.host
  {
    var dOk := !data.Fails(Call.Destroy);
    var hOk := !header.Fails(Call.Destroy);
    && data.host.log == log0 + [Event(data.key, Call.Destroy)] + (if dOk then [Event(header.key, Call.Destroy)] else [])
    && e == (if dOk && hOk then DadaShmemLockError else DadaDestroyError)
    && (dOk && hOk ==> data.host.rings == rings0 - {data.key} - {header.key})
  }

  /** The first failing call of `a + b` is the first of `a`, or else `|a|` plus the first of `b`. */
  lemma {:induction false} FirstFaultAppend(a: seq<Event>, b: seq<Event>, faults: set<Event>)
    ensures FirstFault(a + b, faults) ==
      if FirstFault(a, faults) < |a| then FirstFault(a, faults) else |a| + FirstFault(b, faults)
  {
    if a == [] {
      assert a + b == b;
    } else {
      assert (a + b)[1..] == a[1..] + b;
      FirstFaultAppend(a[1..], b, faults);
    }
  }

  /**
   * How the first failure among the locking calls followed by the paging
   * calls, and the calls made up to it, split between the two stages.
   */
  lemma ComposeStages(log0: seq<Event>, locks: seq<Event>, pages: seq<Event>, faults: set<Event>)
    ensures var s := FirstFault(locks + pages, faults);
      var sl := FirstFault(locks, faults);
      var sp := FirstFault(pages, faults);
      && (sl < |locks| ==> s == sl && log0 + (locks + pages)[..s + 1] == log0 + locks[..sl + 1])
      && (sl == |locks| && sp < |pages| ==> s == |locks| + sp && log0 + (locks + pages)[..s + 1] == log0 + locks + pages[..sp + 1])
      && (sl == |locks| && sp == |pages| ==> s == |locks + pages| && log0 + (locks + pages) == log0 + locks + pages)
  {
    FirstFaultAppend(locks, pages, faults);
    var sl := FirstFault(locks, faults);
    var sp := FirstFault(pages, faults);
    if sl < |locks| {
      assert (locks + pages)[..sl + 1] == locks[..sl + 1];
    } else if sp < |pages| {
      var head := (locks + pages)[..|locks| + sp + 1];
      assert head == locks + pages[..sp + 1];
      assert log0 + head == log0 + locks + pages[..sp + 1];
    } else {
      assert log0 + (locks + pages) == log0 + locks + pages;
    }
  }

  /** Each setter records its own setting and changes none of the others. */
  lemma SettersOverride(b: DadaClientBuilder, pageSize: nat, n: nat, f: bool)
    ensures b.NumBufs(n).Resolve(pageSize) == b.Resolve(pageSize).(numBufs := n)
    ensures b.BufSize(n).Resolve(pageSize) == b.Resolve(pageSize).(bufSize := n)
    ensures b.NumHeaders(n).Resolve(pageSize) == b.Resolve(pageSize).(numHeaders := n)
    ensures b.HeaderSize(n).Resolve(pageSize) == b.Resolve(pageSize).(headerSize := n)
    ensures b.Lock(f).Resolve(pageSize) == b.Resolve(pageSize).(lock := f)
    ensures b.Page(f).Resolve(pageSize) == b.Resolve(pageSize).(page := f)
  {
  }

  /** A builder with nothing set resolves to the documented defaults. */
  lemma Defaults(key: int, pageSize: nat)
    ensures DadaClientBuilder.New(key).Resolve(pageSize) == Config(4, 128 * pageSize, 8, pageSize, false, false)
  {
  }
}
