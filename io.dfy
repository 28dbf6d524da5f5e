/** The ring state codes of `io/mod.rs`, as the C library reports them. */
module IoState {
  /** The state of a ring as its `state` field reports it. */
  datatype State =
    | Disconnected
    | Connected
    | Writer
    | Writing
    | WriteChange
    | Reader
    | Reading
    | ReadStop
    | Viewing
    | ViewStop

  /** The `i32` discriminant of a state. */
  function ToI32(s: State): (v: int)
    ensures 0 <= v <= 9
  {
    match s
    case Disconnected => 0
    case Connected => 1
    case Writer => 2
    case Writing => 3
    case WriteChange => 4
    case Reader => 5
    case Reading => 6
    case ReadStop => 7
    case Viewing => 8
    case ViewStop => 9
  }

  /** The state with discriminant `v`; any other code is unreachable. */
  function FromI32(v: int): (s: State)
    requires 0 <= v <= 9
    ensures ToI32(s) == v
  {
    match v
    case 0 => Disconnected
    case 1 => Connected
    case 2 => Writer
    case 3 => Writing
    case 4 => WriteChange
    case 5 => Reader
    case 6 => Reading
    case 7 => ReadStop
    case 8 => Viewing
    case _ => ViewStop
  }

  /** Decoding a discriminant gives back the state it came from. */
  lemma StateRoundTrip(s: State)
    ensures FromI32(ToI32(s)) == s
  {
    match s
    case Disconnected =>
    case Connected =>
    case Writer =>
    case Writing =>
    case WriteChange =>
    case Reader =>
    case Reading =>
    case ReadStop =>
    case Viewing =>
    case ViewStop =>
  }

  /** Distinct states have distinct discriminants. */
  lemma ToI32Injective(s: State, t: State)
    ensures ToI32(s) == ToI32(t) <==> s == t
  {
    StateRoundTrip(s);
    StateRoundTrip(t);
  }
}

/**
 * The block-level reader and writer handles of `io/mod.rs`: a handle
 * exists only while it holds the ring's read or write lock, and giving it
 * up releases the lock.
 */
module Io {
  import opened Wrappers
  import opened Errors
  import opened Ring

  /** The writer of a ring: it holds the write lock while it exists. */
  datatype Writer = Writer(ring: Ring) {

    /**
     * `Writer::new`: takes the write lock. When locking fails the
     * half-built writer is dropped, which unlocks, and the result is
     * `DadaLockingError`.
     */
    static method New(ring: Ring) returns (r: Result<Writer, PsrdadaError>)
      modifies ring`writeLocked, ring.host`log
      ensures r.Ok? == !ring.Fails(Call.LockWrite)
      ensures r.Ok? ==> r.value.ring == ring && ring.writeLocked
      ensures r.Ok? ==> ring.host.log == old(ring.host.log) + [Event(ring.key, Call.LockWrite)]
      ensures r.Err? ==> r.error == DadaLockingError
      ensures r.Err? ==> ring.host.log == old(ring.host.log) + [Event(ring.key, Call.LockWrite), Event(ring.key, Call.UnlockWrite)]
      ensures r.Err? ==> ring.writeLocked == (old(ring.writeLocked) && ring.Fails(Call.UnlockWrite))
      ensures old(ring.Valid()) ==> ring.Valid()
    {
      var w := Writer(ring);
      var locked := w.Lock();
      if locked.Err? {
        w.Drop();
        return Err(locked.error);
      }
      return Ok(w);
    }

    /** `lock`: `ipcbuf_lock_write`, a failure being `DadaLockingError`. */
    method Lock() returns (r: Result<(), PsrdadaError>)
      modifies ring`writeLocked, ring.host`log
      ensures ring.host.log == old(ring.host.log) + [Event(ring.key, Call.LockWrite)]
      ensures r.Ok? == !ring.Fails(Call.LockWrite) && (r.Err? ==> r.error == DadaLockingError)
      ensures ring.writeLocked == (old(ring.writeLocked) || r.Ok?)
      ensures old(ring.Valid()) ==> ring.Valid()
    {
      var ok := ring.LockWrite();
      r := if ok then Ok(()) else Err(DadaLockingError);
    }

    /** `unlock`: `ipcbuf_unlock_write`, a failure being `DadaLockingError`. */
    method Unlock() returns (r: Result<(), PsrdadaError>)
      modifies ring`writeLocked, ring.host`log
      ensures ring.host.log == old(ring.host.log) + [Event(ring.key, Call.UnlockWrite)]
      ensures r.Ok? == !ring.Fails(Call.UnlockWrite) && (r.Err? ==> r.error == DadaLockingError)
      ensures ring.writeLocked == (old(ring.writeLocked) && r.Err?)
      ensures old(ring.Valid()) ==> ring.Valid()
    {
      var ok := ring.UnlockWrite();
      r := if ok then Ok(()) else Err(DadaLockingError);
    }

    /** Dropping the writer unlocks the ring; a failure to unlock is ignored. */
    method Drop()
      modifies ring`writeLocked, ring.host`log
      ensures ring.host.log == old(ring.host.log) + [Event(ring.key, Call.UnlockWrite)]
      ensures ring.writeLocked == (old(ring.writeLocked) && ring.Fails(Call.UnlockWrite))
      ensures old(ring.Valid()) ==> ring.Valid()
    {
      var _ := Unlock();
    }
  }

  /** The reader of a ring: it holds the read lock while it exists. */
  datatype Reader = Reader(ring: Ring) {

    /**
     * `Reader::new`: takes the read lock. When locking fails the
     * half-built reader is dropped, which unlocks, and the result is
     * `DadaLockingError`.
     */
    static method New(ring: Ring) returns (r: Result<Reader, PsrdadaError>)
      modifies ring`readLocked, ring.host`log
      ensures r.Ok? == !ring.Fails(Call.LockRead)
      ensures r.Ok? ==> r.value.ring == ring && ring.readLocked
      ensures r.Ok? ==> ring.host.log == old(ring.host.log) + [Event(ring.key, Call.LockRead)]
      ensures r.Err? ==> r.error == DadaLockingError
      ensures r.Err? ==> ring.host.log == old(ring.host.log) + [Event(ring.key, Call.LockRead), Event(ring.key, Call.UnlockRead)]
      ensures r.Err? ==> ring.readLocked == (old(ring.readLocked) && ring.Fails(Call.UnlockRead))
      ensures old(ring.Valid()) ==> ring.Valid()
    {
      var rd := Reader(ring);
      var locked := rd.Lock();
      if locked.Err? {
        rd.Drop();
        return Err(locked.error);
      }
      return Ok(rd);
    }

    /** `lock`: `ipcbuf_lock_read`, a failure being `DadaLockingError`. */
    method Lock() returns (r: Result<(), PsrdadaError>)
      modifies ring`readLocked, ring.host`log
      ensures ring.host.log == old(ring.host.log) + [Event(ring.key, Call.LockRead)]
      ensures r.Ok? == !ring.Fails(Call.LockRead) && (r.Err? ==> r.error == DadaLockingError)
      ensures ring.readLocked == (old(ring.readLocked) || r.Ok?)
      ensures old(ring.Valid()) ==> ring.Valid()
    {
      var ok := ring.LockRead();
      r := if ok then Ok(()) else Err(DadaLockingError);
    }

    /** `unlock`: `ipcbuf_unlock_read`, a failure being `DadaLockingError`. */
    method Unlock() returns (r: Result<(), PsrdadaError>)
      modifies ring`readLocked, ring.host`log
      ensures ring.host.log == old(ring.host.log) + [Event(ring.key, Call.UnlockRead)]
      ensures r.Ok? == !ring.Fails(Call.UnlockRead) && (r.Err? ==> r.error == DadaLockingError)
      ensures ring.readLocked == (old(ring.readLocked) && r.Err?)
      ensures old(ring.Valid()) ==> ring.Valid()
    {
      var ok := ring.UnlockRead();
      r := if ok then Ok(()) else Err(DadaLockingError);
    }

    /** Dropping the reader unlocks the ring; a failure to unlock is ignored. */
    method Drop()
      modifies ring`readLocked, ring.host`log
      ensures ring.host.log == old(ring.host.log) + [Event(ring.key, Call.UnlockRead)]
      ensures ring.readLocked == (old(ring.readLocked) && ring.Fails(Call.UnlockRead))
      ensures old(ring.Valid()) ==> ring.Valid()
    {
      var _ := Unlock();
    }
  }
}
