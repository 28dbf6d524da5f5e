/**
 * An abstract model of the psrdada ring buffer (`ipcbuf_t`) as the crate
 * sees it through the foreign `ipcbuf_*` functions. The C implementation
 * is not part of this model; its behaviour here is limited to what the
 * crate relies on:
 *   - blocks are handed from writer to reader in FIFO order;
 *   - `mark_filled` with fewer than `bufsz` bytes raises end-of-data;
 *   - `enable_eod` raises end-of-data on the next `mark_filled`;
 *   - the reader sees end-of-data once it has cleared the block that
 *     carries it.
 * Whether a foreign call reports failure is decided by the host's fixed
 * `faults` set, standing for everything the crate cannot see (other
 * processes, the operating system). Every foreign call is recorded, in
 * order, in the host's event log.
 */
module Ring {
  import opened ByteTypes

  /** A foreign call and its arguments. */
  datatype Call =
    | Create(nbufs: nat, bufsz: nat, nreaders: nat)
    | Connect
    | LockWrite
    | GetNextWrite
    | EnableEod
    | MarkFilled(nbytes: nat)
    | UnlockWrite
    | LockRead
    | GetNextRead
    | MarkCleared
    | Eod
    | UnlockRead
    | Reset
    | ShmLock
    | Page
    | Destroy

  /** A foreign call on the ring with shared-memory key `key`. */
  datatype Event = Event(key: int, call: Call)

  /** A committed block: its valid bytes and whether it ends the data. */
  datatype Block = Committed(data: Bytes, eod: bool)

  /** Position `x` of a ring of `n` slots, for `x` less than two laps. */
  function Wrap(x: nat, n: nat): (s: nat)
    requires x < 2 * n
    ensures s < n && (s == x || s == x - n)
  {
    if x < n then x else x - n
  }

  /** A multiple of `n` strictly between `-n` and `n` is zero. */
  lemma MultipleGap(d: int, n: int)
    requires n > 0
    ensures d == 0 || d * n <= -n || d * n >= n
    decreases if d < 0 then -d else d
  {
    if d > 1 {
      MultipleGap(d - 1, n);
      assert d * n == (d - 1) * n + n;
    } else if d < -1 {
      MultipleGap(d + 1, n);
      assert d * n == (d + 1) * n - n;
    }
  }

  /** The remainder is determined by any quotient-and-remainder split. */
  lemma ModOf(x: nat, m: int, r: int, n: nat)
    requires 0 < n && 0 <= r < n && x == m * n + r
    ensures x % n == r
  {
    var q0, r0 := x / n, x % n;
    assert x == q0 * n + r0;
    assert (m - q0) * n == m * n - q0 * n;
    MultipleGap(m - q0, n);
  }

  /** Advancing a count by `q <= n` advances its slot by `q`, wrapping once. */
  lemma WrapMod(a: nat, q: nat, n: nat)
    requires 0 < n && q <= n
    ensures a % n + q < 2 * n && Wrap(a % n + q, n) == (a + q) % n
  {
    var m, r := a / n, a % n;
    assert a == m * n + r;
    if r + q < n {
      ModOf(a + q, m, r + q, n);
    } else {
      assert (m + 1) * n == m * n + n;
      ModOf(a + q, m + 1, r + q - n, n);
    }
  }

  /**
   * The machine the rings live on: shared-memory segments by key, the
   * log of foreign calls and the calls that fail.
   */
  class Host {
    var log: seq<Event>
    var rings: map<int, Ring>
    const faults: set<Event>

    /** Every registered ring sits at its own key and on this host. */
    ghost predicate Registry()
      reads this
    {
      forall k :: k in rings ==> rings[k].key == k && rings[k].host == this
    }

    constructor (faults: set<Event>)
      ensures log == [] && rings == map[] && this.faults == faults && Registry()
    {
      log := [];
      rings := map[];
      this.faults := faults;
    }

    /**
     * `ipcbuf_create`: allocates a ring at `key`. Fails when the call is
     * faulted, when the key is in use or when there would be no slots.
     */
    method Create(key: int, nbufs: nat, bufsz: nat, nreaders: nat) returns (r: Ring?)
      requires Registry()
      modifies this`log, this`rings
      ensures Registry()
      ensures log == old(log) + [Event(key, Call.Create(nbufs, bufsz, nreaders))]
      ensures (r != null) == (Event(key, Call.Create(nbufs, bufsz, nreaders)) !in faults && key !in old(rings) && nbufs > 0)
      ensures r == null ==> rings == old(rings)
      ensures r != null ==> fresh(r) && rings == old(rings)[key := r]
      ensures r != null ==> r.Valid() && r.Initial() && r.host == this && r.key == key
      ensures r != null ==> r.nbufs == nbufs && r.bufsz == bufsz && r.nreaders == nreaders
      ensures r != null ==> forall i :: 0 <= i < |r.slots| ==> fresh(r.slots[i])
    {
      log := log + [Event(key, Call.Create(nbufs, bufsz, nreaders))];
      if Event(key, Call.Create(nbufs, bufsz, nreaders)) in faults || key in rings || nbufs == 0 {
        return null;
      }
      r := new Ring(this, key, nbufs, bufsz, nreaders);
      rings := rings[key := r];
    }

    /** `ipcbuf_connect`: attaches to the ring already at `key`. */
    method Connect(key: int) returns (r: Ring?)
      modifies this`log
      ensures log == old(log) + [Event(key, Call.Connect)]
      ensures r == if Event(key, Call.Connect) !in faults && key in rings then rings[key] else null
    {
      log := log + [Event(key, Call.Connect)];
      r := if Event(key, Call.Connect) !in faults && key in rings then rings[key] else null;
    }
  }

  /** One ring buffer: `nbufs` slots of `bufsz` bytes in shared memory. */
  class Ring {
    const key: int
    const host: Host
    const nbufs: nat
    const bufsz: nat
    const nreaders: nat
    /** The slots, each a distinct fixed-size buffer. */
    const slots: seq<array<byte>>

    /** Per-slot count of valid bytes and end-of-data tag. */
    var filled: seq<nat>
    var eodAt: seq<bool>
    /** Blocks marked filled and blocks marked cleared since the last reset. */
    var wcount: nat
    var rcount: nat
    /** `enable_eod` was issued and no block has been marked filled since. */
    var eodPending: bool
    /** What `ipcbuf_eod` reports to the reader. */
    var readerEod: bool
    var writeLocked: bool
    var readLocked: bool
    /** A slot was handed out by `get_next_write` and not yet marked filled. */
    var writeOpen: bool
    /** A slot was handed out by `get_next_read` and not yet marked cleared. */
    var readOpen: bool
    var alive: bool

    /** The committed blocks the reader has not cleared yet, oldest first. */
    ghost var queue: seq<Block>
    /** The bytes of every slot; whoever writes into a slot keeps this in step. */
    ghost var contents: seq<Bytes>

    ghost predicate Valid()
      reads this, slots
    {
      Layout() && Mirrored() && Counted() && Tracked()
    }

    /** The cursors agree with the unread blocks and the open slots. */
    ghost predicate Counted()
      reads this`wcount, this`rcount, this`queue, this`writeOpen, this`readOpen
    {
      && wcount == rcount + |queue| && |queue| <= nbufs
      && (writeOpen ==> |queue| < nbufs)
      && (readOpen ==> |queue| > 0)
    }

    /** The unread blocks sit in the slots from the read cursor on. */
    ghost predicate Tracked()
      reads this`filled, this`eodAt, this`contents, this`rcount, this`queue
    {
      && nbufs > 0 && |contents| == nbufs && |filled| == nbufs && |eodAt| == nbufs
      && (forall i :: 0 <= i < nbufs ==> filled[i] <= bufsz)
      && Stored(contents, filled, eodAt, rcount % nbufs, queue)
    }

    /** The slots: `nbufs` distinct buffers of `bufsz` bytes each. */
    ghost predicate Layout() {
      && nbufs > 0 && |slots| == nbufs
      && (forall i :: 0 <= i < nbufs ==> slots[i].Length == bufsz)
      && (forall i, j :: 0 <= i < j < nbufs ==> slots[i] != slots[j])
    }

    /** `contents` holds the bytes of every slot. */
    ghost predicate Mirrored()
      reads this`contents, slots
    {
      |contents| == |slots| && forall i :: 0 <= i < |slots| ==> slots[i][..] == contents[i]
    }

    /** The state right after creation or reset: empty, unlocked, no end-of-data. */
    ghost predicate Initial()
      reads this
    {
      queue == [] && wcount == 0 && rcount == 0 && !writeLocked && !readLocked && !writeOpen && !readOpen
      && !eodPending && !readerEod && alive
    }

    /** `get_next_write` hands out a slot now. */
    ghost predicate WriteReady()
      reads this
    {
      !Fails(Call.GetNextWrite) && writeLocked && !writeOpen && |queue| < nbufs
    }

    /** `get_next_read` hands out a slot now. */
    ghost predicate ReadReady()
      reads this
    {
      !Fails(Call.GetNextRead) && readLocked && !readOpen && |queue| > 0
    }

    /** Index of the slot the writer fills next. */
    function WriteSlot(): nat
      reads this
      requires nbufs > 0
    {
      wcount % nbufs
    }

    /** Index of the slot the reader reads next. */
    function ReadSlot(): nat
      reads this
      requires nbufs > 0
    {
      rcount % nbufs
    }

    /** Whether the environment makes the call `c` on this ring fail. */
    predicate Fails(c: Call) {
      Event(key, c) in host.faults
    }

    constructor (host: Host, key: int, nbufs: nat, bufsz: nat, nreaders: nat)
      requires nbufs > 0
      ensures Valid() && Initial()
      ensures this.host == host && this.key == key && this.nbufs == nbufs
      ensures this.bufsz == bufsz && this.nreaders == nreaders
      ensures forall i :: 0 <= i < |slots| ==> fresh(slots[i])
    {
      var s: seq<array<byte>> := [];
      ghost var c: seq<Bytes> := [];
      while |s| < nbufs
        invariant |s| <= nbufs && |c| == |s|
        invariant forall i :: 0 <= i < |s| ==> s[i].Length == bufsz && fresh(s[i]) && s[i][..] == c[i]
        invariant forall i, j :: 0 <= i < j < |s| ==> s[i] != s[j]
      {
        var a := new byte[bufsz];
        s, c := s + [a], c + [a[..]];
      }
      this.host := host;
      this.key := key;
      this.nbufs := nbufs;
      this.bufsz := bufsz;
      this.nreaders := nreaders;
      slots := s;
      filled := seq(nbufs, _ => 0);
      eodAt := seq(nbufs, _ => false);
      wcount, rcount := 0, 0;
      eodPending, readerEod := false, false;
      writeLocked, readLocked := false, false;
      writeOpen, readOpen := false, false;
      alive := true;
      queue := [];
      contents := c;
    }

    /** `ipcbuf_lock_write`. */
    method LockWrite() returns (ok: bool)
      modifies this`writeLocked, host`log
      ensures old(Valid()) ==> Valid()
      ensures host.log == old(host.log) + [Event(key, Call.LockWrite)]
      ensures ok == !Fails(Call.LockWrite)
      ensures writeLocked == (old(writeLocked) || ok)
    {
      host.log := host.log + [Event(key, Call.LockWrite)];
      ok := !Fails(Call.LockWrite);
      if ok { writeLocked := true; }
    }

    /** `ipcbuf_unlock_write`. */
    method UnlockWrite() returns (ok: bool)
      modifies this`writeLocked, host`log
      ensures old(Valid()) ==> Valid()
      ensures host.log == old(host.log) + [Event(key, Call.UnlockWrite)]
      ensures ok == !Fails(Call.UnlockWrite)
      ensures writeLocked == (old(writeLocked) && !ok)
    {
      host.log := host.log + [Event(key, Call.UnlockWrite)];
      ok := !Fails(Call.UnlockWrite);
      if ok { writeLocked := false; }
    }

    /**
     * `ipcbuf_get_next_write`: the next free slot, or null. Requires the
     * write lock, no slot already open and a slot the reader has cleared.
     */
    method GetNextWrite() returns (ptr: array?<byte>)
      requires Valid()
      modifies this`writeOpen, host`log
      ensures Valid()
      ensures host.log == old(host.log) + [Event(key, Call.GetNextWrite)]
      ensures (ptr != null) == old(WriteReady())
      ensures ptr != null ==> ptr == slots[WriteSlot()] && ptr.Length == bufsz && writeOpen
      ensures ptr == null ==> writeOpen == old(writeOpen)
    {
      host.log := host.log + [Event(key, Call.GetNextWrite)];
      if Fails(Call.GetNextWrite) || !writeLocked || writeOpen || wcount - rcount == nbufs {
        return null;
      }
      writeOpen := true;
      ptr := slots[WriteSlot()];
    }

    /** `ipcbuf_enable_eod`: the next block marked filled ends the data. */
    method EnableEod() returns (ok: bool)
      modifies this`eodPending, host`log
      ensures old(Valid()) ==> Valid()
      ensures host.log == old(host.log) + [Event(key, Call.EnableEod)]
      ensures ok == !Fails(Call.EnableEod)
      ensures eodPending == (old(eodPending) || ok)
    {
      host.log := host.log + [Event(key, Call.EnableEod)];
      ok := !Fails(Call.EnableEod);
      if ok { eodPending := true; }
    }

    /**
     * `ipcbuf_mark_filled(n)`: commits the first `n` bytes of the open
     * write slot as the next block; a short block, or one after
     * `enable_eod`, carries end-of-data.
     */
    method MarkFilled(n: nat) returns (ok: bool)
      requires Valid()
      modifies this`filled, this`eodAt, this`wcount, this`eodPending, this`writeOpen, this`queue, host`log
      ensures Valid()
      ensures host.log == old(host.log) + [Event(key, Call.MarkFilled(n))]
      ensures ok == (!Fails(Call.MarkFilled(n)) && old(writeOpen) && n <= bufsz)
      ensures ok ==> queue == old(queue) + [Committed(slots[old(WriteSlot())][..n], old(eodPending) || n < bufsz)]
      ensures ok ==> wcount == old(wcount) + 1 && !writeOpen && !eodPending
      ensures !ok ==> unchanged(this)
    {
      host.log := host.log + [Event(key, Call.MarkFilled(n))];
      ok := !Fails(Call.MarkFilled(n)) && writeOpen && n <= bufsz;
      if ok {
        var w := WriteSlot();
        var e := eodPending || n < bufsz;
        ghost var r := ReadSlot();
        WrapMod(rcount, |queue|, nbufs);
        ghost var b := Committed(contents[w][..n], e);
        StoredPush(contents, filled, eodAt, r, queue, w, n, e);
        filled, eodAt, queue := filled[w := n], eodAt[w := e], queue + [b];
        wcount, eodPending, writeOpen := wcount + 1, false, false;
        assert ReadSlot() == r;
      }
    }

    /** `ipcbuf_lock_read`. */
    method LockRead() returns (ok: bool)
      modifies this`readLocked, host`log
      ensures old(Valid()) ==> Valid()
      ensures host.log == old(host.log) + [Event(key, Call.LockRead)]
      ensures ok == !Fails(Call.LockRead)
      ensures readLocked == (old(readLocked) || ok)
    {
      host.log := host.log + [Event(key, Call.LockRead)];
      ok := !Fails(Call.LockRead);
      if ok { readLocked := true; }
    }

    /** `ipcbuf_unlock_read`. */
    method UnlockRead() returns (ok: bool)
      modifies this`readLocked, host`log
      ensures old(Valid()) ==> Valid()
      ensures host.log == old(host.log) + [Event(key, Call.UnlockRead)]
      ensures ok == !Fails(Call.UnlockRead)
      ensures readLocked == (old(readLocked) && !ok)
    {
      host.log := host.log + [Event(key, Call.UnlockRead)];
      ok := !Fails(Call.UnlockRead);
      if ok { readLocked := false; }
    }

    /**
     * `ipcbuf_get_next_read`: the slot of the oldest unread block and its
     * filled count, or null. Requires the read lock, no slot already open
     * and a committed block.
     */
    method GetNextRead() returns (ptr: array?<byte>, size: nat)
      requires Valid()
      modifies this`readOpen, host`log
      ensures Valid()
      ensures host.log == old(host.log) + [Event(key, Call.GetNextRead)]
      ensures (ptr != null) == old(ReadReady())
      ensures ptr != null ==> ptr == slots[ReadSlot()] && size <= ptr.Length && ptr[..size] == queue[0].data && readOpen
      ensures ptr == null ==> size == 0 && readOpen == old(readOpen)
    {
      host.log := host.log + [Event(key, Call.GetNextRead)];
      if Fails(Call.GetNextRead) || !readLocked || readOpen || wcount == rcount {
        return null, 0;
      }
      readOpen := true;
      var r := ReadSlot();
      ptr, size := slots[r], filled[r];
      StoredPop(contents, filled, eodAt, r, queue);
    }

    /**
     * `ipcbuf_mark_cleared`: the open read slot is released to the writer;
     * the reader now reports the end-of-data tag of the block it cleared.
     */
    method MarkCleared() returns (ok: bool)
      requires Valid()
      modifies this`rcount, this`readOpen, this`readerEod, this`queue, host`log
      ensures Valid()
      ensures host.log == old(host.log) + [Event(key, Call.MarkCleared)]
      ensures ok == (!Fails(Call.MarkCleared) && old(readOpen))
      ensures ok ==> queue == old(queue[1..]) && readerEod == old(queue[0].eod)
      ensures ok ==> rcount == old(rcount) + 1 && !readOpen
      ensures !ok ==> unchanged(this)
    {
      host.log := host.log + [Event(key, Call.MarkCleared)];
      ok := !Fails(Call.MarkCleared) && readOpen;
      if !ok { return; }
      var r := ReadSlot();
      StoredPop(contents, filled, eodAt, r, queue);
      WrapMod(rcount, 1, nbufs);
      readerEod, readOpen := eodAt[r], false;
      queue, rcount := queue[1..], rcount + 1;
      assert ReadSlot() == Wrap(r + 1, nbufs);
    }

    /** `ipcbuf_eod`: whether the reader has reached end-of-data. */
    method Eod() returns (eod: bool)
      modifies host`log
      ensures host.log == old(host.log) + [Event(key, Call.Eod)]
      ensures eod == readerEod
    {
      host.log := host.log + [Event(key, Call.Eod)];
      eod := readerEod;
    }

    /**
     * `ipcbuf_reset`: discards unread blocks and end-of-data and rewinds
     * both cursors; requires the write lock.
     */
    method Reset() returns (ok: bool)
      requires Valid()
      modifies this`wcount, this`rcount, this`queue, this`eodPending, this`readerEod, this`writeOpen, this`readOpen, host`log
      ensures Valid()
      ensures host.log == old(host.log) + [Event(key, Call.Reset)]
      ensures ok == (!Fails(Call.Reset) && writeLocked)
      ensures ok ==> queue == [] && wcount == 0 && rcount == 0
      ensures ok ==> !eodPending && !readerEod && !writeOpen && !readOpen
      ensures !ok ==> unchanged(this)
    {
      host.log := host.log + [Event(key, Call.Reset)];
      ok := !Fails(Call.Reset) && writeLocked;
      if !ok { return; }
      queue := [];
      wcount, rcount := 0, 0;
      eodPending, readerEod := false, false;
      writeOpen, readOpen := false, false;
    }

    /** `ipcbuf_lock`: pins the ring's shared memory. */
    method ShmLock() returns (ok: bool)
      modifies host`log
      ensures host.log == old(host.log) + [Event(key, Call.ShmLock)]
      ensures ok == !Fails(Call.ShmLock)
    {
      host.log := host.log + [Event(key, Call.ShmLock)];
      ok := !Fails(Call.ShmLock);
    }

    /** `ipcbuf_page`: pages the ring's shared memory in. */
    method Page() returns (ok: bool)
      modifies host`log
      ensures host.log == old(host.log) + [Event(key, Call.Page)]
      ensures ok == !Fails(Call.Page)
    {
      host.log := host.log + [Event(key, Call.Page)];
      ok := !Fails(Call.Page);
    }

    /** `ipcbuf_destroy`: frees the ring's shared memory and its key. */
    method Destroy() returns (ok: bool)
      requires host.Registry()
      modifies this`alive, host`log, host`rings
      ensures host.Registry()
      ensures host.log == old(host.log) + [Event(key, Call.Destroy)]
      ensures ok == (!Fails(Call.Destroy) && old(alive))
      ensures ok ==> !alive && host.rings == old(host.rings) - {key}
      ensures !ok ==> alive == old(alive) && host.rings == old(host.rings)
    {
      host.log := host.log + [Event(key, Call.Destroy)];
      ok := !Fails(Call.Destroy) && alive;
      if ok {
        alive := false;
        host.rings := host.rings - {key};
      }
    }
  }

  /** The `k`-th block of `q` sits in the `k`-th slot after `start`. */
  ghost predicate Stored(contents: seq<Bytes>, filled: seq<nat>, eodAt: seq<bool>, start: nat, q: seq<Block>)
    requires start < |contents| && |filled| == |contents| && |eodAt| == |contents|
  {
    && |q| <= |contents|
    && forall k :: 0 <= k < |q| ==> StoredAt(contents, filled, eodAt, Wrap(start + k, |contents|), q[k])
  }

  /** Slot `s` holds block `b`: its filled bytes and its end-of-data tag. */
  ghost predicate StoredAt(contents: seq<Bytes>, filled: seq<nat>, eodAt: seq<bool>, s: nat, b: Block)
    requires s < |contents| && |filled| == |contents| && |eodAt| == |contents|
  {
    filled[s] <= |contents[s]| && contents[s][..filled[s]] == b.data && eodAt[s] == b.eod
  }

  /** Committing the first `n` bytes of the slot after the unread ones appends a block. */
  lemma StoredPush(contents: seq<Bytes>, filled: seq<nat>, eodAt: seq<bool>, start: nat, q: seq<Block>, w: nat, n: nat, e: bool)
    requires start < |contents| && |filled| == |contents| && |eodAt| == |contents|
    requires Stored(contents, filled, eodAt, start, q) && |q| < |contents|
    requires w == Wrap(start + |q|, |contents|) && n <= |contents[w]|
    ensures Stored(contents, filled[w := n], eodAt[w := e], start, q + [Committed(contents[w][..n], e)])
  {
    var q' := q + [Committed(contents[w][..n], e)];
    forall k | 0 <= k < |q'|
      ensures StoredAt(contents, filled[w := n], eodAt[w := e], Wrap(start + k, |contents|), q'[k])
    {
      if k < |q| {
        assert StoredAt(contents, filled, eodAt, Wrap(start + k, |contents|), q[k]);
      }
    }
  }

  /** The oldest block sits in slot `start`; clearing it advances `start`. */
  lemma StoredPop(contents: seq<Bytes>, filled: seq<nat>, eodAt: seq<bool>, start: nat, q: seq<Block>)
    requires start < |contents| && |filled| == |contents| && |eodAt| == |contents|
    requires Stored(contents, filled, eodAt, start, q) && |q| > 0
    ensures StoredAt(contents, filled, eodAt, start, q[0])
    ensures Stored(contents, filled, eodAt, Wrap(start + 1, |contents|), q[1..])
  {
    assert StoredAt(contents, filled, eodAt, Wrap(start + 0, |contents|), q[0]);
    var s' := Wrap(start + 1, |contents|);
    forall k | 0 <= k < |q| - 1
      ensures StoredAt(contents, filled, eodAt, Wrap(s' + k, |contents|), q[1..][k])
    {
      assert StoredAt(contents, filled, eodAt, Wrap(start + (k + 1), |contents|), q[k + 1]);
    }
  }

  /**
   * Changing only the slot after the unread ones leaves the unread blocks
   * in place.
   */
  lemma StoredWrite(contents: seq<Bytes>, contents': seq<Bytes>, filled: seq<nat>, eodAt: seq<bool>, start: nat, q: seq<Block>)
    requires start < |contents| && |filled| == |contents| && |eodAt| == |contents| && |contents'| == |contents|
    requires Stored(contents, filled, eodAt, start, q) && |q| < |contents|
    requires forall i :: 0 <= i < |contents| && i != Wrap(start + |q|, |contents|) ==> contents'[i] == contents[i]
    ensures Stored(contents', filled, eodAt, start, q)
  {
    forall k | 0 <= k < |q|
      ensures StoredAt(contents', filled, eodAt, Wrap(start + k, |contents|), q[k])
    {
      assert StoredAt(contents, filled, eodAt, Wrap(start + k, |contents|), q[k]);
    }
  }
}
