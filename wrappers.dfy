/** Failure-carrying return values used throughout the model. */
module Wrappers {

  /** An optional value: Rust's `Option<T>`. */
  datatype Option<+T> = None | Some(value: T)

  /** A value or an error: Rust's `Result<T, E>`. */
  datatype Result<+T, +E> = Ok(value: T) | Err(error: E)
}

/** Raw bytes as the ring buffers and the header codec see them. */
module ByteTypes {

  /** An unsigned 8-bit value, Rust's `u8`. */
  newtype byte = x: int | 0 <= x < 256

  /** A byte string, Rust's `[u8]` or `Vec<u8>`. */
  type Bytes = seq<byte>

  const NUL: byte := 0
  const TAB: byte := 9
  const LF: byte := 10
  const CR: byte := 13
  const SP: byte := 32
  const HASH: byte := 35

  /** `n` zero bytes, as `vec![0u8; n]` allocates them. */
  function Zeros(n: nat): (z: seq<byte>)
    ensures |z| == n && forall i :: 0 <= i < n ==> z[i] == 0
  {
    seq(n, _ => 0)
  }

  /** The bytes of an ASCII string literal. */
  function Ascii(s: string): (b: seq<byte>)
    requires forall i :: 0 <= i < |s| ==> s[i] < 256 as char
    ensures |b| == |s| && forall i :: 0 <= i < |s| ==> b[i] as int == s[i] as int
  {
    seq(|s|, i requires 0 <= i < |s| => s[i] as int as byte)
  }

  /** `s` with `buf` copied over it at offset `at`. */
  function Splice(s: Bytes, at: nat, buf: Bytes): (r: Bytes)
    requires at + |buf| <= |s|
    ensures |r| == |s| && r[at..at + |buf|] == buf
    ensures forall i :: 0 <= i < |s| && !(at <= i < at + |buf|) ==> r[i] == s[i]
  {
    s[..at] + buf + s[at + |buf|..]
  }

  function Min(a: nat, b: nat): nat {
    if a <= b then a else b
  }
}

/** The crate's error tags (src/errors.rs); only the tag is modelled. */
module Errors {

  datatype PsrdadaError =
    | DadaInitError
    | DadaConnectError
    | DadaDisconnectError
    | DadaDestroyError
    | DadaLockingError
    | DadaReadError
    | DadaResetError
    | DadaEodError
    | DadaWriteError
    | DadaShmemLockError
    | UTF8Error
    | HeaderOverflow
    | GpuError
    | HeaderParseError
    | HeaderEodError

  /** The error `std::io::Error` stands for in the block `write`/`read` methods. */
  datatype IoError = TooManyBytes
}
