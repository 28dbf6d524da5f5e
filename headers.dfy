/**
 * The header codec of src/headers.rs: a byte-level parser for the
 * key/value text held in a header block, and its serialiser.
 *
 * Parsers take the remaining input and return `Some((value, rest))` on
 * success, the way nom's `IResult` does; every parser used here is a
 * "complete" parser, so failure is a plain `None` from which the
 * combinators backtrack.
 */
module Headers {
  import opened Wrappers
  import opened ByteTypes
  import opened Errors


  /** A key and its value, as the parser returns them (`RawPair`). */
  type RawPair = (Bytes, Bytes)

  /** The header record: keys and values kept as bytes. */
  type Header = map<Bytes, Bytes>

  // ---------------------------------------------------------------------
  // Lexical classes

  /** The bytes `is_not(" \t\n\r#\0")` stops at. */
  predicate IsReserved(b: byte) {
    b == SP || b == TAB || b == LF || b == CR || b == HASH || b == NUL
  }

  /** The bytes nom's `space0`/`space1` accept. */
  predicate IsSpace(b: byte) {
    b == SP || b == TAB
  }

  /** A well-formed key or value: non-empty, no reserved byte. */
  predicate IsToken(s: Bytes) {
    |s| > 0 && forall i :: 0 <= i < |s| ==> !IsReserved(s[i])
  }

  /** Every key and value in `ps` is a well-formed token. */
  predicate AllTokens(ps: seq<RawPair>) {
    forall i :: 0 <= i < |ps| ==> IsToken(ps[i].0) && IsToken(ps[i].1)
  }

  predicate AllSpace(s: Bytes) {
    forall i :: 0 <= i < |s| ==> IsSpace(s[i])
  }

  // ---------------------------------------------------------------------
  // Primitive parsers

  /** Length of the longest prefix of `s` free of reserved bytes. */
  function SpanToken(s: Bytes): (n: nat)
    ensures n <= |s|
    ensures forall i :: 0 <= i < n ==> !IsReserved(s[i])
    ensures n < |s| ==> IsReserved(s[n])
  {
    if s == [] || IsReserved(s[0]) then 0 else 1 + SpanToken(s[1..])
  }

  /** Length of the longest prefix of `s` made of spaces and tabs. */
  function SpanSpace(s: Bytes): (n: nat)
    ensures n <= |s|
    ensures forall i :: 0 <= i < n ==> IsSpace(s[i])
    ensures n < |s| ==> !IsSpace(s[n])
  {
    if s == [] || !IsSpace(s[0]) then 0 else 1 + SpanSpace(s[1..])
  }

  /** `token`: a maximal non-empty run of non-reserved bytes (src/headers.rs:60-62). */
  function Token(s: Bytes): (r: Option<(Bytes, Bytes)>)
    ensures r.Some? <==> |s| > 0 && !IsReserved(s[0])
    ensures r.Some? ==> IsToken(r.value.0) && s == r.value.0 + r.value.1
    ensures r.Some? ==> r.value.1 == [] || IsReserved(r.value.1[0])
  {
    var n := SpanToken(s);
    if n == 0 then None else Some((s[..n], s[n..]))
  }

  /** `space0`: skip any spaces and tabs. */
  function Space0(s: Bytes): Bytes {
    s[SpanSpace(s)..]
  }

  /** `space1`: skip at least one space or tab. */
  function Space1(s: Bytes): Option<Bytes> {
    var n := SpanSpace(s);
    if n == 0 then None else Some(s[n..])
  }

  /** `line_ending`: exactly one `\n` or `\r\n`. */
  function LineEnding(s: Bytes): (r: Option<Bytes>)
    ensures r.Some? ==> |r.value| < |s|
  {
    if |s| >= 1 && s[0] == LF then Some(s[1..])
    else if |s| >= 2 && s[0] == CR && s[1] == LF then Some(s[2..])
    else None
  }

  /** `many0(line_ending)`: the input after every leading line ending. */
  function LineEndings0(s: Bytes): (r: Bytes)
    ensures |r| <= |s| && LineEnding(r).None?
    decreases |s|
  {
    match LineEnding(s)
    case None => s
    case Some(rest) => LineEndings0(rest)
  }

  /** `many1(line_ending)`: at least one line ending, then any more. */
  function LineEndings1(s: Bytes): (r: Option<Bytes>)
    ensures r.Some? ==> |r.value| < |s|
  {
    match LineEnding(s)
    case None => None
    case Some(rest) => Some(LineEndings0(rest))
  }

  /** Index of the first `\n` or `\r` in `s`, or `|s|` if there is none. */
  function FindEol(s: Bytes): (n: nat)
    ensures n <= |s|
    ensures forall i :: 0 <= i < n ==> s[i] != LF && s[i] != CR
    ensures n < |s| ==> s[n] == LF || s[n] == CR
  {
    if s == [] || s[0] == LF || s[0] == CR then 0 else 1 + FindEol(s[1..])
  }

  /**
   * nom's complete `not_line_ending`: everything up to the first line
   * ending; a `\r` that is not followed by `\n` makes it fail.
   */
  function NotLineEnding(s: Bytes): Option<(Bytes, Bytes)> {
    var n := FindEol(s);
    if n < |s| && s[n] == CR && !(n + 1 < |s| && s[n + 1] == LF) then None
    else Some((s[..n], s[n..]))
  }

  /** `opt(preceded(tag("#"), not_line_ending))`: drop a trailing comment if one parses. */
  function Comment(s: Bytes): Bytes {
    if |s| > 0 && s[0] == HASH then
      match NotLineEnding(s[1..])
      case Some((_, rest)) => rest
      case None => s
    else s
  }

  /**
   * `pair`: key token, at least one blank, value token, optional blanks,
   * optional comment (src/headers.rs:64-69).
   */
  function Pair(s: Bytes): (r: Option<(RawPair, Bytes)>)
    ensures r.Some? ==> IsToken(r.value.0.0) && IsToken(r.value.0.1)
    ensures r.Some? ==> |r.value.1| < |s|
  {
    match Token(s)
    case None => None
    case Some((k, r1)) =>
      match Space1(r1)
      case None => None
      case Some(r2) =>
        match Token(r2)
        case None => None
        case Some((v, r3)) => Some(((k, v), Comment(Space0(r3))))
  }

  /**
   * The loop of `separated_list1(many1(line_ending), pair)` after its first
   * element: a separator followed by a pair extends the list; otherwise the
   * list ends and the separator is left unconsumed.
   */
  function MorePairs(s: Bytes): (r: (seq<RawPair>, Bytes))
    ensures |r.1| <= |s|
    decreases |s|
  {
    match LineEndings1(s)
    case None => ([], s)
    case Some(r1) =>
      match Pair(r1)
      case None => ([], s)
      case Some((p, r2)) =>
        var (ps, r3) := MorePairs(r2);
        ([p] + ps, r3)
  }

  /** `separated_list1(many1(line_ending), pair)`: one pair, then more. */
  function PairList(s: Bytes): Option<(seq<RawPair>, Bytes)> {
    match Pair(s)
    case None => None
    case Some((p, r)) =>
      var (ps, r2) := MorePairs(r);
      Some(([p] + ps, r2))
  }

  /**
   * `header`: the pair list, then any line endings and at most one NUL
   * (src/headers.rs:71-76).
   */
  function HeaderParser(s: Bytes): (r: Option<(seq<RawPair>, Bytes)>)
    ensures r.Some? ==> |r.value.0| > 0
  {
    match PairList(s)
    case None => None
    case Some((ps, r)) =>
      var r2 := LineEndings0(r);
      Some((ps, if |r2| > 0 && r2[0] == NUL then r2[1..] else r2))
  }

  // ---------------------------------------------------------------------
  // Collecting into a map and the public decoder

  /** The set of keys occurring in `ps`. */
  function KeysOf(ps: seq<RawPair>): set<Bytes> {
    set i | 0 <= i < |ps| :: ps[i].0
  }

  /** `.collect()` into a `HashMap`: pairs inserted in order, so a later key overwrites. */
  function Collect(ps: seq<RawPair>): (h: Header)
    ensures h.Keys == KeysOf(ps)
  {
    if ps == [] then map[]
    else
      var h0 := Collect(ps[..|ps| - 1]);
      assert KeysOf(ps) == KeysOf(ps[..|ps| - 1]) + {ps[|ps| - 1].0} by {
        forall k | k in KeysOf(ps) ensures k in KeysOf(ps[..|ps| - 1]) + {ps[|ps| - 1].0} {
          var i :| 0 <= i < |ps| && ps[i].0 == k;
          if i < |ps| - 1 { assert ps[..|ps| - 1][i] == ps[i]; }
        }
      }
      h0[ps[|ps| - 1].0 := ps[|ps| - 1].1]
  }

  /**
   * `bytes_to_header` (src/headers.rs:94-109): `HeaderParseError` exactly
   * when the parser fails; otherwise a non-empty map whose keys are the
   * parsed keys. Whatever follows the header is ignored.
   */
  function BytesToHeader(bytes: Bytes): (r: Result<Header, PsrdadaError>)
    ensures r.Err? <==> HeaderParser(bytes).None?
    ensures r.Err? ==> r.error == HeaderParseError
    ensures r.Ok? ==> r.value.Keys == KeysOf(HeaderParser(bytes).value.0)
    ensures r.Ok? ==> HeaderParser(bytes).value.0[0].0 in r.value
  {
    match HeaderParser(bytes)
    case None => Err(HeaderParseError)
    case Some((ps, _)) => Ok(Collect(ps))
  }

  // ---------------------------------------------------------------------
  // Serialisation

  /** One entry as `header_to_bytes` emits it: `k SP v LF`. */
  function EncodeEntry(e: RawPair): Bytes {
    e.0 + [SP] + e.1 + [LF]
  }

  /** The bytes of a sequence of entries, in that order. */
  function Encode(es: seq<RawPair>): Bytes {
    if es == [] then [] else EncodeEntry(es[0]) + Encode(es[1..])
  }

  /** `|k| + |v| + 2` summed over the entries. */
  function EncodedSize(es: seq<RawPair>): nat {
    if es == [] then 0 else |es[0].0| + |es[0].1| + 2 + EncodedSize(es[1..])
  }

  /** `order` lists every key of `h` exactly once: one possible `HashMap` iteration order. */
  predicate IsOrderOf(order: seq<Bytes>, h: Header) {
    (forall i, j :: 0 <= i < j < |order| ==> order[i] != order[j])
    && (forall i :: 0 <= i < |order| ==> order[i] in h)
    && (forall k :: k in h ==> k in order)
  }

  /** The entries of `h` visited in `order`. */
  function Entries(h: Header, order: seq<Bytes>): (es: seq<RawPair>)
    requires forall i :: 0 <= i < |order| ==> order[i] in h
    ensures |es| == |order|
    ensures forall i :: 0 <= i < |order| ==> es[i] == (order[i], h[order[i]])
  {
    if order == [] then [] else [(order[0], h[order[0]])] + Entries(h, order[1..])
  }

  /** Every key and value is a well-formed token (no escaping exists in the format). */
  predicate WellFormed(h: Header) {
    forall k :: k in h ==> IsToken(k) && IsToken(h[k])
  }

  /**
   * `header_to_bytes` (src/headers.rs:83-92): a loop extending a byte
   * vector with `k SP v LF` for each entry, in the map's iteration order.
   */
  method HeaderToBytes(h: Header, order: seq<Bytes>) returns (bytes: Bytes)
    requires IsOrderOf(order, h)
    ensures bytes == Encode(Entries(h, order))
    ensures |bytes| == EncodedSize(Entries(h, order))
  {
    bytes := [];
    var i := 0;
    while i < |order|
      invariant 0 <= i <= |order|
      invariant bytes == Encode(Entries(h, order[..i]))
    {
      var k := order[i];
      var v := h[k];
      bytes := bytes + k;
      bytes := bytes + [SP];
      bytes := bytes + v;
      bytes := bytes + [LF];
      EntriesSnoc(h, order[..i], k);
      assert order[..i + 1] == order[..i] + [k];
      EncodeSnoc(Entries(h, order[..i]), (k, v));
      i := i + 1;
    }
    assert order[..i] == order;
    EncodedSizeIsLength(Entries(h, order));
  }

  // ---------------------------------------------------------------------
  // Lemmas: the serialiser

  lemma {:induction false} EncodeSnoc(es: seq<RawPair>, e: RawPair)
    ensures Encode(es + [e]) == Encode(es) + EncodeEntry(e)
  {
    if es == [] {
      assert [e][1..] == [];
    } else {
      assert (es + [e])[1..] == es[1..] + [e];
      EncodeSnoc(es[1..], e);
    }
  }

  lemma {:induction false} EntriesSnoc(h: Header, order: seq<Bytes>, k: Bytes)
    requires forall i :: 0 <= i < |order| ==> order[i] in h
    requires k in h
    ensures Entries(h, order + [k]) == Entries(h, order) + [(k, h[k])]
  {
  }

  /** The output length is the sum of `|k| + |v| + 2` over the entries. */
  lemma {:induction false} EncodedSizeIsLength(es: seq<RawPair>)
    ensures |Encode(es)| == EncodedSize(es)
  {
    if es != [] {
      EncodedSizeIsLength(es[1..]);
    }
  }

  // ---------------------------------------------------------------------
  // Lemmas: the primitive parsers on known shapes

  lemma {:induction false} SpanTokenOf(k: Bytes, t: Bytes)
    requires forall i :: 0 <= i < |k| ==> !IsReserved(k[i])
    requires t == [] || IsReserved(t[0])
    ensures SpanToken(k + t) == |k|
  {
    if k != [] {
      assert (k + t)[1..] == k[1..] + t;
      SpanTokenOf(k[1..], t);
    }
  }

  lemma {:induction false} SpanSpaceOf(w: Bytes, t: Bytes)
    requires AllSpace(w)
    requires t == [] || !IsSpace(t[0])
    ensures SpanSpace(w + t) == |w|
  {
    if w != [] {
      assert (w + t)[1..] == w[1..] + t;
      SpanSpaceOf(w[1..], t);
    }
  }

  lemma {:induction false} FindEolOf(c: Bytes, t: Bytes)
    requires forall i :: 0 <= i < |c| ==> c[i] != LF && c[i] != CR
    requires t == [] || t[0] == LF || t[0] == CR
    ensures FindEol(c + t) == |c|
  {
    if c != [] {
      assert (c + t)[1..] == c[1..] + t;
      FindEolOf(c[1..], t);
    }
  }

  /** A maximal token followed by a reserved byte (or nothing) is split off exactly. */
  lemma TokenOf(k: Bytes, t: Bytes)
    requires IsToken(k)
    requires t == [] || IsReserved(t[0])
    ensures Token(k + t) == Some((k, t))
  {
    SpanTokenOf(k, t);
    assert (k + t)[..|k|] == k && (k + t)[|k|..] == t;
  }

  /** Text that cannot continue a line: nothing, or a line ending. */
  predicate AtEol(t: Bytes) {
    t == [] || t[0] == LF || (|t| >= 2 && t[0] == CR && t[1] == LF)
  }

  lemma Space1Of(w: Bytes, t: Bytes)
    requires |w| > 0 && AllSpace(w)
    requires t == [] || !IsSpace(t[0])
    ensures Space1(w + t) == Some(t)
  {
    SpanSpaceOf(w, t);
    assert (w + t)[|w|..] == t;
  }

  lemma Space0Of(w: Bytes, t: Bytes)
    requires AllSpace(w)
    requires t == [] || !IsSpace(t[0])
    ensures Space0(w + t) == t
  {
    SpanSpaceOf(w, t);
    assert (w + t)[|w|..] == t;
  }

  /** The bytes of an optional comment: `#` and its text, or nothing. */
  function CommentText(comment: Option<Bytes>): Bytes {
    if comment.Some? then [HASH] + comment.value else []
  }

  /** Comment text free of line-ending bytes. */
  predicate OneLine(comment: Option<Bytes>) {
    comment.Some? ==> forall i :: 0 <= i < |comment.value| ==> comment.value[i] != LF && comment.value[i] != CR
  }

  lemma CommentOf(comment: Option<Bytes>, t: Bytes)
    requires OneLine(comment)
    requires AtEol(t)
    ensures Comment(CommentText(comment) + t) == t
  {
    if comment.Some? {
      var body := comment.value;
      assert (CommentText(comment) + t)[1..] == body + t;
      FindEolOf(body, t);
      assert (body + t)[..|body|] == body && (body + t)[|body|..] == t;
      assert NotLineEnding(body + t) == Some((body, t));
    } else {
      assert CommentText(comment) + t == t;
    }
  }

  /**
   * A pair line: key, blanks, value, optional blanks and an optional
   * `#` comment; the comment is discarded and the line ending is left.
   */
  lemma PairOf(k: Bytes, w: Bytes, v: Bytes, w2: Bytes, comment: Option<Bytes>, t: Bytes)
    requires IsToken(k) && IsToken(v)
    requires |w| > 0 && AllSpace(w) && AllSpace(w2)
    requires OneLine(comment)
    requires AtEol(t)
    ensures Pair(k + w + v + w2 + CommentText(comment) + t) == Some(((k, v), t))
  {
    var c := CommentText(comment);
    var r3 := w2 + (c + t);
    var r2 := v + r3;
    var r1 := w + r2;
    assert k + w + v + w2 + c + t == k + r1;
    assert r1[0] == w[0];
    TokenOf(k, r1);
    assert r2[0] == v[0];
    Space1Of(w, r2);
    assert r3 == [] || IsReserved(r3[0]);
    TokenOf(v, r3);
    assert c + t == [] || !IsSpace((c + t)[0]);
    Space0Of(w2, c + t);
    CommentOf(comment, t);
  }

  lemma LineEndings0Of(t: Bytes)
    requires t == [] || (t[0] != LF && t[0] != CR)
    ensures LineEndings0(t) == t
  {
  }

  // ---------------------------------------------------------------------
  // Lemmas: decoding what the serialiser wrote

  /** Padding after the last line: nothing, or a NUL first. */
  predicate Padding(t: Bytes) {
    t == [] || t[0] == NUL
  }

  lemma EncodeEntryPair(e: RawPair, t: Bytes)
    requires IsToken(e.0) && IsToken(e.1)
    ensures Pair(EncodeEntry(e) + t) == Some((e, [LF] + t))
  {
    var w: Bytes := [SP];
    var none: Bytes := [];
    assert CommentText(None) == none;
    assert AllSpace(w) && AllSpace(none);
    var s := e.0 + w + e.1 + none + CommentText(None) + ([LF] + t);
    assert s == EncodeEntry(e) + t by {
      assert e.0 + w + e.1 + none + none == e.0 + [SP] + e.1;
    }
    PairOf(e.0, w, e.1, none, None, [LF] + t);
  }

  lemma EncodeCons(es: seq<RawPair>, t: Bytes)
    requires |es| > 0
    ensures Encode(es) + t == EncodeEntry(es[0]) + (Encode(es[1..]) + t)
  {
  }

  /** The first pair of a serialisation is its first entry. */
  lemma PairOfEncoding(x: Bytes, e: RawPair, rest: Bytes)
    requires IsToken(e.0) && IsToken(e.1)
    requires x == EncodeEntry(e) + rest
    ensures Pair(x) == Some((e, [LF] + rest))
  {
    EncodeEntryPair(e, rest);
  }

  lemma MorePairsStep(s: Bytes, r1: Bytes, p: RawPair, r2: Bytes)
    requires LineEndings1(s) == Some(r1)
    requires Pair(r1) == Some((p, r2))
    ensures MorePairs(s) == ([p] + MorePairs(r2).0, MorePairs(r2).1)
  {
  }

  /** A line feed before padding ends the pair list and is left unconsumed. */
  lemma MorePairsStop(t: Bytes)
    requires Padding(t)
    ensures MorePairs([LF] + t) == ([], [LF] + t)
  {
    assert ([LF] + t)[1..] == t;
    LineEndings0Of(t);
    assert LineEndings1([LF] + t) == Some(t);
    assert Token(t) == None;
  }

  lemma LineEndings1OfEncoding(es: seq<RawPair>, t: Bytes)
    requires |es| > 0 && IsToken(es[0].0)
    ensures LineEndings1([LF] + (Encode(es) + t)) == Some(Encode(es) + t)
  {
    var x := Encode(es) + t;
    assert ([LF] + x)[1..] == x;
    EncodeCons(es, t);
    assert x[0] == es[0].0[0];
    LineEndings0Of(x);
  }

  /** One serialised entry after a line feed is one more pair. */
  lemma MorePairsOfEntry(es: seq<RawPair>, t: Bytes)
    requires |es| > 0 && IsToken(es[0].0) && IsToken(es[0].1)
    ensures MorePairs([LF] + (Encode(es) + t)) ==
      ([es[0]] + MorePairs([LF] + (Encode(es[1..]) + t)).0, MorePairs([LF] + (Encode(es[1..]) + t)).1)
  {
    var x := Encode(es) + t;
    var rest := Encode(es[1..]) + t;
    LineEndings1OfEncoding(es, t);
    EncodeCons(es, t);
    PairOfEncoding(x, es[0], rest);
    MorePairsStep([LF] + x, x, es[0], [LF] + rest);
  }

  /** After a serialised entry, `MorePairs` picks up every remaining entry. */
  lemma {:induction false} MorePairsOfEncoding(es: seq<RawPair>, t: Bytes)
    requires AllTokens(es)
    requires Padding(t)
    ensures MorePairs([LF] + (Encode(es) + t)) == (es, [LF] + t)
  {
    if es == [] {
      assert Encode(es) + t == t;
      MorePairsStop(t);
    } else {
      AllTokensTail(es);
      MorePairsOfEntry(es, t);
      MorePairsOfEncoding(es[1..], t);
      ConsTail(es);
    }
  }

  /** Parsing a serialisation, with any NUL padding behind it, gives back the entries. */
  lemma HeaderOfEncoding(es: seq<RawPair>, t: Bytes)
    requires |es| > 0
    requires AllTokens(es)
    requires Padding(t)
    ensures HeaderParser(Encode(es) + t) == Some((es, if t == [] then [] else t[1..]))
  {
    PairListOfEncoding(es, t);
    assert ([LF] + t)[1..] == t;
    LineEndings0Of(t);
    assert LineEndings0([LF] + t) == t;
  }

  lemma PairListOfEncoding(es: seq<RawPair>, t: Bytes)
    requires |es| > 0
    requires AllTokens(es)
    requires Padding(t)
    ensures PairList(Encode(es) + t) == Some((es, [LF] + t))
  {
    AllTokensTail(es);
    EncodeCons(es, t);
    var rest := Encode(es[1..]) + t;
    PairOfEncoding(Encode(es) + t, es[0], rest);
    MorePairsOfEncoding(es[1..], t);
    PairListOf(Encode(es) + t, es[0], [LF] + rest, es[1..], [LF] + t);
    ConsTail(es);
  }

  lemma ConsTail<T>(s: seq<T>)
    requires |s| > 0
    ensures [s[0]] + s[1..] == s
  {
  }

  /** A first pair followed by more pairs is a pair list. */
  lemma PairListOf(s: Bytes, p: RawPair, r: Bytes, ps: seq<RawPair>, r2: Bytes)
    requires Pair(s) == Some((p, r)) && MorePairs(r) == (ps, r2)
    ensures PairList(s) == Some(([p] + ps, r2))
  {
  }

  // ---------------------------------------------------------------------
  // Lemmas: collecting

  /** Collecting the entries of a map, in any order of its keys, rebuilds the map. */
  lemma {:induction false} CollectEntries(h: Header, order: seq<Bytes>)
    requires forall i, j :: 0 <= i < j < |order| ==> order[i] != order[j]
    requires forall i :: 0 <= i < |order| ==> order[i] in h
    ensures Collect(Entries(h, order)) == map k | k in order :: h[k]
  {
    if order != [] {
      var n := |order| - 1;
      var es := Entries(h, order);
      assert es[..n] == Entries(h, order[..n]);
      CollectEntries(h, order[..n]);
      assert Collect(es) == Collect(es[..n])[order[n] := h[order[n]]];
      RestrictionOfLast(h, order);
    }
  }

  /** The restriction of a map to a list of keys is the restriction to all but the last, updated at the last. */
  lemma RestrictionOfLast(h: Header, order: seq<Bytes>)
    requires |order| > 0
    requires forall i :: 0 <= i < |order| ==> order[i] in h
    ensures var n := |order| - 1;
      (map k | k in order :: h[k]) == (map k | k in order[..n] :: h[k])[order[n] := h[order[n]]]
  {
    var n := |order| - 1;
    forall k | k in order ensures k in order[..n] || k == order[n] {
      var i :| 0 <= i < |order| && order[i] == k;
      if i < n { assert order[..n][i] == k; }
    }
  }

  /** When a key occurs several times, its last occurrence wins. */
  lemma {:induction false} CollectLastWins(ps: seq<RawPair>, i: nat)
    requires i < |ps|
    requires forall j :: i < j < |ps| ==> ps[j].0 != ps[i].0
    ensures ps[i].0 in Collect(ps) && Collect(ps)[ps[i].0] == ps[i].1
  {
    var n := |ps| - 1;
    if i < n {
      assert forall j :: i < j < n ==> ps[..n][j] == ps[j];
      CollectLastWins(ps[..n], i);
      assert ps[..n][i] == ps[i];
    }
  }

  // ---------------------------------------------------------------------
  // Properties of the decoder

  /** Round trip: a well-formed non-empty header survives serialisation in any key order. */
  lemma RoundTrip(h: Header, order: seq<Bytes>)
    requires |h| > 0 && WellFormed(h)
    requires IsOrderOf(order, h)
    ensures BytesToHeader(Encode(Entries(h, order))) == Ok(h)
  {
    RoundTripPadded(h, order, 0);
    assert Encode(Entries(h, order)) + Zeros(0) == Encode(Entries(h, order));
  }

  /** The same round trip with a block's zero padding behind the serialisation. */
  lemma RoundTripPadded(h: Header, order: seq<Bytes>, pad: nat)
    requires |h| > 0 && WellFormed(h)
    requires IsOrderOf(order, h)
    ensures BytesToHeader(Encode(Entries(h, order)) + Zeros(pad)) == Ok(h)
  {
    var es := Entries(h, order);
    EntriesOfOrder(h, order);
    DecodeEncoding(es, Zeros(pad));
    CollectEntries(h, order);
    MapOfOrder(h, order);
  }

  lemma EntriesOfOrder(h: Header, order: seq<Bytes>)
    requires |h| > 0 && WellFormed(h)
    requires IsOrderOf(order, h)
    ensures |Entries(h, order)| > 0
    ensures forall i :: 0 <= i < |order| ==> IsToken(Entries(h, order)[i].0) && IsToken(Entries(h, order)[i].1)
  {
    var k :| k in h;
    assert k in order;
  }

  lemma MapOfOrder(h: Header, order: seq<Bytes>)
    requires IsOrderOf(order, h)
    ensures (map k | k in order :: h[k]) == h
  {
  }

  /** Decoding a serialisation with padding collects its entries. */
  lemma DecodeEncoding(es: seq<RawPair>, t: Bytes)
    requires |es| > 0
    requires AllTokens(es)
    requires Padding(t)
    ensures BytesToHeader(Encode(es) + t) == Ok(Collect(es))
  {
    HeaderOfEncoding(es, t);
  }

  lemma AllTokensTail(ps: seq<RawPair>)
    requires AllTokens(ps) && |ps| > 0
    ensures IsToken(ps[0].0) && IsToken(ps[0].1) && AllTokens(ps[1..])
  {
    assert forall i :: 0 <= i < |ps| - 1 ==> ps[1..][i] == ps[i + 1];
  }

  lemma AllTokensCons(p: RawPair, ps: seq<RawPair>)
    requires IsToken(p.0) && IsToken(p.1) && AllTokens(ps)
    ensures AllTokens([p] + ps)
  {
    forall i | 0 <= i < |[p] + ps| ensures IsToken(([p] + ps)[i].0) && IsToken(([p] + ps)[i].1) {
      if i > 0 { assert ([p] + ps)[i] == ps[i - 1]; }
    }
  }

  lemma {:induction false} MorePairsAreTokens(s: Bytes)
    ensures AllTokens(MorePairs(s).0)
    decreases |s|
  {
    match LineEndings1(s)
    case None =>
    case Some(r1) =>
      match Pair(r1)
      case None =>
      case Some((p, r2)) =>
        var more := MorePairs(r2);
        MorePairsAreTokens(r2);
        AllTokensCons(p, more.0);
        assert MorePairs(s).0 == [p] + more.0;
  }

  /** Every key and value the parser returns is a well-formed token. */
  lemma ParsedPairsAreTokens(s: Bytes)
    requires HeaderParser(s).Some?
    ensures AllTokens(HeaderParser(s).value.0)
  {
    var (p, r) := Pair(s).value;
    MorePairsAreTokens(r);
    AllTokensCons(p, MorePairs(r).0);
    assert HeaderParser(s).value.0 == [p] + MorePairs(r).0;
  }

  /** Hence a decoded header is well formed. */
  lemma DecodedIsWellFormed(bytes: Bytes)
    requires BytesToHeader(bytes).Ok?
    ensures WellFormed(BytesToHeader(bytes).value)
  {
    var ps := HeaderParser(bytes).value.0;
    ParsedPairsAreTokens(bytes);
    forall k | k in Collect(ps) ensures IsToken(k) && IsToken(Collect(ps)[k]) {
      CollectFrom(ps, k);
    }
  }

  /** Every entry of a collected map comes from some pair. */
  lemma {:induction false} CollectFrom(ps: seq<RawPair>, k: Bytes)
    requires k in Collect(ps)
    ensures exists i :: 0 <= i < |ps| && ps[i] == (k, Collect(ps)[k])
  {
    var n := |ps| - 1;
    if ps[n].0 != k {
      CollectFrom(ps[..n], k);
      var i :| 0 <= i < n && ps[..n][i] == (k, Collect(ps[..n])[k]);
      assert ps[i] == (k, Collect(ps)[k]);
    } else {
      assert ps[n] == (k, Collect(ps)[k]);
    }
  }

  /** At least one pair is required: the header parses exactly when its first pair does. */
  lemma HeaderNeedsFirstPair(s: Bytes)
    ensures HeaderParser(s).Some? <==> Pair(s).Some?
  {
  }

  /** Empty input is a parse error. */
  lemma EmptyIsError()
    ensures BytesToHeader([]) == Err(HeaderParseError)
  {
    assert Token([]) == None;
  }
}
