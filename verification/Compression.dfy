/** Compressed frames, and the reader that serves their contents as one byte stream.
    Compression, decompression and the hash are parameters. */
module Compression {
  import opened Common

  const MAX_COMPRESSED := 100_000_000
  const MAX_DECOMPRESSED := 1_000_000_000
  const TWO64 := 0x1_0000_0000_0000_0000

  datatype Method = NoCompression | LZ4 | ZSTD {
    function Byte(): byte {
      match this
      case NoCompression => 0x02
      case LZ4 => 0x82
      case ZSTD => 0x90
    }
  }

  datatype Codec = Codec(
    compress: (Method, seq<byte>) -> seq<byte>,
    decompress: (Method, seq<byte>, nat) -> Option<seq<byte>>,
    hash: seq<byte> -> nat)

  /** The one law asked of a codec; the hash has 128 bits. */
  ghost predicate Lawful(c: Codec) {
    && (forall m, raw :: c.decompress(m, c.compress(m, raw), |raw|) == Some(raw))
    && (forall bs :: c.hash(bs) < TWO64 * TWO64)
  }

  // ---------------------------------------------------------------------------
  // Writing a frame
  // ---------------------------------------------------------------------------

  /** The hashed part of a frame; both sizes are cast to 32 bits. */
  function Block(m: Method, payload: seq<byte>, size: nat): seq<byte> {
    [m.Byte()] + (LE(|payload| + 9, 4) + (LE(size, 4) + payload))
  }

  /** High half first. */
  function Checksum(hash: nat): seq<byte> {
    LE(hash / TWO64, 8) + LE(hash % TWO64, 8)
  }

  function FrameOf(c: Codec, m: Method, payload: seq<byte>, size: nat): seq<byte> {
    Checksum(c.hash(Block(m, payload, size))) + Block(m, payload, size)
  }

  /** Without compression nothing at all is written. */
  function Compressed(c: Codec, m: Method, raw: seq<byte>): seq<byte> {
    if m.NoCompression? then [] else FrameOf(c, m, c.compress(m, raw), |raw|)
  }

  method CompressData(c: Codec, m: Method, raw: seq<byte>) returns (written: seq<byte>)
    ensures written == Compressed(c, m, raw)
  {
    if m.NoCompression? {
      return [];
    }
    var payload := c.compress(m, raw);
    var block := [m.Byte()];
    block := block + LE(|payload| + 9, 4);
    block := block + LE(|raw|, 4);
    block := block + payload;
    assert block == Block(m, payload, |raw|);
    var hash := c.hash(block);
    written := LE(hash / TWO64, 8);
    written := written + LE(hash % TWO64, 8);
    written := written + block;
  }

  // ---------------------------------------------------------------------------
  // Reading a frame from plain bytes
  // ---------------------------------------------------------------------------

  /** `SizeUnderflow`: a stored size below 9 makes the slice behind the header panic. */
  datatype FrameError =
    | CutFrame
    | WrongMethod(found: byte)
    | FrameTooLarge
    | SizeUnderflow
    | ChecksumMismatch
    | BadPayload
    | NotCompressed

  /** The sanity check on the two stored sizes. */
  function SizeFault(compressed: nat, decompressed: nat): Option<FrameError> {
    if compressed > MAX_COMPRESSED || decompressed > MAX_DECOMPRESSED then Some(FrameTooLarge)
    else if compressed < 9 then Some(SizeUnderflow)
    else None
  }

  /** Rebuilds the hashed block, checks it and decompresses the payload. */
  function Unpack(c: Codec, m: Method, high: nat, low: nat, payload: seq<byte>, size: nat)
    : Result<seq<byte>, FrameError>
  {
    if c.hash(Block(m, payload, size)) != high * TWO64 + low then Err(ChecksumMismatch)
    else if m.NoCompression? then Err(NotCompressed)
    else
      match c.decompress(m, payload, size)
      case None => Err(BadPayload)
      case Some(raw) => Ok(raw)
  }

  /** Splits off the first `n` bytes. */
  function Take(s: seq<byte>, n: nat): Option<(seq<byte>, seq<byte>)> {
    if |s| < n then None else Some((s[..n], s[n..]))
  }

  /** One frame: its content and the bytes behind it. */
  function Decompress(c: Codec, m: Method, s: seq<byte>): (r: Result<(seq<byte>, seq<byte>), FrameError>)
    ensures r.Ok? ==> |r.value.1| < |s|
  {
    var high := Take(s, 8);
    if high.None? then Err(CutFrame) else
    var low := Take(high.value.1, 8);
    if low.None? then Err(CutFrame) else
    var kind := Take(low.value.1, 1);
    if kind.None? then Err(CutFrame) else
    if kind.value.0[0] != m.Byte() then Err(WrongMethod(kind.value.0[0])) else
    var compressed := Take(kind.value.1, 4);
    if compressed.None? then Err(CutFrame) else
    var decompressed := Take(compressed.value.1, 4);
    if decompressed.None? then Err(CutFrame) else
    var csize, dsize := FromLE(compressed.value.0), FromLE(decompressed.value.0);
    if SizeFault(csize, dsize).Some? then Err(SizeFault(csize, dsize).value) else
    var payload := Take(decompressed.value.1, csize - 9);
    if payload.None? then Err(CutFrame) else
    match Unpack(c, m, FromLE(high.value.0), FromLE(low.value.0), payload.value.0, dsize)
    case Err(e) => Err(e)
    case Ok(raw) => Ok((raw, payload.value.1))
  }

  // ---------------------------------------------------------------------------
  // The frame codec
  // ---------------------------------------------------------------------------

  lemma TakeConcat(a: seq<byte>, b: seq<byte>)
    ensures Take(a + b, |a|) == Some((a, b))
  {
  }

  lemma LE4(n: nat)
    requires n < 0x1_0000_0000
    ensures FromLE(LE(n, 4)) == n
  {
    LERoundTrip(n, 4);
    Pow256Values();
  }

  lemma LE8(n: nat)
    requires n < TWO64
    ensures FromLE(LE(n, 8)) == n
  {
    LERoundTrip(n, 8);
    Pow256Values();
  }

  lemma ChecksumValue(hash: nat)
    requires hash < TWO64 * TWO64
    ensures FromLE(LE(hash / TWO64, 8)) * TWO64 + FromLE(LE(hash % TWO64, 8)) == hash
  {
    var high, low := hash / TWO64, hash % TWO64;
    assert hash == high * TWO64 + low;
    LE8(high);
    LE8(low);
  }

  /** What a frame with the given payload and stored size reads back as: its length,
      its checksum and its method are always accepted. */
  lemma DecompressFrame(c: Codec, m: Method, payload: seq<byte>, size: nat, rest: seq<byte>)
    requires Lawful(c)
    requires |payload| + 9 < 0x1_0000_0000 && size < 0x1_0000_0000
    ensures Decompress(c, m, FrameOf(c, m, payload, size) + rest)
         == if SizeFault(|payload| + 9, size).Some? then Err(SizeFault(|payload| + 9, size).value)
            else if m.NoCompression? then Err(NotCompressed)
            else if c.decompress(m, payload, size).None? then Err(BadPayload)
            else Ok((c.decompress(m, payload, size).value, rest))
  {
    var hash := c.hash(Block(m, payload, size));
    var high, low := LE(hash / TWO64, 8), LE(hash % TWO64, 8);
    var compressed, decompressed := LE(|payload| + 9, 4), LE(size, 4);
    var s4 := payload + rest;
    var s3 := decompressed + s4;
    var s2 := compressed + s3;
    var s1 := [m.Byte()] + s2;
    var s := high + (low + s1);
    FrameShape(high, low, [m.Byte()], compressed, decompressed, payload, rest);
    assert FrameOf(c, m, payload, size) + rest == s;
    TakeConcat(high, low + s1);
    TakeConcat(low, s1);
    TakeConcat([m.Byte()], s2);
    TakeConcat(compressed, s3);
    TakeConcat(decompressed, s4);
    TakeConcat(payload, rest);
    LE4(|payload| + 9);
    LE4(size);
    ChecksumValue(hash);
  }

  lemma FrameShape(a: seq<byte>, b: seq<byte>, k: seq<byte>, d: seq<byte>, e: seq<byte>, p: seq<byte>, rest: seq<byte>)
    ensures ((a + b) + (k + (d + (e + p)))) + rest == a + (b + (k + (d + (e + (p + rest)))))
  {
  }

  /** Every payload whose sizes fit their 32-bit fields reads back as itself, with
      nothing behind the frame touched, if and only if it passes the size limits. */
  lemma CompressRoundTripIff(c: Codec, m: Method, raw: seq<byte>, rest: seq<byte>)
    requires Lawful(c) && !m.NoCompression?
    requires |c.compress(m, raw)| + 9 < 0x1_0000_0000 && |raw| < 0x1_0000_0000
    ensures Decompress(c, m, Compressed(c, m, raw) + rest) == Ok((raw, rest))
       <==> |c.compress(m, raw)| + 9 <= MAX_COMPRESSED && |raw| <= MAX_DECOMPRESSED
  {
    DecompressFrame(c, m, c.compress(m, raw), |raw|, rest);
  }

  /** What the reader accepts, and nothing else: a frame whose checksum covers exactly
      its method, sizes and payload. */
  lemma DecompressAcceptsIff(c: Codec, m: Method, s: seq<byte>, raw: seq<byte>, rest: seq<byte>)
    requires Lawful(c)
    ensures Decompress(c, m, s) == Ok((raw, rest))
       <==> exists payload, size: nat ::
              && s == FrameOf(c, m, payload, size) + rest
              && |payload| + 9 <= MAX_COMPRESSED && size <= MAX_DECOMPRESSED
              && !m.NoCompression?
              && c.decompress(m, payload, size) == Some(raw)
  {
    if Decompress(c, m, s) == Ok((raw, rest)) {
      var payload, size := Accepted(c, m, s, raw, rest);
    }
    forall payload, size: nat |
      && s == FrameOf(c, m, payload, size) + rest
      && |payload| + 9 <= MAX_COMPRESSED && size <= MAX_DECOMPRESSED
      && !m.NoCompression?
      && c.decompress(m, payload, size) == Some(raw)
      ensures Decompress(c, m, s) == Ok((raw, rest))
    {
      DecompressFrame(c, m, payload, size, rest);
    }
  }

  lemma Accepted(c: Codec, m: Method, s: seq<byte>, raw: seq<byte>, rest: seq<byte>)
    returns (payload: seq<byte>, size: nat)
    requires Lawful(c)
    requires Decompress(c, m, s) == Ok((raw, rest))
    ensures s == FrameOf(c, m, payload, size) + rest
    ensures |payload| + 9 <= MAX_COMPRESSED && size <= MAX_DECOMPRESSED
    ensures !m.NoCompression? && c.decompress(m, payload, size) == Some(raw)
  {
    var s1 := s[8..];
    var s2 := s1[8..];
    var s3 := s2[1..];
    var s4 := s3[4..];
    var s5 := s4[4..];
    var high, low, kind, compressed, decompressed := s[..8], s1[..8], s2[..1], s3[..4], s4[..4];
    payload := s5[..FromLE(compressed) - 9];
    size := FromLE(decompressed);
    assert kind == [m.Byte()];
    FromLERoundTrip(compressed);
    FromLERoundTrip(decompressed);
    assert LE(|payload| + 9, 4) == compressed && LE(size, 4) == decompressed;
    ChecksumBytes(high, low, c.hash(Block(m, payload, size)));
    assert s5 == payload + rest;
    assert s == high + (low + (kind + (compressed + (decompressed + (payload + rest)))));
    FrameShape(high, low, kind, compressed, decompressed, payload, rest);
  }

  lemma ChecksumBytes(high: seq<byte>, low: seq<byte>, hash: nat)
    requires |high| == 8 && |low| == 8 && hash == FromLE(high) * TWO64 + FromLE(low)
    ensures Checksum(hash) == high + low
  {
    FromLEBound(low);
    Pow256Values();
    DivModUnique(hash, TWO64, FromLE(high), FromLE(low));
    FromLERoundTrip(high);
    FromLERoundTrip(low);
  }

  // ---------------------------------------------------------------------------
  // The decompressing reader
  // ---------------------------------------------------------------------------

  /** The compressed bytes still unread, and for each coming poll of the block-reading
      future whether it is Pending. */
  datatype Source = Source(bytes: seq<byte>, delays: seq<bool>)

  /** `inner` is the reader at rest, `future` the block being read from it. */
  datatype Stream = Stream(inner: Option<Source>, decompressed: seq<byte>, position: nat, future: Option<Source>)

  datatype Sink = Sink(filled: seq<byte>, room: nat)

  datatype Poll = Waiting | Served | Broken(error: FrameError)

  function Unread(st: Stream): nat {
    (if st.inner.Some? then |st.inner.value.bytes| else 0)
    + (if st.future.Some? then |st.future.value.bytes| else 0)
  }

  /** Polls the future in progress: `None` when there is nothing to wait for. */
  function PollFuture(c: Codec, m: Method, st: Stream): (r: (Option<Poll>, Stream))
    ensures r.0.None? && st.future.Some? ==> r.1.future.None? && r.1.inner.Some? && |r.1.inner.value.bytes| < |st.future.value.bytes|
    ensures r.0.None? && st.future.None? ==> r.1 == st
  {
    if st.future.None? then (None, st)
    else
      var src := st.future.value;
      var later := if src.delays == [] then [] else src.delays[1..];
      if src.delays != [] && src.delays[0] then
        (Some(Waiting), st.(future := Some(Source(src.bytes, later))))
      else
        match Decompress(c, m, src.bytes)
        case Err(e) => (Some(Broken(e)), st.(future := None))
        case Ok((raw, rest)) => (None, Stream(Some(Source(rest, later)), raw, 0, None))
  }

  /** Hands out what fits of the current block. */
  function Serve(st: Stream, buf: Sink): (Stream, Sink)
    requires st.position < |st.decompressed|
  {
    var n := Min(|st.decompressed| - st.position, buf.room);
    var served := st.decompressed[st.position..st.position + n];
    (st.(position := st.position + n), Sink(buf.filled + served, buf.room - n))
  }

  function PollStream(c: Codec, m: Method, st: Stream, buf: Sink): (r: (Poll, Stream, Sink))
    decreases Unread(st), if st.future.None? then 1 else 0
  {
    if buf.room == 0 then (Served, st, buf)
    else
      var (stop, st1) := PollFuture(c, m, st);
      if stop.Some? then (stop.value, st1, buf)
      else if st1.position < |st1.decompressed| then
        (Served, Serve(st1, buf).0, Serve(st1, buf).1)
      else if st1.inner.Some? then
        PollStream(c, m, st1.(inner := None, future := st1.inner), buf)
      else (Served, st1, buf)
  }

  /** Opening the stream reads the first block at once. */
  function OpenStream(c: Codec, m: Method, src: Source): Result<Stream, FrameError> {
    match Decompress(c, m, src.bytes)
    case Err(e) => Err(e)
    case Ok((raw, rest)) => Ok(Stream(Some(Source(rest, src.delays)), raw, 0, None))
  }

  class DecompressionReader {
    var codec: Codec
    var mode: Method
    var inner: Option<Source>
    var decompressed: seq<byte>
    var position: nat
    var blockReadingFuture: Option<Source>

    ghost function View(): Stream
      reads this
    {
      Stream(inner, decompressed, position, blockReadingFuture)
    }

    constructor (codec: Codec, mode: Method, start: Stream)
      ensures View() == start && this.codec == codec && this.mode == mode
    {
      this.codec := codec;
      this.mode := mode;
      inner := start.inner;
      decompressed := start.decompressed;
      position := start.position;
      blockReadingFuture := start.future;
    }

    method PollRead(buf0: Sink) returns (outcome: Poll, buf: Sink)
      modifies this`inner, this`decompressed, this`position, this`blockReadingFuture
      ensures (outcome, View(), buf) == PollStream(codec, mode, old(View()), buf0)
      decreases Unread(View()), if blockReadingFuture.None? then 1 else 0
    {
      buf := buf0;
      if buf.room == 0 {
        return Served, buf;
      }
      if blockReadingFuture.Some? {
        var (stop, st) := PollFuture(codec, mode, Stream(inner, decompressed, position, blockReadingFuture));
        inner, decompressed, position, blockReadingFuture := st.inner, st.decompressed, st.position, st.future;
        if stop.Some? {
          return stop.value, buf;
        }
      }
      if position < |decompressed| {
        var n := Min(|decompressed| - position, buf.room);
        buf := Sink(buf.filled + decompressed[position..position + n], buf.room - n);
        position := position + n;
        return Served, buf;
      }
      if inner.Some? {
        blockReadingFuture := inner;
        inner := None;
        outcome, buf := PollRead(buf);
        return;
      }
      return Served, buf;
    }
  }

  // ---------------------------------------------------------------------------
  // What the decompressing reader delivers
  // ---------------------------------------------------------------------------

  /** The contents of all frames in `s`, up to the first that does not read. */
  function AllFrames(c: Codec, m: Method, s: seq<byte>): seq<byte>
    decreases |s|
  {
    match Decompress(c, m, s)
    case Err(_) => []
    case Ok((raw, rest)) => raw + AllFrames(c, m, rest)
  }

  /** Why reading frames from `s` stops. */
  function FramesEnd(c: Codec, m: Method, s: seq<byte>): FrameError
    decreases |s|
  {
    match Decompress(c, m, s)
    case Err(e) => e
    case Ok((_, rest)) => FramesEnd(c, m, rest)
  }

  /** Between polls, before any error: exactly one of the reader and the future is
      present, the position lies within the current block, and while a block is being
      read the previous one is used up. */
  ghost predicate Live(st: Stream) {
    && (st.inner.Some? <==> st.future.None?)
    && st.position <= |st.decompressed|
    && (st.future.Some? ==> st.position == |st.decompressed|)
  }

  function SourceOf(st: Stream): Source
    requires Live(st)
  {
    if st.inner.Some? then st.inner.value else st.future.value
  }

  /** What is still to be delivered. */
  function Undelivered(c: Codec, m: Method, st: Stream): seq<byte>
    requires Live(st)
  {
    st.decompressed[st.position..] + AllFrames(c, m, SourceOf(st).bytes)
  }

  function EndOf(c: Codec, m: Method, st: Stream): FrameError
    requires Live(st)
  {
    FramesEnd(c, m, SourceOf(st).bytes)
  }

  /** Nothing was lost or repeated between the two states. */
  ghost predicate Carried(c: Codec, m: Method, st: Stream, buf: Sink, st': Stream, buf': Sink)
    requires Live(st)
  {
    && Live(st')
    && buf.filled + Undelivered(c, m, st) == buf'.filled + Undelivered(c, m, st')
    && EndOf(c, m, st') == EndOf(c, m, st)
  }

  /** Nothing is left to deliver and the reader is gone, for the reason the frames end. */
  ghost predicate Ended(c: Codec, m: Method, st: Stream, st': Stream, e: FrameError)
    requires Live(st)
  {
    && Undelivered(c, m, st) == [] && e == EndOf(c, m, st)
    && st'.inner.None? && st'.future.None? && st'.position == |st'.decompressed|
  }

  /** What a poll owes its caller. */
  ghost predicate PollKept(c: Codec, m: Method, st: Stream, buf: Sink, outcome: Poll, st': Stream, buf': Sink)
    requires Live(st)
  {
    match outcome
    case Waiting => Carried(c, m, st, buf, st', buf') && buf' == buf
    case Served => Carried(c, m, st, buf, st', buf') && |buf'.filled| > |buf.filled|
    case Broken(e) => buf' == buf && Ended(c, m, st, st', e)
  }

  /** A poll with room loses and repeats nothing, serves at least one byte when it
      succeeds, skips empty frames, and fails only when everything has been delivered,
      with the reason the frames end. */
  lemma {:induction false} PollServes(c: Codec, m: Method, st: Stream, buf: Sink)
    requires Live(st) && buf.room > 0
    ensures var (outcome, st', buf') := PollStream(c, m, st, buf);
            PollKept(c, m, st, buf, outcome, st', buf')
    decreases Unread(st), if st.future.None? then 1 else 0
  {
    FutureKeeps(c, m, st, buf);
    var (stop, st1) := PollFuture(c, m, st);
    if stop.None? {
      if st1.position < |st1.decompressed| {
        ServeCarries(c, m, st1, buf);
      } else {
        var st2 := st1.(inner := None, future := st1.inner);
        assert Carried(c, m, st1, buf, st2, buf);
        PollServes(c, m, st2, buf);
      }
    }
  }

  ghost predicate FutureKept(c: Codec, m: Method, st: Stream, buf: Sink, stop: Option<Poll>, st': Stream)
    requires Live(st)
  {
    match stop
    case None => Carried(c, m, st, buf, st', buf) && st'.inner.Some?
    case Some(Waiting) => Carried(c, m, st, buf, st', buf)
    case Some(Broken(e)) => Ended(c, m, st, st', e)
    case Some(Served) => false
  }

  lemma FutureKeeps(c: Codec, m: Method, st: Stream, buf: Sink)
    requires Live(st)
    ensures var (stop, st') := PollFuture(c, m, st);
            FutureKept(c, m, st, buf, stop, st')
  {
    if st.future.Some? && Decompress(c, m, st.future.value.bytes).Ok? {
      var (raw, rest) := Decompress(c, m, st.future.value.bytes).value;
      assert raw[0..] == raw;
      assert st.decompressed[st.position..] == [];
      assert [] + (raw + AllFrames(c, m, rest)) == raw + AllFrames(c, m, rest);
    }
  }

  lemma ServeCarries(c: Codec, m: Method, st: Stream, buf: Sink)
    requires Live(st) && st.inner.Some? && st.position < |st.decompressed| && buf.room > 0
    ensures var (st', buf') := Serve(st, buf);
            Carried(c, m, st, buf, st', buf') && |buf'.filled| > |buf.filled|
  {
    var n := Min(|st.decompressed| - st.position, buf.room);
    var (st', buf') := Serve(st, buf);
    assert SourceOf(st') == SourceOf(st);
    ServeBytes(buf.filled, st.decompressed, st.position, n, AllFrames(c, m, SourceOf(st).bytes));
  }

  lemma ServeBytes(filled: seq<byte>, block: seq<byte>, position: nat, n: nat, rest: seq<byte>)
    requires position + n <= |block|
    ensures (filled + block[position..position + n]) + (block[position + n..] + rest)
         == filled + (block[position..] + rest)
  {
  }

  /** Polls with buffers of the given sizes, until one fails; pending polls are repeated
      by the next entry. */
  function Drive(c: Codec, m: Method, st: Stream, rooms: seq<nat>): (seq<byte>, Stream, Option<FrameError>)
    decreases rooms
  {
    if rooms == [] then ([], st, None)
    else
      var (outcome, st', buf) := PollStream(c, m, st, Sink([], rooms[0]));
      match outcome
      case Broken(e) => (buf.filled, st', Some(e))
      case _ =>
        var (more, last, err) := Drive(c, m, st', rooms[1..]);
        (buf.filled + more, last, err)
  }

  /** Any run, whatever the buffer sizes and delays: until an error the delivered bytes
      and what is left make up the concatenated frames; an error comes only after all
      of them, and it is the one that ends the frames. */
  lemma {:induction false} DriveDelivers(c: Codec, m: Method, st: Stream, rooms: seq<nat>)
    requires Live(st)
    ensures var (delivered, last, err) := Drive(c, m, st, rooms);
            if err.None? then Live(last) && delivered + Undelivered(c, m, last) == Undelivered(c, m, st)
            else delivered == Undelivered(c, m, st) && err.value == EndOf(c, m, st)
    decreases rooms
  {
    if rooms != [] {
      var (outcome, st', buf) := PollStream(c, m, st, Sink([], rooms[0]));
      if rooms[0] > 0 {
        PollServes(c, m, st, Sink([], rooms[0]));
      }
      if !outcome.Broken? {
        DriveDelivers(c, m, st', rooms[1..]);
        var (more, last, err) := Drive(c, m, st', rooms[1..]);
        assert [] + Undelivered(c, m, st) == buf.filled + Undelivered(c, m, st');
        if err.None? {
          ConcatAssoc(buf.filled, more, Undelivered(c, m, last));
        }
      }
    }
  }

  /** Every poll that waits uses up a delay, and no poll adds one. */
  lemma {:induction false} WaitsRunOut(c: Codec, m: Method, st: Stream, buf: Sink)
    requires Live(st) && buf.room > 0
    ensures var (outcome, st', buf') := PollStream(c, m, st, buf);
            !outcome.Broken? ==>
              && Live(st') && |SourceOf(st').delays| <= |SourceOf(st).delays|
              && (outcome.Waiting? ==> |SourceOf(st').delays| < |SourceOf(st).delays|)
    decreases Unread(st), if st.future.None? then 1 else 0
  {
    PollServes(c, m, st, buf);
    FutureKeeps(c, m, st, buf);
    var (stop, st1) := PollFuture(c, m, st);
    if stop.None? && st1.position == |st1.decompressed| {
      WaitsRunOut(c, m, st1.(inner := None, future := st1.inner), buf);
    }
  }

  /** Any run of more polls with room than there are bytes to deliver and delays comes to the
      end: it delivers everything, and then the error that ends the frames. */
  lemma {:induction false} DriveEnds(c: Codec, m: Method, st: Stream, rooms: seq<nat>)
    requires Live(st) && forall i | 0 <= i < |rooms| :: rooms[i] > 0
    requires |rooms| > |Undelivered(c, m, st)| + |SourceOf(st).delays|
    ensures Drive(c, m, st, rooms).0 == Undelivered(c, m, st) && Drive(c, m, st, rooms).2 == Some(EndOf(c, m, st))
    decreases rooms
  {
    var buf := Sink([], rooms[0]);
    var (outcome, st', buf') := PollStream(c, m, st, buf);
    PollServes(c, m, st, buf);
    WaitsRunOut(c, m, st, buf);
    DriveDelivers(c, m, st, rooms);
    if !outcome.Broken? {
      assert |[] + Undelivered(c, m, st)| == |buf'.filled + Undelivered(c, m, st')|;
      DriveEnds(c, m, st', rooms[1..]);
    }
  }

  /** After the error the reader is gone, and every later poll is an empty success. */
  lemma AfterErrorEndOfFile(c: Codec, m: Method, st: Stream, buf: Sink)
    requires st.inner.None? && st.future.None? && st.position == |st.decompressed|
    ensures PollStream(c, m, st, buf) == (Served, st, buf)
  {
  }

  function Frames(c: Codec, m: Method, raws: seq<seq<byte>>): seq<byte> {
    if raws == [] then [] else Compressed(c, m, raws[0]) + Frames(c, m, raws[1..])
  }

  ghost predicate Fits(c: Codec, m: Method, raw: seq<byte>) {
    |c.compress(m, raw)| + 9 <= MAX_COMPRESSED && |raw| <= MAX_DECOMPRESSED
  }

  /** Written frames are read back whole and in order, empty ones included; where they
      stop the reader reports a cut frame, never a clean end of file. */
  lemma {:induction false} FramesReadBack(c: Codec, m: Method, raws: seq<seq<byte>>)
    requires Lawful(c) && !m.NoCompression?
    requires forall raw | raw in raws :: Fits(c, m, raw)
    ensures AllFrames(c, m, Frames(c, m, raws)) == Concat(raws)
    ensures FramesEnd(c, m, Frames(c, m, raws)) == CutFrame
  {
    if raws != [] {
      FramesReadBack(c, m, raws[1..]);
      assert Fits(c, m, raws[0]);
      CompressRoundTripIff(c, m, raws[0], Frames(c, m, raws[1..]));
    }
  }

  /** Opened on written frames and read through buffers of any sizes with any delays, the
      stream delivers what was written: a prefix of it as long as no error is reported, all
      of it before the one error that can be, the cut at the end. */
  lemma WrittenStreamDelivers(c: Codec, m: Method, raws: seq<seq<byte>>, delays: seq<bool>, rooms: seq<nat>)
    requires Lawful(c) && !m.NoCompression? && raws != []
    requires forall raw | raw in raws :: Fits(c, m, raw)
    ensures OpenStream(c, m, Source(Frames(c, m, raws), delays)).Ok?
    ensures var (delivered, last, err) := Drive(c, m, OpenStream(c, m, Source(Frames(c, m, raws), delays)).value, rooms);
            if err.None? then Live(last) && delivered + Undelivered(c, m, last) == Concat(raws)
            else delivered == Concat(raws) && err.value == CutFrame
  {
    var frames := Frames(c, m, raws);
    FramesReadBack(c, m, raws);
    assert Fits(c, m, raws[0]);
    CompressRoundTripIff(c, m, raws[0], Frames(c, m, raws[1..]));
    var st := OpenStream(c, m, Source(frames, delays)).value;
    assert Undelivered(c, m, st) == AllFrames(c, m, frames);
    DriveDelivers(c, m, st, rooms);
  }
}
