/** The chunked transport: length-prefixed chunks, each closed by a zero header,
    over an inner byte stream that may be cut or delayed anywhere. */
module Chunk {
  import opened Common

  const MAX_CHUNK := 100_000_000

  // ---------------------------------------------------------------------------
  // The inner stream
  // ---------------------------------------------------------------------------

  datatype RawEvent = NotReady | Arrived(bytes: seq<byte>)

  /** One thing the inner stream can do when polled.  A script of events is one
      fragmentation of the bytes on the wire; the end of the script is end of file. */
  type Event = e: RawEvent | e.Arrived? ==> e.bytes != [] witness NotReady

  datatype Polled<+T> = Pending | Ready(value: T)

  function Flat(s: seq<Event>): seq<byte> {
    if s == [] then []
    else (if s[0].Arrived? then s[0].bytes else []) + Flat(s[1..])
  }

  /** Puts bytes back in front of the stream. */
  function Push(bs: seq<byte>, s: seq<Event>): seq<Event> {
    if bs == [] then s else [Arrived(bs)] + s
  }

  lemma PushFlat(bs: seq<byte>, s: seq<Event>)
    ensures Flat(Push(bs, s)) == bs + Flat(s)
    ensures |Push(bs, s)| <= |s| + 1
  {
    if bs != [] { assert ([Arrived(bs)] + s)[1..] == s; }
  }

  /** Polls the inner stream for at most `want` bytes. */
  function PollInner(s: seq<Event>, want: nat): (r: (Polled<seq<byte>>, seq<Event>))
    ensures r.0.Pending? ==> s != [] && r.1 == s[1..] && Flat(r.1) == Flat(s)
    ensures r.0.Ready? ==> |r.0.value| <= want && r.0.value + Flat(r.1) == Flat(s) && |r.1| <= |s|
    ensures r.0.Ready? ==> (r.0.value == [] <==> want == 0 || s == [])
  {
    if want == 0 || s == [] then (Ready([]), s)
    else
      match s[0]
      case NotReady => (Pending, s[1..])
      case Arrived(bs) =>
        if |bs| <= want then (Ready(bs), s[1..])
        else
          SplitThenRest(bs, want, Flat(s[1..]));
          PushFlat(bs[want..], s[1..]);
          (Ready(bs[..want]), Push(bs[want..], s[1..]))
  }

  // ---------------------------------------------------------------------------
  // Writer
  // ---------------------------------------------------------------------------

  /** Header, data, zero terminator; the header is the length cast to 32 bits. */
  function Frame(data: seq<byte>): seq<byte> {
    LE(|data|, 4) + data + LE(0, 4)
  }

  datatype Writer = Writer(buffer: seq<byte>, out: seq<byte>)

  datatype WriteOp = Write(bytes: seq<byte>) | Finish

  function ApplyWrite(w: Writer, op: WriteOp): Writer {
    match op
    case Write(bytes) => w.(buffer := w.buffer + bytes)
    case Finish => if w.buffer == [] then w else Writer([], w.out + Frame(w.buffer))
  }

  class ChunkWriter {
    var buffer: seq<byte>
    var inner: seq<byte>

    ghost function View(): Writer
      reads this
    {
      Writer(buffer, inner)
    }

    constructor ()
      ensures View() == Writer([], [])
    {
      buffer := [];
      inner := [];
    }

    method FinishChunk()
      modifies this
      ensures View() == ApplyWrite(old(View()), Finish)
    {
      if buffer == [] {
        return;
      }
      inner := inner + LE(|buffer|, 4);
      inner := inner + buffer;
      inner := inner + LE(0, 4);
      buffer := [];
    }

    /** Everything is buffered until the chunk is finished. */
    method PollWrite(bytes: seq<byte>) returns (written: nat)
      modifies this
      ensures View() == ApplyWrite(old(View()), Write(bytes))
      ensures written == |bytes|
    {
      buffer := buffer + bytes;
      written := |bytes|;
    }
  }

  // ---------------------------------------------------------------------------
  // Reader
  // ---------------------------------------------------------------------------

  /** The caller's buffer: what it holds so far and how much it can still take. */
  datatype ReadBuf = ReadBuf(filled: seq<byte>, room: nat)

  function Put(buf: ReadBuf, bs: seq<byte>): ReadBuf
    requires |bs| <= buf.room
  {
    ReadBuf(buf.filled + bs, buf.room - |bs|)
  }

  datatype Mode = Header | Data

  datatype Reader = Reader(
    mode: Mode,
    chunkSize: nat,
    buffer: seq<byte>,
    bufferPos: nat,
    inner: seq<Event>)

  datatype ReadError = ChunkTooLarge | UnexpectedEof

  /** `Diverges`: at end of file a header poll reads nothing, so the all-zero header
      reads as a terminator and the loop repeats in the same state for ever. */
  datatype Outcome = Waiting | Filled | Failed(error: ReadError) | Diverges

  function NewReader(inner: seq<Event>): Reader {
    Reader(Header, 0, [], 0, inner)
  }

  /** Bounds the polls that can still happen. */
  function Potential(r: Reader): nat {
    |Flat(r.inner)| + |r.inner| + (if r.bufferPos < |r.buffer| then |r.buffer| - r.bufferPos else 0)
  }

  /** The header array: the bytes the poll put there over zeros. */
  function HeaderValue(got: seq<byte>): nat
    requires |got| <= 4
  {
    FromLE(got + seq(4 - |got|, _ => 0))
  }

  /** What the copy into the caller's buffer did not take replaces the excess buffer. */
  function Excess(got: seq<byte>, copied: nat, buffer: seq<byte>): seq<byte> {
    if copied < |got| then got[copied..] else buffer
  }

  /** One turn of the loop while expecting a header; `None` means go round again. */
  function HeaderStep(r: Reader): (Option<Outcome>, Reader) {
    var (polled, rest) := PollInner(r.inner, 4);
    if polled.Pending? then (Some(Waiting), r.(inner := rest))
    else
      var size := HeaderValue(polled.value);
      var r' := r.(chunkSize := size, inner := rest);
      if polled.value == [] then (Some(Diverges), r')
      else if size == 0 then (None, r')
      else if size > MAX_CHUNK then (Some(Failed(ChunkTooLarge)), r')
      else (None, r'.(mode := Data))
  }

  /** One turn of the loop inside a chunk. */
  function DataStep(r: Reader, buf: ReadBuf): (Option<Outcome>, Reader, ReadBuf) {
    var toRead := Min(buf.room, r.chunkSize);
    if toRead == 0 && buf.room > 0 then (None, r.(mode := Header), buf)
    else
      var (polled, rest) := PollInner(r.inner, toRead);
      if polled.Pending? then (Some(Waiting), r.(inner := rest), buf)
      else if polled.value == [] && r.chunkSize > 0 then
        (Some(Failed(UnexpectedEof)), r.(inner := rest), buf)
      else
        var got := polled.value;
        var toCopy := Min(|got|, buf.room);
        var buf' := Put(buf, got[..toCopy]);
        var left := r.chunkSize - |got|;
        var r' := Reader(
          if left == 0 then Header else r.mode, left, Excess(got, toCopy, r.buffer), r.bufferPos, rest);
        (if buf'.room == 0 then Some(Filled) else None, r', buf')
  }

  /** The poll loop. */
  function Loop(r: Reader, buf: ReadBuf): (res: (Outcome, Reader, ReadBuf))
    requires r.bufferPos >= |r.buffer|
    ensures res.2.room + |res.2.filled| == buf.room + |buf.filled|
    ensures res.0.Waiting? ==> Potential(res.1) + |res.2.filled| < Potential(r) + |buf.filled|
    ensures res.0.Filled? ==> Potential(res.1) + |res.2.filled| <= Potential(r) + |buf.filled|
    ensures |res.2.filled| >= |buf.filled|
    decreases |Flat(r.inner)|, if r.mode.Data? then 1 else 0
  {
    match r.mode
    case Header =>
      var (stop, r') := HeaderStep(r);
      if stop.Some? then (stop.value, r', buf) else Loop(r', buf)
    case Data =>
      var (stop, r', buf') := DataStep(r, buf);
      if stop.Some? then (stop.value, r', buf') else Loop(r', buf')
  }

  /** One `poll_read`: excess bytes first, then the loop. */
  function Poll(r: Reader, buf: ReadBuf): (res: (Outcome, Reader, ReadBuf))
    ensures res.2.room + |res.2.filled| == buf.room + |buf.filled|
    ensures res.0.Waiting? ==> Potential(res.1) + |res.2.filled| < Potential(r) + |buf.filled|
    ensures res.0.Filled? ==> Potential(res.1) + |res.2.filled| <= Potential(r) + |buf.filled|
    ensures |res.2.filled| >= |buf.filled|
  {
    if r.bufferPos < |r.buffer| then
      var available := r.buffer[r.bufferPos..];
      var n := Min(|available|, buf.room);
      var buf' := Put(buf, available[..n]);
      if r.bufferPos + n >= |r.buffer| then
        (Filled, r.(buffer := [], bufferPos := 0), buf')
      else
        (Filled, r.(bufferPos := r.bufferPos + n), buf')
    else
      Loop(r, buf)
  }

  /** The reader as an object updated in place. */
  class ChunkReader {
    var inner: seq<Event>
    var mode: Mode
    var buffer: seq<byte>
    var bufferPos: nat
    var chunkSize: nat

    ghost function View(): Reader
      reads this
    {
      Reader(mode, chunkSize, buffer, bufferPos, inner)
    }

    constructor (inner: seq<Event>)
      ensures View() == NewReader(inner)
    {
      this.inner := inner;
      mode := Header;
      buffer := [];
      bufferPos := 0;
      chunkSize := 0;
    }

    method PollRead(buf0: ReadBuf) returns (outcome: Outcome, buf: ReadBuf)
      modifies this
      ensures (outcome, View(), buf) == Poll(old(View()), buf0)
    {
      buf := buf0;
      if bufferPos < |buffer| {
        var available := buffer[bufferPos..];
        var n := Min(|available|, buf.room);
        buf := Put(buf, available[..n]);
        bufferPos := bufferPos + n;
        if bufferPos >= |buffer| {
          buffer := [];
          bufferPos := 0;
        }
        return Filled, buf;
      }
      while true
        invariant bufferPos >= |buffer|
        invariant Loop(View(), buf) == Loop(old(View()), buf0)
        decreases |Flat(inner)|, if mode.Data? then 1 else 0
      {
        var stop: Option<Outcome>;
        if mode == Header {
          stop := PollHeader();
        } else {
          stop, buf := PollData(buf);
        }
        if stop.Some? {
          return stop.value, buf;
        }
      }
    }

    method PollHeader() returns (stop: Option<Outcome>)
      modifies this
      ensures (stop, View()) == HeaderStep(old(View()))
    {
      var (polled, rest) := PollInner(inner, 4);
      inner := rest;
      if polled.Pending? {
        return Some(Waiting);
      }
      chunkSize := HeaderValue(polled.value);
      if polled.value == [] {
        return Some(Diverges);
      }
      if chunkSize == 0 {
        return None;
      }
      if chunkSize > MAX_CHUNK {
        return Some(Failed(ChunkTooLarge));
      }
      mode := Data;
      return None;
    }

    method PollData(buf0: ReadBuf) returns (stop: Option<Outcome>, buf: ReadBuf)
      modifies this
      ensures (stop, View(), buf) == DataStep(old(View()), buf0)
    {
      buf := buf0;
      var toRead := Min(buf.room, chunkSize);
      if toRead == 0 && buf.room > 0 {
        mode := Header;
        return None, buf;
      }
      var (polled, rest) := PollInner(inner, toRead);
      inner := rest;
      if polled.Pending? {
        return Some(Waiting), buf;
      }
      var got := polled.value;
      if got == [] && chunkSize > 0 {
        return Some(Failed(UnexpectedEof)), buf;
      }
      var toCopy := Min(|got|, buf.room);
      buf := Put(buf, got[..toCopy]);
      buffer := Excess(got, toCopy, buffer);
      chunkSize := chunkSize - |got|;
      if chunkSize == 0 {
        mode := Header;
      }
      stop := if buf.room == 0 then Some(Filled) else None;
    }
  }

  // ---------------------------------------------------------------------------
  // Callers
  // ---------------------------------------------------------------------------

  /** `read_exact`: polls again with the same buffer until it is full.  The outcome is
      `Filled`, `Failed` or `Diverges`. */
  function ReadExact(r: Reader, buf: ReadBuf): (Outcome, Reader, ReadBuf)
    decreases Potential(r)
  {
    if buf.room == 0 then (Filled, r, buf)
    else
      var (outcome, r', buf') := Poll(r, buf);
      match outcome
      case Waiting => ReadExact(r', buf')
      case Filled => if buf'.room == buf.room then (Failed(UnexpectedEof), r', buf') else ReadExact(r', buf')
      case _ => (outcome, r', buf')
  }

  /** The fixed-width integer reads: every poll gets a new buffer over the bytes still
      missing, so what a poll put there before returning Pending is dropped. */
  function ReadInt(r: Reader, got: seq<byte>, width: nat): (Outcome, Reader, seq<byte>)
    decreases Potential(r)
  {
    if |got| >= width then (Filled, r, got)
    else
      var (outcome, r', buf) := Poll(r, ReadBuf([], width - |got|));
      match outcome
      case Waiting => ReadInt(r', got, width)
      case Filled => if buf.filled == [] then (Failed(UnexpectedEof), r', got) else ReadInt(r', got + buf.filled, width)
      case _ => (outcome, r', got)
  }
}
