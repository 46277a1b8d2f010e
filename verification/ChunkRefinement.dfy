/** What the chunked reader delivers, against the plain reading of the bytes on the
    wire that ignores every cut and delay. */
module ChunkRefinement {
  import opened Common
  import opened Chunk

  // ---------------------------------------------------------------------------
  // The reference: unframing a byte sequence
  // ---------------------------------------------------------------------------

  /** The payload in `s` when `left` bytes of the current chunk are still to come
      (none: a header is next). */
  function Payload(left: nat, s: seq<byte>): seq<byte>
    decreases |s|
  {
    if left == 0 then
      if |s| < 4 then []
      else
        var size := FromLE(s[..4]);
        if size > MAX_CHUNK then [] else Payload(size, s[4..])
    else if |s| <= left then s
    else s[..left] + Payload(0, s[left..])
  }

  /** How the framing of `s` ends. */
  datatype Ending = Clean | CutHeader | Oversized | CutChunk

  function EndingOf(left: nat, s: seq<byte>): Ending
    decreases |s|
  {
    if left == 0 then
      if s == [] then Clean
      else if |s| < 4 then CutHeader
      else
        var size := FromLE(s[..4]);
        if size > MAX_CHUNK then Oversized else EndingOf(size, s[4..])
    else if |s| < left then CutChunk
    else EndingOf(0, s[left..])
  }

  /** No event boundary falls inside a chunk header. */
  ghost predicate WholeHeaders(left: nat, s: seq<Event>)
    decreases |Flat(s)| + |s|
  {
    if s == [] then true
    else if s[0].NotReady? then WholeHeaders(left, s[1..])
    else
      var bs := s[0].bytes;
      if left == 0 then
        |bs| >= 4
        && (FromLE(bs[..4]) > MAX_CHUNK
            || WholeHeaders(FromLE(bs[..4]), Push(bs[4..], s[1..])))
      else if |bs| <= left then WholeHeaders(left - |bs|, s[1..])
      else WholeHeaders(0, Push(bs[left..], s[1..]))
  }

  /** What is still to be delivered. */
  function Remaining(r: Reader): seq<byte> {
    Payload(r.chunkSize, Flat(r.inner))
  }

  function End(r: Reader): Ending {
    EndingOf(r.chunkSize, Flat(r.inner))
  }

  /** The invariant between polls: no excess is ever buffered, and a chunk is open
      exactly when some of it is still to come. */
  ghost predicate Sound(r: Reader) {
    && r.buffer == []
    && r.bufferPos == 0
    && (r.mode.Data? <==> r.chunkSize > 0)
    && WholeHeaders(r.chunkSize, r.inner)
  }

  /** From `r` to `r'` nothing was lost, repeated or invented: what the caller holds
      followed by what remains is the same. */
  ghost predicate Kept(r: Reader, buf: ReadBuf, r': Reader, buf': ReadBuf) {
    && Sound(r')
    && buf.filled + Remaining(r) == buf'.filled + Remaining(r')
    && End(r') == End(r)
  }

  /** Everything was delivered and the stream ends this way. */
  ghost predicate Exhausted(r: Reader, buf: ReadBuf, buf': ReadBuf, end: Ending) {
    buf'.filled == buf.filled + Remaining(r) && buf'.room > 0 && End(r) == end
  }

  // ---------------------------------------------------------------------------
  // One turn of the loop
  // ---------------------------------------------------------------------------

  lemma WholeHeadersPush(left: nat, bs: seq<byte>, s: seq<Event>)
    requires bs != [] && WholeHeaders(left, [Arrived(bs)] + s)
    ensures left == 0 ==> |bs| >= 4
    ensures left == 0 && FromLE(bs[..4]) <= MAX_CHUNK ==>
              WholeHeaders(FromLE(bs[..4]), Push(bs[4..], s))
    ensures left > 0 && |bs| <= left ==> WholeHeaders(left - |bs|, s)
    ensures left > 0 && |bs| > left ==> WholeHeaders(0, Push(bs[left..], s))
  {
    assert ([Arrived(bs)] + s)[1..] == s;
  }

  lemma WholeHeadersPop(left: nat, bs: seq<byte>, s: seq<Event>)
    requires bs != [] && left > 0
    ensures WholeHeaders(left, [Arrived(bs)] + s)
         == if |bs| <= left then WholeHeaders(left - |bs|, s) else WholeHeaders(0, Push(bs[left..], s))
  {
    assert ([Arrived(bs)] + s)[1..] == s;
  }

  /** Taking part of a chunk out of the stream keeps headers whole. */
  lemma WholeHeadersTake(left: nat, s: seq<Event>, want: nat)
    requires 0 < want <= left && s != [] && s[0].Arrived? && WholeHeaders(left, s)
    ensures var (polled, rest) := PollInner(s, want);
            WholeHeaders(left - |polled.value|, rest)
  {
    var bs := s[0].bytes;
    assert s == [Arrived(bs)] + s[1..];
    WholeHeadersPop(left, bs, s[1..]);
    if |bs| > want && left > want {
      WholeHeadersPop(left - want, bs[want..], s[1..]);
      assert |bs| > left ==> bs[want..][left - want..] == bs[left..];
    }
  }

  lemma HeaderPoll(r: Reader, buf: ReadBuf)
    requires Sound(r) && r.mode.Header? && buf.room > 0
    ensures var (stop, r') := HeaderStep(r);
            match stop
            case None => Kept(r, buf, r', buf)
            case Some(Waiting) => Kept(r, buf, r', buf)
            case Some(Diverges) => Exhausted(r, buf, buf, Clean)
            case Some(Failed(ChunkTooLarge)) => Exhausted(r, buf, buf, Oversized)
            case Some(_) => false
  {
    var (polled, rest) := PollInner(r.inner, 4);
    if polled.Ready? && polled.value != [] {
      var bs := r.inner[0].bytes;
      assert r.inner == [Arrived(bs)] + r.inner[1..];
      WholeHeadersPush(0, bs, r.inner[1..]);
      assert polled.value == bs[..4];
      assert polled.value + [] == polled.value;
      assert HeaderValue(polled.value) == FromLE(polled.value);
      var flat := Flat(r.inner);
      assert flat[..4] == polled.value && flat[4..] == Flat(rest);
    }
  }

  lemma DataPoll(r: Reader, buf: ReadBuf)
    requires Sound(r) && r.mode.Data? && buf.room > 0
    ensures var (stop, r', buf') := DataStep(r, buf);
            match stop
            case None => Kept(r, buf, r', buf') && buf'.room > 0
            case Some(Waiting) => Kept(r, buf, r', buf')
            case Some(Filled) => Kept(r, buf, r', buf') && buf'.room == 0
            case Some(Failed(UnexpectedEof)) => Exhausted(r, buf, buf', CutChunk)
            case Some(_) => false
  {
    var toRead := Min(buf.room, r.chunkSize);
    var (polled, rest) := PollInner(r.inner, toRead);
    if polled.Ready? && polled.value != [] {
      WholeHeadersTake(r.chunkSize, r.inner, toRead);
      var (stop, r', buf') := DataStep(r, buf);
      var got := polled.value;
      assert got[..|got|] == got;
      assert r'.buffer == [] && r'.chunkSize == r.chunkSize - |got| && r'.inner == rest;
      assert buf' == Put(buf, got);
      DataGot(r, buf, got, r');
    }
  }

  lemma DataGot(r: Reader, buf: ReadBuf, got: seq<byte>, r': Reader)
    requires got != [] && |got| <= Min(r.chunkSize, buf.room)
    requires r'.chunkSize == r.chunkSize - |got| && Flat(r.inner) == got + Flat(r'.inner)
    ensures buf.filled + Remaining(r) == Put(buf, got).filled + Remaining(r')
    ensures End(r') == End(r)
  {
    PayloadTake(r.chunkSize, got, Flat(r'.inner));
    assert buf.filled + (got + Remaining(r')) == (buf.filled + got) + Remaining(r');
  }

  /** Bytes taken out of the current chunk are payload. */
  lemma PayloadTake(left: nat, got: seq<byte>, rest: seq<byte>)
    requires got != [] && |got| <= left
    ensures Payload(left, got + rest) == got + Payload(left - |got|, rest)
    ensures EndingOf(left, got + rest) == EndingOf(left - |got|, rest)
  {
    var s := got + rest;
    if |got| == left {
      assert s[..left] == got && s[left..] == rest;
      if rest == [] {
        assert s == got;
      }
    } else if |s| <= left {
    } else {
      assert s[..left] == got + rest[..left - |got|];
      assert s[left..] == rest[left - |got|..];
      assert Payload(left, s) == got + (rest[..left - |got|] + Payload(0, rest[left - |got|..]));
    }
    if |got| < left {
      assert |s| >= left ==> s[left..] == rest[left - |got|..];
    }
  }

  // ---------------------------------------------------------------------------
  // One poll
  // ---------------------------------------------------------------------------

  /** Whatever a poll does, it loses, repeats and invents nothing, also when it returns
      Pending half way.  It returns success only with a full buffer, it fails or
      diverges only when everything has been delivered, and each of those outcomes
      tells how the stream ends. */
  lemma {:induction false} PollRefines(r: Reader, buf: ReadBuf)
    requires Sound(r) && buf.room > 0
    ensures var (outcome, r', buf') := Poll(r, buf);
            match outcome
            case Waiting => Kept(r, buf, r', buf')
            case Filled => Kept(r, buf, r', buf') && buf'.room == 0
            case Diverges => Exhausted(r, buf, buf', Clean)
            case Failed(ChunkTooLarge) => Exhausted(r, buf, buf', Oversized)
            case Failed(UnexpectedEof) => Exhausted(r, buf, buf', CutChunk)
    decreases |Flat(r.inner)|, if r.mode.Data? then 1 else 0
  {
    if r.mode.Header? {
      HeaderPoll(r, buf);
      var (stop, r') := HeaderStep(r);
      if stop.None? {
        PollRefines(r', buf);
      }
    } else {
      DataPoll(r, buf);
      var (stop, r', buf') := DataStep(r, buf);
      if stop.None? {
        PollRefines(r', buf');
      }
    }
  }

  /** An empty buffer handed over in the middle of a chunk is reported as a broken
      stream. */
  lemma EmptyBufferFails(r: Reader, filled: seq<byte>)
    requires Sound(r) && r.mode.Data?
    ensures Poll(r, ReadBuf(filled, 0)).0 == Failed(UnexpectedEof)
  {
  }

  // ---------------------------------------------------------------------------
  // Whole reads
  // ---------------------------------------------------------------------------

  /** The read came out as the next bytes of the plain payload, and only those. */
  ghost predicate ReadNext(r: Reader, buf: ReadBuf, outcome: Outcome, r': Reader, buf': ReadBuf)
    requires buf.room <= |Remaining(r)|
  {
    && outcome == Filled
    && Sound(r')
    && buf'.filled == buf.filled + Remaining(r)[..buf.room]
    && Remaining(r') == Remaining(r)[buf.room..]
    && End(r') == End(r)
  }

  /** `read_exact` under any fragmentation that keeps headers whole is a read of the
      plain payload. */
  lemma {:induction false} ReadExactNext(r: Reader, buf: ReadBuf)
    requires Sound(r) && buf.room <= |Remaining(r)|
    ensures var (outcome, r', buf') := ReadExact(r, buf);
            ReadNext(r, buf, outcome, r', buf')
    decreases Potential(r)
  {
    if buf.room > 0 {
      PollRefines(r, buf);
      var (outcome, r', buf') := Poll(r, buf);
      if outcome.Waiting? || outcome.Filled? {
        KeptSplit(r, buf, r', buf');
        ReadExactNext(r', buf');
        var (o, r2, buf2) := ReadExact(r', buf');
        NextAfterPoll(r, buf, r', buf', o, r2, buf2);
      }
    } else {
      assert Remaining(r)[..0] == [];
    }
  }

  /** A read of more than there is delivers everything and then ends the way the stream
      ends; at a clean end it never returns. */
  lemma {:induction false} ReadExactPastEnd(r: Reader, buf: ReadBuf)
    requires Sound(r) && buf.room > |Remaining(r)|
    ensures var (outcome, r', buf') := ReadExact(r, buf);
            && buf'.filled == buf.filled + Remaining(r)
            && End(r) != CutHeader
            && outcome == match End(r)
                          case Clean => Diverges
                          case Oversized => Failed(ChunkTooLarge)
                          case _ => Failed(UnexpectedEof)
    decreases Potential(r)
  {
    PollRefines(r, buf);
    var (outcome, r', buf') := Poll(r, buf);
    if outcome.Waiting? || outcome.Filled? {
      KeptSplit(r, buf, r', buf');
      ReadExactPastEnd(r', buf');
    }
  }

  lemma NextAfterPoll(r: Reader, buf: ReadBuf, r': Reader, buf': ReadBuf,
        outcome: Outcome, r2: Reader, buf2: ReadBuf)
    requires Kept(r, buf, r', buf') && |buf'.filled| >= |buf.filled|
    requires buf.room <= |Remaining(r)| && buf'.room <= |Remaining(r')|
    requires buf'.room + |buf'.filled| == buf.room + |buf.filled|
    requires ReadNext(r', buf', outcome, r2, buf2)
    ensures ReadNext(r, buf, outcome, r2, buf2)
  {
    KeptSplit(r, buf, r', buf');
    SliceTwice(buf.filled, buf'.filled[|buf.filled|..], Remaining(r'), buf'.room);
  }

  lemma SliceTwice(filled: seq<byte>, got: seq<byte>, rest: seq<byte>, n: nat)
    requires n <= |rest|
    ensures (filled + got) + rest[..n] == filled + (got + rest)[..|got| + n]
    ensures (got + rest)[|got| + n..] == rest[n..]
  {
  }

  /** What the poll added to the buffer is a prefix of what remained. */
  lemma KeptSplit(r: Reader, buf: ReadBuf, r': Reader, buf': ReadBuf)
    requires Kept(r, buf, r', buf') && |buf'.filled| >= |buf.filled|
    ensures buf'.filled[..|buf.filled|] == buf.filled
    ensures Remaining(r) == buf'.filled[|buf.filled|..] + Remaining(r')
  {
    var n := |buf.filled|;
    var whole := buf.filled + Remaining(r);
    assert whole == buf'.filled + Remaining(r');
    assert buf.filled == whole[..n] == buf'.filled[..n];
    assert Remaining(r) == whole[n..] == buf'.filled[n..] + Remaining(r');
  }

  // ---------------------------------------------------------------------------
  // Integer reads and Pending
  // ---------------------------------------------------------------------------

  /** The payload as it comes in: a byte, or a poll that has to wait. */
  datatype Tick = Byte | Wait

  function Bytes(n: nat): (ticks: seq<Tick>)
    ensures |ticks| == n
  {
    if n == 0 then [] else [Byte] + Bytes(n - 1)
  }

  /** The ticks of a stream, up to where its framing ends. */
  function Ticks(left: nat, s: seq<Event>): seq<Tick>
    decreases |Flat(s)| + |s|
  {
    if s == [] then []
    else if s[0].NotReady? then [Wait] + Ticks(left, s[1..])
    else
      var bs := s[0].bytes;
      if left == 0 then
        if |bs| < 4 || FromLE(bs[..4]) > MAX_CHUNK then []
        else
          PushFlat(bs[4..], s[1..]);
          Ticks(FromLE(bs[..4]), Push(bs[4..], s[1..]))
      else
        PushFlat(bs[1..], s[1..]);
        [Byte] + Ticks(left - 1, Push(bs[1..], s[1..]))
  }

  function TicksOf(r: Reader): seq<Tick> {
    Ticks(r.chunkSize, r.inner)
  }

  /** The ticks once `need` bytes are read, whatever delays come in between. */
  function Skip(ticks: seq<Tick>, need: nat): seq<Tick> {
    if need == 0 || ticks == [] then ticks
    else Skip(ticks[1..], if ticks[0].Wait? then need else need - 1)
  }

  /** No delay strictly inside the next `need` bytes: delays come before the first of them
      only. */
  predicate Quiet(ticks: seq<Tick>, need: nat, begun: bool) {
    if need == 0 || ticks == [] then true
    else if ticks[0].Wait? then !begun && Quiet(ticks[1..], need, false)
    else Quiet(ticks[1..], need - 1, true)
  }

  /** How many bytes come before the first delay. */
  function BytesAhead(ticks: seq<Tick>): (n: nat)
    ensures n <= |ticks|
  {
    if ticks == [] || ticks[0].Wait? then 0 else 1 + BytesAhead(ticks[1..])
  }

  /** How many bytes a read of `width` bytes loses that starts over at every delay: those
      that came before a delay, `got` of them since the last one. */
  function Lost(ticks: seq<Tick>, width: nat, got: nat): nat {
    if got >= width || ticks == [] then 0
    else if ticks[0].Wait? then got + Lost(ticks[1..], width, 0)
    else Lost(ticks[1..], width, got + 1)
  }

  lemma {:induction false} BytesFirst(n: nat, rest: seq<Tick>)
    ensures n > 0 ==> Bytes(n) + rest != [] && (Bytes(n) + rest)[0] == Byte
                      && (Bytes(n) + rest)[1..] == Bytes(n - 1) + rest
    ensures Bytes(0) + rest == rest
  {
  }

  lemma {:induction false} BytesSum(n: nat, k: nat)
    ensures Bytes(n + k) == Bytes(n) + Bytes(k)
  {
    if n > 0 { BytesSum(n - 1, k); }
  }

  lemma {:induction false} SkipBytes(n: nat, rest: seq<Tick>, need: nat)
    requires n <= need
    ensures Skip(Bytes(n) + rest, need) == Skip(rest, need - n)
  {
    BytesFirst(n, rest);
    if n > 0 { SkipBytes(n - 1, rest, need - 1); }
  }

  lemma {:induction false} LostBytes(n: nat, rest: seq<Tick>, width: nat, got: nat)
    requires got + n <= width
    ensures Lost(Bytes(n) + rest, width, got) == Lost(rest, width, got + n)
  {
    BytesFirst(n, rest);
    if n > 0 { LostBytes(n - 1, rest, width, got + 1); }
  }

  lemma {:induction false} AheadBytes(n: nat, rest: seq<Tick>)
    ensures BytesAhead(Bytes(n) + rest) == n + BytesAhead(rest)
  {
    BytesFirst(n, rest);
    if n > 0 { AheadBytes(n - 1, rest); }
  }

  lemma TicksHead(left: nat, bs: seq<byte>, s: seq<Event>)
    requires bs != [] && left > 0
    ensures Ticks(left, Push(bs, s)) == [Byte] + Ticks(left - 1, Push(bs[1..], s))
  {
    assert ([Arrived(bs)] + s)[1..] == s;
  }

  lemma {:induction false} TakeMany(ticks: (nat, seq<byte>) -> seq<Tick>, left: nat, bs: seq<byte>, n: nat)
    requires forall l: nat, b: seq<byte> :: l > 0 && b != [] ==> ticks(l, b) == [Byte] + ticks(l - 1, b[1..])
    requires n <= Min(|bs|, left)
    ensures ticks(left, bs) == Bytes(n) + ticks(left - n, bs[n..])
    decreases n
  {
    if n == 0 {
      assert bs[0..] == bs;
    } else {
      TakeMany(ticks, left - 1, bs[1..], n - 1);
      assert bs[1..][n - 1..] == bs[n..];
      BytesFirst(n, ticks(left - n, bs[n..]));
    }
  }

  /** Data that comes at once is taken at once. */
  lemma TicksTake(left: nat, bs: seq<byte>, s: seq<Event>, n: nat)
    requires n <= Min(|bs|, left)
    ensures Ticks(left, Push(bs, s)) == Bytes(n) + Ticks(left - n, Push(bs[n..], s))
  {
    TakeMany(TicksBehind(s), left, bs, n);
  }

  /** The ticks of what is put back in front of `s`. */
  function TicksBehind(s: seq<Event>): (ticks: (nat, seq<byte>) -> seq<Tick>)
    ensures forall l: nat, b: seq<byte> :: ticks(l, b) == Ticks(l, Push(b, s))
    ensures forall l: nat, b: seq<byte> :: l > 0 && b != [] ==> ticks(l, b) == [Byte] + ticks(l - 1, b[1..])
  {
    var ticks := (l: nat, b: seq<byte>) => Ticks(l, Push(b, s));
    forall l: nat, b: seq<byte> | l > 0 && b != [] ensures ticks(l, b) == [Byte] + ticks(l - 1, b[1..]) { TicksHead(l, b, s); }
    ticks
  }

  lemma BytesThen(n: nat, k: nat, rest: seq<Tick>)
    ensures Bytes(n + k) + rest == Bytes(n) + (Bytes(k) + rest)
  {
    BytesSum(n, k);
  }

  /** One turn of the loop, whatever the mode. */
  function Turn(r: Reader, buf: ReadBuf): (Option<Outcome>, Reader, ReadBuf) {
    if r.mode.Header? then var (stop, r') := HeaderStep(r); (stop, r', buf) else DataStep(r, buf)
  }

  /** A poll is one turn and, if that does not stop, another poll. */
  lemma PollTurn(r: Reader, buf: ReadBuf)
    requires Sound(r) && buf.room > 0
    ensures var (stop, r', buf') := Turn(r, buf);
            if stop.Some? then
              Poll(r, buf) == (stop.value, r', buf')
            else
              && Poll(r, buf) == Poll(r', buf')
              && Sound(r') && |buf'.filled| >= |buf.filled| && buf'.room > 0
              && buf'.room + |buf'.filled| == buf.room + |buf.filled|
              && (|Flat(r'.inner)| < |Flat(r.inner)|
                  || (|Flat(r'.inner)| == |Flat(r.inner)| && r.mode.Data? && r'.mode.Header?))
  {
    if r.mode.Header? { HeaderPoll(r, buf); } else { DataPoll(r, buf); }
  }

  /** The bytes that `n` ticks brought, and what stopped them. */
  ghost predicate Brought(ticks: seq<Tick>, n: nat, outcome: Option<Outcome>, rest: seq<Tick>) {
    match outcome
    case None => ticks == Bytes(n) + rest
    case Some(Filled) => ticks == Bytes(n) + rest
    case Some(Waiting) => ticks == Bytes(n) + ([Wait] + rest)
    case Some(_) => ticks == Bytes(n)
  }

  lemma TurnAtDelay(r: Reader, buf: ReadBuf)
    requires Sound(r) && buf.room > 0 && r.inner != [] && r.inner[0].NotReady?
    ensures Turn(r, buf) == (Some(Waiting), r.(inner := r.inner[1..]), buf)
  {
  }

  lemma TurnAtEnd(r: Reader, buf: ReadBuf)
    requires Sound(r) && buf.room > 0 && r.inner == []
    ensures var (stop, r', buf') := Turn(r, buf);
            stop.Some? && !stop.value.Waiting? && !stop.value.Filled? && buf' == buf
  {
  }

  /** A header that arrives is taken whole. */
  lemma TurnAtHeader(r: Reader, buf: ReadBuf)
    requires Sound(r) && r.mode.Header? && r.inner != [] && r.inner[0].Arrived?
    ensures var bs := r.inner[0].bytes;
            && |bs| >= 4
            && var (stop, r', buf') := Turn(r, buf);
               var size := FromLE(bs[..4]);
               && stop == (if size > MAX_CHUNK then Some(Failed(ChunkTooLarge)) else None)
               && r'.chunkSize == size && r'.inner == Push(bs[4..], r.inner[1..]) && buf' == buf
  {
    var bs := r.inner[0].bytes;
    assert bs[..4] + [] == bs[..4];
    if |bs| == 4 { assert bs[..4] == bs && Push(bs[4..], r.inner[1..]) == r.inner[1..]; }
  }

  /** Of the data that arrives, the turn takes what the chunk and the buffer allow. */
  lemma TurnAtData(r: Reader, buf: ReadBuf)
    requires Sound(r) && r.mode.Data? && r.inner != [] && r.inner[0].Arrived? && buf.room > 0
    ensures var bs := r.inner[0].bytes;
            var n := Min(|bs|, Min(r.chunkSize, buf.room));
            && n > 0
            && var (stop, r', buf') := Turn(r, buf);
               && stop == (if n == buf.room then Some(Filled) else None)
               && r'.chunkSize == r.chunkSize - n && r'.inner == Push(bs[n..], r.inner[1..])
               && buf' == Put(buf, bs[..n])
  {
    var bs := r.inner[0].bytes;
    var n := Min(|bs|, Min(r.chunkSize, buf.room));
    assert bs[..n][..n] == bs[..n];
    if n == |bs| { assert bs[..n] == bs && Push(bs[n..], r.inner[1..]) == r.inner[1..]; }
  }

  ghost predicate TurnBrings(ticks: seq<Tick>, buf: ReadBuf, stop: Option<Outcome>, rest: seq<Tick>, buf': ReadBuf) {
    && |buf'.filled| >= |buf.filled|
    && (stop == Some(Waiting) ==> buf' == buf)
    && Brought(ticks, |buf'.filled| - |buf.filled|, stop, rest)
  }

  lemma TicksHeader(bs: seq<byte>, s: seq<Event>)
    requires |bs| >= 4
    ensures Ticks(0, [Arrived(bs)] + s)
         == if FromLE(bs[..4]) > MAX_CHUNK then [] else Ticks(FromLE(bs[..4]), Push(bs[4..], s))
  {
    assert ([Arrived(bs)] + s)[1..] == s;
  }

  lemma HeaderTicks(r: Reader, buf: ReadBuf)
    requires Sound(r) && r.mode.Header? && r.inner != [] && r.inner[0].Arrived?
    ensures var (stop, r', buf') := Turn(r, buf); TurnBrings(TicksOf(r), buf, stop, TicksOf(r'), buf')
  {
    TurnAtHeader(r, buf);
    assert r.inner == [r.inner[0]] + r.inner[1..];
    TicksHeader(r.inner[0].bytes, r.inner[1..]);
    assert Bytes(0) + TicksOf(r) == TicksOf(r);
  }

  lemma TicksOfData(left: nat, s: seq<Event>, n: nat)
    requires s != [] && s[0].Arrived? && n <= Min(|s[0].bytes|, left)
    ensures Ticks(left, s) == Bytes(n) + Ticks(left - n, Push(s[0].bytes[n..], s[1..]))
  {
    assert s == Push(s[0].bytes, s[1..]);
    TicksTake(left, s[0].bytes, s[1..], n);
  }

  lemma DataTicks(r: Reader, buf: ReadBuf)
    requires Sound(r) && r.mode.Data? && r.inner != [] && r.inner[0].Arrived? && buf.room > 0
    ensures var (stop, r', buf') := Turn(r, buf); TurnBrings(TicksOf(r), buf, stop, TicksOf(r'), buf')
  {
    TurnAtData(r, buf);
    var bs := r.inner[0].bytes;
    var n := Min(|bs|, Min(r.chunkSize, buf.room));
    TicksOfData(r.chunkSize, r.inner, n);
    var (stop, r', buf') := Turn(r, buf);
    TakenBrings(TicksOf(r), buf, bs[..n], stop, TicksOf(r'), buf');
  }

  lemma TakenBrings(ticks: seq<Tick>, buf: ReadBuf, taken: seq<byte>, stop: Option<Outcome>, rest: seq<Tick>, buf': ReadBuf)
    requires |taken| <= buf.room && buf' == Put(buf, taken)
    requires stop == (if |taken| == buf.room then Some(Filled) else None)
    requires ticks == Bytes(|taken|) + rest
    ensures TurnBrings(ticks, buf, stop, rest, buf')
  {
  }

  lemma TurnTicks(r: Reader, buf: ReadBuf)
    requires Sound(r) && buf.room > 0
    ensures var (stop, r', buf') := Turn(r, buf); TurnBrings(TicksOf(r), buf, stop, TicksOf(r'), buf')
  {
    if r.inner == [] {
      TurnAtEnd(r, buf);
    } else if r.inner[0].NotReady? {
      TurnAtDelay(r, buf);
      assert Bytes(0) + TicksOf(r) == TicksOf(r);
    } else if r.mode.Header? {
      HeaderTicks(r, buf);
    } else {
      DataTicks(r, buf);
    }
  }

  lemma BroughtMore(ticks: seq<Tick>, n: nat, mid: seq<Tick>, k: nat, outcome: Outcome, rest: seq<Tick>)
    requires Brought(ticks, n, None, mid) && Brought(mid, k, Some(outcome), rest)
    ensures Brought(ticks, n + k, Some(outcome), rest)
  {
    BytesSum(n, k);
    if outcome.Waiting? { BytesThen(n, k, [Wait] + rest); } else { BytesThen(n, k, rest); }
  }

  /** A poll takes the ticks up to the first delay or until its buffer is full. */
  lemma {:induction false} PollTicks(r: Reader, buf: ReadBuf)
    requires Sound(r) && buf.room > 0
    ensures var (outcome, r', buf') := Poll(r, buf); PollBrings(TicksOf(r), buf, outcome, TicksOf(r'), buf')
    decreases |Flat(r.inner)|, if r.mode.Data? then 1 else 0
  {
    var (stop, r', buf') := Turn(r, buf);
    PollTurn(r, buf);
    TurnTicks(r, buf);
    if stop.None? {
      PollTicks(r', buf');
      TurnThenPoll(TicksOf(r), buf, TicksOf(r'), buf', Poll(r', buf').0, TicksOf(Poll(r', buf').1), Poll(r', buf').2);
    }
  }

  ghost predicate PollBrings(ticks: seq<Tick>, buf: ReadBuf, outcome: Outcome, rest: seq<Tick>, buf': ReadBuf) {
    && |buf'.filled| >= |buf.filled|
    && (outcome.Waiting? ==> buf'.room > 0)
    && Brought(ticks, |buf'.filled| - |buf.filled|, Some(outcome), rest)
  }

  lemma TurnThenPoll(ticks: seq<Tick>, buf: ReadBuf, mid: seq<Tick>, buf': ReadBuf,
        outcome: Outcome, rest: seq<Tick>, buf2: ReadBuf)
    requires TurnBrings(ticks, buf, None, mid, buf')
    requires PollBrings(mid, buf', outcome, rest, buf2)
    ensures PollBrings(ticks, buf, outcome, rest, buf2)
  {
    BroughtMore(ticks, |buf'.filled| - |buf.filled|, mid, |buf2.filled| - |buf'.filled|, outcome, rest);
  }

  /** What that means for a read of `width` bytes, and for a longer one. */
  lemma TicksTell(ticks: seq<Tick>, width: nat, longer: nat, n: nat, outcome: Outcome, rest: seq<Tick>)
    requires Brought(ticks, n, Some(outcome), rest) && n <= width <= longer && width > 0
    requires outcome.Waiting? ==> n < width
    ensures outcome.Filled? || outcome.Waiting? ==> Skip(ticks, longer) == Skip(rest, longer - n)
    ensures outcome.Filled? ==> BytesAhead(ticks) >= n
    ensures outcome.Filled? && n == width ==> Lost(ticks, width, 0) == 0
    ensures outcome.Waiting? ==> Lost(ticks, width, 0) == n + Lost(rest, width, 0) && BytesAhead(ticks) == n < |ticks|
    ensures !outcome.Filled? && !outcome.Waiting? ==> Lost(ticks, width, 0) == 0 && BytesAhead(ticks) == |ticks|
  {
    var after := if outcome.Waiting? then [Wait] + rest else if outcome.Filled? then rest else [];
    assert Bytes(n) + [] == Bytes(n);
    assert outcome.Waiting? ==> after[1..] == rest;
    SkipBytes(n, after, longer);
    LostBytes(n, after, width, 0);
    AheadBytes(n, after);
  }

  /** A read loses nothing exactly when no delay falls inside it. */
  lemma {:induction false} LostNothingIff(ticks: seq<Tick>, width: nat, got: nat)
    requires got <= width
    ensures Lost(ticks, width, got) == 0 <==> Quiet(ticks, width - got, got > 0)
  {
    if got < width && ticks != [] {
      LostNothingIff(ticks[1..], width, if ticks[0].Wait? then 0 else got + 1);
    }
  }

  lemma ReadIntFills(r: Reader, width: nat)
    requires width > 0 && Poll(r, ReadBuf([], width)).0.Filled? && |Poll(r, ReadBuf([], width)).2.filled| == width
    ensures var (_, r', buf') := Poll(r, ReadBuf([], width));
            ReadInt(r, [], width) == (Filled, r', buf'.filled)
  {
    var (_, r', buf') := Poll(r, ReadBuf([], width));
    assert [] + buf'.filled == buf'.filled;
  }

  lemma ExactPolled(r: Reader, buf: ReadBuf)
    requires Sound(r) && 0 < buf.room <= |Remaining(r)|
    ensures var (outcome, r', buf') := Poll(r, buf);
            && (outcome.Filled? || outcome.Waiting?)
            && Sound(r') && buf'.room <= |Remaining(r')|
            && Skip(TicksOf(r), buf.room) == Skip(TicksOf(r'), buf'.room)
  {
    PollRefines(r, buf);
    PollTicks(r, buf);
    var (outcome, r', buf') := Poll(r, buf);
    TicksTell(TicksOf(r), buf.room, buf.room, |buf'.filled| - |buf.filled|, outcome, TicksOf(r'));
    assert outcome.Filled? || outcome.Waiting?;
  }

  /** `read_exact` leaves the stream just behind what it read, whatever delays it met. */
  lemma {:induction false} ReadExactSkips(r: Reader, buf: ReadBuf)
    requires Sound(r) && buf.room <= |Remaining(r)|
    ensures TicksOf(ReadExact(r, buf).1) == Skip(TicksOf(r), buf.room)
    decreases Potential(r)
  {
    if buf.room > 0 {
      ExactPolled(r, buf);
      PollRefines(r, buf);
      var (_, r', buf') := Poll(r, buf);
      ReadExactSkips(r', buf');
    }
  }

  /** The first poll of an integer read: it waits if and only if a delay comes within the
      width, and the bytes before the delay are gone; all of them are still there if and
      only if the delay comes first. */
  lemma PendingDropsBytes(r: Reader, width: nat)
    requires Sound(r) && width > 0
    ensures var (outcome, r', _) := Poll(r, ReadBuf([], width));
            var k := BytesAhead(TicksOf(r));
            && (outcome.Waiting? <==> k < width && k < |TicksOf(r)|)
            && (outcome.Waiting? ==> Dropped(r, r', k) && ReadInt(r, [], width) == ReadInt(r', [], width))
  {
    IntPollLoses(r, width, width);
    if Poll(r, ReadBuf([], width)).0.Waiting? { IntPollDrops(r, width); }
  }

  /** From `r` to `r'` exactly the next `k` bytes of the payload are lost: nothing is if and
      only if there are none. */
  ghost predicate Dropped(r: Reader, r': Reader, k: nat) {
    && Sound(r')
    && k <= |Remaining(r)|
    && Remaining(r') == Remaining(r)[k..]
    && (Remaining(r') == Remaining(r) <==> k == 0)
  }

  lemma DroppedOf(r: Reader, buf: ReadBuf, r': Reader, buf': ReadBuf)
    requires Kept(r, buf, r', buf') && buf.filled == []
    ensures Dropped(r, r', |buf'.filled|)
  {
    KeptSplit(r, buf, r', buf');
    assert buf'.filled[0..] == buf'.filled;
  }

  lemma ReadIntWaits(r: Reader, width: nat)
    requires width > 0 && Poll(r, ReadBuf([], width)).0.Waiting?
    ensures ReadInt(r, [], width) == ReadInt(Poll(r, ReadBuf([], width)).1, [], width)
  {
  }

  /** The outcome of an integer read that loses `k` bytes: the payload `k` bytes further
      on, if there is that much. */
  ghost predicate ReadAfter(r: Reader, k: nat, width: nat, outcome: Outcome, r': Reader, bs: seq<byte>) {
    && (outcome.Filled? <==> k + width <= |Remaining(r)|)
    && (outcome.Filled? ==>
          && Sound(r') && End(r') == End(r)
          && bs == Remaining(r)[k..k + width]
          && Remaining(r') == Remaining(r)[k + width..]
          && TicksOf(r') == Skip(TicksOf(r), k + width))
  }

  lemma IntPollLoses(r: Reader, width: nat, longer: nat)
    requires Sound(r) && 0 < width <= longer
    ensures var (outcome, r', buf') := Poll(r, ReadBuf([], width));
            && Lost(TicksOf(r), width, 0)
               == (if outcome.Waiting? then |buf'.filled| + Lost(TicksOf(r'), width, 0) else 0)
            && (outcome.Waiting? || outcome.Filled? ==>
                  Skip(TicksOf(r), longer) == Skip(TicksOf(r'), longer - |buf'.filled|))
            && (outcome.Waiting? <==> BytesAhead(TicksOf(r)) < width && BytesAhead(TicksOf(r)) < |TicksOf(r)|)
            && (outcome.Waiting? ==> |buf'.filled| == BytesAhead(TicksOf(r)))
  {
    var buf := ReadBuf([], width);
    PollTicks(r, buf);
    PollRefines(r, buf);
    var (outcome, r', buf') := Poll(r, buf);
    TicksTell(TicksOf(r), width, longer, |buf'.filled|, outcome, TicksOf(r'));
  }

  /** Under any delays at all an integer read returns the payload so many bytes further on
      as came before a delay inside it, and it ends early only when the payload does. */
  lemma {:induction false} IntegerReadTooLate(r: Reader, width: nat)
    requires Sound(r) && width > 0
    ensures var (outcome, r', bs) := ReadInt(r, [], width);
            ReadAfter(r, Lost(TicksOf(r), width, 0), width, outcome, r', bs)
    decreases Potential(r)
  {
    var (outcome, r', buf') := Poll(r, ReadBuf([], width));
    if outcome.Waiting? {
      IntPollDrops(r, width);
      IntegerReadTooLate(r', width);
      IntPollLoses(r, width, Lost(TicksOf(r), width, 0) + width);
      LateStep(r, r', |buf'.filled|, width, ReadInt(r', [], width));
    } else {
      AfterNoDelay(r, width);
    }
  }

  /** An integer read comes out as the next bytes of the payload if and only if no delay
      falls inside it. */
  lemma ReadIntNextIff(r: Reader, width: nat)
    requires Sound(r) && 0 < width <= |Remaining(r)|
    ensures var (outcome, r', bs) := ReadInt(r, [], width);
            && (ReadNext(r, ReadBuf([], width), outcome, r', ReadBuf(bs, 0)) <==> Quiet(TicksOf(r), width, false))
            && (Quiet(TicksOf(r), width, false) ==> TicksOf(r') == Skip(TicksOf(r), width))
            && (outcome.Filled? ==>
                  && Sound(r')
                  && |Remaining(r)| == |Remaining(r')| + width + Lost(TicksOf(r), width, 0))
  {
    IntegerReadTooLate(r, width);
    LostNothingIff(TicksOf(r), width, 0);
    var (outcome, r', bs) := ReadInt(r, [], width);
    AfterIsNext(r, Lost(TicksOf(r), width, 0), width, outcome, r', bs);
  }

  lemma AfterIsNext(r: Reader, k: nat, width: nat, outcome: Outcome, r': Reader, bs: seq<byte>)
    requires width <= |Remaining(r)| && ReadAfter(r, k, width, outcome, r', bs)
    ensures ReadNext(r, ReadBuf([], width), outcome, r', ReadBuf(bs, 0)) <==> k == 0
    ensures outcome.Filled? ==> |Remaining(r)| == |Remaining(r')| + width + k
  {
    assert [] + Remaining(r)[..width] == Remaining(r)[..width];
  }

  lemma IntPollDrops(r: Reader, width: nat)
    requires Sound(r) && width > 0 && Poll(r, ReadBuf([], width)).0.Waiting?
    ensures var (_, r', buf') := Poll(r, ReadBuf([], width));
            && Dropped(r, r', |buf'.filled|) && End(r') == End(r)
            && ReadInt(r, [], width) == ReadInt(r', [], width)
            && Potential(r') < Potential(r)
  {
    var buf := ReadBuf([], width);
    PollRefines(r, buf);
    var (_, r', buf') := Poll(r, buf);
    DroppedOf(r, buf, r', buf');
    ReadIntWaits(r, width);
    DroppedShorter(r, buf, r', buf');
  }

  lemma DroppedShorter(r: Reader, buf: ReadBuf, r': Reader, buf': ReadBuf)
    requires buf.filled == [] && Poll(r, buf) == (Waiting, r', buf') && Sound(r)
    requires buf.room > 0
    ensures Potential(r') < Potential(r)
  {
  }

  lemma AfterNoDelay(r: Reader, width: nat)
    requires Sound(r) && width > 0 && !Poll(r, ReadBuf([], width)).0.Waiting?
    ensures var (outcome, r', bs) := ReadInt(r, [], width);
            Lost(TicksOf(r), width, 0) == 0 && ReadAfter(r, 0, width, outcome, r', bs)
  {
    var buf := ReadBuf([], width);
    PollRefines(r, buf);
    IntPollLoses(r, width, width);
    var (outcome, r', buf') := Poll(r, buf);
    if outcome.Filled? {
      KeptSplit(r, buf, r', buf');
      ReadIntFills(r, width);
      assert buf'.filled[0..] == buf'.filled;
    } else {
      assert [] + Remaining(r) == Remaining(r);
    }
  }

  lemma LateStep(r: Reader, r1: Reader, k: nat, width: nat, read: (Outcome, Reader, seq<byte>))
    requires Dropped(r, r1, k) && End(r1) == End(r)
    requires Lost(TicksOf(r), width, 0) == k + Lost(TicksOf(r1), width, 0)
    requires Skip(TicksOf(r), Lost(TicksOf(r), width, 0) + width)
          == Skip(TicksOf(r1), Lost(TicksOf(r1), width, 0) + width)
    requires ReadAfter(r1, Lost(TicksOf(r1), width, 0), width, read.0, read.1, read.2)
    ensures ReadAfter(r, Lost(TicksOf(r), width, 0), width, read.0, read.1, read.2)
  {
    AfterDropped(r, r1, k, Lost(TicksOf(r1), width, 0), width, read.0, read.1, read.2);
  }

  lemma AfterDropped(r: Reader, r1: Reader, k: nat, more: nat, width: nat, outcome: Outcome, r': Reader, bs: seq<byte>)
    requires Dropped(r, r1, k) && End(r1) == End(r)
    requires Skip(TicksOf(r), k + more + width) == Skip(TicksOf(r1), more + width)
    requires ReadAfter(r1, more, width, outcome, r', bs)
    ensures ReadAfter(r, k + more, width, outcome, r', bs)
  {
    if outcome.Filled? { SliceOfTail(Remaining(r), k, more, width); }
  }

  lemma SliceOfTail(s: seq<byte>, k: nat, more: nat, n: nat)
    requires k + more + n <= |s|
    ensures s[k..][more..more + n] == s[k + more..k + more + n] && s[k..][more + n..] == s[k + more + n..]
  {
  }

  // ---------------------------------------------------------------------------
  // A header that arrives in two pieces
  // ---------------------------------------------------------------------------

  /** A one-chunk stream whose header is cut after `k` of its four bytes. */
  function CutStream(data: seq<byte>, k: nat): seq<Event>
    requires 0 < k < 4
  {
    [Arrived(LE(|data|, 4)[..k]), Arrived(LE(|data|, 4)[k..] + data + LE(0, 4))]
  }

  /** The size that the first piece of the header shows. */
  function CutSize(data: seq<byte>, k: nat): nat {
    |data| % Pow256(k)
  }

  lemma {:induction false} LEPrefix(n: nat, width: nat, k: nat)
    requires k <= width
    ensures LE(n, width)[..k] == LE(n, k)
  {
    if k > 0 {
      LEPrefix(n / 0x100, width - 1, k - 1);
      assert LE(n, width)[..k] == [n % 0x100] + LE(n / 0x100, width - 1)[..k - 1];
    }
  }

  lemma CutStreamBytes(data: seq<byte>, k: nat)
    requires 0 < k < 4
    ensures Flat(CutStream(data, k)) == Frame(data)
  {
    var s := CutStream(data, k);
    var h := LE(|data|, 4);
    assert Flat(s[2..]) == [];
    assert Flat(s[1..]) == s[1].bytes + Flat(s[1..][1..]);
    assert s[1..][1..] == s[2..];
    assert h[..k] + (h[k..] + data + LE(0, 4)) == h + data + LE(0, 4);
  }

  lemma CutIsWhole(data: seq<byte>, k: nat)
    requires 0 < |data| <= MAX_CHUNK && 0 < k < 4
    ensures Payload(0, Flat(CutStream(data, k))) == data
  {
    CutStreamBytes(data, k);
    PayloadFrame(data, []);
    assert Frame(data) + [] == Frame(data);
    assert data + Payload(0, []) == data;
  }

  /** The first piece is taken for a header. */
  lemma CutHeaderTaken(data: seq<byte>, k: nat)
    requires 0 < |data| <= MAX_CHUNK && 0 < k < 4
    ensures var s, size := CutStream(data, k), CutSize(data, k);
            HeaderStep(NewReader(s)) == (None, Reader(if size == 0 then Header else Data, size, [], 0, s[1..]))
  {
    var h := LE(|data|, 4)[..k];
    LEPrefix(|data|, 4, k);
    LERoundTrip(|data|, k);
    FromLEZeros(h, 4 - k);
    CutSizeWithin(data, k);
  }

  /** A poll inside a chunk whose bytes are there. */
  lemma ReadyPoll(left: nat, bs: seq<byte>, room: nat)
    requires 0 < room <= left && room <= |bs|
    ensures var (outcome, _, buf) := Poll(Reader(Data, left, [], 0, [Arrived(bs)]), ReadBuf([], room));
            outcome == Filled && buf.filled == bs[..room]
  {
    var r := Reader(Data, left, [], 0, [Arrived(bs)]);
    if room == |bs| { assert bs[..room] == bs; }
    assert PollInner(r.inner, room).0 == Ready(bs[..room]);
    assert bs[..room][..room] == bs[..room];
    assert [] + bs[..room] == bs[..room];
  }

  /** Byte `i` of `h` repeated for ever. */
  function Cycle(h: seq<byte>, i: nat): byte
    requires h != []
  {
    h[i % |h|]
  }

  /** The first `w` bytes of the data repeat `h`. */
  ghost predicate Repeats(h: seq<byte>, data: seq<byte>, w: nat)
    requires h != [] && w <= |data|
  {
    forall i :: 0 <= i < w ==> data[i] == Cycle(h, i)
  }

  /** Data behind some bytes of header reads as itself exactly when it repeats them. */
  lemma ShiftedIff(h: seq<byte>, data: seq<byte>, w: nat)
    requires h != [] && w <= |data|
    ensures (h + data)[..w] == data[..w] <==> Repeats(h, data, w)
  {
    if (h + data)[..w] == data[..w] {
      forall i | 0 <= i < w ensures data[i] == Cycle(h, i) { RepeatsAt(h, data, w, i); }
    }
    if Repeats(h, data, w) {
      forall i | 0 <= i < w ensures (h + data)[i] == data[i] { CycleBack(h, i); }
    }
  }

  lemma {:induction false} RepeatsAt(h: seq<byte>, data: seq<byte>, w: nat, i: nat)
    requires h != [] && i < w <= |data| && (h + data)[..w] == data[..w]
    ensures data[i] == Cycle(h, i)
  {
    assert data[i] == data[..w][i] == (h + data)[..w][i] == (h + data)[i];
    CycleBack(h, i);
    if i >= |h| { RepeatsAt(h, data, w, i - |h|); }
  }

  lemma CycleBack(h: seq<byte>, i: nat)
    requires h != []
    ensures Cycle(h, i) == if i < |h| then h[i] else Cycle(h, i - |h|)
  {
    if i >= |h| { ModBack(i, |h|); }
  }

  lemma ModBack(i: nat, p: nat)
    requires 0 < p <= i
    ensures (i - p) % p == i % p
  {
    var q, r := i / p, i % p;
    assert i == p * q + r;
    Distribute(p, q - 1, 1);
    DivModUnique(i - p, p, q - 1, r);
  }

  lemma MisreadPoll(h: seq<byte>, data: seq<byte>, end: seq<byte>, size: nat, room: nat)
    requires h != [] && 0 < room <= size && room <= |data|
    ensures var (outcome, _, buf) := Poll(Reader(Data, size, [], 0, [Arrived(h + data + end)]), ReadBuf([], room));
            outcome == Filled && buf.filled == (h + data)[..room]
  {
    ReadyPoll(size, h + data + end, room);
    assert (h + data + end)[..room] == (h + data)[..room];
  }

  /** A chunk of any size whose header is cut.  When the first piece shows a size, the reader
      takes the rest of the header for the beginning of a chunk of that size: a poll within
      it comes out right if and only if the data repeats the rest of the header. */
  lemma CutHeaderMisread(data: seq<byte>, k: nat, room: nat)
    requires 0 < |data| <= MAX_CHUNK && 0 < k < 4 && 0 < room <= CutSize(data, k)
    ensures Payload(0, Flat(CutStream(data, k))) == data && room <= |data|
    ensures var h := LE(|data|, 4)[k..];
            var (outcome, _, buf) := Poll(NewReader(CutStream(data, k)), ReadBuf([], room));
            && outcome == Filled
            && buf.filled == (h + data)[..room]
            && (buf.filled == data[..room] <==> Repeats(h, data, room))
  {
    CutIsWhole(data, k);
    CutFirstPoll(data, k, ReadBuf([], room));
    CutSizeWithin(data, k);
    MisreadPoll(LE(|data|, 4)[k..], data, LE(0, 4), CutSize(data, k), room);
    ShiftedIff(LE(|data|, 4)[k..], data, room);
  }

  lemma CutSizeWithin(data: seq<byte>, k: nat)
    ensures CutSize(data, k) <= |data|
  {
    ModWithin(|data|, Pow256(k));
  }

  lemma ModWithin(n: nat, d: nat)
    requires d > 0
    ensures n % d <= n
  {
    MulGap(d, 0, n / d);
    assert n == d * (n / d) + n % d;
  }

  /** The first poll is a poll behind the first piece. */
  lemma CutFirstPoll(data: seq<byte>, k: nat, buf: ReadBuf)
    requires 0 < |data| <= MAX_CHUNK && 0 < k < 4
    ensures var size, h := CutSize(data, k), LE(|data|, 4)[k..];
            Poll(NewReader(CutStream(data, k)), buf)
            == Poll(Reader(if size == 0 then Header else Data, size, [], 0, [Arrived(h + data + LE(0, 4))]), buf)
  {
    CutHeaderTaken(data, k);
    PollBehindHeader(NewReader(CutStream(data, k)), buf);
    assert CutStream(data, k)[1..] == [Arrived(LE(|data|, 4)[k..] + data + LE(0, 4))];
  }

  lemma PollBehindHeader(r: Reader, buf: ReadBuf)
    requires r.mode.Header? && r.buffer == [] && HeaderStep(r).1.buffer == []
    ensures var (stop, r') := HeaderStep(r);
            Poll(r, buf) == if stop.Some? then (stop.value, r', buf) else Poll(r', buf)
  {
  }

  /** When the first piece shows the whole size, the chunk comes out right if and only if it
      is all zeros. */
  lemma CutSmallChunk(data: seq<byte>, k: nat)
    requires 0 < |data| <= MAX_CHUNK && 0 < k < 4 && |data| < Pow256(k)
    ensures var (outcome, _, buf) := Poll(NewReader(CutStream(data, k)), ReadBuf([], |data|));
            outcome == Filled && (buf.filled == data <==> forall i :: 0 <= i < |data| ==> data[i] == 0)
  {
    var n := |data|;
    var h := LE(n, 4)[k..];
    DivModUnique(n, Pow256(k), 0, n);
    CutHeaderMisread(data, k, n);
    assert data[..n] == data;
    SmallRest(n, 4, k);
    forall i: nat ensures Cycle(h, i) == 0 { CycleOfZeros(h, i); }
  }

  lemma CycleOfZeros(h: seq<byte>, i: nat)
    requires h != [] && forall j :: 0 <= j < |h| ==> h[j] == 0
    ensures Cycle(h, i) == 0
  {
  }

  lemma {:induction false} SmallRest(n: nat, width: nat, k: nat)
    requires n < Pow256(k) && k <= width
    ensures forall i :: k <= i < width ==> LE(n, width)[i] == 0
  {
    if k > 0 {
      DivMulLess(n, Pow256(k - 1));
      SmallRest(n / 0x100, width - 1, k - 1);
    } else if width > 0 {
      SmallRest(0, width - 1, 0);
    }
  }

  lemma DivMulLess(n: nat, m: nat)
    requires n < 0x100 * m
    ensures n / 0x100 < m
  {
  }

  /** When the first piece is all zeros, it is taken for the end of a chunk.  The next four
      bytes are taken for a header: too large a size fails, and any other one begins the
      chunk `k` bytes late, so that a poll within it comes out right if and only if the data
      repeats every `k` bytes. */
  lemma CutHeaderSkipped(data: seq<byte>, k: nat, room: nat)
    requires 0 < |data| <= MAX_CHUNK && 0 < k < 4 && CutSize(data, k) == 0
    requires 0 < room <= |data| - k && room <= FromLE(LE(|data|, 4)[k..] + data[..k])
    ensures var (outcome, _, buf) := Poll(NewReader(CutStream(data, k)), ReadBuf([], room));
            if FromLE(LE(|data|, 4)[k..] + data[..k]) > MAX_CHUNK then outcome == Failed(ChunkTooLarge)
            else
              && outcome == Filled
              && buf.filled == data[k..k + room]
              && (buf.filled == data[..room] <==> forall i :: 0 <= i < room ==> data[i] == data[i + k])
  {
    var h := LE(|data|, 4)[k..];
    CutFirstPoll(data, k, ReadBuf([], room));
    SkipShape(h, data, LE(0, 4), k, room);
    SkippedHeader(h + data[..k], data[k..] + LE(0, 4), room);
    if FromLE(h + data[..k]) <= MAX_CHUNK { ShiftBackIff(data, k, room); }
  }

  lemma SkipShape(h: seq<byte>, data: seq<byte>, end: seq<byte>, k: nat, room: nat)
    requires room + k <= |data|
    ensures h + data + end == (h + data[..k]) + (data[k..] + end)
    ensures (data[k..] + end)[..room] == data[k..k + room]
  {
    assert data == data[..k] + data[k..];
    ConcatAssoc(h + data[..k], data[k..], end);
    ConcatAssoc(h, data[..k], data[k..]);
  }

  lemma SkippedHeader(bs: seq<byte>, rest: seq<byte>, room: nat)
    requires |bs| == 4 && 0 < room <= |rest| && room <= FromLE(bs)
    ensures var (outcome, _, buf) := Poll(Reader(Header, 0, [], 0, [Arrived(bs + rest)]), ReadBuf([], room));
            if FromLE(bs) > MAX_CHUNK then outcome == Failed(ChunkTooLarge)
            else outcome == Filled && buf.filled == rest[..room]
  {
    SecondHeader(bs, rest);
    PollBehindHeader(Reader(Header, 0, [], 0, [Arrived(bs + rest)]), ReadBuf([], room));
    ReadyPoll(FromLE(bs), rest, room);
  }

  lemma SecondHeader(bs: seq<byte>, rest: seq<byte>)
    requires |bs| == 4 && rest != []
    ensures var size := FromLE(bs);
            size > 0 ==>
              HeaderStep(Reader(Header, 0, [], 0, [Arrived(bs + rest)]))
              == (if size > MAX_CHUNK then Some(Failed(ChunkTooLarge)) else None,
                  Reader(if size > MAX_CHUNK then Header else Data, size, [], 0, [Arrived(rest)]))
  {
    TakeDrop(bs, rest);
    assert bs + [] == bs;
    assert [Arrived(bs + rest)][1..] == [];
    assert [Arrived(rest)] + [] == [Arrived(rest)];
  }

  lemma ShiftBackIff(data: seq<byte>, k: nat, w: nat)
    requires k + w <= |data|
    ensures data[k..k + w] == data[..w] <==> forall i :: 0 <= i < w ==> data[i] == data[i + k]
  {
    if data[k..k + w] == data[..w] {
      forall i | 0 <= i < w ensures data[i] == data[i + k] {
        assert data[k..k + w][i] == data[..w][i];
      }
    }
  }

  // ---------------------------------------------------------------------------
  // Writer and reader
  // ---------------------------------------------------------------------------

  function RunWriter(w: Writer, ops: seq<WriteOp>): Writer
    decreases ops
  {
    if ops == [] then w else RunWriter(ApplyWrite(w, ops[0]), ops[1..])
  }

  /** Everything the operations wrote. */
  function Written(ops: seq<WriteOp>): seq<byte> {
    if ops == [] then [] else (if ops[0].Write? then ops[0].bytes else []) + Written(ops[1..])
  }

  /** Every chunk finished by `ops` is shorter than `limit` bytes plus one. */
  ghost predicate ChunksWithin(w: Writer, ops: seq<WriteOp>, limit: nat)
    decreases ops
  {
    ops == []
    || ((ops[0].Finish? ==> |w.buffer| <= limit) && ChunksWithin(ApplyWrite(w, ops[0]), ops[1..], limit))
  }

  /** Payload and framing compose when the first part ends cleanly, and an oversized
      header hides everything behind it. */
  lemma {:induction false} PayloadAppend(left: nat, s: seq<byte>, t: seq<byte>)
    ensures EndingOf(left, s) == Clean ==>
              Payload(left, s + t) == Payload(left, s) + Payload(0, t) && EndingOf(left, s + t) == EndingOf(0, t)
    ensures EndingOf(left, s) == Oversized ==>
              Payload(left, s + t) == Payload(left, s) && EndingOf(left, s + t) == Oversized
    decreases |s|
  {
    if left == 0 {
      if s == [] {
        assert s + t == t;
      } else if |s| >= 4 {
        assert (s + t)[..4] == s[..4] && (s + t)[4..] == s[4..] + t;
        if FromLE(s[..4]) <= MAX_CHUNK {
          PayloadAppend(FromLE(s[..4]), s[4..], t);
        }
      }
    } else if |s| >= left {
      PayloadAppend(0, s[left..], t);
      assert (s + t)[..left] == s[..left] && (s + t)[left..] == s[left..] + t;
      PayloadSplit(left, s);
      PayloadSplit(left, s + t);
    }
  }

  lemma PayloadSplit(left: nat, s: seq<byte>)
    requires 0 < left <= |s|
    ensures Payload(left, s) == s[..left] + Payload(0, s[left..])
  {
    if |s| == left {
      assert s[..left] == s && s[left..] == [];
    }
  }

  lemma ReadFrameHeader(data: seq<byte>, rest: seq<byte>)
    requires |data| < 0x1_0000_0000
    ensures var s := Frame(data) + rest;
            |s| >= 4 && FromLE(s[..4]) == |data| && s[4..] == data + (LE(0, 4) + rest)
  {
    LERoundTrip(|data|, 4);
    Pow256Values();
    FrameShape(data, rest);
    TakeDrop(LE(|data|, 4), data + (LE(0, 4) + rest));
  }

  lemma FrameShape(data: seq<byte>, rest: seq<byte>)
    ensures Frame(data) + rest == LE(|data|, 4) + (data + (LE(0, 4) + rest))
  {
    ConcatAssoc(LE(|data|, 4) + data, LE(0, 4), rest);
    ConcatAssoc(LE(|data|, 4), data, LE(0, 4) + rest);
  }

  lemma TakeDrop(a: seq<byte>, b: seq<byte>)
    ensures (a + b)[..|a|] == a && (a + b)[|a|..] == b
  {
  }

  lemma PayloadFrame(data: seq<byte>, rest: seq<byte>)
    requires data != [] && |data| < 0x1_0000_0000
    ensures |data| <= MAX_CHUNK ==>
              Payload(0, Frame(data) + rest) == data + Payload(0, rest)
              && EndingOf(0, Frame(data) + rest) == EndingOf(0, rest)
    ensures |data| > MAX_CHUNK ==>
              Payload(0, Frame(data) + rest) == [] && EndingOf(0, Frame(data) + rest) == Oversized
  {
    ReadFrameHeader(data, rest);
    if |data| <= MAX_CHUNK {
      PayloadTake(|data|, data, LE(0, 4) + rest);
      LERoundTrip(0, 4);
      assert (LE(0, 4) + rest)[..4] == LE(0, 4) && (LE(0, 4) + rest)[4..] == rest;
    }
  }

  /** While every chunk fits, the stream and the buffer carry exactly what was written;
      from the first chunk that does not, they carry less for ever. */
  ghost predicate Carries(fits: bool, w: Writer, written: seq<byte>) {
    if fits then
      Payload(0, w.out) + w.buffer == written && EndingOf(0, w.out) == Clean
    else
      |Payload(0, w.out)| + |w.buffer| < |written| && EndingOf(0, w.out) == Oversized
  }

  lemma ApplyCarries(fits: bool, w: Writer, op: WriteOp, written: seq<byte>)
    requires Carries(fits, w, written)
    requires op.Finish? ==> |w.buffer| <= 0xFFFF_FFFF
    ensures Carries(fits && (op.Finish? ==> |w.buffer| <= MAX_CHUNK),
                    ApplyWrite(w, op),
                    WrittenBy(written, op))
  {
    if op.Finish? && w.buffer != [] {
      PayloadAppend(0, w.out, Frame(w.buffer));
      PayloadFrame(w.buffer, []);
      assert Frame(w.buffer) + [] == Frame(w.buffer);
      assert w.buffer + Payload(0, []) == w.buffer;
    }
  }

  lemma {:induction false} WriterCarries(fits: bool, w: Writer, ops: seq<WriteOp>, written: seq<byte>)
    requires Carries(fits, w, written)
    requires ChunksWithin(w, ops, 0xFFFF_FFFF)
    ensures Carries(fits && ChunksWithin(w, ops, MAX_CHUNK), RunWriter(w, ops), written + Written(ops))
    decreases ops
  {
    if ops == [] {
      assert written + [] == written;
    } else {
      var written1 := WrittenBy(written, ops[0]);
      ApplyCarries(fits, w, ops[0], written);
      WriterCarries(fits && (ops[0].Finish? ==> |w.buffer| <= MAX_CHUNK), ApplyWrite(w, ops[0]), ops[1..], written1);
      WrittenStep(written, ops);
    }
  }

  function WrittenBy(written: seq<byte>, op: WriteOp): seq<byte> {
    if op.Write? then written + op.bytes else written
  }

  lemma WrittenStep(written: seq<byte>, ops: seq<WriteOp>)
    requires ops != []
    ensures WrittenBy(written, ops[0]) + Written(ops[1..]) == written + Written(ops)
  {
    ConcatAssoc(written, if ops[0].Write? then ops[0].bytes else [], Written(ops[1..]));
    assert written + [] == written;
  }

  /** Any placement of writes and chunk ends: the chunks read back as exactly the bytes
      written if and only if no finished chunk is longer than the reader's limit. */
  lemma WriterPayloadIff(ops: seq<WriteOp>)
    requires ChunksWithin(Writer([], []), ops, 0xFFFF_FFFF)
    ensures var w := RunWriter(Writer([], []), ops);
            && (Payload(0, w.out) + w.buffer == Written(ops) <==> ChunksWithin(Writer([], []), ops, MAX_CHUNK))
            && EndingOf(0, w.out) == if ChunksWithin(Writer([], []), ops, MAX_CHUNK) then Clean else Oversized
  {
    WriterCarries(true, Writer([], []), ops, []);
    assert [] + Written(ops) == Written(ops);
  }

  /** A reader yields at most MAX_CHUNK bytes for every header it reads. */
  lemma {:induction false} PayloadBound(left: nat, s: seq<byte>)
    requires left <= MAX_CHUNK
    ensures |Payload(left, s)| * (MAX_CHUNK + 4) <= |s| * MAX_CHUNK + 4 * left
    decreases |s|
  {
    if left == 0 {
      if |s| >= 4 && FromLE(s[..4]) <= MAX_CHUNK {
        PayloadBound(FromLE(s[..4]), s[4..]);
      }
    } else if |s| > left {
      PayloadBound(0, s[left..]);
    }
  }

  /** One chunk of any length whatever, past 4 GiB included, reads back as itself if and
      only if it is within the reader's limit. */
  lemma FrameReadableIff(data: seq<byte>)
    ensures Payload(0, Frame(data)) == data <==> |data| <= MAX_CHUNK
  {
    if 0 < |data| < 0x1_0000_0000 {
      PayloadFrame(data, []);
      assert Frame(data) + [] == Frame(data);
      assert data + Payload(0, []) == data;
    } else if data == [] {
      assert LE(0, 4) == LE(0, 4) + [];
      LERoundTrip(0, 4);
      var s := Frame([]);
      assert s[..4] == LE(0, 4) && s[4..] == LE(0, 4) && s[4..][..4] == LE(0, 4) && s[4..][4..] == [];
      Pow256Values();
      assert Payload(0, s[4..]) == Payload(0, s[4..][4..]);
    } else {
      PayloadBound(0, Frame(data));
    }
  }
}
