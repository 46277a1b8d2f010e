/** The whole transport: frames compressed, chunked, cut and delayed, and read back. */
module Stack {
  import opened Common
  import opened Chunk
  import opened ChunkRefinement
  import C = Compression

  /** How the fixed-width integers of a frame header are read: `Fresh` gives every poll a
      new buffer, as the runtime's integer reads do; `Kept` keeps one, as `read_exact`
      does. */
  datatype IntReads = Fresh | Kept

  datatype FrameResult = Done(raw: seq<byte>) | Fault(error: C.FrameError) | Hangs

  /** One field of a frame. */
  function ReadField(ints: IntReads, r: Reader, n: nat): (Outcome, Reader, seq<byte>) {
    match ints
    case Fresh => ReadInt(r, [], n)
    case Kept => var (outcome, r', buf) := ReadExact(r, ReadBuf([], n)); (outcome, r', buf.filled)
  }

  function Interrupted(outcome: Outcome): FrameResult {
    if outcome.Diverges? then Hangs else Fault(C.CutFrame)
  }

  /** A way of reading a field. */
  type FieldReader = (IntReads, Reader, nat) -> (Outcome, Reader, seq<byte>)

  /** `decompress_data_async`: five header fields, the size check, the payload into the
      rebuilt block. */
  function ReadFrameBy(read: FieldReader, c: C.Codec, m: C.Method, ints: IntReads, r: Reader): (FrameResult, Reader) {
    var (o1, r1, high) := read(ints, r, 8);
    if !o1.Filled? then (Interrupted(o1), r1) else
    var (o2, r2, low) := read(ints, r1, 8);
    if !o2.Filled? then (Interrupted(o2), r2) else
    var (o3, r3, kind) := read(ints, r2, 1);
    if !o3.Filled? || |kind| < 1 then (Interrupted(o3), r3) else
    if kind[0] != m.Byte() then (Fault(C.WrongMethod(kind[0])), r3) else
    var (o4, r4, compressed) := read(ints, r3, 4);
    if !o4.Filled? then (Interrupted(o4), r4) else
    var (o5, r5, decompressed) := read(ints, r4, 4);
    if !o5.Filled? then (Interrupted(o5), r5) else
    var csize, dsize := FromLE(compressed), FromLE(decompressed);
    if C.SizeFault(csize, dsize).Some? then (Fault(C.SizeFault(csize, dsize).value), r5) else
    var (o6, r6, payload) := read(Kept, r5, csize - 9);
    if !o6.Filled? then (Interrupted(o6), r6) else
    match C.Unpack(c, m, FromLE(high), FromLE(low), payload, dsize)
    case Err(e) => (Fault(e), r6)
    case Ok(raw) => (Done(raw), r6)
  }

  /** The same on a chunk reader. */
  function ReadFrame(c: C.Codec, m: C.Method, ints: IntReads, r: Reader): (FrameResult, Reader) {
    ReadFrameBy((ints, r, n) => ReadField(ints, r, n), c, m, ints, r)
  }

  // ---------------------------------------------------------------------------
  // Fields and delays
  // ---------------------------------------------------------------------------

  /** One read: how many bytes, and whether a delay inside starts it over. */
  datatype Need = Need(length: nat, ints: IntReads)

  function Total(needs: seq<Need>): nat {
    if needs == [] then 0 else needs[0].length + Total(needs[1..])
  }

  /** No delay falls inside a read that would start over. */
  predicate Calm(ticks: seq<Tick>, needs: seq<Need>)
    decreases needs
  {
    needs == []
    || ((needs[0].ints.Fresh? ==> Quiet(ticks, needs[0].length, false))
        && Calm(Skip(ticks, needs[0].length), needs[1..]))
  }

  /** The five integers and the payload of a frame of `size` bytes. */
  function FrameNeeds(ints: IntReads, size: nat): seq<Need> {
    [Need(8, ints), Need(8, ints), Need(1, ints), Need(4, ints), Need(4, ints),
     Need(if size < HEADER then 0 else size - HEADER, Kept)]
  }

  const HEADER := 25

  function Needs(ints: IntReads, sizes: seq<nat>): seq<Need> {
    if sizes == [] then [] else FrameNeeds(ints, sizes[0]) + Needs(ints, sizes[1..])
  }

  lemma {:induction false} SkipAdd(ticks: seq<Tick>, a: nat, b: nat)
    ensures Skip(Skip(ticks, a), b) == Skip(ticks, a + b)
  {
    if a > 0 && ticks != [] {
      SkipAdd(ticks[1..], if ticks[0].Wait? then a else a - 1, b);
    }
  }

  lemma {:induction false} CalmAppend(ticks: seq<Tick>, a: seq<Need>, b: seq<Need>)
    ensures Calm(ticks, a + b) <==> Calm(ticks, a) && Calm(Skip(ticks, Total(a)), b)
    ensures Total(a + b) == Total(a) + Total(b)
    decreases a
  {
    if a == [] {
      assert a + b == b;
    } else {
      assert (a + b)[1..] == a[1..] + b;
      SkipAdd(ticks, a[0].length, Total(a[1..]));
      CalmAppend(Skip(ticks, a[0].length), a[1..], b);
    }
  }

  /** With buffers that are kept every stream is calm. */
  lemma {:induction false} KeptIsCalm(ticks: seq<Tick>, needs: seq<Need>)
    requires forall need | need in needs :: need.ints.Kept?
    ensures Calm(ticks, needs)
    decreases needs
  {
    if needs != [] { KeptIsCalm(Skip(ticks, needs[0].length), needs[1..]); }
  }

  /** Calm over one frame, read by read. */
  lemma FrameCalm(ticks: seq<Tick>, ints: IntReads, size: nat)
    requires Calm(ticks, FrameNeeds(ints, size)) && ints.Fresh?
    ensures Quiet(ticks, 8, false)
    ensures var t2 := Skip(ticks, 8); var t3 := Skip(t2, 8); var t4 := Skip(t3, 1); var t5 := Skip(t4, 4);
            Quiet(t2, 8, false) && Quiet(t3, 1, false) && Quiet(t4, 4, false) && Quiet(t5, 4, false)
  {
    var needs := FrameNeeds(ints, size);
    var t2 := Skip(ticks, 8);
    var t3 := Skip(t2, 8);
    assert Calm(t2, needs[1..]) && Calm(t3, needs[1..][1..]);
    assert Calm(Skip(t3, 1), needs[1..][1..][1..]);
    assert Calm(Skip(Skip(t3, 1), 4), needs[1..][1..][1..][1..]);
  }

  /** The reads one after the other. */
  function ReadNeeds(r: Reader, needs: seq<Need>): (Outcome, Reader, seq<byte>)
    decreases needs
  {
    if needs == [] then (Filled, r, [])
    else
      var (outcome, r1, bs) := ReadField(needs[0].ints, r, needs[0].length);
      if !outcome.Filled? then (outcome, r1, bs)
      else
        var (outcome, r2, more) := ReadNeeds(r1, needs[1..]);
        (outcome, r2, bs + more)
  }

  /** A read came out as the next `n` bytes of the plain payload. */
  ghost predicate FieldExact(r: Reader, n: nat, outcome: Outcome, r': Reader, bs: seq<byte>) {
    outcome.Filled? && C.Take(Remaining(r), n) == Some((bs, Remaining(r')))
  }

  lemma FieldNext(ints: IntReads, r: Reader, n: nat)
    requires Sound(r) && n <= |Remaining(r)|
    requires ints.Fresh? ==> Quiet(TicksOf(r), n, false)
    ensures var (outcome, r', bs) := ReadField(ints, r, n);
            && FieldExact(r, n, outcome, r', bs)
            && Sound(r') && End(r') == End(r)
            && TicksOf(r') == Skip(TicksOf(r), n)
  {
    if ints.Fresh? && n > 0 {
      ReadIntNextIff(r, n);
    } else {
      ReadExactNext(r, ReadBuf([], n));
      ReadExactSkips(r, ReadBuf([], n));
    }
    assert [] + Remaining(r)[..n] == Remaining(r)[..n];
  }

  /** A read that a delay falls into takes more than its length. */
  lemma FieldTakes(ints: IntReads, r: Reader, n: nat)
    requires Sound(r)
    ensures var (outcome, r', bs) := ReadField(ints, r, n);
            outcome.Filled? ==>
              && Sound(r') && |Remaining(r')| + n <= |Remaining(r)|
              && (|Remaining(r')| + n == |Remaining(r)| ==> ints.Kept? || Quiet(TicksOf(r), n, false))
  {
    if ints.Fresh? {
      if n > 0 {
        IntegerReadTooLate(r, n);
        LostNothingIff(TicksOf(r), n, 0);
      }
    } else if n <= |Remaining(r)| {
      ReadExactNext(r, ReadBuf([], n));
    } else {
      ReadExactPastEnd(r, ReadBuf([], n));
    }
  }

  lemma {:induction false} NeedsTake(r: Reader, needs: seq<Need>)
    requires Sound(r)
    ensures var (outcome, r', _) := ReadNeeds(r, needs);
            outcome.Filled? ==> |Remaining(r')| + Total(needs) <= |Remaining(r)|
    decreases needs
  {
    if needs != [] {
      FieldTakes(needs[0].ints, r, needs[0].length);
      var (outcome, r1, _) := ReadField(needs[0].ints, r, needs[0].length);
      if outcome.Filled? { NeedsTake(r1, needs[1..]); }
    }
  }

  /** Any list of reads comes out as the consecutive pieces of the payload and leaves
      exactly the rest if and only if no delay falls inside a read that starts over. */
  lemma {:induction false} ReadsExactIff(r: Reader, needs: seq<Need>)
    requires Sound(r) && Total(needs) <= |Remaining(r)|
    ensures var (outcome, r', bs) := ReadNeeds(r, needs);
            FieldExact(r, Total(needs), outcome, r', bs) <==> Calm(TicksOf(r), needs)
    decreases needs
  {
    if needs != [] {
      var n := needs[0].length;
      var (outcome, r1, bs) := ReadField(needs[0].ints, r, n);
      if needs[0].ints.Fresh? ==> Quiet(TicksOf(r), n, false) {
        FieldNext(needs[0].ints, r, n);
        ReadsExactIff(r1, needs[1..]);
        var (o, r2, more) := ReadNeeds(r1, needs[1..]);
        TakeTwice(Remaining(r), n, bs, Remaining(r1), Total(needs[1..]), more, Remaining(r2));
      } else {
        FieldTakes(needs[0].ints, r, n);
        if outcome.Filled? { NeedsTake(r1, needs[1..]); }
      }
    }
  }

  lemma TakeTwice(s: seq<byte>, n: nat, a: seq<byte>, s1: seq<byte>, k: nat, b: seq<byte>, s2: seq<byte>)
    requires C.Take(s, n) == Some((a, s1))
    ensures C.Take(s1, k) == Some((b, s2)) <==> C.Take(s, n + k) == Some((a + b, s2))
  {
    assert s == a + s1;
    if |s1| >= k {
      assert s[..n + k] == a + s1[..k] && s[n + k..] == s1[k..];
      assert a + s1[..k] == a + b ==> s1[..k] == (a + s1[..k])[n..] == (a + b)[n..] == b;
    }
  }

  // ---------------------------------------------------------------------------
  // Frames
  // ---------------------------------------------------------------------------

  lemma HeaderSkip(ticks: seq<Tick>)
    ensures Skip(Skip(Skip(Skip(Skip(ticks, 8), 8), 1), 4), 4) == Skip(ticks, HEADER)
  {
    SkipAdd(ticks, 8, 8);
    SkipAdd(ticks, 16, 1);
    SkipAdd(ticks, 17, 4);
    SkipAdd(ticks, 21, 4);
  }

  /** What a reader shows: whether it is sound, what is left and how it comes in. */
  datatype View = View(sound: Reader -> bool, left: Reader -> seq<byte>, ticks: Reader -> seq<Tick>)

  /** From sound readers `read` takes the next piece of what is left. */
  ghost predicate TakesNext(read: FieldReader, v: View, ints: IntReads) {
    forall r: Reader, n: nat ::
      v.sound(r) && n <= |v.left(r)| && (ints.Fresh? ==> Quiet(v.ticks(r), n, false)) ==>
        NextPiece(v, r, n, read(ints, r, n))
  }

  ghost predicate NextPiece(v: View, r: Reader, n: nat, read: (Outcome, Reader, seq<byte>)) {
    && read.0.Filled?
    && C.Take(v.left(r), n) == Some((read.2, v.left(read.1)))
    && v.sound(read.1)
    && v.ticks(read.1) == Skip(v.ticks(r), n)
  }

  /** The readers in front of the five integers of a frame and of its payload. */
  function Reader1(read: FieldReader, ints: IntReads, r: Reader): Reader { read(ints, r, 8).1 }
  function Reader2(read: FieldReader, ints: IntReads, r: Reader): Reader { read(ints, Reader1(read, ints, r), 8).1 }
  function Reader3(read: FieldReader, ints: IntReads, r: Reader): Reader { read(ints, Reader2(read, ints, r), 1).1 }
  function Reader4(read: FieldReader, ints: IntReads, r: Reader): Reader { read(ints, Reader3(read, ints, r), 4).1 }
  function Reader5(read: FieldReader, ints: IntReads, r: Reader): Reader { read(ints, Reader4(read, ints, r), 4).1 }

  /** What the frame gives as the length of its payload. */
  function PayloadSize(read: FieldReader, ints: IntReads, r: Reader): int {
    FromLE(read(ints, Reader3(read, ints, r), 4).2) - 9
  }

  /** A field read by `read` is the next piece of what is left. */
  ghost predicate InPlace(read: FieldReader, left: Reader -> seq<byte>, ints: IntReads, r: Reader, n: nat) {
    var (outcome, r', bs) := read(ints, r, n);
    outcome.Filled? && C.Take(left(r), n) == Some((bs, left(r')))
  }

  /** If every field is in place, so is the frame. */
  lemma FrameInPlace(read: FieldReader, left: Reader -> seq<byte>, c: C.Codec, m: C.Method, ints: IntReads, r: Reader)
    requires C.Decompress(c, m, left(r)).Ok?
    requires InPlace(read, left, ints, r, 8)
    requires InPlace(read, left, ints, Reader1(read, ints, r), 8)
    requires InPlace(read, left, ints, Reader2(read, ints, r), 1)
    requires InPlace(read, left, ints, Reader3(read, ints, r), 4)
    requires InPlace(read, left, ints, Reader4(read, ints, r), 4)
    requires 0 <= PayloadSize(read, ints, r) <= |left(Reader5(read, ints, r))| ==>
               InPlace(read, left, Kept, Reader5(read, ints, r), PayloadSize(read, ints, r))
    ensures 0 <= PayloadSize(read, ints, r) <= |left(Reader5(read, ints, r))|
    ensures var (result, r') := ReadFrameBy(read, c, m, ints, r);
            && result.Done?
            && C.Decompress(c, m, left(r)) == Ok((result.raw, left(r')))
            && r' == read(Kept, Reader5(read, ints, r), PayloadSize(read, ints, r)).1
  {
  }

  lemma HeaderInPlace(read: FieldReader, v: View, ints: IntReads, r: Reader, size: nat)
    requires TakesNext(read, v, ints)
    requires v.sound(r) && |v.left(r)| >= HEADER && Calm(v.ticks(r), FrameNeeds(ints, size))
    ensures NextPiece(v, r, 8, read(ints, r, 8))
    ensures NextPiece(v, Reader1(read, ints, r), 8, read(ints, Reader1(read, ints, r), 8))
    ensures NextPiece(v, Reader2(read, ints, r), 1, read(ints, Reader2(read, ints, r), 1))
    ensures NextPiece(v, Reader3(read, ints, r), 4, read(ints, Reader3(read, ints, r), 4))
    ensures NextPiece(v, Reader4(read, ints, r), 4, read(ints, Reader4(read, ints, r), 4))
    ensures v.ticks(Reader5(read, ints, r)) == Skip(v.ticks(r), HEADER)
    ensures |v.left(Reader5(read, ints, r))| == |v.left(r)| - HEADER
  {
    var t := v.ticks(r);
    if ints.Fresh? { FrameCalm(t, ints, size); }
    var t2, t3, t4, t5 := Skip(t, 8), Skip(Skip(t, 8), 8), Skip(Skip(Skip(t, 8), 8), 1), Skip(Skip(Skip(Skip(t, 8), 8), 1), 4);
    TakePiece(read, v, ints, r, 8, t);
    TakePiece(read, v, ints, Reader1(read, ints, r), 8, t2);
    TakePiece(read, v, ints, Reader2(read, ints, r), 1, t3);
    TakePiece(read, v, ints, Reader3(read, ints, r), 4, t4);
    TakePiece(read, v, ints, Reader4(read, ints, r), 4, t5);
    HeaderSkip(t);
  }

  lemma TakePiece(read: FieldReader, v: View, ints: IntReads, r: Reader, n: nat, ticks: seq<Tick>)
    requires TakesNext(read, v, ints)
    requires v.sound(r) && n <= |v.left(r)| && v.ticks(r) == ticks
    requires ints.Fresh? ==> Quiet(ticks, n, false)
    ensures var (_, r', _) := read(ints, r, n);
            NextPiece(v, r, n, read(ints, r, n))
            && v.sound(r') && v.ticks(r') == Skip(ticks, n) && |v.left(r')| == |v.left(r)| - n
  {
  }

  /** Then a frame too is the next piece. */
  lemma FrameTaken(read: FieldReader, v: View, c: C.Codec, m: C.Method, ints: IntReads, r: Reader, size: nat)
    requires TakesNext(read, v, ints) && TakesNext(read, v, Kept)
    requires v.sound(r) && Calm(v.ticks(r), FrameNeeds(ints, size))
    requires C.Decompress(c, m, v.left(r)).Ok?
    ensures var (result, r') := ReadFrameBy(read, c, m, ints, r);
            && result.Done?
            && C.Decompress(c, m, v.left(r)) == Ok((result.raw, v.left(r')))
            && v.sound(r')
            && v.ticks(r') == Skip(v.ticks(r), |v.left(r)| - |v.left(r')|)
  {
    DecompressLong(c, m, v.left(r));
    HeaderInPlace(read, v, ints, r, size);
    var r5, n := Reader5(read, ints, r), PayloadSize(read, ints, r);
    assert 0 <= n <= |v.left(r5)| ==> NextPiece(v, r5, n, read(Kept, r5, n));
    FrameInPlace(read, v.left, c, m, ints, r);
    SkipAdd(v.ticks(r), HEADER, n);
  }

  lemma DecompressLong(c: C.Codec, m: C.Method, s: seq<byte>)
    requires C.Decompress(c, m, s).Ok?
    ensures |s| >= HEADER
  {
  }

  /** Reading a frame through the chunk reader is reading it from the plain payload, and
      it takes exactly the frame. */
  lemma ReadFrameRefines(c: C.Codec, m: C.Method, ints: IntReads, r: Reader, size: nat)
    requires Sound(r) && Calm(TicksOf(r), FrameNeeds(ints, size))
    requires C.Decompress(c, m, Remaining(r)).Ok?
    ensures var (result, r') := ReadFrame(c, m, ints, r);
            && result.Done?
            && C.Decompress(c, m, Remaining(r)) == Ok((result.raw, Remaining(r')))
            && Sound(r') && End(r') == End(r)
            && TicksOf(r') == Skip(TicksOf(r), |Remaining(r)| - |Remaining(r')|)
  {
    var v := View(r' => Sound(r') && End(r') == End(r), r' => Remaining(r'), r' => TicksOf(r'));
    ReadFieldTakesNext(v, r, ints);
    ReadFieldTakesNext(v, r, Kept);
    FrameTaken((ints, r, n) => ReadField(ints, r, n), v, c, m, ints, r, size);
  }

  lemma ReadFieldTakesNext(v: View, r0: Reader, ints: IntReads)
    requires v == View(r => Sound(r) && End(r) == End(r0), r => Remaining(r), r => TicksOf(r))
    ensures TakesNext((ints, r, n) => ReadField(ints, r, n), v, ints)
  {
    forall r: Reader, n: nat
      | v.sound(r) && n <= |v.left(r)| && (ints.Fresh? ==> Quiet(v.ticks(r), n, false))
      ensures NextPiece(v, r, n, ReadField(ints, r, n))
    {
      FieldNext(ints, r, n);
    }
  }

  /** Reads `n` frames in a row, up to the first that fails. */
  function ReadFrames(c: C.Codec, m: C.Method, ints: IntReads, r: Reader, n: nat): (seq<seq<byte>>, Reader)
    decreases n
  {
    if n == 0 then ([], r)
    else
      var (result, r') := ReadFrame(c, m, ints, r);
      if !result.Done? then ([], r')
      else
        var (more, last) := ReadFrames(c, m, ints, r', n - 1);
        ([result.raw] + more, last)
  }

  lemma OneFrameThrough(c: C.Codec, m: C.Method, ints: IntReads, r: Reader, raw: seq<byte>, rest: seq<byte>)
    requires C.Lawful(c) && !m.NoCompression? && C.Fits(c, m, raw)
    requires Sound(r) && Remaining(r) == C.Compressed(c, m, raw) + rest
    requires Calm(TicksOf(r), FrameNeeds(ints, |C.Compressed(c, m, raw)|))
    ensures var (result, r') := ReadFrame(c, m, ints, r);
            && result == Done(raw) && Remaining(r') == rest && End(r') == End(r) && Sound(r')
            && TicksOf(r') == Skip(TicksOf(r), |C.Compressed(c, m, raw)|)
  {
    C.CompressRoundTripIff(c, m, raw, rest);
    ReadFrameRefines(c, m, ints, r, |C.Compressed(c, m, raw)|);
  }

  lemma ReadFramesStep(c: C.Codec, m: C.Method, ints: IntReads, r: Reader, raw: seq<byte>, r': Reader, n: nat)
    requires ReadFrame(c, m, ints, r) == (Done(raw), r')
    ensures ReadFrames(c, m, ints, r, n + 1)
         == ([raw] + ReadFrames(c, m, ints, r', n).0, ReadFrames(c, m, ints, r', n).1)
  {
  }

  /** The frame lengths on the wire. */
  function Sizes(c: C.Codec, m: C.Method, raws: seq<seq<byte>>): seq<nat> {
    if raws == [] then [] else [|C.Compressed(c, m, raws[0])|] + Sizes(c, m, raws[1..])
  }

  lemma FrameTotal(c: C.Codec, m: C.Method, ints: IntReads, raw: seq<byte>)
    requires !m.NoCompression?
    ensures var size := |C.Compressed(c, m, raw)|;
            size >= HEADER && Total(FrameNeeds(ints, size)) == size
  {
    var size := |C.Compressed(c, m, raw)|;
    var needs := FrameNeeds(ints, size);
    assert Total(needs) == 8 + Total(needs[1..]);
    assert Total(needs[1..]) == 8 + Total(needs[2..]);
    assert Total(needs[2..]) == 1 + Total(needs[3..]);
    assert Total(needs[3..]) == 4 + Total(needs[4..]);
    assert Total(needs[4..]) == 4 + Total(needs[5..]);
    assert Total(needs[5..]) == needs[5].length + Total(needs[6..]);
  }

  lemma {:induction false} FramesThrough(c: C.Codec, m: C.Method, ints: IntReads, r: Reader, raws: seq<seq<byte>>)
    requires C.Lawful(c) && !m.NoCompression?
    requires forall raw | raw in raws :: C.Fits(c, m, raw)
    requires Sound(r) && Remaining(r) == C.Frames(c, m, raws)
    requires Calm(TicksOf(r), Needs(ints, Sizes(c, m, raws)))
    ensures var (got, last) := ReadFrames(c, m, ints, r, |raws|);
            got == raws && Remaining(last) == [] && End(last) == End(r) && Sound(last)
    decreases raws
  {
    if raws != [] {
      var size, sizes := |C.Compressed(c, m, raws[0])|, Sizes(c, m, raws[1..]);
      assert Sizes(c, m, raws)[1..] == sizes;
      CalmAppend(TicksOf(r), FrameNeeds(ints, size), Needs(ints, sizes));
      FrameTotal(c, m, ints, raws[0]);
      OneFrameThrough(c, m, ints, r, raws[0], C.Frames(c, m, raws[1..]));
      var r' := ReadFrame(c, m, ints, r).1;
      ReadFramesStep(c, m, ints, r, raws[0], r', |raws| - 1);
      FramesThrough(c, m, ints, r', raws[1..]);
      assert [raws[0]] + raws[1..] == raws;
    }
  }

  lemma {:induction false} NeedsTotal(c: C.Codec, m: C.Method, ints: IntReads, raws: seq<seq<byte>>)
    requires !m.NoCompression?
    ensures Total(Needs(ints, Sizes(c, m, raws))) == |C.Frames(c, m, raws)|
  {
    if raws != [] {
      var size, sizes := |C.Compressed(c, m, raws[0])|, Sizes(c, m, raws[1..]);
      assert Sizes(c, m, raws)[1..] == sizes;
      CalmAppend([], FrameNeeds(ints, size), Needs(ints, sizes));
      FrameTotal(c, m, ints, raws[0]);
      NeedsTotal(c, m, ints, raws[1..]);
    }
  }

  /** Payloads, compressed, were written in any pieces with chunk ends placed anywhere (the
      last one after the last write) and sent under a fragmentation that keeps chunk headers
      whole. */
  ghost predicate Sent(c: C.Codec, m: C.Method, raws: seq<seq<byte>>, ops: seq<WriteOp>, script: seq<Event>) {
    && Written(ops) == C.Frames(c, m, raws)
    && ChunksWithin(Writer([], []), ops, MAX_CHUNK)
    && RunWriter(Writer([], []), ops).buffer == []
    && Flat(script) == RunWriter(Writer([], []), ops).out
    && WholeHeaders(0, script)
  }

  lemma SentRemains(c: C.Codec, m: C.Method, raws: seq<seq<byte>>, ops: seq<WriteOp>, script: seq<Event>)
    requires Sent(c, m, raws, ops, script)
    ensures var r := NewReader(script);
            Sound(r) && Remaining(r) == C.Frames(c, m, raws) && End(r) == Clean
  {
    ChunksWithinMonotone(Writer([], []), ops);
    WriterPayloadIff(ops);
    var out := RunWriter(Writer([], []), ops).out;
    assert Payload(0, out) + [] == Payload(0, out);
  }

  /** End to end: whatever was sent comes out of the frame reads one by one, unchanged and
      in order, and the stream is then used up to its last byte, unless a delay falls inside
      an integer that is read with fresh buffers. */
  lemma EndToEnd(c: C.Codec, m: C.Method, ints: IntReads, raws: seq<seq<byte>>,
        ops: seq<WriteOp>, script: seq<Event>)
    requires C.Lawful(c) && !m.NoCompression?
    requires forall raw | raw in raws :: C.Fits(c, m, raw)
    requires Sent(c, m, raws, ops, script)
    requires Calm(Ticks(0, script), Needs(ints, Sizes(c, m, raws)))
    ensures var (got, last) := ReadFrames(c, m, ints, NewReader(script), |raws|);
            got == raws && Remaining(last) == [] && End(last) == Clean
  {
    SentRemains(c, m, raws, ops, script);
    FramesThrough(c, m, ints, NewReader(script), raws);
  }

  /** Whatever was sent, the reads of all its frames see their own bytes, to the last one, if
      and only if no delay falls inside an integer that is read with fresh buffers; with
      buffers that are kept they always do. */
  lemma FieldsInPlaceIff(c: C.Codec, m: C.Method, ints: IntReads, raws: seq<seq<byte>>,
        ops: seq<WriteOp>, script: seq<Event>)
    requires !m.NoCompression? && Sent(c, m, raws, ops, script)
    ensures var needs := Needs(ints, Sizes(c, m, raws));
            var (outcome, last, bs) := ReadNeeds(NewReader(script), needs);
            && (outcome.Filled? && bs == C.Frames(c, m, raws) && Remaining(last) == []
                <==> Calm(Ticks(0, script), needs))
            && (ints.Kept? ==> Calm(Ticks(0, script), needs))
  {
    SentRemains(c, m, raws, ops, script);
    NeedsTotal(c, m, ints, raws);
    var needs := Needs(ints, Sizes(c, m, raws));
    ReadsExactIff(NewReader(script), needs);
    var whole := C.Frames(c, m, raws);
    assert whole[..|whole|] == whole && whole[|whole|..] == [];
    if ints.Kept? {
      AllKept(Sizes(c, m, raws));
      KeptIsCalm(Ticks(0, script), needs);
    }
  }

  lemma {:induction false} AllKept(sizes: seq<nat>)
    ensures forall need | need in Needs(Kept, sizes) :: need.ints.Kept?
  {
    if sizes != [] { AllKept(sizes[1..]); }
  }

  lemma {:induction false} ChunksWithinMonotone(w: Writer, ops: seq<WriteOp>)
    requires ChunksWithin(w, ops, MAX_CHUNK)
    ensures ChunksWithin(w, ops, 0xFFFF_FFFF)
    decreases ops
  {
    if ops != [] { ChunksWithinMonotone(ApplyWrite(w, ops[0]), ops[1..]); }
  }
}
