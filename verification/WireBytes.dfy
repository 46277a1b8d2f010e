/** The bytes of numbers, chunks, frames and settings, said digit by digit, with the limits and
    codes of the protocol. */
module WireBytes {
  import opened Common
  import opened Wire
  import K = Chunk
  import R = ChunkRefinement
  import C = Compression
  import S = Settings

  // ---------------------------------------------------------------------------
  // Numbers
  // ---------------------------------------------------------------------------

  lemma DivDiv(n: nat, a: nat, b: nat)
    requires a > 0 && b > 0
    ensures a * b > 0 && n / a / b == n / (a * b)
  {
    var q, r := n / a, n % a;
    var t, low := q / b, q % b;
    assert n == a * q + r && q == b * t + low;
    MulGap(a, low, b);
    Distribute(a, b * t, low);
    Associate(a, b, t);
    DivModUnique(n, a * b, t, a * low + r);
  }

  /** Byte `i` of a fixed-width number is its digit `i` in base 256. */
  lemma {:induction false} LEDigit(n: nat, width: nat, i: nat)
    requires i < width
    ensures LE(n, width)[i] == n / Pow256(i) % 0x100
  {
    if i > 0 {
      LEDigit(n / 0x100, width - 1, i - 1);
      DivDiv(n, 0x100, Pow256(i - 1));
    }
  }

  /** Byte `i` of a variable-length number holds its digit `i` in base 128, and the top bit
      says that more follow; there are as many bytes as digits, and at least one. */
  lemma {:induction false} VarintDigit(n: nat, slots: nat, i: nat)
    requires n < Pow128(slots) && i < |VarintBytes(n, slots)|
    ensures var bs := VarintBytes(n, slots);
            && bs[i] % 0x80 == n / Pow128(i) % 0x80
            && (bs[i] >= 0x80 <==> i + 1 < |bs|)
    decreases slots
  {
    if n / 0x80 > 0 {
      LaterDigits(n, slots);
      if i > 0 {
        VarintDigit(n / 0x80, slots - 1, i - 1);
        DivDiv(n, 0x80, Pow128(i - 1));
      }
    }
  }

  lemma LaterDigits(n: nat, slots: nat)
    requires n < Pow128(slots) && n / 0x80 > 0
    ensures slots > 1 && n / 0x80 < Pow128(slots - 1)
    ensures VarintBytes(n, slots) == [n % 0x80 + 0x80] + VarintBytes(n / 0x80, slots - 1)
    ensures |VarintBytes(n / 0x80, slots - 1)| > 0
  {
    assert Pow128(1) == 0x80 * Pow128(0);
  }

  lemma {:induction false} VarintLength(n: nat, slots: nat)
    requires n < Pow128(slots) && slots > 0
    ensures var k := |VarintBytes(n, slots)|;
            && 1 <= k <= slots && n < Pow128(k) && (k > 1 ==> n >= Pow128(k - 1))
    decreases slots
  {
    if n / 0x80 > 0 {
      LaterDigits(n, slots);
      VarintLength(n / 0x80, slots - 1);
    } else {
      assert Pow128(1) == 0x80 * Pow128(0);
    }
  }

  /** A variable-length number of up to 63 bits: its digits in base 128, lowest first, no more
      than it has, with the top bit set on all but the last. */
  lemma VarintIs(n: nat)
    requires n < 0x8000_0000_0000_0000
    ensures var bs := Varint(n);
            && 1 <= |bs| <= 9 && n < Pow128(|bs|) && (|bs| > 1 ==> n >= Pow128(|bs| - 1))
            && forall i | 0 <= i < |bs| :: bs[i] % 0x80 == n / Pow128(i) % 0x80 && (bs[i] >= 0x80 <==> i + 1 < |bs|)
  {
    Pow128Nine();
    VarintLength(n, 9);
    forall i | 0 <= i < |Varint(n)|
      ensures Varint(n)[i] % 0x80 == n / Pow128(i) % 0x80 && (Varint(n)[i] >= 0x80 <==> i + 1 < |Varint(n)|)
    {
      VarintDigit(n, 9, i);
    }
  }

  /** Strings are read up to a length of 2^30 and no longer. */
  lemma StringLimit(value: seq<byte>, rest: seq<byte>)
    requires |value| < 0x8000_0000_0000_0000
    ensures DecodeString((Varint(|value|) + value) + rest) == Ok((value, rest)) <==> |value| <= 0x4000_0000
  {
    StringRoundTripIff(value, rest);
  }

  /** What a string of announced length reads as: too long, cut off, or just its bytes. */
  lemma StringReads(n: nat, rest: seq<byte>)
    requires n < 0x8000_0000_0000_0000
    ensures DecodeString(Varint(n) + rest)
         == if n > 0x4000_0000 then Err(StringTooLarge)
            else if |rest| < n then Err(UnexpectedEof)
            else Ok((rest[..n], rest[n..]))
  {
    VarintReads(n, rest);
  }

  // ---------------------------------------------------------------------------
  // Chunks
  // ---------------------------------------------------------------------------

  /** The contents of the chunks that are finished, when `open` is not yet. */
  function Finished(open: seq<byte>, ops: seq<K.WriteOp>): seq<seq<byte>>
    decreases ops
  {
    if ops == [] then []
    else
      match ops[0]
      case Write(bytes) => Finished(open + bytes, ops[1..])
      case Finish => if open == [] then Finished([], ops[1..]) else [open] + Finished([], ops[1..])
  }

  /** A chunk on the wire: its length in four bytes, its bytes, and four zeros. */
  function ChunkBytes(data: seq<byte>): seq<byte> {
    LE(|data|, 4) + (data + [0, 0, 0, 0])
  }

  function AllChunks(chunks: seq<seq<byte>>): seq<byte> {
    if chunks == [] then [] else ChunkBytes(chunks[0]) + AllChunks(chunks[1..])
  }

  lemma FrameIsChunk(data: seq<byte>)
    ensures K.Frame(data) == ChunkBytes(data)
  {
    assert LE(0, 1) == [0] + LE(0, 0) && LE(0, 2) == [0] + LE(0, 1);
    assert LE(0, 3) == [0] + LE(0, 2) && LE(0, 4) == [0] + LE(0, 3);
    assert LE(0, 4) == [0, 0, 0, 0];
    ConcatAssoc(LE(|data|, 4), data, LE(0, 4));
  }

  /** What any writes and chunk ends send: every finished chunk that is not empty, in order. */
  lemma {:induction false} WriterSends(w: K.Writer, ops: seq<K.WriteOp>)
    ensures R.RunWriter(w, ops).out == w.out + AllChunks(Finished(w.buffer, ops))
    decreases ops
  {
    if ops == [] {
      assert w.out + [] == w.out;
    } else {
      WriterSends(K.ApplyWrite(w, ops[0]), ops[1..]);
      if ops[0].Finish? && w.buffer != [] {
        FrameIsChunk(w.buffer);
        var later := Finished([], ops[1..]);
        assert ([w.buffer] + later)[1..] == later;
        ConcatAssoc(w.out, ChunkBytes(w.buffer), AllChunks(later));
      }
    }
  }

  /** A chunk reads back if and only if it has at most a hundred million bytes. */
  lemma ChunkLimit(data: seq<byte>)
    ensures R.Payload(0, K.Frame(data)) == data <==> |data| <= 100_000_000
  {
    R.FrameReadableIff(data);
  }

  // ---------------------------------------------------------------------------
  // Frames
  // ---------------------------------------------------------------------------

  /** The codes of the methods on the wire. */
  lemma MethodCodes(m: C.Method)
    ensures m.Byte() == if m.NoCompression? then 0x02 else if m.LZ4? then 0x82 else 0x90
  {
  }

  /** A frame: the checksum of all that follows it, high half first, each half in eight bytes;
      the method's code; the length of the payload and nine more; the length of the contents;
      the payload.  Nothing at all without compression. */
  lemma FrameBytes(c: C.Codec, m: C.Method, raw: seq<byte>)
    ensures C.Compressed(c, C.NoCompression, raw) == []
    ensures !m.NoCompression? ==>
              var payload := c.compress(m, raw);
              var body := [if m.LZ4? then 0x82 else 0x90] + (LE(|payload| + 9, 4) + (LE(|raw|, 4) + payload));
              C.Compressed(c, m, raw)
              == LE(c.hash(body) / 0x1_0000_0000_0000_0000, 8) + LE(c.hash(body) % 0x1_0000_0000_0000_0000, 8) + body
  {
  }

  /** A frame reads back if and only if its payload and nine more are at most a hundred million
      bytes, and its contents a thousand million. */
  lemma FrameLimits(c: C.Codec, m: C.Method, raw: seq<byte>, rest: seq<byte>)
    requires C.Lawful(c) && !m.NoCompression?
    requires |c.compress(m, raw)| + 9 < 0x1_0000_0000 && |raw| < 0x1_0000_0000
    ensures C.Decompress(c, m, C.Compressed(c, m, raw) + rest) == Ok((raw, rest))
       <==> |c.compress(m, raw)| + 9 <= 100_000_000 && |raw| <= 1_000_000_000
  {
    C.CompressRoundTripIff(c, m, raw, rest);
  }

  /** The outcome of reading a frame, whatever the bytes: the places of its parts, which fault
      comes first, and a checksum over all from the code on. */
  function FrameOutcome(c: C.Codec, m: C.Method, s: seq<byte>): Result<(seq<byte>, seq<byte>), C.FrameError> {
    if |s| < 17 then Err(C.CutFrame)
    else if s[16] != (if m.NoCompression? then 0x02 else if m.LZ4? then 0x82 else 0x90) then Err(C.WrongMethod(s[16]))
    else if |s| < 25 then Err(C.CutFrame)
    else
      var stored, size := FromLE(s[17..21]), FromLE(s[21..25]);
      if stored > 100_000_000 || size > 1_000_000_000 then Err(C.FrameTooLarge)
      else if stored < 9 then Err(C.SizeUnderflow)
      else if |s| < 16 + stored then Err(C.CutFrame)
      else if c.hash(s[16..16 + stored]) != FromLE(s[..8]) * 0x1_0000_0000_0000_0000 + FromLE(s[8..16]) then
        Err(C.ChecksumMismatch)
      else if m.NoCompression? then Err(C.NotCompressed)
      else
        match c.decompress(m, s[25..16 + stored], size)
        case None => Err(C.BadPayload)
        case Some(raw) => Ok((raw, s[16 + stored..]))
  }

  lemma Within(s: seq<byte>, a: nat, n: nat)
    requires a <= |s|
    ensures C.Take(s[a..], n) == if |s| < a + n then None else Some((s[a..a + n], s[a + n..]))
  {
    if a + n <= |s| { assert s[a..][..n] == s[a..a + n] && s[a..][n..] == s[a + n..]; }
  }

  lemma HashedPart(m: C.Method, s: seq<byte>, stored: nat, size: nat)
    requires 25 <= 16 + stored <= |s| && s[16] == m.Byte() && stored == FromLE(s[17..21]) && size == FromLE(s[21..25])
    ensures C.Block(m, s[25..16 + stored], size) == s[16..16 + stored]
  {
    FromLERoundTrip(s[17..21]);
    FromLERoundTrip(s[21..25]);
    assert |s[25..16 + stored]| + 9 == stored;
    FourParts(s, 16, 17, 21, 25, 16 + stored);
  }

  lemma FourParts(s: seq<byte>, a: nat, b: nat, c: nat, d: nat, e: nat)
    requires a <= b <= c <= d <= e <= |s|
    ensures s[a..b] + (s[b..c] + (s[c..d] + s[d..e])) == s[a..e]
  {
  }

  /** Reading a frame from any bytes has this outcome. */
  lemma FrameRead(c: C.Codec, m: C.Method, s: seq<byte>)
    ensures C.Decompress(c, m, s) == FrameOutcome(c, m, s)
  {
    assert s[0..] == s;
    Within(s, 0, 8);
    if |s| >= 8 { Within(s, 8, 8); }
    if |s| >= 16 { Within(s, 16, 1); }
    if |s| >= 17 { Within(s, 17, 4); }
    if |s| >= 21 { Within(s, 21, 4); }
    if |s| >= 25 {
      var stored, size := FromLE(s[17..21]), FromLE(s[21..25]);
      if stored >= 9 {
        Within(s, 25, stored - 9);
        if s[16] == m.Byte() && |s| >= 16 + stored { HashedPart(m, s, stored, size); }
      }
    }
  }

  // ---------------------------------------------------------------------------
  // Settings
  // ---------------------------------------------------------------------------

  /** A decimal number: digits only, no zero in front of others, and its value in base ten. */
  predicate Decimal(s: seq<byte>, n: nat)
    decreases |s|
  {
    && s != [] && (forall i | 0 <= i < |s| :: 48 <= s[i] <= 57)
    && (if |s| == 1 then n == s[0] - 48
        else n == 10 * (n / 10) + (s[|s| - 1] - 48) && n / 10 > 0 && Decimal(s[..|s| - 1], n / 10))
  }

  lemma {:induction false} DigitsAreDecimal(n: nat)
    ensures Decimal(S.Digits(n), n)
  {
    if n >= 10 {
      DigitsAreDecimal(n / 10);
      var front := S.Digits(n / 10);
      assert (front + [48 + n % 10])[..|front|] == front;
    }
  }

  /** The text of a value: true or false, a decimal number with a minus sign if it is negative,
      the text itself, or the float as it is printed. */
  predicate Spelled(fl: S.Floats, v: S.Value, text: seq<byte>) {
    match v
    case Bool(b) => text == if b then [116, 114, 117, 101] else [102, 97, 108, 115, 101]
    case Int(i) =>
      if i >= 0 then Decimal(text, i) else text != [] && text[0] == 45 && Decimal(text[1..], -i)
    case Text(s) => text == s
    case Float(code) => text == fl.show(code)
  }

  lemma ShowSpells(fl: S.Floats, v: S.Value)
    ensures Spelled(fl, v, S.Show(fl, v))
  {
    if v.Int? {
      DigitsAreDecimal(if v.i < 0 then -v.i else v.i);
      if v.i < 0 { assert S.ShowInt(v.i)[1..] == S.Digits(-v.i); }
    }
  }

  /** A setting up to revision 54429: the key, and a number, negative ones in two's complement
      and booleans as 1 and 0.  Texts and floats are refused. */
  lemma LegacySettingBytes(fl: S.Floats, s: S.Setting, revision: nat)
    requires revision <= 54429
    ensures var r := S.EncodeSetting(fl, s, revision);
            && (r == Err(S.UnsupportedType) <==> s.value.Text? || s.value.Float?)
            && (r.Err? <==> s.value.Text? || s.value.Float?)
            && (s.value.Bool? ==> r == Ok((Varint(|s.key|) + s.key) + Varint(if s.value.b then 1 else 0)))
            && (s.value.Int? && -0x8000_0000_0000_0000 <= s.value.i < 0x8000_0000_0000_0000 ==>
                  r == Ok((Varint(|s.key|) + s.key)
                          + Varint(if s.value.i >= 0 then s.value.i else s.value.i + 0x1_0000_0000_0000_0000)))
  {
    if s.value.Int? && -0x8000_0000_0000_0000 <= s.value.i < 0x8000_0000_0000_0000 { LegacyInt(fl, s, revision, s.value.i); }
  }

  lemma LegacyInt(fl: S.Floats, s: S.Setting, revision: nat, i: int)
    requires revision <= 54429 && s.value == S.Int(i) && -0x8000_0000_0000_0000 <= i < 0x8000_0000_0000_0000
    ensures S.EncodeSetting(fl, s, revision)
         == Ok((Varint(|s.key|) + s.key) + Varint(if i >= 0 then i else i + 0x1_0000_0000_0000_0000))
  {
    TwosComplement(i);
  }

  /** Later: the key, the flags, 1 for important and 2 for custom, and the text of the value.
      Custom values other than texts are refused. */
  lemma SettingBytes(fl: S.Floats, s: S.Setting, revision: nat)
    requires revision > 54429
    ensures var r := S.EncodeSetting(fl, s, revision);
            && (r == Err(S.UnsupportedType) <==> s.custom && !s.value.Text?)
            && (r.Err? <==> s.custom && !s.value.Text?)
            && (r.Ok? ==> exists text ::
                  && Spelled(fl, s.value, text)
                  && r.value == (Varint(|s.key|) + s.key)
                                + (Varint((if s.important then 1 else 0) + (if s.custom then 2 else 0))
                                   + (Varint(|text|) + text)))
  {
    ShowSpells(fl, s.value);
  }

  lemma TwosComplement(i: int)
    requires -0x8000_0000_0000_0000 <= i < 0x8000_0000_0000_0000
    ensures S.AsU64(i) == if i >= 0 then i else i + 0x1_0000_0000_0000_0000
  {
    if i < 0 {
      DivModUnique(i + 0x1_0000_0000_0000_0000, 0x1_0000_0000_0000_0000, 0, i + 0x1_0000_0000_0000_0000);
    }
  }

  /** The value of digits, the first counting most. */
  function Base10(s: seq<byte>): int
    requires forall i | 0 <= i < |s| :: 48 <= s[i] <= 57
  {
    if s == [] then 0 else (s[0] - 48) * Pow10(|s| - 1) + Base10(s[1..])
  }

  function Pow10(n: nat): nat {
    if n == 0 then 1 else 10 * Pow10(n - 1)
  }

  lemma {:induction false} Base10Last(s: seq<byte>)
    requires s != [] && forall i | 0 <= i < |s| :: 48 <= s[i] <= 57
    ensures Base10(s) == 10 * Base10(s[..|s| - 1]) + (s[|s| - 1] - 48)
    decreases |s|
  {
    var x := |s| - 1;
    if x == 0 {
      assert s[..0] == [];
    } else {
      Base10Last(s[1..]);
      assert s[1..][..x - 1] == s[..x][1..];
      TenTimes(s[0] - 48, Pow10(x - 1), Base10(s[..x][1..]));
    }
  }

  lemma TenTimes(d: int, p: int, v: int)
    ensures d * (10 * p) + 10 * v == 10 * (d * p + v)
  {
  }

  lemma {:induction false} DigitsValueIs(s: seq<byte>)
    requires forall i | 0 <= i < |s| :: 48 <= s[i] <= 57
    ensures S.AllDigits(s) && S.DigitsValue(s) == Base10(s)
    decreases |s|
  {
    if s != [] {
      DigitsValueIs(s[..|s| - 1]);
      Base10Last(s);
    }
  }

  /** One digit or more, behind one plus or minus sign or none, for a number of 64 signed bits. */
  ghost predicate Number(s: seq<byte>, i: int) {
    && -0x8000_0000_0000_0000 <= i < 0x8000_0000_0000_0000
    && exists sign: seq<byte>, digits: seq<byte> :: s == sign + digits && SignedDigits(sign, digits, i)
  }

  predicate SignedDigits(sign: seq<byte>, digits: seq<byte>, i: int) {
    && digits != [] && (forall k | 0 <= k < |digits| :: 48 <= digits[k] <= 57)
    && (sign == [] || sign == [43] || sign == [45])
    && i == if sign == [45] then 0 - Base10(digits) else Base10(digits)
  }

  lemma NumberParses(s: seq<byte>, i: int)
    requires Number(s, i)
    ensures S.ParseInt(s) == Some(i)
  {
    var sign, digits :| s == sign + digits && SignedDigits(sign, digits, i);
    DigitsValueIs(digits);
    if sign == [] {
      assert [] + digits == digits;
      Unsigned(digits, i);
    } else {
      assert sign == [sign[0]];
      Signed(sign[0], digits, i);
    }
  }

  lemma Unsigned(s: seq<byte>, i: int)
    requires SignedDigits([], s, i) && S.AllDigits(s) && S.DigitsValue(s) == Base10(s) && S.FitsI64(i)
    ensures S.ParseInt(s) == Some(i)
  {
    assert 48 <= s[0] <= 57;
  }

  lemma Signed(sign: byte, digits: seq<byte>, i: int)
    requires SignedDigits([sign], digits, i) && S.AllDigits(digits) && S.DigitsValue(digits) == Base10(digits) && S.FitsI64(i)
    ensures S.ParseInt([sign] + digits) == Some(i)
  {
    assert ([sign] + digits)[1..] == digits && [sign][0] == sign && ([45][0] == 45 && [43][0] == 43);
  }

  lemma ParsedNumber(s: seq<byte>)
    requires S.ParseInt(s).Some?
    ensures Number(s, S.ParseInt(s).value)
  {
    var i := S.ParseInt(s).value;
    if s[0] == 45 || s[0] == 43 {
      DigitsValueIs(s[1..]);
      SplitNumber(s, [s[0]], s[1..], i);
    } else {
      DigitsValueIs(s);
      SplitNumber(s, [], s, i);
    }
  }

  lemma SplitNumber(s: seq<byte>, sign: seq<byte>, digits: seq<byte>, i: int)
    requires s == sign + digits && SignedDigits(sign, digits, i) && S.FitsI64(i)
    ensures Number(s, i)
  {
  }

  predicate SameLetters(s: seq<byte>, word: seq<byte>) {
    |s| == |word| && forall i | 0 <= i < |s| :: s[i] == word[i] || (65 <= s[i] <= 90 && word[i] == s[i] + 32)
  }

  /** What a text is taken for: true and 1, false and 0 in any case of letters; else a number of
      64 bits; else a float; else itself. */
  lemma ParseMeans(fl: S.Floats, s: seq<byte>)
    ensures S.Parse(fl, s) == S.Bool(true) <==> SameLetters(s, [116, 114, 117, 101]) || s == [49]
    ensures S.Parse(fl, s) == S.Bool(false) <==> SameLetters(s, [102, 97, 108, 115, 101]) || s == [48]
    ensures forall i :: S.Parse(fl, s) == S.Int(i) <==> !S.Parse(fl, s).Bool? && Number(s, i)
    ensures forall code: nat :: S.Parse(fl, s) == S.Float(code) <==>
              !S.Parse(fl, s).Bool? && (forall i :: !Number(s, i)) && fl.parse(s) == Some(code)
    ensures S.Parse(fl, s) != S.Text(s) <==>
              S.Parse(fl, s).Bool? || (exists i :: Number(s, i)) || fl.parse(s).Some?
  {
    LettersAre(s, S.TRUE);
    LettersAre(s, S.FALSE);
    BoolsMean(fl, s);
    if S.ParseInt(s).Some? { ParsedNumber(s); }
    forall i | Number(s, i) ensures S.ParseInt(s) == Some(i) { NumberParses(s, i); }
    NumbersMean(fl, s, S.ParseInt(s));
  }

  lemma BoolsMean(fl: S.Floats, s: seq<byte>)
    requires S.Lower(s) == S.TRUE <==> SameLetters(s, [116, 114, 117, 101])
    requires S.Lower(s) == S.FALSE <==> SameLetters(s, [102, 97, 108, 115, 101])
    ensures S.Parse(fl, s) == S.Bool(true) <==> SameLetters(s, [116, 114, 117, 101]) || s == [49]
    ensures S.Parse(fl, s) == S.Bool(false) <==> SameLetters(s, [102, 97, 108, 115, 101]) || s == [48]
  {
    if SameLetters(s, [102, 97, 108, 115, 101]) || s == [48] { assert s != [49] && S.Lower(s) != S.TRUE; }
  }

  lemma NumbersMean(fl: S.Floats, s: seq<byte>, n: Option<int>)
    requires S.ParseInt(s) == n && forall i :: Number(s, i) <==> n == Some(i)
    ensures forall i :: S.Parse(fl, s) == S.Int(i) <==> !S.Parse(fl, s).Bool? && Number(s, i)
    ensures forall code: nat :: S.Parse(fl, s) == S.Float(code) <==>
              !S.Parse(fl, s).Bool? && (forall i :: !Number(s, i)) && fl.parse(s) == Some(code)
    ensures S.Parse(fl, s) != S.Text(s) <==>
              S.Parse(fl, s).Bool? || (exists i :: Number(s, i)) || fl.parse(s).Some?
  {
    if n.Some? { assert Number(s, n.value); }
  }

  lemma LettersAre(s: seq<byte>, word: seq<byte>)
    requires forall i | 0 <= i < |word| :: 97 <= word[i] <= 122
    ensures S.Lower(s) == word <==> SameLetters(s, word)
  {
    if SameLetters(s, word) { assert S.Lower(s) == word; }
    if S.Lower(s) == word {
      forall i | 0 <= i < |s| ensures s[i] == word[i] || (65 <= s[i] <= 90 && word[i] == s[i] + 32) {
        assert S.Lower(s)[i] == word[i];
      }
    }
  }

  /** Of the flags, only the two lowest bits count. */
  lemma OtherFlagsIgnored(fl: S.Floats, key: seq<byte>, a: nat, b: nat, rest: seq<byte>)
    requires a < 0x8000_0000_0000_0000 && b < 0x8000_0000_0000_0000 && a % 4 == b % 4
    ensures S.DecodeSetting(fl, key, Varint(a) + rest) == S.DecodeSetting(fl, key, Varint(b) + rest)
  {
    VarintReads(a, rest);
    VarintReads(b, rest);
    LowBits(a);
    LowBits(b);
    SameFlags(fl, key, Varint(a) + rest, Varint(b) + rest, a, b, rest);
  }

  lemma SameFlags(fl: S.Floats, key: seq<byte>, x: seq<byte>, y: seq<byte>, a: nat, b: nat, rest: seq<byte>)
    requires DecodeVarint(x) == Ok((a, rest)) && DecodeVarint(y) == Ok((b, rest))
    requires a % 2 == b % 2 && a / 2 % 2 == b / 2 % 2
    ensures S.DecodeSetting(fl, key, x) == S.DecodeSetting(fl, key, y)
  {
  }

  lemma VarintReads(n: nat, rest: seq<byte>)
    requires n < 0x8000_0000_0000_0000
    ensures DecodeVarint(Varint(n) + rest) == Ok((n, rest))
  {
    VarintRoundTripIff(n, rest);
    DivModUnique(n, 0x8000_0000_0000_0000, 0, n);
  }

  lemma LowBits(n: nat)
    ensures n % 2 == n % 4 % 2 && n / 2 % 2 == n % 4 / 2
  {
    var q, r := n / 4, n % 4;
    DivModUnique(n, 2, 2 * q + r / 2, r % 2);
    DivModUnique(2 * q + r / 2, 2, q, r / 2);
  }

  /** Setting `k` is the server's first of the key. */
  predicate FirstOfKey(ignore: seq<S.Setting>, key: seq<byte>, k: nat) {
    k < |ignore| && ignore[k].key == key && forall j | 0 <= j < k :: ignore[j].key != key
  }

  /** The server has the setting: its first one of the key has the value, whatever the flags. */
  predicate Held(ignore: seq<S.Setting>, s: S.Setting) {
    exists k | 0 <= k < |ignore| :: FirstOfKey(ignore, s.key, k) && ignore[k].value == s.value
  }

  lemma {:induction false} FirstGot(ignore: seq<S.Setting>, key: seq<byte>, k: nat)
    requires FirstOfKey(ignore, key, k)
    ensures S.Get(ignore, key) == Some(ignore[k])
    decreases k
  {
    if k > 0 { FirstGot(ignore[1..], key, k - 1); }
  }

  lemma {:induction false} GotFirst(ignore: seq<S.Setting>, key: seq<byte>) returns (k: nat)
    requires S.Get(ignore, key).Some?
    ensures FirstOfKey(ignore, key, k)
    decreases ignore
  {
    if ignore[0].key == key {
      k := 0;
    } else {
      var later := GotFirst(ignore[1..], key);
      k := later + 1;
      assert forall j | 0 < j < k :: ignore[j] == ignore[1..][j - 1];
    }
  }

  lemma HeldIff(ignore: seq<S.Setting>, s: S.Setting)
    ensures S.Ignored(ignore, s) <==> Held(ignore, s)
  {
    if S.Ignored(ignore, s) {
      var k := GotFirst(ignore, s.key);
      FirstGot(ignore, s.key, k);
    }
    if Held(ignore, s) {
      var k :| 0 <= k < |ignore| && FirstOfKey(ignore, s.key, k) && ignore[k].value == s.value;
      FirstGot(ignore, s.key, k);
    }
  }

  predicate Rising(places: seq<nat>) {
    forall j, k | 0 <= j < k < |places| :: places[j] < places[k]
  }

  /** The settings at these places of `list`. */
  ghost predicate Placed(list: seq<S.Setting>, d: seq<S.Setting>, places: seq<nat>) {
    |places| == |d| && forall j | 0 <= j < |places| :: places[j] < |list| && d[j] == list[places[j]]
  }

  ghost predicate KeptBelow(list: seq<S.Setting>, ignore: seq<S.Setting>, kept: seq<nat>, end: nat)
    requires end <= |list|
  {
    forall i: nat | i < end :: i in kept <==> !Held(ignore, list[i])
  }

  /** `d` is `list` without what the server has, in order: `kept` are the places that stay. */
  ghost predicate Unheld(list: seq<S.Setting>, ignore: seq<S.Setting>, d: seq<S.Setting>, kept: seq<nat>) {
    Rising(kept) && Placed(list, d, kept) && KeptBelow(list, ignore, kept, |list|)
  }

  /** What is sent besides the ignored settings: every other one, once for each place, in order. */
  lemma {:induction false} DeltaKeeps(list: seq<S.Setting>, ignore: seq<S.Setting>) returns (kept: seq<nat>)
    ensures Unheld(list, ignore, S.Delta(list, ignore), kept)
    decreases |list|
  {
    kept := [];
    if list != [] {
      var x := |list| - 1;
      kept := DeltaKeeps(list[..x], ignore);
      DeltaLast(list, ignore);
      HeldIff(ignore, list[x]);
      LastKept(list, ignore, S.Delta(list[..x], ignore), kept);
      if !Held(ignore, list[x]) { kept := kept + [x]; }
    }
  }

  lemma LastKept(list: seq<S.Setting>, ignore: seq<S.Setting>, d: seq<S.Setting>, kept: seq<nat>)
    requires list != [] && Unheld(list[..|list| - 1], ignore, d, kept)
    ensures var x := |list| - 1;
            if Held(ignore, list[x]) then Unheld(list, ignore, d, kept) else Unheld(list, ignore, d + [list[x]], kept + [x])
  {
    var x := |list| - 1;
    AllBelow(list[..x], d, kept);
    assert KeptBelow(list, ignore, kept, x) by {
      forall i: nat | i < x ensures i in kept <==> !Held(ignore, list[i]) {
        assert list[..x][i] == list[i];
      }
    }
    if !Held(ignore, list[x]) {
      RisesOn(kept, x);
      assert KeptBelow(list, ignore, kept + [x], |list|);
    }
  }

  lemma AllBelow(list: seq<S.Setting>, d: seq<S.Setting>, kept: seq<nat>)
    requires Placed(list, d, kept)
    ensures forall i | i in kept :: i < |list|
  {
  }

  lemma RisesOn(kept: seq<nat>, x: nat)
    requires Rising(kept) && forall i | i in kept :: i < x
    ensures Rising(kept + [x])
  {
    forall j, k | 0 <= j < k < |kept + [x]| ensures (kept + [x])[j] < (kept + [x])[k] {
      assert kept[j] in kept;
    }
  }

  lemma {:induction false} DeltaLast(list: seq<S.Setting>, ignore: seq<S.Setting>)
    requires list != []
    ensures var x := |list| - 1;
            S.Delta(list, ignore) == S.Delta(list[..x], ignore) + if S.Ignored(ignore, list[x]) then [] else [list[x]]
    decreases list
  {
    var x := |list| - 1;
    if x > 0 {
      DeltaLast(list[1..], ignore);
      assert list[1..][..x - 1] == list[..x][1..];
      var first := if S.Ignored(ignore, list[0]) then [] else [list[0]];
      var last := if S.Ignored(ignore, list[x]) then [] else [list[x]];
      ConcatAssoc(first, S.Delta(list[..x][1..], ignore), last);
    } else {
      assert list[..0] == [] && S.Delta(list[1..], ignore) == [] && S.Delta(list[..0], ignore) == [];
    }
  }

  /** A list of settings is its settings one after another. */
  lemma {:induction false} ListBytes(fl: S.Floats, list: seq<S.Setting>, revision: nat) returns (pieces: seq<seq<byte>>)
    requires S.Encode(fl, list, revision).Ok?
    ensures |pieces| == |list| && S.Encode(fl, list, revision) == Ok(Concat(pieces))
    ensures forall i | 0 <= i < |list| :: S.EncodeSetting(fl, list[i], revision) == Ok(pieces[i])
    decreases list
  {
    if list == [] {
      pieces := [];
    } else {
      var later := ListBytes(fl, list[1..], revision);
      pieces := [S.EncodeSetting(fl, list[0], revision).value] + later;
      assert pieces[1..] == later;
    }
  }
}
