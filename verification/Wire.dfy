/** Variable-length integers and length-prefixed strings.

    The integers are unsigned LEB128 (section 7.6 of DWARF 5), capped at nine bytes: seven
    bits a byte, low ones first, with a continuation bit. */
module Wire {
  import opened Common

  const MAX_STRING := 0x4000_0000
  const TWO63 := 0x8000_0000_0000_0000
  const MAX_VARINT := 9

  datatype WireError = UnexpectedEof | StringTooLarge

  // ---------------------------------------------------------------------------
  // Specification
  // ---------------------------------------------------------------------------

  /** The bytes written for `v` when `slots` of the nine are left. */
  function VarintBytes(v: nat, slots: nat): (bs: seq<byte>)
    ensures |bs| <= slots
    decreases slots
  {
    if slots == 0 then []
    else if v / 0x80 == 0 then [Octet(v)]
    else [Octet(v)] + VarintBytes(v / 0x80, slots - 1)
  }

  /** The low seven bits, and the continuation bit if anything is left above them. */
  function Octet(v: nat): byte {
    if v / 0x80 == 0 then v % 0x80 else v % 0x80 + 0x80
  }

  function Varint(v: nat): seq<byte> {
    VarintBytes(v, MAX_VARINT)
  }

  /** Reads at most `slots` bytes, low group first, stopping at the first without the
      continuation bit; returns the value and the unread bytes. */
  function DecodeSlots(s: seq<byte>, slots: nat): (r: Result<(nat, seq<byte>), WireError>)
    ensures r.Ok? ==> |r.value.1| <= |s| && (slots > 0 ==> |r.value.1| < |s|)
    decreases slots
  {
    if slots == 0 then Ok((0, s))
    else if s == [] then Err(UnexpectedEof)
    else if s[0] < 0x80 then Ok((s[0] as nat, s[1..]))
    else
      match DecodeSlots(s[1..], slots - 1)
      case Err(e) => Err(e)
      case Ok((high, rest)) => Ok((s[0] % 0x80 + 0x80 * high, rest))
  }

  function DecodeVarint(s: seq<byte>): Result<(nat, seq<byte>), WireError> {
    DecodeSlots(s, MAX_VARINT)
  }

  function StringBytes(value: seq<byte>): seq<byte> {
    Varint(|value|) + value
  }

  function DecodeString(s: seq<byte>): (r: Result<(seq<byte>, seq<byte>), WireError>)
    ensures r.Ok? ==> |r.value.1| < |s|
  {
    match DecodeVarint(s)
    case Err(e) => Err(e)
    case Ok((len, rest)) =>
      if len > MAX_STRING then Err(StringTooLarge)
      else if |rest| < len then Err(UnexpectedEof)
      else Ok((rest[..len], rest[len..]))
  }

  // ---------------------------------------------------------------------------
  // The loops
  // ---------------------------------------------------------------------------

  /** A buffer with a read position moving through it. */
  class Reader {
    var unread: seq<byte>

    constructor (bytes: seq<byte>)
      ensures unread == bytes
    {
      unread := bytes;
    }

    method GetByte() returns (b: Option<byte>)
      modifies this
      ensures b == (if old(unread) == [] then None else Some(old(unread)[0]))
      ensures unread == if old(unread) == [] then [] else old(unread)[1..]
    {
      if unread == [] {
        return None;
      }
      b := Some(unread[0]);
      unread := unread[1..];
    }

    /** The loop reader. */
    method ReadVarUint() returns (r: Result<nat, WireError>)
      modifies this
      ensures match DecodeVarint(old(unread))
              case Ok((v, rest)) => r == Ok(v) && unread == rest
              case Err(e) => r == Err(e) && unread == []
    {
      var out: nat, scale: nat := 0, 1;
      for i := 0 to MAX_VARINT
        invariant Resumes(DecodeVarint(old(unread)), out, scale, DecodeSlots(unread, MAX_VARINT - i))
      {
        ResumesStep(DecodeVarint(old(unread)), out, scale, unread, MAX_VARINT - i);
        var octet := GetByte();
        if octet.None? {
          return Err(UnexpectedEof);
        }
        out := out + octet.value % 0x80 * scale;
        if octet.value < 0x80 {
          return Ok(out);
        }
        scale := scale * 0x80;
      }
      return Ok(out);
    }

    /** The unrolled reader: the first byte before the loop. */
    method TryGetVarUint() returns (r: Result<nat, WireError>)
      modifies this
      ensures match DecodeVarint(old(unread))
              case Ok((v, rest)) => r == Ok(v) && unread == rest
              case Err(e) => r == Err(e) && unread == []
    {
      if unread == [] {
        return Err(UnexpectedEof);
      }
      var b := unread[0];
      unread := unread[1..];
      var out: nat := b % 0x80;
      if b < 0x80 {
        return Ok(out);
      }
      var scale: nat := 0x80;
      for i := 1 to MAX_VARINT
        invariant Resumes(DecodeVarint(old(unread)), out, scale, DecodeSlots(unread, MAX_VARINT - i))
      {
        ResumesStep(DecodeVarint(old(unread)), out, scale, unread, MAX_VARINT - i);
        if unread == [] {
          return Err(UnexpectedEof);
        }
        b := unread[0];
        unread := unread[1..];
        out := out + b % 0x80 * scale;
        if b < 0x80 {
          return Ok(out);
        }
        scale := scale * 0x80;
      }
      return Ok(out);
    }

    method ReadString() returns (r: Result<seq<byte>, WireError>)
      modifies this
      ensures match DecodeString(old(unread))
              case Ok((value, rest)) => r == Ok(value) && unread == rest
              case Err(e) => r == Err(e)
    {
      var len := ReadVarUint();
      if len.Err? {
        return Err(len.error);
      }
      if len.value > MAX_STRING {
        return Err(StringTooLarge);
      }
      if len.value == 0 {
        return Ok([]);
      }
      if |unread| < len.value {
        return Err(UnexpectedEof);
      }
      r := Ok(unread[..len.value]);
      unread := unread[len.value..];
    }
  }

  /** The whole read is what was accumulated plus the read of the rest. */
  ghost predicate Resumes(whole: Result<(nat, seq<byte>), WireError>, out: nat, scale: nat,
      rest: Result<(nat, seq<byte>), WireError>)
  {
    match rest
    case Err(e) => whole == Err(e)
    case Ok((v, s)) => whole == Ok((out + scale * v, s))
  }

  lemma ResumesStep(whole: Result<(nat, seq<byte>), WireError>, out: nat, scale: nat, s: seq<byte>, slots: nat)
    requires 0 < slots && Resumes(whole, out, scale, DecodeSlots(s, slots))
    ensures s == [] ==> whole == Err(UnexpectedEof)
    ensures s != [] && s[0] < 0x80 ==> whole == Ok((out + s[0] % 0x80 * scale, s[1..]))
    ensures s != [] && s[0] >= 0x80 ==>
              Resumes(whole, out + s[0] % 0x80 * scale, scale * 0x80, DecodeSlots(s[1..], slots - 1))
  {
    if s != [] && s[0] >= 0x80 && DecodeSlots(s[1..], slots - 1).Ok? {
      var high := DecodeSlots(s[1..], slots - 1).value.0;
      Distribute(scale, s[0] % 0x80, 0x80 * high);
      Associate(scale, 0x80, high);
    }
  }

  method NextOctet(value: nat) returns (octet: byte, high: nat)
    ensures octet == Octet(value)
    ensures high == value / 0x80
  {
    octet := value % 0x80;
    high := value / 0x80;
    if high > 0 {
      octet := octet + 0x80;
    }
  }

  /** The writer fills a nine-byte buffer. */
  method WriteVarUint(v: nat) returns (written: seq<byte>)
    requires v < 0x1_0000_0000_0000_0000
    ensures written == Varint(v)
  {
    var buf := new byte[MAX_VARINT];
    var value, pos := v, 0;
    while pos < MAX_VARINT
      invariant 0 <= pos <= MAX_VARINT
      invariant buf[..pos] + VarintBytes(value, MAX_VARINT - pos) == Varint(v)
      decreases MAX_VARINT - pos
    {
      ghost var before := buf[..pos];
      var octet, high := NextOctet(value);
      ghost var tail := VarintBytes(high, MAX_VARINT - pos - 1);
      VarintUnfold(value, MAX_VARINT - pos);
      buf[pos] := octet;
      pos := pos + 1;
      assert buf[..pos] == before + [octet];
      if high == 0 {
        return buf[..pos];
      }
      ConcatAssoc(before, [Octet(value)], tail);
      value := high;
    }
    written := buf[..pos];
  }

  // ---------------------------------------------------------------------------
  // Round trips
  // ---------------------------------------------------------------------------

  function Pow128(k: nat): nat
    ensures Pow128(k) > 0
  {
    if k == 0 then 1 else 0x80 * Pow128(k - 1)
  }

  lemma Pow128Nine()
    ensures Pow128(MAX_VARINT) == TWO63
  {
    assert Pow128(2) == 0x80 * Pow128(1);
    assert Pow128(4) == 0x80 * Pow128(3);
    assert Pow128(6) == 0x80 * Pow128(5);
    assert Pow128(8) == 0x80 * Pow128(7);
  }

  /** `slots` bytes carry `7 * slots` bits, and exactly the written bytes are consumed. */
  lemma {:induction false} DecodeEncodeSlots(v: nat, slots: nat, rest: seq<byte>)
    ensures DecodeSlots(VarintBytes(v, slots) + rest, slots) == Ok((v % Pow128(slots), rest))
    decreases slots
  {
    if slots == 0 {
      assert [] + rest == rest;
    } else {
      if v / 0x80 != 0 {
        DecodeEncodeSlots(v / 0x80, slots - 1, rest);
      }
      DecodeEncodeStep(v, slots, rest, Pow128(slots - 1));
    }
  }

  lemma DecodeEncodeStep(v: nat, slots: nat, rest: seq<byte>, m: nat)
    requires 0 < slots && 0 < m
    requires v / 0x80 != 0 ==>
      DecodeSlots(VarintBytes(v / 0x80, slots - 1) + rest, slots - 1) == Ok((v / 0x80 % m, rest))
    ensures DecodeSlots(VarintBytes(v, slots) + rest, slots) == Ok((v % (0x80 * m), rest))
  {
    var high, low := v / 0x80, v % 0x80;
    NestedDigits(v, 0x80, m, high, low);
    VarintUnfold(v, slots);
    if high == 0 {
      DecodeHead(low, rest, slots);
      FitsModulus(0, m);
    } else {
      var tail := VarintBytes(high, slots - 1) + rest;
      ConcatAssoc([Octet(v)], VarintBytes(high, slots - 1), rest);
      DecodeHead(low, tail, slots);
    }
  }

  lemma VarintUnfold(v: nat, slots: nat)
    requires 0 < slots
    ensures VarintBytes(v, slots) == [Octet(v)] + if v / 0x80 == 0 then [] else VarintBytes(v / 0x80, slots - 1)
  {
  }

  lemma DecodeHead(low: nat, tail: seq<byte>, slots: nat)
    requires low < 0x80 && 0 < slots
    ensures DecodeSlots([low] + tail, slots) == Ok((low, tail))
    ensures DecodeSlots(tail, slots - 1).Ok? ==>
              DecodeSlots([low + 0x80] + tail, slots)
              == Ok((low + 0x80 * DecodeSlots(tail, slots - 1).value.0, DecodeSlots(tail, slots - 1).value.1))
  {
    assert ([low] + tail)[1..] == tail && ([low + 0x80] + tail)[1..] == tail;
    assert (low + 0x80) % 0x80 == low;
  }

  lemma FitsModulus(v: nat, m: nat)
    requires m > 0
    ensures v % m == v <==> v < m
  {
  }

  /** Any integer followed by any bytes reads back as itself if and only if it fits 63
      bits: the tenth byte LEB128 would need is never written. */
  lemma VarintRoundTripIff(v: nat, rest: seq<byte>)
    ensures DecodeVarint(Varint(v) + rest) == Ok((v % TWO63, rest))
    ensures DecodeVarint(Varint(v) + rest) == Ok((v, rest)) <==> v < TWO63
  {
    Pow128Nine();
    DecodeEncodeSlots(v, MAX_VARINT, rest);
    FitsModulus(v, TWO63);
  }

  /** A read that succeeds is not affected by the bytes behind what it consumed. */
  lemma {:induction false} DecodeSlotsExtends(s: seq<byte>, slots: nat, more: seq<byte>)
    requires DecodeSlots(s, slots).Ok?
    ensures DecodeSlots(s + more, slots)
         == Ok((DecodeSlots(s, slots).value.0, DecodeSlots(s, slots).value.1 + more))
    decreases slots
  {
    if slots > 0 {
      assert (s + more)[1..] == s[1..] + more;
      if s[0] >= 0x80 {
        DecodeSlotsExtends(s[1..], slots - 1, more);
      }
    }
  }

  /** A byte string, of any length a slice can have, followed by any bytes reads back as
      itself if and only if it is within the size limit; a longer one is refused. */
  lemma StringRoundTripIff(value: seq<byte>, rest: seq<byte>)
    requires |value| < TWO63
    ensures DecodeString(StringBytes(value) + rest)
         == if |value| <= MAX_STRING then Ok((value, rest)) else Err(StringTooLarge)
  {
    VarintRoundTripIff(|value|, value + rest);
    ConcatAssoc(Varint(|value|), value, rest);
  }
}
