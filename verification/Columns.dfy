/** The values of one column on the wire.

    Null masks, fixed-width and text cells, offsets of arrays and maps, and tuples field by
    field. */
module Columns {
  import opened Common
  import opened Wire
  import B = Batches

  type Bytes = seq<byte>
  type Cells = seq<Option<Bytes>>

  // ---------------------------------------------------------------------------
  // Types
  // ---------------------------------------------------------------------------

  /** Fixed-width values by their Arrow bytes: as they are; UUIDs, whose halves are written
      in exchange; IPv4 addresses, read as a number and so in reverse; 256-bit integers,
      reversed both ways; enums, by name. */
  datatype Form =
    | Int32
    | Plain(bytes: nat)
    | Uuid
    | Ipv4
    | Int256
    | Enum(bytes: nat, pairs: seq<(Bytes, int)>)

  datatype ColType =
    | Fixed(form: Form)
    | Text
    | Nullable(inner: ColType)
    | Array(inner: ColType)
    | Tuple(items: seq<ColType>)
    | Map(key: ColType, value: ColType)

  function Width(form: Form): nat {
    match form
    case Int32 => 4
    case Plain(n) => n
    case Uuid => 16
    case Ipv4 => 4
    case Int256 => 32
    case Enum(n, _) => n
  }

  /** The array types of leaves, numbered. */
  function Kind(t: ColType): nat {
    match t
    case Fixed(form) =>
      (match form
       case Int32 => 1
       case Plain(_) => 2
       case Uuid => 3
       case Ipv4 => 4
       case Int256 => 5
       case Enum(_, _) => 6)
    case _ => 0
  }

  function Zeros(n: nat): Bytes {
    seq(n, _ => 0)
  }

  function Reversed(s: Bytes): (r: Bytes)
    ensures |r| == |s|
  {
    seq(|s|, i requires 0 <= i < |s| => s[|s| - 1 - i])
  }

  /** The number of a name: the last pair of that name, as the lookup table keeps it. */
  function NumberOf(pairs: seq<(Bytes, int)>, name: Bytes): Option<int> {
    if pairs == [] then None
    else if NumberOf(pairs[1..], name).Some? then NumberOf(pairs[1..], name)
    else if pairs[0].0 == name then Some(pairs[0].1)
    else None
  }

  /** The name of a number: the first pair of that number. */
  function NameOf(pairs: seq<(Bytes, int)>, number: int): Option<Bytes> {
    if pairs == [] then None
    else if pairs[0].1 == number then Some(pairs[0].0)
    else NameOf(pairs[1..], number)
  }

  /** A signed number of `n` bytes. */
  function Signed(bs: Bytes): int {
    if 2 * FromLE(bs) < Pow256(|bs|) then FromLE(bs) else FromLE(bs) - Pow256(|bs|)
  }

  // ---------------------------------------------------------------------------
  // One cell
  // ---------------------------------------------------------------------------

  /** The bytes of a cell that is not null; `None` if it cannot be written. */
  function Put(form: Form, cell: Bytes): (r: Option<Bytes>)
    requires form.Enum? || |cell| == Width(form)
    ensures r.Some? ==> |r.value| == Width(form)
  {
    match form
    case Uuid => Some(cell[8..] + cell[..8])
    case Int256 => Some(Reversed(cell))
    case Enum(n, pairs) =>
      (match NumberOf(pairs, cell)
       case None => None
       case Some(number) => Some(LE(number % Pow256(n), n)))
    case _ => Some(cell)
  }

  function Get(form: Form, raw: Bytes): Option<Bytes> {
    match form
    case Ipv4 => Some(Reversed(raw))
    case Int256 => Some(Reversed(raw))
    case Enum(_, pairs) => NameOf(pairs, Signed(raw))
    case _ => Some(raw)
  }

  predicate FitsForm(form: Form, cell: Option<Bytes>) {
    cell.Some? && !form.Enum? ==> |cell.value| == Width(form)
  }

  /** Nulls are written as zeros, whatever the type. */
  function PutCell(form: Form, cell: Option<Bytes>): (r: Option<Bytes>)
    requires FitsForm(form, cell)
    ensures r.Some? ==> |r.value| == Width(form)
  {
    if cell.None? then Some(Zeros(Width(form))) else Put(form, cell.value)
  }

  /** A masked cell is read and dropped. */
  function GetCell(form: Form, masked: bool, raw: Bytes): Option<Option<Bytes>> {
    if masked then Some(None)
    else
      match Get(form, raw)
      case None => None
      case Some(cell) => Some(Some(cell))
  }

  function Masked(mask: Bytes, i: nat): bool
    requires mask == [] || i < |mask|
  {
    mask != [] && mask[i] != 0
  }

  // ---------------------------------------------------------------------------
  // Writing
  // ---------------------------------------------------------------------------

  /** The array has the layout of the type. */
  predicate Shaped(t: ColType, a: B.Arr)
    decreases t
  {
    match t
    case Fixed(form) => a.Leaf? && a.kind == Kind(t) && forall i | 0 <= i < |a.cells| :: FitsForm(form, a.cells[i])
    case Text => a.Leaf? && a.kind == Kind(t) && forall i | 0 <= i < |a.cells| :: a.cells[i].Some? ==> |a.cells[i].value| <= MAX_STRING
    case Nullable(x) => !x.Nullable? && !x.Array? && !x.Map? && Shaped(x, a)
    case Array(x) => a.List? && Small(a.offsets) && Shaped(x, a.child)
    case Tuple(items) =>
      a.Record? && items != [] && |items| == |a.fields| && forall k | 0 <= k < |items| :: Shaped(items[k], a.fields[k])
    case Map(k, v) => a.Map? && Small(a.offsets) && Shaped(k, a.keys) && Shaped(v, a.values)
  }

  /** Arrow offsets are 32-bit signed. */
  predicate Small(offsets: seq<nat>) {
    forall i | 0 <= i < |offsets| :: offsets[i] < 0x8000_0000
  }

  function PutCells(form: Form, cells: Cells): Option<Bytes>
    requires forall i | 0 <= i < |cells| :: FitsForm(form, cells[i])
  {
    if cells == [] then Some([])
    else
      match PutCell(form, cells[0])
      case None => None
      case Some(bytes) =>
        match PutCells(form, cells[1..])
        case None => None
        case Some(rest) => Some(bytes + rest)
  }

  function TextOf(cell: Option<Bytes>): Bytes {
    if cell.None? then [] else cell.value
  }

  function PutTexts(cells: Cells): Bytes {
    if cells == [] then [] else StringBytes(TextOf(cells[0])) + PutTexts(cells[1..])
  }

  /** One byte a row, 1 for null. */
  function Mask(a: B.Arr): (m: Bytes)
    ensures |m| == |Present(a)|
  {
    seq(|Present(a)|, i requires 0 <= i < |Present(a)| => if Present(a)[i] then 0 else 1)
  }

  function Present(a: B.Arr): seq<bool> {
    match a
    case Leaf(_, cells) => seq(|cells|, i requires 0 <= i < |cells| => cells[i].Some?)
    case List(valid, _, _) => valid
    case Record(valid, _) => valid
    case Map(valid, _, _, _) => valid
    case _ => []
  }

  function OffsetBytes(offsets: seq<nat>): Bytes {
    if offsets == [] then [] else LE(offsets[0], 8) + OffsetBytes(offsets[1..])
  }

  /** Running totals of the lengths of map rows. */
  function Totals(offsets: seq<nat>): seq<nat>
    requires offsets != [] && forall i | 0 <= i < |offsets| :: offsets[0] <= offsets[i]
  {
    seq(|offsets| - 1, i requires 0 <= i < |offsets| - 1 => offsets[i + 1] - offsets[0])
  }

  lemma OrderedFromFirst(offsets: seq<nat>, rows: nat, end: nat, i: nat)
    requires B.Ordered(offsets, rows, end) && i <= rows
    ensures offsets[0] <= offsets[i]
  {
    if i > 0 { OrderedFromFirst(offsets, rows, end, i - 1); }
  }

  /** `serialize`. A list writes its offsets but the first, then its whole child; a map the
      running totals of its lengths, then its whole children. */
  function Encode(t: ColType, a: B.Arr): Option<Bytes>
    requires Shaped(t, a) && B.Valid(a)
    decreases t
  {
    match t
    case Fixed(form) => PutCells(form, a.cells)
    case Text => Some(PutTexts(a.cells))
    case Nullable(x) =>
      (match Encode(x, a)
       case None => None
       case Some(bytes) => Some(Mask(a) + bytes))
    case Array(x) =>
      (match Encode(x, a.child)
       case None => None
       case Some(bytes) => Some(OffsetBytes(a.offsets[1..]) + bytes))
    case Tuple(items) => EncodeAll(items, a.fields)
    case Map(k, v) =>
      match Encode(k, a.keys)
      case None => None
      case Some(ks) =>
        match Encode(v, a.values)
        case None => None
        case Some(vs) =>
          forall i | 0 <= i < |a.offsets| ensures a.offsets[0] <= a.offsets[i] {
            OrderedFromFirst(a.offsets, |a.valid|, B.Len(a.keys), i);
          }
          Some(OffsetBytes(Totals(a.offsets)) + (ks + vs))
  }

  function EncodeAll(items: seq<ColType>, fields: seq<B.Arr>): Option<Bytes>
    requires |items| == |fields| && forall k | 0 <= k < |items| :: Shaped(items[k], fields[k]) && B.Valid(fields[k])
    decreases items
  {
    if items == [] then Some([])
    else
      match Encode(items[0], fields[0])
      case None => None
      case Some(bytes) =>
        match EncodeAll(items[1..], fields[1..])
        case None => None
        case Some(rest) => Some(bytes + rest)
  }

  // ---------------------------------------------------------------------------
  // Reading
  // ---------------------------------------------------------------------------

  type Read<T> = Option<(T, Bytes)>

  /** The cells from row `i` on. */
  function GetCells(form: Form, rows: nat, mask: Bytes, i: nat, bytes: Bytes): Read<Cells>
    requires i <= rows && (mask == [] || |mask| == rows)
    decreases rows - i
  {
    if i == rows then Some(([], bytes))
    else if |bytes| < Width(form) then None
    else
      match GetCell(form, Masked(mask, i), bytes[..Width(form)])
      case None => None
      case Some(cell) =>
        match GetCells(form, rows, mask, i + 1, bytes[Width(form)..])
        case None => None
        case Some((cells, rest)) => Some(([cell] + cells, rest))
  }

  function GetTexts(rows: nat, mask: Bytes, i: nat, bytes: Bytes): Read<Cells>
    requires i <= rows && (mask == [] || |mask| == rows)
    decreases rows - i
  {
    if i == rows then Some(([], bytes))
    else
      match DecodeString(bytes)
      case Err(_) => None
      case Ok((text, after)) =>
        match GetTexts(rows, mask, i + 1, after)
        case None => None
        case Some((cells, rest)) => Some(([if Masked(mask, i) then None else Some(text)] + cells, rest))
  }

  function GetOffsets(rows: nat, bytes: Bytes): (r: Read<seq<nat>>)
    ensures r.Some? ==> |r.value.0| == rows
  {
    if rows == 0 then Some(([], bytes))
    else if |bytes| < 8 then None
    else
      match GetOffsets(rows - 1, bytes[8..])
      case None => None
      case Some((offsets, rest)) => Some(([FromLE(bytes[..8])] + offsets, rest))
  }

  function Unmasked(mask: Bytes, rows: nat): (valid: seq<bool>)
    requires mask == [] || |mask| == rows
    ensures |valid| == rows
  {
    seq(rows, i requires 0 <= i < rows => !Masked(mask, i))
  }

  /** What the offset buffer takes: ascending 32-bit offsets from zero. */
  predicate Offsets(offsets: seq<nat>) {
    Small(offsets) && forall i | 0 <= i < |offsets| - 1 :: offsets[i] <= offsets[i + 1]
  }

  /** The arrays used for a tuple without rows are an Int32 and a String one, whatever the
      tuple is; they make a struct of just that pair of types. */
  const EMPTY_PAIR := [Fixed(Int32), Text]

  /** `deserialize_arrow`. `None`: an error, or a panic of the Arrow library on offsets it
      does not take. */
  function Decode(t: ColType, rows: nat, mask: Bytes, bytes: Bytes): Read<B.Arr>
    requires mask == [] || |mask| == rows
    decreases t
  {
    match t
    case Fixed(form) =>
      (match GetCells(form, rows, mask, 0, bytes)
       case None => None
       case Some((cells, rest)) => Some((B.Leaf(Kind(t), cells), rest)))
    case Text =>
      (match GetTexts(rows, mask, 0, bytes)
       case None => None
       case Some((cells, rest)) => Some((B.Leaf(Kind(t), cells), rest)))
    case Nullable(x) =>
      if rows == 0 then Decode(x, 0, [], bytes)
      else if |bytes| < rows then None
      else Decode(x, rows, bytes[..rows], bytes[rows..])
    case Array(x) =>
      (match GetOffsets(rows, bytes)
       case None => None
       case Some((ends, rest)) =>
         var offsets := [0] + ends;
         if !Offsets(offsets) then None
         else
           match Decode(x, offsets[rows], [], rest)
           case None => None
           case Some((child, tail)) => Some((B.List(Unmasked(mask, rows), offsets, child), tail)))
    case Tuple(items) =>
      if rows == 0 then
        if items == EMPTY_PAIR then Some((B.Record([], [B.Leaf(1, []), B.Leaf(0, [])]), bytes)) else None
      else
        (match DecodeAll(items, rows, bytes)
         case None => None
         case Some((fields, rest)) => Some((B.Record(Unmasked(mask, rows), fields), rest)))
    case Map(k, v) =>
      match GetOffsets(rows, bytes)
      case None => None
      case Some((ends, rest)) =>
        var offsets := [0] + ends;
        if !Offsets(offsets) then None
        else
          match Decode(k, offsets[rows], [], rest)
          case None => None
          case Some((keys, after)) =>
            match Decode(v, offsets[rows], [], after)
            case None => None
            case Some((values, tail)) => Some((B.Map(Unmasked(mask, rows), offsets, keys, values), tail))
  }

  function DecodeAll(items: seq<ColType>, rows: nat, bytes: Bytes): (r: Read<seq<B.Arr>>)
    ensures r.Some? ==> |r.value.0| == |items|
    decreases items
  {
    if items == [] then Some(([], bytes))
    else
      match Decode(items[0], rows, [], bytes)
      case None => None
      case Some((field, after)) =>
        match DecodeAll(items[1..], rows, after)
        case None => None
        case Some((fields, rest)) => Some(([field] + fields, rest))
  }

  // ---------------------------------------------------------------------------
  // The fill loops
  // ---------------------------------------------------------------------------

  /** A builder with a reader beside it, filled row by row. */
  class Filler {
    var cells: Cells
    var unread: Bytes

    constructor (bytes: Bytes)
      ensures cells == [] && unread == bytes
    {
      cells := [];
      unread := bytes;
    }

    method FillFixed(form: Form, rows: nat, mask: Bytes) returns (ok: bool)
      requires mask == [] || |mask| == rows
      modifies this
      ensures match GetCells(form, rows, mask, 0, old(unread))
              case None => !ok
              case Some((read, rest)) => ok && cells == old(cells) + read && unread == rest
    {
      for i := 0 to rows
        invariant Filled(GetCells(form, rows, mask, 0, old(unread)), old(cells), cells, GetCells(form, rows, mask, i, unread))
      {
        if |unread| < Width(form) {
          return false;
        }
        var raw := unread[..Width(form)];
        var cell := GetCell(form, Masked(mask, i), raw);
        if cell.None? {
          return false;
        }
        FilledStep(GetCells(form, rows, mask, 0, old(unread)), old(cells), cells, cell.value,
          GetCells(form, rows, mask, i + 1, unread[Width(form)..]));
        unread := unread[Width(form)..];
        cells := cells + [cell.value];
      }
      FilledEnd(GetCells(form, rows, mask, 0, old(unread)), old(cells), cells, unread);
      return true;
    }

    method FillTexts(rows: nat, mask: Bytes) returns (ok: bool)
      requires mask == [] || |mask| == rows
      modifies this
      ensures match GetTexts(rows, mask, 0, old(unread))
              case None => !ok
              case Some((read, rest)) => ok && cells == old(cells) + read && unread == rest
    {
      for i := 0 to rows
        invariant Filled(GetTexts(rows, mask, 0, old(unread)), old(cells), cells, GetTexts(rows, mask, i, unread))
      {
        var read := DecodeString(unread);
        if read.Err? {
          return false;
        }
        var (text, after) := read.value;
        var cell := if Masked(mask, i) then None else Some(text);
        FilledStep(GetTexts(rows, mask, 0, old(unread)), old(cells), cells, cell, GetTexts(rows, mask, i + 1, after));
        unread := after;
        cells := cells + [cell];
      }
      FilledEnd(GetTexts(rows, mask, 0, old(unread)), old(cells), cells, unread);
      return true;
    }
  }

  ghost predicate Filled(whole: Read<Cells>, before: Cells, now: Cells, rest: Read<Cells>) {
    match rest
    case None => whole.None?
    case Some((more, tail)) => whole.Some? && before + whole.value.0 == now + more && whole.value.1 == tail
  }

  lemma FilledStep(whole: Read<Cells>, before: Cells, now: Cells, cell: Option<Bytes>, rest: Read<Cells>)
    ensures var one := if rest.None? then None else Some(([cell] + rest.value.0, rest.value.1));
            Filled(whole, before, now, one) ==> Filled(whole, before, now + [cell], rest)
  {
    if rest.Some? { ConcatAssoc(now, [cell], rest.value.0); }
  }

  lemma FilledEnd(whole: Read<Cells>, before: Cells, now: Cells, tail: Bytes)
    requires Filled(whole, before, now, Some(([], tail)))
    ensures whole.Some? && now == before + whole.value.0 && whole.value.1 == tail
  {
    assert now + [] == now;
  }
}
