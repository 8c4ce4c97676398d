/** Canonical CBOR (crates/anasemble-core/src/cbor.rs): values, encoder and decoder as
    functions. Heads follow section 3 of RFC 8949 and, when written, the shortest-argument
    rule of its section 4.2.1. Every refusal is the same kind of error, so results are options. */
module Cbor {
  import opened Basics
  import opened Bytes

  const MAX_DEPTH: nat := 16
  const MAX_FRAME: nat := 1_048_576
  const I64_LIMIT: int := 0x8000_0000_0000_0000

  /** A JSON tree. An integer is a u64 or a negative i64; a float is its eight bytes; an
      object lists its entries in key order, as its ordered map iterates. */
  datatype Value =
    | Null
    | Bool(b: bool)
    | Int(n: int)
    | Float(bits: seq<Byte>)
    | Str(text: Text)
    | Array(items: seq<Value>)
    | Object(entries: seq<Entry>)

  datatype Entry = Entry(key: Text, value: Value)

  /** Not infinite and not a NaN: the exponent is not all ones. */
  predicate Finite(bits: seq<Byte>)
    requires |bits| == 8
  {
    (bits[0] as int % 0x80) * 0x10 + bits[1] as int / 0x10 != 0x7FF
  }

  predicate FitText(s: Text) {
    Utf8(s) && |s| < U64_LIMIT
  }

  predicate Sorted(entries: seq<Entry>) {
    forall k :: 0 <= k < |entries| - 1 ==> TextLess(entries[k].key, entries[k + 1].key)
  }

  /** What the source's types promise of a tree. */
  predicate Fits(v: Value) {
    match v
    case Null => true
    case Bool(_) => true
    case Int(n) => -I64_LIMIT <= n < U64_LIMIT
    case Float(bits) => |bits| == 8 && Finite(bits)
    case Str(s) => FitText(s)
    case Array(items) => |items| < U64_LIMIT && forall k :: 0 <= k < |items| ==> Fits(items[k])
    case Object(entries) =>
      && |entries| < U64_LIMIT && Sorted(entries)
      && forall k :: 0 <= k < |entries| ==> FitText(entries[k].key) && Fits(entries[k].value)
  }

  // ----- Encoding -----

  function Head(major: nat, n: nat): (b: seq<Byte>)
    requires major < 8
    ensures |b| >= 1
  {
    if n < 24 then [major * 32 + n]
    else if n < 0x100 then [major * 32 + 24, n]
    else if n < 0x1_0000 then [major * 32 + 25] + BigEndian(n, 2)
    else if n < U32_LIMIT then [major * 32 + 26] + BigEndian(n, 4)
    else [major * 32 + 27] + BigEndian(n, 8)
  }

  function EncodeText(s: Text): seq<Byte> {
    Head(3, |s|) + s
  }

  function EncodeInt(n: int): seq<Byte> {
    if n >= 0 then Head(0, n) else Head(1, -n - 1)
  }

  function Join(a: Option<seq<Byte>>, b: Option<seq<Byte>>): Option<seq<Byte>> {
    if a.Some? && b.Some? then Some(a.value + b.value) else None
  }

  function Encode(v: Value, depth: nat): Option<seq<Byte>>
    decreases v, 1
  {
    if depth > MAX_DEPTH then None
    else
      match v
      case Null => Some([0xF6])
      case Bool(b) => Some([if b then 0xF5 else 0xF4])
      case Int(n) => Some(EncodeInt(n))
      case Float(bits) => if |bits| == 8 && Finite(bits) then Some([0xFB] + bits) else None
      case Str(s) => Some(EncodeText(s))
      case Array(items) => Join(Some(Head(4, |items|)), EncodeItems(items, depth + 1))
      case Object(entries) => Join(Some(Head(5, |entries|)), EncodeEntries(entries, depth + 1))
  }

  function EncodeItems(items: seq<Value>, depth: nat): Option<seq<Byte>>
    decreases items, 0
  {
    if items == [] then Some([])
    else Join(Encode(items[0], depth), EncodeItems(items[1..], depth))
  }

  function EncodeEntries(entries: seq<Entry>, depth: nat): Option<seq<Byte>>
    decreases entries, 0
  {
    if entries == [] then Some([])
    else
      Join(Some(EncodeText(entries[0].key)),
           Join(Encode(entries[0].value, depth), EncodeEntries(entries[1..], depth)))
  }

  // ----- Decoding -----

  type Parse<T> = Option<(T, seq<Byte>)>

  /** The argument of a head whose first byte was already taken. */
  function TakeArgument(first: Byte, rest: seq<Byte>): (r: Parse<nat>)
    ensures r.Some? ==> |r.value.1| <= |rest| && r.value.0 < U64_LIMIT
  {
    var low := first % 32;
    if low < 24 then Some((low, rest))
    else
      var width := if low == 24 then 1 else if low == 25 then 2 else if low == 26 then 4 else 8;
      if low > 27 || |rest| < width then None
      else
        Widths();
        FromBigEndianExact(rest[..width]);
        Some((FromBigEndian(rest[..width]), rest[width..]))
  }

  /** A negative integer is read as the program computes it: its minus sign applies to the
      checked difference 1 - n, which never overflows for an n that fits an i64. */
  function Decode(b: seq<Byte>, depth: nat): (r: Parse<Value>)
    ensures r.Some? ==> |r.value.1| < |b|
    decreases |b|, 0
  {
    if depth > MAX_DEPTH || b == [] then None
    else
      var first, rest := b[0], b[1..];
      if first == 0xF4 then Some((Bool(false), rest))
      else if first == 0xF5 then Some((Bool(true), rest))
      else if first == 0xF6 then Some((Null, rest))
      else if first == 0xFB then
        if |rest| < 8 || !Finite(rest[..8]) then None else Some((Float(rest[..8]), rest[8..]))
      else
        match TakeArgument(first, rest)
        case None => None
        case Some((n, tail)) =>
          match first / 32
          case 0 => Some((Int(n), tail))
          case 1 => if n >= I64_LIMIT then None else Some((Int(-(1 - n)), tail))
          case 3 =>
            if n > |tail| || !Utf8(tail[..n]) then None else Some((Str(tail[..n]), tail[n..]))
          case 4 =>
            (match DecodeItems(n, tail, depth + 1)
             case None => None
             case Some((items, end)) => Some((Array(items), end)))
          case 5 =>
            (match DecodeEntries(n, tail, depth + 1, None)
             case None => None
             case Some((entries, end)) => Some((Object(entries), end)))
          case _ => None
  }

  function DecodeItems(n: nat, b: seq<Byte>, depth: nat): (r: Parse<seq<Value>>)
    ensures r.Some? ==> |r.value.0| == n && |r.value.1| <= |b|
    decreases |b|, 2
  {
    if n == 0 then Some(([], b))
    else
      match Decode(b, depth)
      case None => None
      case Some((item, next)) =>
        match DecodeItems(n - 1, next, depth)
        case None => None
        case Some((items, end)) => Some(([item] + items, end))
  }

  /** Entries, each key strictly above `last`. */
  function DecodeEntries(n: nat, b: seq<Byte>, depth: nat, last: Option<Text>): (r: Parse<seq<Entry>>)
    ensures r.Some? ==> |r.value.0| == n && |r.value.1| <= |b|
    decreases |b|, 2
  {
    if n == 0 then Some(([], b))
    else
      match DecodeEntry(b, depth, last)
      case None => None
      case Some((entry, next)) =>
        match DecodeEntries(n - 1, next, depth, Some(entry.key))
        case None => None
        case Some((entries, end)) => Some(([entry] + entries, end))
  }

  function DecodeEntry(b: seq<Byte>, depth: nat, last: Option<Text>): (r: Parse<Entry>)
    ensures r.Some? ==> |r.value.1| < |b|
    decreases |b|, 1
  {
    match Decode(b, depth)
    case None => None
    case Some((key, next)) =>
      if !key.Str? || (last.Some? && !TextLess(last.value, key.text)) then None
      else
        match Decode(next, depth)
        case None => None
        case Some((value, end)) => Some((Entry(key.text, value), end))
  }

  /** `encode_canonical_cbor`, from the JSON tree on. */
  function EncodeCanonical(v: Value): Option<seq<Byte>> {
    match Encode(v, 0)
    case None => None
    case Some(e) => if |e| > MAX_FRAME then None else Some(e)
  }

  function DecodeToJson(b: seq<Byte>): Option<Value> {
    match Decode(b, 0)
    case None => None
    case Some((v, rest)) => if rest == [] then Some(v) else None
  }
}
