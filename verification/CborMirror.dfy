/** The inverse of the CBOR encoder, for proofs about encodings. It is the decoder of
    crates/anasemble-core/src/cbor.rs but for negative integers: this one reads an argument
    `n` of major type 1 as -1 - n, as section 3.1 of RFC 8949 does and the program does not. */
module CborMirror {
  import opened Basics
  import opened Bytes
  import opened Cbor

  function Invert(b: seq<Byte>, depth: nat): (r: Parse<Value>)
    ensures r.Some? ==> |r.value.1| < |b|
    decreases |b|, 0
  {
    if depth > MAX_DEPTH || b == [] then None
    else
      var first, rest := b[0], b[1..];
      if first == 0xF4 then Some((Bool(false), rest))
      else if first == 0xF5 then Some((Bool(true), rest))
      else if first == 0xF6 then Some((Null, rest))
      else if first == 0xFB then
        if |rest| < 8 || !Finite(rest[..8]) then None else Some((Float(rest[..8]), rest[8..]))
      else
        match TakeArgument(first, rest)
        case None => None
        case Some((n, tail)) =>
          match first / 32
          case 0 => Some((Int(n), tail))
          case 1 => if n >= I64_LIMIT then None else Some((Int(-1 - n), tail))
          case 3 =>
            if n > |tail| || !Utf8(tail[..n]) then None else Some((Str(tail[..n]), tail[n..]))
          case 4 =>
            (match InvertItems(n, tail, depth + 1)
             case None => None
             case Some((items, end)) => Some((Array(items), end)))
          case 5 =>
            (match InvertEntries(n, tail, depth + 1, None)
             case None => None
             case Some((entries, end)) => Some((Object(entries), end)))
          case _ => None
  }

  function InvertItems(n: nat, b: seq<Byte>, depth: nat): (r: Parse<seq<Value>>)
    ensures r.Some? ==> |r.value.0| == n && |r.value.1| <= |b|
    decreases |b|, 2
  {
    if n == 0 then Some(([], b))
    else
      match Invert(b, depth)
      case None => None
      case Some((item, next)) =>
        match InvertItems(n - 1, next, depth)
        case None => None
        case Some((items, end)) => Some(([item] + items, end))
  }

  /** Entries, each key strictly above `last`. */
  function InvertEntries(n: nat, b: seq<Byte>, depth: nat, last: Option<Text>): (r: Parse<seq<Entry>>)
    ensures r.Some? ==> |r.value.0| == n && |r.value.1| <= |b|
    decreases |b|, 2
  {
    if n == 0 then Some(([], b))
    else
      match InvertEntry(b, depth, last)
      case None => None
      case Some((entry, next)) =>
        match InvertEntries(n - 1, next, depth, Some(entry.key))
        case None => None
        case Some((entries, end)) => Some(([entry] + entries, end))
  }

  function InvertEntry(b: seq<Byte>, depth: nat, last: Option<Text>): (r: Parse<Entry>)
    ensures r.Some? ==> |r.value.1| < |b|
    decreases |b|, 1
  {
    match Invert(b, depth)
    case None => None
    case Some((key, next)) =>
      if !key.Str? || (last.Some? && !TextLess(last.value, key.text)) then None
      else
        match Invert(next, depth)
        case None => None
        case Some((value, end)) => Some((Entry(key.text, value), end))
  }
}
