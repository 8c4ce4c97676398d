/** The decoder that takes canonical bytes alone, and what it adds to the decoder of
    crates/anasemble-core/src/cbor.rs: the shortest-argument rule of section 4.2.1 of RFC 8949,
    and the refusal of negative integers that are not read as they are written. These two are
    all that keeps accepted bytes from being canonical. */
module CborStrict {
  import opened Basics
  import opened Bytes
  import opened Cbor
  import opened CborDecoded
  import opened CborMirror
  import opened CborProofs

  /** No narrower width holds the argument. */
  predicate Minimal(first: Byte, n: nat) {
    var low := first % 32;
    || low < 24
    || n >= (if low == 24 then 24 else if low == 25 then 0x100 else if low == 26 then 0x1_0000 else U32_LIMIT)
  }

  function StrictDecode(b: seq<Byte>, depth: nat): (r: Parse<Value>)
    ensures r.Some? ==> |r.value.1| < |b|
    decreases |b|, 0
  {
    if depth > MAX_DEPTH || b == [] then None
    else
      var first, rest := b[0], b[1..];
      if first == 0xF4 then Some((Bool(false), rest))
      else if first == 0xF5 then Some((Bool(true), rest))
      else if first == 0xF6 then Some((Null, rest))
      else if first == 0xFB then
        if |rest| < 8 || !Finite(rest[..8]) then None else Some((Float(rest[..8]), rest[8..]))
      else
        match TakeArgument(first, rest)
        case None => None
        case Some((n, tail)) =>
          if !Minimal(first, n) then None
          else
            match first / 32
            case 0 => Some((Int(n), tail))
            case 1 => if n > 0 then None else Some((Int(-1), tail))
            case 3 =>
              if n > |tail| || !Utf8(tail[..n]) then None else Some((Str(tail[..n]), tail[n..]))
            case 4 =>
              (match StrictItems(n, tail, depth + 1)
               case None => None
               case Some((items, end)) => Some((Array(items), end)))
            case 5 =>
              (match StrictEntries(n, tail, depth + 1, None)
               case None => None
               case Some((entries, end)) => Some((Object(entries), end)))
            case _ => None
  }

  function StrictItems(n: nat, b: seq<Byte>, depth: nat): (r: Parse<seq<Value>>)
    ensures r.Some? ==> |r.value.1| <= |b|
    decreases |b|, 2
  {
    if n == 0 then Some(([], b))
    else
      match StrictDecode(b, depth)
      case None => None
      case Some((item, next)) =>
        match StrictItems(n - 1, next, depth)
        case None => None
        case Some((items, end)) => Some(([item] + items, end))
  }

  function StrictEntries(n: nat, b: seq<Byte>, depth: nat, last: Option<Text>): (r: Parse<seq<Entry>>)
    ensures r.Some? ==> |r.value.1| <= |b|
    decreases |b|, 2
  {
    if n == 0 then Some(([], b))
    else
      match StrictEntry(b, depth, last)
      case None => None
      case Some((entry, next)) =>
        match StrictEntries(n - 1, next, depth, Some(entry.key))
        case None => None
        case Some((entries, end)) => Some(([entry] + entries, end))
  }

  function StrictEntry(b: seq<Byte>, depth: nat, last: Option<Text>): (r: Parse<Entry>)
    ensures r.Some? ==> |r.value.1| < |b|
    decreases |b|, 1
  {
    match StrictDecode(b, depth)
    case None => None
    case Some((key, next)) =>
      if !key.Str? || (last.Some? && !TextLess(last.value, key.text)) then None
      else
        match StrictDecode(next, depth)
        case None => None
        case Some((value, end)) => Some((Entry(key.text, value), end))
  }

  function StrictToJson(b: seq<Byte>): Option<Value> {
    match StrictDecode(b, 0)
    case None => None
    case Some((v, rest)) => if rest == [] then Some(v) else None
  }

  // ----- The strict decoder takes exactly what is as short as its re-encoding -----

  /** A head is minimal exactly when it is as long as the one that would be written. */
  lemma MinimalIsShortest(b: seq<Byte>)
    requires b != [] && TakeArgument(b[0], b[1..]).Some?
    ensures var (n, rest) := TakeArgument(b[0], b[1..]).value;
            Minimal(b[0], n) <==> |Head(b[0] / 32, n)| == |b| - |rest|
  {
    hide FromBigEndian, Pow;
    var (n, rest) := TakeArgument(b[0], b[1..]).value;
    var low := b[0] % 32;
    Widths();
    if low >= 24 {
      FromBigEndianExact(b[1..][..|b| - |rest| - 1]);
    }
  }

  predicate ClearItems(items: seq<Value>) {
    forall k :: 0 <= k < |items| ==> NoneBelow(items[k])
  }

  predicate ClearEntries(entries: seq<Entry>) {
    forall k :: 0 <= k < |entries| ==> NoneBelow(entries[k].value)
  }

  lemma ClearFirstItem(items: seq<Value>)
    requires items != []
    ensures ClearItems(items) <==> NoneBelow(items[0]) && ClearItems(items[1..])
  {
    assert items == [items[0]] + items[1..];
  }

  lemma ClearFirstEntry(entries: seq<Entry>)
    requires entries != []
    ensures ClearEntries(entries) <==> NoneBelow(entries[0].value) && ClearEntries(entries[1..])
  {
    assert entries == [entries[0]] + entries[1..];
  }

  /** Agreement on one parse: the strict one is the inverse of the encoder or nothing, and it is
      that inverse exactly when the re-encoding `e` of what was inverted is no shorter than what
      was read and holds no integer below -1. */
  ghost predicate Agrees<T>(strict: Parse<T>, inverse: Parse<T>, e: Option<seq<Byte>>, clear: bool, b: seq<Byte>) {
    && (strict.Some? ==> strict == inverse)
    && (inverse.Some? ==> e.Some? && (strict.Some? <==> |e.value| == |b| - |inverse.value.1| && clear))
  }

  ghost predicate ValueAgrees(b: seq<Byte>, depth: nat) {
    var inverse := Invert(b, depth);
    Agrees(StrictDecode(b, depth), inverse, if inverse.Some? then Encode(inverse.value.0, depth) else None,
           inverse.Some? && NoneBelow(inverse.value.0), b)
  }

  ghost predicate ItemsAgree(n: nat, b: seq<Byte>, depth: nat) {
    var inverse := InvertItems(n, b, depth);
    Agrees(StrictItems(n, b, depth), inverse, if inverse.Some? then EncodeItems(inverse.value.0, depth) else None,
           inverse.Some? && ClearItems(inverse.value.0), b)
  }

  ghost predicate EntriesAgree(n: nat, b: seq<Byte>, depth: nat, last: Option<Text>) {
    var inverse := InvertEntries(n, b, depth, last);
    Agrees(StrictEntries(n, b, depth, last), inverse,
           if inverse.Some? then EncodeEntries(inverse.value.0, depth) else None,
           inverse.Some? && ClearEntries(inverse.value.0), b)
  }

  ghost predicate EntryAgrees(b: seq<Byte>, depth: nat, last: Option<Text>) {
    var inverse := InvertEntry(b, depth, last);
    Agrees(StrictEntry(b, depth, last), inverse,
           if inverse.Some? then Join(Some(EncodeText(inverse.value.0.key)), Encode(inverse.value.0.value, depth)) else None,
           inverse.Some? && NoneBelow(inverse.value.0.value), b)
  }

  lemma {:induction false} StrictAgrees(b: seq<Byte>, depth: nat)
    ensures ValueAgrees(b, depth)
    decreases |b|, 0
  {
    hide Head, TakeArgument, Minimal, Fits, Utf8, Finite, InvertItems, StrictItems, InvertEntries, StrictEntries,
      EncodeItems, EncodeEntries;
    if Invert(b, depth).Some? {
      InvertedStands(b, depth);
    }
    if b != [] && depth <= MAX_DEPTH && b[0] !in {0xF4, 0xF5, 0xF6, 0xFB} && TakeArgument(b[0], b[1..]).Some? {
      var (n, tail) := TakeArgument(b[0], b[1..]).value;
      MinimalIsShortest(b);
      HeadShortest(b);
      if b[0] / 32 == 4 {
        StrictItemsAgree(n, tail, depth + 1);
        if Invert(b, depth).Some? {
          ItemsStand(n, tail, depth + 1);
        }
      } else if b[0] / 32 == 5 {
        StrictEntriesAgree(n, tail, depth + 1, None);
        if Invert(b, depth).Some? {
          EntriesStand(n, tail, depth + 1, None);
        }
      }
    }
  }

  lemma {:induction false} StrictItemsAgree(n: nat, b: seq<Byte>, depth: nat)
    ensures ItemsAgree(n, b, depth)
    decreases |b|, 2
  {
    hide Invert, StrictDecode, Encode, Fits, NoneBelow;
    if n > 0 {
      StrictAgrees(b, depth);
      if Invert(b, depth).Some? {
        var (item, next) := Invert(b, depth).value;
        InvertedStands(b, depth);
        StrictItemsAgree(n - 1, next, depth);
        if InvertItems(n - 1, next, depth).Some? {
          ItemsStand(n - 1, next, depth);
          var items := InvertItems(n, b, depth).value.0;
          assert items[1..] == InvertItems(n - 1, next, depth).value.0;
          ClearFirstItem(items);
        }
      }
    }
  }

  lemma {:induction false} StrictEntriesAgree(n: nat, b: seq<Byte>, depth: nat, last: Option<Text>)
    ensures EntriesAgree(n, b, depth, last)
    decreases |b|, 2
  {
    hide Invert, StrictDecode, InvertEntry, StrictEntry, Encode, EncodeText, Fits, FitText, TextLess, NoneBelow;
    if n > 0 {
      StrictEntryAgrees(b, depth, last);
      if InvertEntry(b, depth, last).Some? {
        var (entry, next) := InvertEntry(b, depth, last).value;
        EntryStands(b, depth, last);
        StrictEntriesAgree(n - 1, next, depth, Some(entry.key));
        if InvertEntries(n - 1, next, depth, Some(entry.key)).Some? {
          EntriesStand(n - 1, next, depth, Some(entry.key));
          var entries := InvertEntries(n, b, depth, last).value.0;
          assert entries[1..] == InvertEntries(n - 1, next, depth, Some(entry.key)).value.0;
          ClearFirstEntry(entries);
          JoinAssociates(Some(EncodeText(entry.key)), Encode(entry.value, depth), EncodeEntries(entries[1..], depth));
        }
      }
    }
  }

  lemma {:induction false} StrictEntryAgrees(b: seq<Byte>, depth: nat, last: Option<Text>)
    ensures EntryAgrees(b, depth, last)
    decreases |b|, 1
  {
    hide Invert, StrictDecode, EncodeText, FitText, TextLess, Fits;
    StrictAgrees(b, depth);
    if Invert(b, depth).Some? {
      var (key, next) := Invert(b, depth).value;
      InvertedStands(b, depth);
      StrictAgrees(next, depth);
      if Invert(next, depth).Some? {
        InvertedStands(next, depth);
      }
    }
  }

  /** Accepted bytes are canonical if and only if they hold no padded head and no head of a
      negative integer with an argument other than 0. */
  lemma CanonicalExactly(b: seq<Byte>)
    requires |b| <= MAX_FRAME && DecodeToJson(b).Some?
    ensures EncodeCanonical(DecodeToJson(b).value) == Some(b) <==> StrictToJson(b).Some?
    ensures StrictToJson(b).Some? ==> StrictToJson(b) == DecodeToJson(b)
  {
    hide Encode, Decode, Invert, StrictDecode, Fits, Slip, NoneBelow;
    DecodeSlips(b, 0);
    var (v, rest) := Invert(b, 0).value;
    InvertedStands(b, 0);
    StrictAgrees(b, 0);
    SlipFacts(v);
    assert Encode(v, 0).value + [] == Encode(v, 0).value;
    if EncodeCanonical(Slip(v)) == Some(b) {
      InvertsEncoding(Slip(v), 0, []);
      assert b + [] == b;
    }
  }

  /** Outright: within a frame the strict decoder accepts the encodings of the trees that hold
      no integer below -1, and nothing else. */
  lemma StrictAcceptsEncodings(b: seq<Byte>, v: Value)
    requires |b| <= MAX_FRAME && Fits(v)
    ensures StrictToJson(b) == Some(v) <==> EncodeCanonical(v) == Some(b) && NoneBelow(v)
  {
    hide Encode, Invert, StrictDecode, Fits, NoneBelow;
    StrictAgrees(b, 0);
    if EncodeCanonical(v) == Some(b) {
      InvertsEncoding(v, 0, []);
      assert b + [] == b;
    }
    if StrictToJson(b) == Some(v) {
      InvertedStands(b, 0);
      assert Encode(v, 0).value + [] == Encode(v, 0).value;
    }
  }
}
