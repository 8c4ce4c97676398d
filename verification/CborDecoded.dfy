/** What the decoder of crates/anasemble-core/src/cbor.rs makes of encodings, and of any bytes:
    it inverts the encoder except on integers below -1, where it slips. */
module CborDecoded {
  import opened Basics
  import opened Bytes
  import opened Cbor
  import opened CborMirror
  import opened CborProofs

  // ----- The slip -----

  /** The tree that comes back for an encoded one: -1 - n comes back as n - 1. */
  function Slip(v: Value): Value {
    match v
    case Int(n) => if n < 0 then Int(-n - 2) else v
    case Array(items) => Array(SlipItems(items))
    case Object(entries) => Object(SlipEntries(entries))
    case _ => v
  }

  function SlipItems(items: seq<Value>): (r: seq<Value>)
    ensures |r| == |items|
  {
    if items == [] then [] else [Slip(items[0])] + SlipItems(items[1..])
  }

  function SlipEntries(entries: seq<Entry>): (r: seq<Entry>)
    ensures |r| == |entries|
    ensures forall k :: 0 <= k < |r| ==> r[k].key == entries[k].key
  {
    if entries == [] then [] else [Entry(entries[0].key, Slip(entries[0].value))] + SlipEntries(entries[1..])
  }

  /** No integer below -1 occurs in the tree. */
  predicate NoneBelow(v: Value) {
    match v
    case Int(n) => n >= -1
    case Array(items) => forall k :: 0 <= k < |items| ==> NoneBelow(items[k])
    case Object(entries) => forall k :: 0 <= k < |entries| ==> NoneBelow(entries[k].value)
    case _ => true
  }

  lemma {:induction false} SlipItemsAt(items: seq<Value>, k: nat)
    requires k < |items|
    ensures SlipItems(items)[k] == Slip(items[k])
  {
    hide Slip;
    if k > 0 {
      SlipItemsAt(items[1..], k - 1);
    }
  }

  lemma {:induction false} SlipEntriesAt(entries: seq<Entry>, k: nat)
    requires k < |entries|
    ensures SlipEntries(entries)[k] == Entry(entries[k].key, Slip(entries[k].value))
  {
    hide Slip;
    if k > 0 {
      SlipEntriesAt(entries[1..], k - 1);
    }
  }

  /** The slip leaves exactly the trees without such integers alone. */
  lemma {:induction false} SlipFixes(v: Value)
    ensures Slip(v) == v <==> NoneBelow(v)
  {
    match v {
      case Array(items) =>
        forall k | 0 <= k < |items|
          ensures SlipItems(items)[k] == items[k] <==> NoneBelow(items[k])
        {
          SlipItemsAt(items, k);
          SlipFixes(items[k]);
        }
        if NoneBelow(v) {
          assert SlipItems(items) == items;
        }
      case Object(entries) =>
        forall k | 0 <= k < |entries|
          ensures SlipEntries(entries)[k] == entries[k] <==> NoneBelow(entries[k].value)
        {
          SlipEntriesAt(entries, k);
          SlipFixes(entries[k].value);
        }
        if NoneBelow(v) {
          assert SlipEntries(entries) == entries;
        }
      case _ =>
    }
  }

  /** It makes every tree one of them. */
  lemma {:induction false} SlipClears(v: Value)
    ensures NoneBelow(Slip(v))
  {
    match v {
      case Array(items) =>
        forall k | 0 <= k < |items|
          ensures NoneBelow(SlipItems(items)[k])
        {
          SlipItemsAt(items, k);
          SlipClears(items[k]);
        }
      case Object(entries) =>
        forall k | 0 <= k < |entries|
          ensures NoneBelow(SlipEntries(entries)[k].value)
        {
          SlipEntriesAt(entries, k);
          SlipClears(entries[k].value);
        }
      case _ =>
    }
  }

  /** And it keeps what the types promise of a tree. */
  lemma {:induction false} SlipFits(v: Value)
    requires Fits(v)
    ensures Fits(Slip(v))
  {
    hide FitText, TextLess;
    match v {
      case Array(items) =>
        forall k | 0 <= k < |items|
          ensures Fits(SlipItems(items)[k])
        {
          SlipItemsAt(items, k);
          SlipFits(items[k]);
        }
      case Object(entries) =>
        forall k | 0 <= k < |entries|
          ensures SlipEntries(entries)[k].key == entries[k].key && Fits(SlipEntries(entries)[k].value)
        {
          SlipEntriesAt(entries, k);
          SlipFits(entries[k].value);
        }
      case _ =>
    }
  }

  lemma SlipFacts(v: Value)
    ensures Slip(v) == v <==> NoneBelow(v)
    ensures NoneBelow(Slip(v))
    ensures Fits(v) ==> Fits(Slip(v))
  {
    hide Slip, NoneBelow, Fits;
    SlipFixes(v);
    SlipClears(v);
    if Fits(v) {
      SlipFits(v);
    }
  }

  /** A slipped tree never takes more bytes than the one it stands for. */
  lemma {:induction false} SlipShrinks(v: Value, depth: nat)
    requires Fits(v) && Encode(v, depth).Some?
    ensures Encode(Slip(v), depth).Some? && |Encode(Slip(v), depth).value| <= |Encode(v, depth).value|
    decreases v, 1
  {
    hide FitText, TextLess, EncodeText;
    match v {
      case Array(items) => ItemsShrink(items, depth + 1);
      case Object(entries) => EntriesShrink(entries, depth + 1);
      case _ =>
    }
  }

  lemma {:induction false} ItemsShrink(items: seq<Value>, depth: nat)
    requires EncodeItems(items, depth).Some? && forall k :: 0 <= k < |items| ==> Fits(items[k])
    ensures EncodeItems(SlipItems(items), depth).Some?
    ensures |EncodeItems(SlipItems(items), depth).value| <= |EncodeItems(items, depth).value|
    decreases items, 0
  {
    hide Encode, Fits, Slip;
    if items != [] {
      SlipShrinks(items[0], depth);
      ItemsShrink(items[1..], depth);
      assert SlipItems(items)[1..] == SlipItems(items[1..]);
    }
  }

  lemma {:induction false} EntriesShrink(entries: seq<Entry>, depth: nat)
    requires EncodeEntries(entries, depth).Some? && forall k :: 0 <= k < |entries| ==> Fits(entries[k].value)
    ensures EncodeEntries(SlipEntries(entries), depth).Some?
    ensures |EncodeEntries(SlipEntries(entries), depth).value| <= |EncodeEntries(entries, depth).value|
    decreases entries, 0
  {
    hide Encode, Fits, Slip, EncodeText;
    if entries != [] {
      SlipShrinks(entries[0].value, depth);
      EntriesShrink(entries[1..], depth);
      assert SlipEntries(entries)[1..] == SlipEntries(entries[1..]);
    }
  }

  // ----- The decoder is the inverse of the encoder, followed by the slip -----

  function SlipValue(r: Parse<Value>): Parse<Value> {
    match r
    case None => None
    case Some((v, rest)) => Some((Slip(v), rest))
  }

  function SlipList(r: Parse<seq<Value>>): Parse<seq<Value>> {
    match r
    case None => None
    case Some((items, rest)) => Some((SlipItems(items), rest))
  }

  function SlipEntry(r: Parse<Entry>): Parse<Entry> {
    match r
    case None => None
    case Some((entry, rest)) => Some((Entry(entry.key, Slip(entry.value)), rest))
  }

  function SlipMap(r: Parse<seq<Entry>>): Parse<seq<Entry>> {
    match r
    case None => None
    case Some((entries, rest)) => Some((SlipEntries(entries), rest))
  }

  lemma {:induction false} DecodeSlips(b: seq<Byte>, depth: nat)
    ensures Decode(b, depth) == SlipValue(Invert(b, depth))
    decreases |b|, 0
  {
    hide TakeArgument, DecodeItems, DecodeEntries, InvertItems, InvertEntries, Utf8, Finite, SlipItems, SlipEntries;
    if b != [] && depth <= MAX_DEPTH && TakeArgument(b[0], b[1..]).Some? {
      var (n, tail) := TakeArgument(b[0], b[1..]).value;
      assert |tail| < |b|;
      if b[0] / 32 == 4 {
        ItemsSlip(n, tail, depth + 1);
      } else if b[0] / 32 == 5 {
        EntriesSlip(n, tail, depth + 1, None);
      }
    }
  }

  lemma {:induction false} ItemsSlip(n: nat, b: seq<Byte>, depth: nat)
    ensures DecodeItems(n, b, depth) == SlipList(InvertItems(n, b, depth))
    decreases |b|, 2
  {
    hide Decode, Invert, Slip;
    if n > 0 {
      DecodeSlips(b, depth);
      if Invert(b, depth).Some? {
        ItemsSlip(n - 1, Invert(b, depth).value.1, depth);
      }
    }
  }

  lemma {:induction false} EntriesSlip(n: nat, b: seq<Byte>, depth: nat, last: Option<Text>)
    ensures DecodeEntries(n, b, depth, last) == SlipMap(InvertEntries(n, b, depth, last))
    decreases |b|, 2
  {
    hide DecodeEntry, InvertEntry, Slip;
    if n > 0 {
      EntrySlips(b, depth, last);
      if InvertEntry(b, depth, last).Some? {
        var (entry, next) := InvertEntry(b, depth, last).value;
        EntriesSlip(n - 1, next, depth, Some(entry.key));
      }
    }
  }

  lemma {:induction false} EntrySlips(b: seq<Byte>, depth: nat, last: Option<Text>)
    ensures DecodeEntry(b, depth, last) == SlipEntry(InvertEntry(b, depth, last))
    decreases |b|, 1
  {
    hide Decode, Invert, TextLess;
    DecodeSlips(b, depth);
    if Invert(b, depth).Some? {
      DecodeSlips(Invert(b, depth).value.1, depth);
    }
  }

  // ----- Encode, then decode -----

  /** Decoding an encoding, with anything behind it, gives the slipped tree and what was
      behind; so it gives the tree back if and only if no integer below -1 occurs in it. */
  lemma RoundTrip(v: Value, depth: nat, rest: seq<Byte>)
    requires Fits(v) && Encode(v, depth).Some?
    ensures Decode(Encode(v, depth).value + rest, depth) == Some((Slip(v), rest))
    ensures Decode(Encode(v, depth).value + rest, depth) == Some((v, rest)) <==> NoneBelow(v)
  {
    hide Encode, Decode, Invert, Fits, Slip, NoneBelow;
    InvertsEncoding(v, depth, rest);
    DecodeSlips(Encode(v, depth).value + rest, depth);
    SlipFacts(v);
  }

  /** The same for whole frames: a tree nested at most sixteen deep whose encoding fits a frame
      comes back as it was if and only if no integer below -1 occurs in it. */
  lemma FrameRoundTrip(v: Value)
    requires Fits(v)
    ensures Encode(v, 0).Some? <==> Depth(v) <= MAX_DEPTH
    ensures EncodeCanonical(v).Some? <==> Encode(v, 0).Some? && |Encode(v, 0).value| <= MAX_FRAME
    ensures EncodeCanonical(v).Some? ==> DecodeToJson(EncodeCanonical(v).value) == Some(Slip(v))
    ensures EncodeCanonical(v).Some? ==> (DecodeToJson(EncodeCanonical(v).value) == Some(v) <==> NoneBelow(v))
  {
    hide Encode, Decode, Depth, Fits, Slip, NoneBelow;
    EncodesWithinDepth(v, 0);
    SlipFacts(v);
    if Encode(v, 0).Some? {
      RoundTrip(v, 0, []);
      assert Encode(v, 0).value + [] == Encode(v, 0).value;
    }
  }

  /** The least such trees: -2 is written as 0x21 and comes back as 0, which 0x00 stands for
      already, and the least i64 comes back as the one below the greatest. */
  lemma NegativesSlip()
    ensures EncodeCanonical(Int(-2)) == Some([0x21])
    ensures DecodeToJson([0x21]) == Some(Int(0)) == DecodeToJson([0x00])
    ensures EncodeCanonical(Int(-I64_LIMIT)).Some?
    ensures DecodeToJson(EncodeCanonical(Int(-I64_LIMIT)).value) == Some(Int(I64_LIMIT - 2))
  {
    FrameRoundTrip(Int(-2));
    FrameRoundTrip(Int(0));
    FrameRoundTrip(Int(-I64_LIMIT));
    assert EncodeCanonical(Int(0)) == Some([0x00]);
    assert |EncodeCanonical(Int(-I64_LIMIT)).value| <= 9 by {
      Widths();
    }
  }

  // ----- Decode, then encode -----

  /** Whatever is decoded re-encodes, never to more bytes, and its re-encoding decodes to it. */
  lemma DecodedReencodes(b: seq<Byte>, depth: nat)
    requires Decode(b, depth).Some?
    ensures var (v, rest) := Decode(b, depth).value;
            && Fits(v) && NoneBelow(v) && Encode(v, depth).Some?
            && |Encode(v, depth).value| <= |b| - |rest|
            && Decode(Encode(v, depth).value + rest, depth) == Some((v, rest))
  {
    hide Encode, Decode, Invert, Fits, Slip, NoneBelow;
    DecodeSlips(b, depth);
    InvertedStands(b, depth);
    var (v, rest) := Invert(b, depth).value;
    SlipFacts(v);
    SlipShrinks(v, depth);
    RoundTrip(Slip(v), depth, rest);
  }

  /** For frames: the canonical encoding is an accepted form of what was decoded, and none is
      shorter. */
  lemma CanonicalIsShortest(b: seq<Byte>)
    requires |b| <= MAX_FRAME && DecodeToJson(b).Some?
    ensures var v := DecodeToJson(b).value;
            && Fits(v) && NoneBelow(v) && EncodeCanonical(v).Some?
            && |EncodeCanonical(v).value| <= |b|
            && DecodeToJson(EncodeCanonical(v).value) == Some(v)
  {
    hide Encode, Decode, Fits, NoneBelow;
    DecodedReencodes(b, 0);
    var v := DecodeToJson(b).value;
    assert Encode(v, 0).value + [] == Encode(v, 0).value;
  }

  // ----- Padded heads -----

  /** The head of an argument written in more bytes than it may need. */
  function PaddedHead(major: nat, n: nat, width: nat): seq<Byte>
    requires major < 8 && width in {1, 2, 4, 8}
  {
    [major * 32 + Marker(width)] + BigEndian(n, width)
  }

  lemma PaddedReads(major: nat, n: nat, width: nat, tail: seq<Byte>)
    requires major < 8 && width in {1, 2, 4, 8} && n < Pow(0x100, width)
    ensures var b := PaddedHead(major, n, width) + tail;
            b[0] / 32 == major && TakeArgument(b[0], b[1..]) == Some((n, tail))
  {
    hide BigEndian, FromBigEndian, Pow;
    BigEndianRoundTrip(n, width);
    var b := PaddedHead(major, n, width) + tail;
    assert b[1..] == BigEndian(n, width) + tail;
    assert b[1..][..width] == BigEndian(n, width) && b[1..][width..] == tail;
    Widths();
  }

  /** The decoder is more permissive than the encoder: whatever comes behind it, a head padded
      to any width its argument fits decodes as the head the encoder writes, which is longer
      only if it is that very head. */
  lemma DecoderTakesLongForms(major: nat, n: nat, width: nat, tail: seq<Byte>, depth: nat)
    requires major in {0, 1, 3, 4, 5} && width in {1, 2, 4, 8} && n < Pow(0x100, width)
    ensures Decode(PaddedHead(major, n, width) + tail, depth) == Decode(Head(major, n) + tail, depth)
    ensures |Head(major, n)| < |PaddedHead(major, n, width)| || Head(major, n) == PaddedHead(major, n, width)
  {
    hide Pow, BigEndian, FromBigEndian, TakeArgument, DecodeItems, DecodeEntries, Utf8;
    FitsWidest(n, width);
    PaddedReads(major, n, width, tail);
    HeadReads(major, n, tail);
    HeadSize(major, n, width);
    hide Head, PaddedHead;
    SameArgument(PaddedHead(major, n, width) + tail, Head(major, n) + tail, depth);
  }

  lemma FitsWidest(n: nat, width: nat)
    requires width in {1, 2, 4, 8} && n < Pow(0x100, width)
    ensures n < U64_LIMIT
  {
    hide Pow;
    Widths();
  }

  /** Past its head a value is decoded from the head's type, its argument and the rest. */
  lemma SameArgument(b: seq<Byte>, c: seq<Byte>, depth: nat)
    requires b != [] && c != [] && b[0] / 32 == c[0] / 32 < 7
    requires TakeArgument(b[0], b[1..]) == TakeArgument(c[0], c[1..])
    ensures Decode(b, depth) == Decode(c, depth)
  {
    hide TakeArgument, DecodeItems, DecodeEntries, Utf8;
  }

  // ----- Key order -----

  /** In every object of the tree each key comes before all later ones at the first byte in
      which they differ, or as a proper prefix. */
  ghost predicate KeysOrdered(v: Value) {
    match v
    case Array(items) => forall k :: 0 <= k < |items| ==> KeysOrdered(items[k])
    case Object(entries) =>
      && (forall i, j :: 0 <= i < j < |entries| ==> FirstDifference(entries[i].key, entries[j].key))
      && forall k :: 0 <= k < |entries| ==> KeysOrdered(entries[k].value)
    case _ => true
  }

  lemma {:induction false} SortedMeans(entries: seq<Entry>)
    ensures Sorted(entries) <==> forall i, j :: 0 <= i < j < |entries| ==> FirstDifference(entries[i].key, entries[j].key)
  {
    hide TextLess, FirstDifference;
    if Sorted(entries) {
      forall i, j | 0 <= i < j < |entries|
        ensures FirstDifference(entries[i].key, entries[j].key)
      {
        SortedApart(entries, i, j);
        TextLessMeans(entries[i].key, entries[j].key);
      }
    }
    if forall i, j :: 0 <= i < j < |entries| ==> FirstDifference(entries[i].key, entries[j].key) {
      forall k | 0 <= k < |entries| - 1
        ensures TextLess(entries[k].key, entries[k + 1].key)
      {
        TextLessMeans(entries[k].key, entries[k + 1].key);
      }
    }
  }

  lemma {:induction false} SortedApart(entries: seq<Entry>, i: nat, j: nat)
    requires Sorted(entries) && i < j < |entries|
    ensures TextLess(entries[i].key, entries[j].key)
  {
    hide TextLess;
    if i + 1 < j {
      SortedApart(entries, i, j - 1);
      TextLessTransitive(entries[i].key, entries[j - 1].key, entries[j - 1 + 1].key);
    }
  }

  lemma {:induction false} FittingKeysOrdered(v: Value)
    requires Fits(v)
    ensures KeysOrdered(v)
  {
    hide FitText, Sorted, FirstDifference;
    match v {
      case Array(items) =>
        forall k | 0 <= k < |items|
          ensures KeysOrdered(items[k])
        {
          FittingKeysOrdered(items[k]);
        }
      case Object(entries) =>
        SortedMeans(entries);
        forall k | 0 <= k < |entries|
          ensures KeysOrdered(entries[k].value)
        {
          FittingKeysOrdered(entries[k].value);
        }
      case _ =>
    }
  }

  /** What the decoder accepts has its keys in that order in every object, and so each once. */
  lemma DecodedKeysOrdered(b: seq<Byte>, depth: nat)
    requires Decode(b, depth).Some?
    ensures KeysOrdered(Decode(b, depth).value.0)
  {
    hide Decode, Fits, NoneBelow, Encode;
    DecodedReencodes(b, depth);
    FittingKeysOrdered(Decode(b, depth).value.0);
  }

  /** Two keys in order make a map it accepts, the other way round they do not. */
  lemma KeyOrderDecides(first: Text, second: Text)
    requires FitText(first) && FitText(second)
    ensures var b := [0xA2] + EncodeText(first) + [0xF6] + EncodeText(second) + [0xF6];
            DecodeToJson(b) == if FirstDifference(first, second)
                               then Some(Object([Entry(first, Null), Entry(second, Null)])) else None
  {
    hide Decode, DecodeToJson, EncodeText, FitText, FirstDifference, TextLess;
    var tail := EncodeText(second) + [0xF6];
    var body := EncodeText(first) + ([0xF6] + tail);
    assert [0xA2] + EncodeText(first) + [0xF6] + EncodeText(second) + [0xF6] == [0xA2] + body;
    TextLessMeans(first, second);
    KeyThenNull(first, tail, None);
    KeyThenNull(second, [], Some(first));
    assert tail == EncodeText(second) + ([0xF6] + []);
    TwoEntries(body, first, second, tail);
    MapOfTwo(body);
  }

  lemma KeyThenNull(key: Text, rest: seq<Byte>, last: Option<Text>)
    requires FitText(key)
    ensures DecodeEntry(EncodeText(key) + ([0xF6] + rest), 1, last) ==
            if last.Some? && !TextLess(last.value, key) then None else Some((Entry(key, Null), rest))
  {
    hide Decode, EncodeText, FitText, TextLess;
    var after := [0xF6] + rest;
    assert Decode(EncodeText(key) + after, 1) == Some((Str(key), after)) by {
      RoundTrip(Str(key), 1, after);
    }
    assert Decode(after, 1) == Some((Null, rest)) by {
      NullReads(rest);
    }
  }

  lemma NullReads(rest: seq<Byte>)
    ensures Decode([0xF6] + rest, 1) == Some((Null, rest))
  {
    assert ([0xF6] + rest)[1..] == rest;
  }

  lemma TwoEntries(body: seq<Byte>, first: Text, second: Text, tail: seq<Byte>)
    requires DecodeEntry(body, 1, None) == Some((Entry(first, Null), tail))
    requires DecodeEntry(tail, 1, Some(first)) == if TextLess(first, second) then Some((Entry(second, Null), [])) else None
    ensures DecodeEntries(2, body, 1, None) ==
            if TextLess(first, second) then Some(([Entry(first, Null), Entry(second, Null)], [])) else None
  {
    hide DecodeEntry, TextLess;
    var x, y := Entry(first, Null), Entry(second, Null);
    assert DecodeEntries(0, [], 1, Some(second)) == Some(([], [])) && [y] + [] == [y] && [x] + [y] == [x, y];
    assert DecodeEntries(1, tail, 1, Some(first)) == if TextLess(first, second) then Some(([y], [])) else None;
  }

  lemma MapOfTwo(body: seq<Byte>)
    ensures DecodeToJson([0xA2] + body) ==
            match DecodeEntries(2, body, 1, None)
            case None => None
            case Some((entries, end)) => if end == [] then Some(Object(entries)) else None
  {
    hide DecodeEntries;
    assert ([0xA2] + body)[1..] == body;
  }

  // ----- Vectors -----

  lemma TwoBytes(n: nat)
    requires n < 0x1_0000
    ensures BigEndian(n, 2) == [n / 0x100, n % 0x100]
  {
    assert BigEndian(n / 0x100, 1) == BigEndian(n / 0x100 / 0x100, 0) + [n / 0x100 % 0x100];
  }

  lemma FourBytes(high: nat, low: nat)
    requires high < 0x1_0000 && low < 0x1_0000
    ensures BigEndian(high * 0x1_0000 + low, 4) == [high / 0x100, high % 0x100, low / 0x100, low % 0x100]
  {
    var n := high * 0x1_0000 + low;
    assert n / 0x100 == high * 0x100 + low / 0x100 && n / 0x100 / 0x100 == high;
    TwoBytes(high);
    assert BigEndian(n / 0x100, 3) == BigEndian(high, 2) + [low / 0x100];
  }

  /** Encodings as appendix A of RFC 8949 prints them: numbers, */
  lemma StandardNumbers()
    ensures EncodeInt(0) == [0x00] && EncodeInt(23) == [0x17]
    ensures EncodeInt(24) == [0x18, 0x18] && EncodeInt(100) == [0x18, 0x64]
    ensures EncodeInt(1000) == [0x19, 0x03, 0xE8]
    ensures EncodeInt(1000000) == [0x1A, 0x00, 0x0F, 0x42, 0x40]
    ensures EncodeInt(-1) == [0x20] && EncodeInt(-100) == [0x38, 0x63]
  {
    hide BigEndian;
    TwoBytes(1000);
    FourBytes(15, 16960);
  }

  /** simple values, floats and texts, */
  lemma StandardScalars(n: int)
    ensures EncodeCanonical(Null) == Some([0xF6])
    ensures EncodeCanonical(Bool(false)) == Some([0xF4]) && EncodeCanonical(Bool(true)) == Some([0xF5])
    ensures -I64_LIMIT <= n < U64_LIMIT ==> EncodeCanonical(Int(n)) == Some(EncodeInt(n))
    ensures EncodeCanonical(Float([0x3F, 0xF1, 0x99, 0x99, 0x99, 0x99, 0x99, 0x9A]))
         == Some([0xFB, 0x3F, 0xF1, 0x99, 0x99, 0x99, 0x99, 0x99, 0x9A])
    ensures EncodeCanonical(Str([])) == Some([0x60]) && EncodeCanonical(Str([0x61])) == Some([0x61, 0x61])
  {
    hide BigEndian;
    var bits := [0x3F, 0xF1, 0x99, 0x99, 0x99, 0x99, 0x99, 0x9A];
    assert [0xFB] + bits == [0xFB, 0x3F, 0xF1, 0x99, 0x99, 0x99, 0x99, 0x99, 0x9A];
    assert EncodeText([]) == [0x60] && EncodeText([0x61]) == [0x61, 0x61];
  }

  lemma SmallInt(n: nat, depth: nat)
    requires n < 24 && depth <= MAX_DEPTH
    ensures Encode(Int(n), depth) == Some([n])
  {
  }

  lemma ItemsCons(item: Value, items: seq<Value>, depth: nat, e: seq<Byte>, f: seq<Byte>)
    requires Encode(item, depth) == Some(e) && EncodeItems(items, depth) == Some(f)
    ensures EncodeItems([item] + items, depth) == Some(e + f)
  {
    assert ([item] + items)[1..] == items;
  }

  lemma EntriesCons(key: Text, value: Value, entries: seq<Entry>, depth: nat, e: seq<Byte>, f: seq<Byte>)
    requires Encode(value, depth) == Some(e) && EncodeEntries(entries, depth) == Some(f)
    ensures EncodeEntries([Entry(key, value)] + entries, depth) == Some(EncodeText(key) + (e + f))
  {
    assert ([Entry(key, value)] + entries)[1..] == entries;
  }

  lemma ContainerBytes(items: seq<Value>, entries: seq<Entry>, f: seq<Byte>)
    requires |items| < 24 && |entries| < 24 && |f| < 100
    ensures EncodeItems(items, 1) == Some(f) ==> EncodeCanonical(Array(items)) == Some([0x80 + |items|] + f)
    ensures EncodeEntries(entries, 1) == Some(f) ==> EncodeCanonical(Object(entries)) == Some([0xA0 + |entries|] + f)
  {
  }

  lemma NoneInside(depth: nat)
    ensures EncodeItems([], depth) == Some([]) && EncodeEntries([], depth) == Some([])
  {
  }

  /** Infinities and what is not a number have no encoding; the greatest finite number has. */
  lemma FloatBounds(low: Byte)
    ensures EncodeCanonical(Float([0x7F, 0xF0, 0, 0, 0, 0, 0, low])).None? && EncodeCanonical(Float([0xFF, 0xF0, 0, 0, 0, 0, 0, low])).None?
    ensures EncodeCanonical(Float([0x7F, 0xEF, 0xFF, 0xFF, 0xFF, 0xFF, 0xFF, 0xFF])).Some?
    ensures EncodeCanonical(Float([0xFF, 0xEF, 0xFF, 0xFF, 0xFF, 0xFF, 0xFF, 0xFF])).Some?
  {
  }

  /** arrays, */
  lemma StandardArrays()
    ensures EncodeCanonical(Array([])) == Some([0x80])
    ensures EncodeCanonical(Array([Int(1), Int(2), Int(3)])) == Some([0x83, 0x01, 0x02, 0x03])
  {
    hide Encode, EncodeItems, EncodeCanonical;
    NoneInside(1);
    SmallInt(1, 1);
    SmallInt(2, 1);
    SmallInt(3, 1);
    ItemsCons(Int(3), [], 1, [3], []);
    ItemsCons(Int(2), [Int(3)] + [], 1, [2], [3] + []);
    ItemsCons(Int(1), [Int(2)] + ([Int(3)] + []), 1, [1], [2] + ([3] + []));
    assert [Int(1)] + ([Int(2)] + ([Int(3)] + [])) == [Int(1), Int(2), Int(3)];
    assert [1] + ([2] + ([3] + [])) == [1, 2, 3] && [0x83] + [1, 2, 3] == [0x83, 1, 2, 3];
    ContainerBytes([Int(1), Int(2), Int(3)], [], [1, 2, 3]);
    ContainerBytes([], [], []);
    assert [0x80] + [] == [0x80];
  }

  /** and maps. */
  lemma StandardMaps()
    ensures EncodeCanonical(Object([])) == Some([0xA0])
    ensures EncodeCanonical(Object([Entry([0x61], Int(1)), Entry([0x62], Int(2))]))
         == Some([0xA2, 0x61, 0x61, 0x01, 0x61, 0x62, 0x02])
  {
    hide Encode, EncodeEntries, EncodeCanonical;
    NoneInside(1);
    SmallInt(1, 1);
    SmallInt(2, 1);
    var x, y, f := Entry([0x61], Int(1)), Entry([0x62], Int(2)), [0x61, 0x61, 0x01, 0x61, 0x62, 0x02];
    assert EncodeText([0x61]) == [0x61, 0x61] && EncodeText([0x62]) == [0x61, 0x62];
    EntriesCons([0x62], Int(2), [], 1, [2], []);
    EntriesCons([0x61], Int(1), [y] + [], 1, [1], [0x61, 0x62] + ([2] + []));
    assert [x] + ([y] + []) == [x, y];
    assert [0x61, 0x61] + ([1] + ([0x61, 0x62] + ([2] + []))) == f;
    ContainerBytes([], [x, y], f);
    ContainerBytes([], [], []);
    assert [0xA2] + f == [0xA2, 0x61, 0x61, 0x01, 0x61, 0x62, 0x02] && [0xA0] + [] == [0xA0];
  }
}
