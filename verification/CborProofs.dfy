/** The CBOR encoder: heads, prefix-freeness, depth, and the two directions in which
    `CborMirror` inverts it. */
module CborProofs {
  import opened Basics
  import opened Bytes
  import opened Cbor
  import opened CborMirror

  // ----- Heads -----

  lemma HeadReads(major: nat, n: nat, rest: seq<Byte>)
    requires major < 8 && n < U64_LIMIT
    ensures (Head(major, n) + rest)[0] / 32 == major
    ensures TakeArgument((Head(major, n) + rest)[0], (Head(major, n) + rest)[1..]) == Some((n, rest))
  {
    hide BigEndian, FromBigEndian, Pow;
    Widths();
    var h := Head(major, n);
    var tail := (h + rest)[1..];
    assert h[1..] + rest == tail;
    if n < 24 {
      assert tail == rest;
    } else {
      var width := |h| - 1;
      assert n < 0x100 ==> h[1..] == [n] && FromBigEndian([n]) == n by {
        OneByte(n);
      }
      if n >= 0x100 {
        BigEndianRoundTrip(n, width);
        assert h[1..] == BigEndian(n, width);
      }
      assert tail[..width] == h[1..] && tail[width..] == rest;
    }
  }

  lemma OneByte(n: nat)
    ensures n < 0x100 ==> FromBigEndian([n]) == n
  {
    if n < 0x100 {
      assert [n][..0] == [];
    }
  }

  /** An argument that fits a width is written in at most that width, and in exactly that
      width only as its big-endian bytes behind the width's own marker. */
  lemma HeadSize(major: nat, n: nat, width: nat)
    requires major < 8 && width in {1, 2, 4, 8}
    requires n < Pow(0x100, width)
    ensures |Head(major, n)| <= 1 + width
    ensures |Head(major, n)| == 1 + width ==> Head(major, n) == [major * 32 + Marker(width)] + BigEndian(n, width)
  {
    hide BigEndian, Pow;
    Widths();
    if width == 1 && n < 0x100 {
      assert BigEndian(n, 1) == [n] by {
        OneByte(n);
        FromBigEndianExact([n]);
      }
    }
  }

  function Marker(width: nat): nat {
    if width == 1 then 24 else if width == 2 then 25 else if width == 4 then 26 else 27
  }

  /** Reading a head never takes fewer bytes than writing its argument, and takes as many
      only when the head was written that way. */
  lemma HeadShortest(b: seq<Byte>)
    requires b != [] && TakeArgument(b[0], b[1..]).Some?
    ensures var (n, rest) := TakeArgument(b[0], b[1..]).value;
            && |Head(b[0] / 32, n)| <= |b| - |rest|
            && (|Head(b[0] / 32, n)| == |b| - |rest| ==> b == Head(b[0] / 32, n) + rest)
  {
    hide BigEndian, FromBigEndian, Pow;
    var (n, rest) := TakeArgument(b[0], b[1..]).value;
    var low := b[0] % 32;
    assert b == [b[0]] + b[1..] && b[0] == (b[0] / 32) * 32 + low;
    if low >= 24 {
      hide Head;
      var width := |b| - |rest| - 1;
      FromBigEndianExact(b[1..][..width]);
      HeadSize(b[0] / 32, n, width);
      assert b[1..] == b[1..][..width] + rest;
      assert b == [b[0]] + BigEndian(n, width) + rest;
    }
  }

  lemma TextReads(s: Text, depth: nat, rest: seq<Byte>)
    requires FitText(s) && depth <= MAX_DEPTH
    ensures Invert(EncodeText(s) + rest, depth) == Some((Str(s), rest))
  {
    hide Head, TakeArgument, Utf8;
    HeadReads(3, |s|, s + rest);
    assert EncodeText(s) + rest == Head(3, |s|) + (s + rest);
    assert (s + rest)[..|s|] == s && (s + rest)[|s|..] == rest;
  }

  lemma IntReads(n: int, depth: nat, rest: seq<Byte>)
    requires -I64_LIMIT <= n < U64_LIMIT && depth <= MAX_DEPTH
    ensures Invert(EncodeInt(n) + rest, depth) == Some((Int(n), rest))
  {
    hide Head, TakeArgument;
    if n >= 0 {
      HeadReads(0, n, rest);
    } else {
      HeadReads(1, -n - 1, rest);
    }
  }

  lemma ScalarReads(v: Value, depth: nat, rest: seq<Byte>)
    requires Fits(v) && depth <= MAX_DEPTH && !v.Array? && !v.Object?
    ensures Encode(v, depth).Some?
    ensures Invert(Encode(v, depth).value + rest, depth) == Some((v, rest))
  {
    match v {
      case Int(n) => IntReads(n, depth, rest);
      case Str(s) => TextReads(s, depth, rest);
      case Float(bits) =>
        var b := [0xFB] + bits + rest;
        assert b[1..] == bits + rest;
        assert (bits + rest)[..8] == bits && (bits + rest)[8..] == rest;
      case Bool(x) => assert ([if x then 0xF5 else 0xF4] + rest)[1..] == rest;
      case Null => assert ([0xF6] + rest)[1..] == rest;
    }
  }

  // ----- Inverting what was encoded, with anything behind it -----

  lemma {:induction false} InvertsEncoding(v: Value, depth: nat, rest: seq<Byte>)
    requires Fits(v) && Encode(v, depth).Some?
    ensures Invert(Encode(v, depth).value + rest, depth) == Some((v, rest))
    decreases v, 1
  {
    match v {
      case Array(items) =>
        var e := EncodeItems(items, depth + 1).value;
        ItemsInvert(items, depth + 1, rest);
        HeadReads(4, |items|, e + rest);
        ContainerReads(4, |items|, e, rest, depth);
      case Object(entries) =>
        var e := EncodeEntries(entries, depth + 1).value;
        EntriesInvert(entries, depth + 1, None, rest);
        HeadReads(5, |entries|, e + rest);
        ContainerReads(5, |entries|, e, rest, depth);
      case _ => ScalarReads(v, depth, rest);
    }
  }

  lemma ContainerReads(major: nat, n: nat, e: seq<Byte>, rest: seq<Byte>, depth: nat)
    requires 4 <= major <= 5 && n < U64_LIMIT && depth <= MAX_DEPTH
    ensures Invert(Head(major, n) + e + rest, depth) ==
            if major == 4 then
              (match InvertItems(n, e + rest, depth + 1)
               case None => None
               case Some((items, end)) => Some((Array(items), end)))
            else
              (match InvertEntries(n, e + rest, depth + 1, None)
               case None => None
               case Some((entries, end)) => Some((Object(entries), end)))
  {
    hide Head, TakeArgument, InvertItems, InvertEntries;
    HeadReads(major, n, e + rest);
    assert Head(major, n) + e + rest == Head(major, n) + (e + rest);
  }

  lemma {:induction false} ItemsInvert(items: seq<Value>, depth: nat, rest: seq<Byte>)
    requires EncodeItems(items, depth).Some? && forall k :: 0 <= k < |items| ==> Fits(items[k])
    ensures InvertItems(|items|, EncodeItems(items, depth).value + rest, depth) == Some((items, rest))
    decreases items, 0
  {
    hide Invert, Encode;
    if items == [] {
      assert [] + rest == rest;
    } else {
      var e, more := Encode(items[0], depth).value, EncodeItems(items[1..], depth).value;
      InvertsEncoding(items[0], depth, more + rest);
      ItemsInvert(items[1..], depth, rest);
      assert e + more + rest == e + (more + rest);
      assert [items[0]] + items[1..] == items;
    }
  }

  ghost predicate Above(last: Option<Text>, entries: seq<Entry>) {
    last.Some? && entries != [] ==> TextLess(last.value, entries[0].key)
  }

  lemma {:induction false} EntriesInvert(entries: seq<Entry>, depth: nat, last: Option<Text>, rest: seq<Byte>)
    requires EncodeEntries(entries, depth).Some? && Sorted(entries) && Above(last, entries)
    requires forall k :: 0 <= k < |entries| ==> FitText(entries[k].key) && Fits(entries[k].value)
    ensures InvertEntries(|entries|, EncodeEntries(entries, depth).value + rest, depth, last) == Some((entries, rest))
    decreases entries, 0
  {
    hide Invert, Encode, EncodeText, FitText, TextLess;
    if entries == [] {
      assert [] + rest == rest;
    } else {
      var key, value := entries[0].key, entries[0].value;
      var e, more := Encode(value, depth).value, EncodeEntries(entries[1..], depth).value;
      EncodeDepth(value, depth);
      TextReads(key, depth, e + (more + rest));
      InvertsEncoding(value, depth, more + rest);
      assert Above(Some(key), entries[1..]);
      EntriesInvert(entries[1..], depth, Some(key), rest);
      assert EncodeText(key) + (e + more) + rest == EncodeText(key) + (e + (more + rest));
      assert InvertEntry(EncodeText(key) + (e + (more + rest)), depth, last) == Some((entries[0], more + rest));
      assert [entries[0]] + entries[1..] == entries;
    }
  }

  lemma EncodeDepth(v: Value, depth: nat)
    requires Encode(v, depth).Some?
    ensures depth <= MAX_DEPTH
  {
  }

  // ----- Whatever can be inverted re-encodes, never to more bytes -----

  /** `e` stands for the bytes of `b` before `rest`: no longer, and as long only if equal. */
  ghost predicate Stands(e: Option<seq<Byte>>, b: seq<Byte>, rest: seq<Byte>) {
    && e.Some? && |e.value| <= |b| - |rest|
    && (|e.value| == |b| - |rest| ==> b == e.value + rest)
  }

  lemma StandsJoin(e1: Option<seq<Byte>>, e2: Option<seq<Byte>>, b: seq<Byte>, mid: seq<Byte>, rest: seq<Byte>)
    requires Stands(e1, b, mid) && Stands(e2, mid, rest)
    ensures Stands(Join(e1, e2), b, rest)
  {
    assert (e1.value + e2.value) + rest == e1.value + (e2.value + rest);
  }

  lemma {:induction false} InvertedStands(b: seq<Byte>, depth: nat)
    requires Invert(b, depth).Some?
    ensures var (v, rest) := Invert(b, depth).value; Fits(v) && Stands(Encode(v, depth), b, rest)
    decreases |b|, 0
  {
    var (v, rest) := Invert(b, depth).value;
    var first := b[0];
    if first in {0xF4, 0xF5, 0xF6, 0xFB} {
      SimpleStands(b, depth);
    } else {
      var (n, tail) := TakeArgument(first, b[1..]).value;
      HeadShortest(b);
      var head := Some(Head(first / 32, n));
      assert Stands(head, b, tail);
      if first / 32 == 4 {
        ItemsStand(n, tail, depth + 1);
        StandsJoin(head, EncodeItems(v.items, depth + 1), b, tail, rest);
      } else if first / 32 == 5 {
        EntriesStand(n, tail, depth + 1, None);
        StandsJoin(head, EncodeEntries(v.entries, depth + 1), b, tail, rest);
      } else {
        NumberOrTextStands(b, depth);
      }
    }
  }

  lemma SimpleStands(b: seq<Byte>, depth: nat)
    requires Invert(b, depth).Some? && b[0] in {0xF4, 0xF5, 0xF6, 0xFB}
    ensures var (v, rest) := Invert(b, depth).value; Fits(v) && Stands(Encode(v, depth), b, rest)
  {
    hide TakeArgument, Head;
    assert b == [b[0]] + b[1..];
    if b[0] == 0xFB {
      assert b[1..] == b[1..][..8] + b[1..][8..];
    }
  }

  lemma NumberOrTextStands(b: seq<Byte>, depth: nat)
    requires Invert(b, depth).Some? && b[0] !in {0xF4, 0xF5, 0xF6, 0xFB} && b[0] / 32 !in {4, 5}
    ensures var (v, rest) := Invert(b, depth).value; Fits(v) && Stands(Encode(v, depth), b, rest)
  {
    hide TakeArgument, Head, Utf8;
    HeadShortest(b);
    var (n, tail) := TakeArgument(b[0], b[1..]).value;
    if b[0] / 32 == 3 {
      assert tail == tail[..n] + tail[n..];
      StandsJoin(Some(Head(3, n)), Some(tail[..n]), b, tail, tail[n..]);
    }
  }

  lemma {:induction false} ItemsStand(n: nat, b: seq<Byte>, depth: nat)
    requires InvertItems(n, b, depth).Some?
    ensures var (items, rest) := InvertItems(n, b, depth).value;
            && |items| == n && (forall k :: 0 <= k < |items| ==> Fits(items[k]))
            && Stands(EncodeItems(items, depth), b, rest)
    decreases |b|, 2
  {
    hide Invert, Encode, Fits;
    var (items, rest) := InvertItems(n, b, depth).value;
    if n == 0 {
      assert [] + b == b;
    } else {
      var (item, next) := Invert(b, depth).value;
      InvertedStands(b, depth);
      ItemsStand(n - 1, next, depth);
      assert items[1..] == InvertItems(n - 1, next, depth).value.0;
      StandsJoin(Encode(item, depth), EncodeItems(items[1..], depth), b, next, rest);
    }
  }

  lemma {:induction false} EntriesStand(n: nat, b: seq<Byte>, depth: nat, last: Option<Text>)
    requires InvertEntries(n, b, depth, last).Some?
    ensures var (entries, rest) := InvertEntries(n, b, depth, last).value;
            && |entries| == n && Sorted(entries) && Above(last, entries)
            && (forall k :: 0 <= k < |entries| ==> FitText(entries[k].key) && Fits(entries[k].value))
            && Stands(EncodeEntries(entries, depth), b, rest)
    decreases |b|, 2
  {
    hide Invert, Encode, Fits, FitText, EncodeText, TextLess;
    var (entries, rest) := InvertEntries(n, b, depth, last).value;
    if n == 0 {
      assert [] + b == b;
    } else {
      var (entry, next) := InvertEntry(b, depth, last).value;
      var more := entries[1..];
      EntryStands(b, depth, last);
      EntriesStand(n - 1, next, depth, Some(entry.key));
      assert more == InvertEntries(n - 1, next, depth, Some(entry.key)).value.0;
      assert Sorted(entries) by {
        assert entries == [entry] + more;
      }
      StandsJoin(Join(Some(EncodeText(entry.key)), Encode(entry.value, depth)), EncodeEntries(more, depth), b, next, rest);
      JoinAssociates(Some(EncodeText(entry.key)), Encode(entry.value, depth), EncodeEntries(more, depth));
    }
  }

  lemma JoinAssociates(a: Option<seq<Byte>>, b: Option<seq<Byte>>, c: Option<seq<Byte>>)
    ensures Join(Join(a, b), c) == Join(a, Join(b, c))
  {
    if a.Some? && b.Some? && c.Some? {
      assert a.value + b.value + c.value == a.value + (b.value + c.value);
    }
  }

  lemma {:induction false} EntryStands(b: seq<Byte>, depth: nat, last: Option<Text>)
    requires InvertEntry(b, depth, last).Some?
    ensures var (entry, rest) := InvertEntry(b, depth, last).value;
            && FitText(entry.key) && Fits(entry.value) && Above(last, [entry])
            && Stands(Join(Some(EncodeText(entry.key)), Encode(entry.value, depth)), b, rest)
    decreases |b|, 1
  {
    hide Invert, FitText, EncodeText, TextLess;
    var (key, next) := Invert(b, depth).value;
    var (entry, rest) := InvertEntry(b, depth, last).value;
    InvertedStands(b, depth);
    InvertedStands(next, depth);
    StandsJoin(Some(EncodeText(entry.key)), Encode(entry.value, depth), b, next, rest);
  }

  // ----- Encodings as a whole -----

  /** How deep a tree nests containers that hold something. */
  function Depth(v: Value): nat {
    match v
    case Array(items) => if items == [] then 0 else 1 + ItemsDepth(items)
    case Object(entries) => if entries == [] then 0 else 1 + EntriesDepth(entries)
    case _ => 0
  }

  function Max(a: nat, b: nat): nat {
    if a < b then b else a
  }

  function ItemsDepth(items: seq<Value>): nat {
    if items == [] then 0 else Max(Depth(items[0]), ItemsDepth(items[1..]))
  }

  function EntriesDepth(entries: seq<Entry>): nat {
    if entries == [] then 0 else Max(Depth(entries[0].value), EntriesDepth(entries[1..]))
  }

  /** The encoder refuses exactly the trees nested too deep. */
  lemma {:induction false} EncodesWithinDepth(v: Value, depth: nat)
    requires Fits(v)
    ensures Encode(v, depth).Some? <==> depth + Depth(v) <= MAX_DEPTH
    decreases v, 1
  {
    hide EncodeInt, EncodeText, Head, Utf8, TextLess;
    match v {
      case Array(items) => ItemsEncodeWithinDepth(items, depth + 1);
      case Object(entries) => EntriesEncodeWithinDepth(entries, depth + 1);
      case _ =>
    }
  }

  lemma {:induction false} ItemsEncodeWithinDepth(items: seq<Value>, depth: nat)
    requires forall k :: 0 <= k < |items| ==> Fits(items[k])
    ensures EncodeItems(items, depth).Some? <==> items == [] || depth + ItemsDepth(items) <= MAX_DEPTH
    decreases items, 0
  {
    hide Encode, Fits, Depth;
    if items != [] {
      EncodesWithinDepth(items[0], depth);
      ItemsEncodeWithinDepth(items[1..], depth);
    }
  }

  lemma {:induction false} EntriesEncodeWithinDepth(entries: seq<Entry>, depth: nat)
    requires forall k :: 0 <= k < |entries| ==> Fits(entries[k].value)
    ensures EncodeEntries(entries, depth).Some? <==> entries == [] || depth + EntriesDepth(entries) <= MAX_DEPTH
    decreases entries, 0
  {
    hide Encode, Fits, Depth, EncodeText;
    if entries != [] {
      EncodesWithinDepth(entries[0].value, depth);
      EntriesEncodeWithinDepth(entries[1..], depth);
    }
  }

  /** No encoding is a proper prefix of another, and different trees encode differently. */
  lemma EncodingsPrefixFree(v: Value, w: Value, extra: seq<Byte>, depth: nat)
    requires Fits(v) && Fits(w) && Encode(v, depth).Some? && Encode(w, depth).Some?
    requires Encode(w, depth).value == Encode(v, depth).value + extra
    ensures v == w && extra == []
  {
    hide Encode, Invert, Fits;
    InvertsEncoding(v, depth, extra);
    InvertsEncoding(w, depth, []);
    assert Encode(w, depth).value + [] == Encode(w, depth).value;
  }
}
