/** The CBOR codec as the program runs it: an encoder appending to its output buffer and a
    decoder looping over the items of arrays and maps. */
module CborIo {
  import opened Basics
  import opened Bytes
  import opened Cbor
  import opened CborProofs

  class Encoder {
    var out: seq<Byte>

    constructor ()
      ensures out == []
    {
      out := [];
    }

    method PutHead(major: nat, n: nat)
      requires major < 8
      modifies this
      ensures out == old(out) + Head(major, n)
    {
      if n < 24 {
        out := out + [major * 32 + n];
      } else if n < 0x100 {
        out := out + [major * 32 + 24];
        out := out + [n];
      } else if n < 0x1_0000 {
        out := out + [major * 32 + 25];
        out := out + BigEndian(n, 2);
      } else if n < U32_LIMIT {
        out := out + [major * 32 + 26];
        out := out + BigEndian(n, 4);
      } else {
        out := out + [major * 32 + 27];
        out := out + BigEndian(n, 8);
      }
    }

    method PutText(s: Text)
      modifies this
      ensures out == old(out) + EncodeText(s)
    {
      hide Head;
      PutHead(3, |s|);
      out := out + s;
    }

    method PutValue(v: Value, depth: nat) returns (ok: bool)
      modifies this
      ensures ok == Encode(v, depth).Some?
      ensures ok ==> out == old(out) + Encode(v, depth).value
      decreases v, 1
    {
      hide Head;
      if depth > MAX_DEPTH {
        return false;
      }
      ok := true;
      match v {
        case Null => out := out + [0xF6];
        case Bool(b) => out := out + [if b then 0xF5 else 0xF4];
        case Int(n) =>
          if n >= 0 {
            PutHead(0, n);
          } else {
            PutHead(1, -n - 1);
          }
        case Float(bits) =>
          if |bits| != 8 || !Finite(bits) {
            return false;
          }
          out := out + [0xFB];
          out := out + bits;
          assert out == old(out) + ([0xFB] + bits);
        case Str(s) => PutText(s);
        case Array(items) =>
          PutHead(4, |items|);
          ok := PutItems(items, depth + 1);
        case Object(entries) =>
          PutHead(5, |entries|);
          ok := PutEntries(entries, depth + 1);
      }
    }

    method PutItems(items: seq<Value>, depth: nat) returns (ok: bool)
      modifies this
      ensures ok == EncodeItems(items, depth).Some?
      ensures ok ==> out == old(out) + EncodeItems(items, depth).value
      decreases items, 0
    {
      hide Encode;
      ghost var start, done := out, [];
      assert items[0..] == items;
      JoinEmpty(EncodeItems(items, depth));
      var k := 0;
      while k < |items|
        invariant k <= |items| && out == start + done
        invariant EncodeItems(items, depth) == Join(Some(done), EncodeItems(items[k..], depth))
      {
        assert items[k..][1..] == items[k + 1..];
        JoinAssociates(Some(done), Encode(items[k], depth), EncodeItems(items[k + 1..], depth));
        ok := PutValue(items[k], depth);
        if !ok {
          return;
        }
        done := done + Encode(items[k], depth).value;
        k := k + 1;
      }
      ok := true;
    }

    method PutEntries(entries: seq<Entry>, depth: nat) returns (ok: bool)
      modifies this
      ensures ok == EncodeEntries(entries, depth).Some?
      ensures ok ==> out == old(out) + EncodeEntries(entries, depth).value
      decreases entries, 0
    {
      hide Encode, EncodeText;
      ghost var start, done := out, [];
      assert entries[0..] == entries;
      JoinEmpty(EncodeEntries(entries, depth));
      var k := 0;
      while k < |entries|
        invariant k <= |entries| && out == start + done
        invariant EncodeEntries(entries, depth) == Join(Some(done), EncodeEntries(entries[k..], depth))
      {
        ghost var key, value := Some(EncodeText(entries[k].key)), Encode(entries[k].value, depth);
        assert entries[k..][1..] == entries[k + 1..];
        JoinAssociates(key, value, EncodeEntries(entries[k + 1..], depth));
        JoinAssociates(Some(done), Join(key, value), EncodeEntries(entries[k + 1..], depth));
        PutText(entries[k].key);
        ok := PutValue(entries[k].value, depth);
        if !ok {
          return;
        }
        done := done + (key.value + value.value);
        k := k + 1;
      }
      ok := true;
    }
  }

  lemma JoinEmpty(a: Option<seq<Byte>>)
    ensures Join(Some([]), a) == a
  {
    assert a.Some? ==> [] + a.value == a.value;
  }

  method EncodeCanonicalCbor(v: Value) returns (r: Option<seq<Byte>>)
    ensures r == EncodeCanonical(v)
  {
    hide Encode;
    var encoder := new Encoder();
    var ok := encoder.PutValue(v, 0);
    assert ok ==> encoder.out == Encode(v, 0).value;
    if !ok || |encoder.out| > MAX_FRAME {
      return None;
    }
    return Some(encoder.out);
  }

  function Prepend<T>(done: seq<T>, r: Parse<seq<T>>): Parse<seq<T>> {
    match r
    case None => None
    case Some((more, rest)) => Some((done + more, rest))
  }

  method DecodeValue(b: seq<Byte>, depth: nat) returns (r: Parse<Value>)
    ensures r == Decode(b, depth)
    decreases |b|, 0
  {
    hide DecodeItems, DecodeEntries, TakeArgument, Utf8;
    if depth > MAX_DEPTH || b == [] {
      return None;
    }
    var first, rest := b[0], b[1..];
    match first {
      case 0xF4 => return Some((Bool(false), rest));
      case 0xF5 => return Some((Bool(true), rest));
      case 0xF6 => return Some((Null, rest));
      case 0xFB =>
        if |rest| < 8 || !Finite(rest[..8]) {
          return None;
        }
        return Some((Float(rest[..8]), rest[8..]));
      case _ =>
    }
    var argument := TakeArgument(first, rest);
    if argument.None? {
      return None;
    }
    var (n, tail) := argument.value;
    match first / 32 {
      case 0 => return Some((Int(n), tail));
      case 1 => return if n >= I64_LIMIT then None else Some((Int(-(1 - n)), tail));
      case 3 =>
        return if n > |tail| || !Utf8(tail[..n]) then None else Some((Str(tail[..n]), tail[n..]));
      case 4 =>
        var items := DecodeArray(n, tail, depth + 1);
        return if items.None? then None else Some((Array(items.value.0), items.value.1));
      case 5 =>
        var entries := DecodeMap(n, tail, depth + 1);
        return if entries.None? then None else Some((Object(entries.value.0), entries.value.1));
      case _ => return None;
    }
  }

  method DecodeArray(n: nat, b: seq<Byte>, depth: nat) returns (r: Parse<seq<Value>>)
    ensures r == DecodeItems(n, b, depth)
    decreases |b|, 1
  {
    hide Decode;
    var rest, items := b, [];
    assert forall more: seq<Value> :: items + more == more;
    for k := 0 to n
      invariant |rest| <= |b|
      invariant DecodeItems(n, b, depth) == Prepend(items, DecodeItems(n - k, rest, depth))
    {
      var item := DecodeValue(rest, depth);
      if item.None? {
        return None;
      }
      ghost var after := DecodeItems(n - k - 1, item.value.1, depth);
      assert after.Some? ==> items + ([item.value.0] + after.value.0) == items + [item.value.0] + after.value.0;
      items, rest := items + [item.value.0], item.value.1;
    }
    assert items + [] == items;
    return Some((items, rest));
  }

  method DecodeMap(n: nat, b: seq<Byte>, depth: nat) returns (r: Parse<seq<Entry>>)
    ensures r == DecodeEntries(n, b, depth, None)
    decreases |b|, 1
  {
    hide Decode, TextLess;
    var rest, entries := b, [];
    var lastKey: Option<Text> := None;
    assert forall more: seq<Entry> :: entries + more == more;
    for k := 0 to n
      invariant |rest| <= |b|
      invariant DecodeEntries(n, b, depth, None) == Prepend(entries, DecodeEntries(n - k, rest, depth, lastKey))
    {
      var key := DecodeValue(rest, depth);
      if key.None? || !key.value.0.Str? {
        return None;
      }
      var text := key.value.0.text;
      if lastKey.Some? && !TextLess(lastKey.value, text) {
        return None;
      }
      var item := DecodeValue(key.value.1, depth);
      if item.None? {
        return None;
      }
      var entry := Entry(text, item.value.0);
      ghost var after := DecodeEntries(n - k - 1, item.value.1, depth, Some(text));
      assert after.Some? ==> entries + ([entry] + after.value.0) == entries + [entry] + after.value.0;
      lastKey := Some(text);
      entries, rest := entries + [entry], item.value.1;
    }
    assert entries + [] == entries;
    return Some((entries, rest));
  }
}
