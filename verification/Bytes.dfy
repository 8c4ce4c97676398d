/** Big-endian integers and UTF-8, as both wire formats use them. */
module Bytes {
  import opened Basics

  function BigEndian(n: nat, width: nat): (b: seq<Byte>)
    ensures |b| == width
  {
    if width == 0 then [] else BigEndian(n / 0x100, width - 1) + [n % 0x100]
  }

  function FromBigEndian(b: seq<Byte>): nat {
    if b == [] then 0 else FromBigEndian(b[..|b| - 1]) * 0x100 + b[|b| - 1]
  }

  lemma {:induction false} BigEndianRoundTrip(n: nat, width: nat)
    requires n < Pow(0x100, width)
    ensures FromBigEndian(BigEndian(n, width)) == n
  {
    if width > 0 {
      var b := BigEndian(n, width);
      BigEndianRoundTrip(n / 0x100, width - 1);
      assert b[..width - 1] == BigEndian(n / 0x100, width - 1);
    }
  }

  lemma {:induction false} FromBigEndianExact(b: seq<Byte>)
    ensures FromBigEndian(b) < Pow(0x100, |b|)
    ensures BigEndian(FromBigEndian(b), |b|) == b
  {
    if b != [] {
      FromBigEndianExact(b[..|b| - 1]);
    }
  }

  /** The values an unsigned integer of each encoded width can take. */
  lemma Widths()
    ensures Pow(0x100, 1) == 0x100 && Pow(0x100, 2) == 0x1_0000
    ensures Pow(0x100, 4) == U32_LIMIT && Pow(0x100, 8) == U64_LIMIT
  {
    assert Pow(0x100, 2) == 0x100 * Pow(0x100, 1);
    assert Pow(0x100, 3) == 0x100 * Pow(0x100, 2);
    assert Pow(0x100, 4) == 0x100 * Pow(0x100, 3);
    assert Pow(0x100, 5) == 0x100 * Pow(0x100, 4);
    assert Pow(0x100, 6) == 0x100 * Pow(0x100, 5);
    assert Pow(0x100, 7) == 0x100 * Pow(0x100, 6);
  }

  predicate Continuation(b: Byte) {
    0x80 <= b <= 0xBF
  }

  /** Well-formed UTF-8 (table 3-7 of the Unicode Standard), as `str::from_utf8` accepts it. */
  predicate Utf8(s: seq<Byte>)
    decreases |s|
  {
    || s == []
    || (s[0] < 0x80 && Utf8(s[1..]))
    || (|s| >= 2 && 0xC2 <= s[0] <= 0xDF && Continuation(s[1]) && Utf8(s[2..]))
    || (|s| >= 3 && ThreeByteLead(s[0], s[1]) && Continuation(s[2]) && Utf8(s[3..]))
    || (|s| >= 4 && FourByteLead(s[0], s[1]) && Continuation(s[2]) && Continuation(s[3]) && Utf8(s[4..]))
  }

  predicate ThreeByteLead(a: Byte, b: Byte) {
    || (a == 0xE0 && 0xA0 <= b <= 0xBF)
    || ((0xE1 <= a <= 0xEC || 0xEE <= a <= 0xEF) && Continuation(b))
    || (a == 0xED && 0x80 <= b <= 0x9F)
  }

  predicate FourByteLead(a: Byte, b: Byte) {
    || (a == 0xF0 && 0x90 <= b <= 0xBF)
    || (0xF1 <= a <= 0xF3 && Continuation(b))
    || (a == 0xF4 && 0x80 <= b <= 0x8F)
  }

  // ----- UTF-8 as an encoding of code points (section 3 of RFC 3629) -----

  predicate Scalar(c: nat) {
    c < 0xD800 || 0xE000 <= c < 0x11_0000
  }

  /** The bytes of one code point, six bits in each but the first. */
  function Utf8Of(c: nat): seq<Byte>
    requires Scalar(c)
  {
    if c < 0x80 then [c]
    else if c < 0x800 then [0xC0 + c / 0x40, 0x80 + c % 0x40]
    else if c < 0x1_0000 then [0xE0 + c / 0x1000, 0x80 + c / 0x40 % 0x40, 0x80 + c % 0x40]
    else [0xF0 + c / 0x4_0000, 0x80 + c / 0x1000 % 0x40, 0x80 + c / 0x40 % 0x40, 0x80 + c % 0x40]
  }

  function Utf8All(cs: seq<nat>): seq<Byte>
    requires forall k :: 0 <= k < |cs| ==> Scalar(cs[k])
  {
    if cs == [] then [] else Utf8Of(cs[0]) + Utf8All(cs[1..])
  }

  lemma OneCodePoint(c: nat, rest: seq<Byte>)
    requires Scalar(c)
    ensures Utf8(Utf8Of(c) + rest) <==> Utf8(rest)
  {
    var s := Utf8Of(c) + rest;
    assert s[|Utf8Of(c)|..] == rest;
    if c < 0x80 {
      assert s[0] < 0x80;
    } else if c < 0x800 {
      assert 0xC2 <= s[0] <= 0xDF && Continuation(s[1]);
    } else if c < 0x1_0000 {
      ThreeParts(c / 0x1000, c / 0x40 % 0x40, c % 0x40);
      assert 0xE0 <= s[0] <= 0xEF && ThreeByteLead(s[0], s[1]) && Continuation(s[2]);
    } else {
      assert 0xF0 <= s[0] <= 0xF4 && FourByteLead(s[0], s[1]) && Continuation(s[2]) && Continuation(s[3]);
    }
  }

  /** The code point a well-formed text starts with. */
  lemma FirstCodePoint(s: seq<Byte>) returns (c: nat, rest: seq<Byte>)
    requires s != [] && Utf8(s)
    ensures Scalar(c) && s == Utf8Of(c) + rest && Utf8(rest) && |rest| < |s|
  {
    hide Utf8Of, Scalar;
    if s[0] < 0x80 {
      c, rest := s[0], s[1..];
      OneByteCode(s);
    } else if s[0] <= 0xDF {
      rest := s[2..];
      c := TwoByteCode(s);
    } else if s[0] <= 0xEF {
      rest := s[3..];
      c := ThreeByteCode(s);
    } else {
      rest := s[4..];
      c := FourByteCode(s);
    }
  }

  lemma OneByteCode(s: seq<Byte>)
    requires s != [] && s[0] < 0x80
    ensures Scalar(s[0]) && s == Utf8Of(s[0]) + s[1..]
  {
  }

  lemma TwoByteCode(s: seq<Byte>) returns (c: nat)
    requires |s| >= 2 && 0xC2 <= s[0] <= 0xDF && Continuation(s[1])
    ensures Scalar(c) && s == Utf8Of(c) + s[2..]
  {
    var a: int, z: int := s[0] - 0xC0, s[1] - 0x80;
    c := a * 0x40 + z;
    assert c / 0x40 == a && c % 0x40 == z;
    assert s == [s[0], s[1]] + s[2..];
  }

  lemma ThreeByteCode(s: seq<Byte>) returns (c: nat)
    requires |s| >= 3 && ThreeByteLead(s[0], s[1]) && Continuation(s[2])
    ensures Scalar(c) && s == Utf8Of(c) + s[3..]
  {
    var a: int, y: int, z: int := s[0] - 0xE0, s[1] - 0x80, s[2] - 0x80;
    c := a * 0x1000 + y * 0x40 + z;
    ThreeParts(a, y, z);
    assert s == [s[0], s[1], s[2]] + s[3..];
  }

  lemma FourByteCode(s: seq<Byte>) returns (c: nat)
    requires |s| >= 4 && FourByteLead(s[0], s[1]) && Continuation(s[2]) && Continuation(s[3])
    ensures Scalar(c) && s == Utf8Of(c) + s[4..]
  {
    var a: int, x: int, y: int, z: int := s[0] - 0xF0, s[1] - 0x80, s[2] - 0x80, s[3] - 0x80;
    c := a * 0x4_0000 + x * 0x1000 + y * 0x40 + z;
    FourParts(a, x, y, z);
    assert s == [s[0], s[1], s[2], s[3]] + s[4..];
  }

  lemma ThreeParts(x: nat, y: nat, z: nat)
    requires y < 0x40 && z < 0x40
    ensures var c := x * 0x1000 + y * 0x40 + z;
            c / 0x1000 == x && c / 0x40 % 0x40 == y && c % 0x40 == z
  {
    var c := x * 0x1000 + y * 0x40 + z;
    assert c / 0x40 == x * 0x40 + y;
  }

  lemma FourParts(w: nat, x: nat, y: nat, z: nat)
    requires x < 0x40 && y < 0x40 && z < 0x40
    ensures var c := w * 0x4_0000 + x * 0x1000 + y * 0x40 + z;
            c / 0x4_0000 == w && c / 0x1000 % 0x40 == x && c / 0x40 % 0x40 == y && c % 0x40 == z
  {
    var c := w * 0x4_0000 + x * 0x1000 + y * 0x40 + z;
    assert c / 0x1000 == w * 0x40 + x && c / 0x40 == w * 0x1000 + x * 0x40 + y;
  }

  /** A text is well-formed exactly when it encodes some code points, none a surrogate. */
  lemma {:induction false} Utf8Means(s: seq<Byte>)
    ensures Utf8(s) <==> exists cs: seq<nat> :: (forall k :: 0 <= k < |cs| ==> Scalar(cs[k])) && s == Utf8All(cs)
    decreases |s|
  {
    hide Utf8Of, Scalar;
    if Utf8(s) {
      if s == [] {
        assert s == Utf8All([]);
      } else {
        var c, rest := FirstCodePoint(s);
        Utf8Means(rest);
        var cs: seq<nat> :| (forall k :: 0 <= k < |cs| ==> Scalar(cs[k])) && rest == Utf8All(cs);
        assert ([c] + cs)[1..] == cs;
        assert s == Utf8All([c] + cs);
      }
    }
    forall cs: seq<nat> | (forall k :: 0 <= k < |cs| ==> Scalar(cs[k])) && s == Utf8All(cs)
      ensures Utf8(s)
    {
      EncodedIsUtf8(cs);
    }
  }

  lemma {:induction false} EncodedIsUtf8(cs: seq<nat>)
    requires forall k :: 0 <= k < |cs| ==> Scalar(cs[k])
    ensures Utf8(Utf8All(cs))
  {
    hide Utf8Of, Scalar;
    if cs != [] {
      EncodedIsUtf8(cs[1..]);
      OneCodePoint(cs[0], Utf8All(cs[1..]));
    }
  }
}
