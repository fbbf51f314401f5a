/** The two text forms of a digest: lowercase hexadecimal (the `hex` crate's `encode`) and
    standard padded base64 (the `base64` crate's `encode`, alphabet and padding of section 4
    of RFC 4648). Output is ASCII, given as its bytes. */
module Encoding {
  import opened Text

  // ---------------------------------------------------------------- hexadecimal

  /** '0'..'9' then 'a'..'f'. */
  predicate IsHexDigit(c: byte)
  {
    '0' as int <= c <= '9' as int || 'a' as int <= c <= 'f' as int
  }

  function HexDigit(n: int): (c: byte)
    requires 0 <= n < 16
    ensures IsHexDigit(c)
  {
    if n < 10 then '0' as int + n else 'a' as int + (n - 10)
  }

  /** The value of a lowercase hex digit; upper case is not produced by the encoder and is
      not accepted. */
  function HexValue(c: byte): (r: Option<int>)
    ensures r.Some? <==> IsHexDigit(c)
    ensures r.Some? ==> 0 <= r.value < 16 && HexDigit(r.value) == c
  {
    if '0' as int <= c <= '9' as int then Some(c - '0' as int)
    else if 'a' as int <= c <= 'f' as int then Some(c - 'a' as int + 10)
    else None
  }

  /** Two lowercase digits per byte, high nibble first. */
  function HexEncode(b: Bytes): (r: Bytes)
    ensures |r| == 2 * |b|
    ensures forall i | 0 <= i < |r| :: IsHexDigit(r[i])
  {
    if b == [] then []
    else [HexDigit(b[0] / 16), HexDigit(b[0] % 16)] + HexEncode(b[1..])
  }

  function HexDecode(s: Bytes): Option<Bytes>
  {
    if |s| == 0 then Some([])
    else if |s| == 1 then None
    else
      match (HexValue(s[0]), HexValue(s[1]), HexDecode(s[2..]))
      case (Some(hi), Some(lo), Some(rest)) => Some([hi * 16 + lo] + rest)
      case _ => None
  }

  /** Decoding recovers the encoded bytes. */
  lemma {:induction false} HexRoundTrip(b: Bytes)
    ensures HexDecode(HexEncode(b)) == Some(b)
  {
    if b != [] {
      var s := HexEncode(b);
      assert s[2..] == HexEncode(b[1..]);
      HexRoundTrip(b[1..]);
      var hi, lo := b[0] / 16, b[0] % 16;
      assert HexValue(HexDigit(hi)) == Some(hi);
      assert HexValue(HexDigit(lo)) == Some(lo);
      assert [b[0]] + b[1..] == b;
    }
  }

  /** The encoding is the only text that decodes to given bytes: a string is accepted as the
      hex form of `b` exactly when it is `HexEncode(b)`, letter case included. */
  lemma {:induction false} HexDecodeExact(s: Bytes, b: Bytes)
    ensures HexDecode(s) == Some(b) <==> s == HexEncode(b)
  {
    if s == HexEncode(b) {
      HexRoundTrip(b);
    }
    if HexDecode(s) == Some(b) && s != [] {
      var hi, lo := HexValue(s[0]).value, HexValue(s[1]).value;
      var rest := HexDecode(s[2..]).value;
      HexDecodeExact(s[2..], rest);
      assert b == [hi * 16 + lo] + rest;
      assert b[0] / 16 == hi && b[0] % 16 == lo && b[1..] == rest;
      assert s == [s[0], s[1]] + s[2..];
    }
  }

  // ---------------------------------------------------------------- base64

  /** 'A'..'Z', 'a'..'z', '0'..'9', '+', '/': the standard alphabet. */
  function Base64Digit(n: int): (c: byte)
    requires 0 <= n < 64
  {
    if n < 26 then 'A' as int + n
    else if n < 52 then 'a' as int + (n - 26)
    else if n < 62 then '0' as int + (n - 52)
    else if n == 62 then '+' as int
    else '/' as int
  }

  const PAD: byte := '=' as int

  function Base64Value(c: byte): (r: Option<int>)
    ensures r.Some? ==> 0 <= r.value < 64 && Base64Digit(r.value) == c
  {
    if 'A' as int <= c <= 'Z' as int then Some(c - 'A' as int)
    else if 'a' as int <= c <= 'z' as int then Some(c - 'a' as int + 26)
    else if '0' as int <= c <= '9' as int then Some(c - '0' as int + 52)
    else if c == '+' as int then Some(62)
    else if c == '/' as int then Some(63)
    else None
  }

  predicate IsBase64Digit(c: byte)
  {
    Base64Value(c).Some?
  }

  lemma Base64ValueOfDigit(n: int)
    requires 0 <= n < 64
    ensures Base64Value(Base64Digit(n)) == Some(n)
  {
  }

  /** One group of one to three bytes as four characters: its 6-bit pieces as digits, the
      last piece filled with zero bits, then `=` for each missing byte. */
  function Base64Group(b: Bytes): (g: Bytes)
    requires 1 <= |b| <= 3
    ensures |g| == 4
  {
    if |b| == 1 then
      [Base64Digit(b[0] / 4), Base64Digit((b[0] % 4) * 16), PAD, PAD]
    else if |b| == 2 then
      [Base64Digit(b[0] / 4), Base64Digit((b[0] % 4) * 16 + b[1] / 16),
       Base64Digit((b[1] % 16) * 4), PAD]
    else
      [Base64Digit(b[0] / 4), Base64Digit((b[0] % 4) * 16 + b[1] / 16),
       Base64Digit((b[1] % 16) * 4 + b[2] / 64), Base64Digit(b[2] % 64)]
  }

  /** Groups of three bytes, the last one possibly shorter and padded. */
  function Base64Encode(b: Bytes): (r: Bytes)
    ensures |r| == 4 * ((|b| + 2) / 3)
  {
    if |b| == 0 then []
    else if |b| <= 3 then Base64Group(b)
    else Base64Group(b[..3]) + Base64Encode(b[3..])
  }

  /** The bytes of one four-character group; `=` may stand only in its last one or two
      places, and the bits of the last digit that do not fill a byte must be zero, as
      section 3.5 of RFC 4648 requires of canonical encodings. */
  function Base64DecodeGroup(g: Bytes): (r: Option<Bytes>)
    requires |g| == 4
    ensures r.Some? ==> 1 <= |r.value| <= 3
  {
    var v0, v1, v2, v3 := Base64Value(g[0]), Base64Value(g[1]), Base64Value(g[2]), Base64Value(g[3]);
    if v0.None? || v1.None? then None
    else if g[2] == PAD && g[3] == PAD then
      if v1.value % 16 != 0 then None
      else Some([v0.value * 4 + v1.value / 16])
    else if v2.None? then None
    else if g[3] == PAD then
      if v2.value % 4 != 0 then None
      else Some([v0.value * 4 + v1.value / 16, (v1.value % 16) * 16 + v2.value / 4])
    else if v3.None? then None
    else
      Some([v0.value * 4 + v1.value / 16, (v1.value % 16) * 16 + v2.value / 4,
            (v2.value % 4) * 64 + v3.value])
  }

  /** Groups of four characters; only the last group may be padded. */
  function Base64Decode(s: Bytes): Option<Bytes>
  {
    if |s| == 0 then Some([])
    else if |s| < 4 then None
    else
      match Base64DecodeGroup(s[..4])
      case None => None
      case Some(g) =>
        if |g| < 3 then (if |s| == 4 then Some(g) else None)
        else
          match Base64Decode(s[4..])
          case None => None
          case Some(rest) => Some(g + rest)
  }

  /** A number written with a low part below `16` is split back by division. */
  lemma Pack16(hi: int, lo: int)
    requires 0 <= lo < 16
    ensures (hi * 16 + lo) / 16 == hi && (hi * 16 + lo) % 16 == lo
  {
  }

  lemma Pack4(hi: int, lo: int)
    requires 0 <= lo < 4
    ensures (hi * 4 + lo) / 4 == hi && (hi * 4 + lo) % 4 == lo
  {
  }

  lemma Base64GroupRoundTrip1(b: Bytes)
    requires |b| == 1
    ensures Base64DecodeGroup(Base64Group(b)) == Some(b)
  {
    var c0, c1 := b[0] / 4, (b[0] % 4) * 16;
    Base64ValueOfDigit(c0);
    Base64ValueOfDigit(c1);
    assert c0 * 4 + c1 / 16 == b[0] && c1 % 16 == 0 by { Pack16(b[0] % 4, 0); }
    assert [c0 * 4 + c1 / 16] == b;
  }

  lemma Base64GroupRoundTrip2(b: Bytes)
    requires |b| == 2
    ensures Base64DecodeGroup(Base64Group(b)) == Some(b)
  {
    var c0, c1, c2 := b[0] / 4, (b[0] % 4) * 16 + b[1] / 16, (b[1] % 16) * 4;
    var g := Base64Group(b);
    assert g == [Base64Digit(c0), Base64Digit(c1), Base64Digit(c2), PAD];
    Base64ValueOfDigit(c0);
    Base64ValueOfDigit(c1);
    Base64ValueOfDigit(c2);
    assert g[2] != PAD by {
      assert Base64Value(PAD) == None;
    }
    assert c2 % 4 == 0 by { Pack4(b[1] % 16, 0); }
    Unpack2(b);
  }

  /** The two bytes are recovered from the three pieces they were cut into. */
  lemma Unpack2(b: Bytes)
    requires |b| == 2
    ensures var c0, c1, c2 := b[0] / 4, (b[0] % 4) * 16 + b[1] / 16, (b[1] % 16) * 4;
      [c0 * 4 + c1 / 16, (c1 % 16) * 16 + c2 / 4] == b
  {
    var c0, c1, c2 := b[0] / 4, (b[0] % 4) * 16 + b[1] / 16, (b[1] % 16) * 4;
    assert c0 * 4 + c1 / 16 == b[0] by { Pack16(b[0] % 4, b[1] / 16); }
    assert (c1 % 16) * 16 + c2 / 4 == b[1] by {
      Pack16(b[0] % 4, b[1] / 16);
      Pack4(b[1] % 16, 0);
    }
  }

  lemma Base64GroupRoundTrip3(b: Bytes)
    requires |b| == 3
    ensures Base64DecodeGroup(Base64Group(b)) == Some(b)
  {
    var c0, c1 := b[0] / 4, (b[0] % 4) * 16 + b[1] / 16;
    var c2, c3 := (b[1] % 16) * 4 + b[2] / 64, b[2] % 64;
    var g := Base64Group(b);
    assert g == [Base64Digit(c0), Base64Digit(c1), Base64Digit(c2), Base64Digit(c3)];
    Base64ValueOfDigit(c0);
    Base64ValueOfDigit(c1);
    Base64ValueOfDigit(c2);
    Base64ValueOfDigit(c3);
    assert g[2] != PAD && g[3] != PAD by {
      assert Base64Value(PAD) == None;
    }
    Unpack3(b);
  }

  /** The three bytes are recovered from the four 6-bit pieces they were cut into. */
  lemma Unpack3(b: Bytes)
    requires |b| == 3
    ensures var c0, c1 := b[0] / 4, (b[0] % 4) * 16 + b[1] / 16;
      var c2, c3 := (b[1] % 16) * 4 + b[2] / 64, b[2] % 64;
      [c0 * 4 + c1 / 16, (c1 % 16) * 16 + c2 / 4, (c2 % 4) * 64 + c3] == b
  {
    var c0, c1 := b[0] / 4, (b[0] % 4) * 16 + b[1] / 16;
    var c2, c3 := (b[1] % 16) * 4 + b[2] / 64, b[2] % 64;
    assert c0 * 4 + c1 / 16 == b[0] by { Pack16(b[0] % 4, b[1] / 16); }
    assert (c1 % 16) * 16 + c2 / 4 == b[1] by {
      Pack16(b[0] % 4, b[1] / 16);
      Pack4(b[1] % 16, b[2] / 64);
    }
    assert (c2 % 4) * 64 + c3 == b[2] by { Pack4(b[1] % 16, b[2] / 64); }
  }

  lemma Pack64(hi: int, lo: int)
    requires 0 <= lo < 64
    ensures (hi * 64 + lo) / 64 == hi && (hi * 64 + lo) % 64 == lo
  {
  }

  /** A group that decodes is the encoding of what it decodes to. */
  lemma Base64GroupExact(g: Bytes)
    requires |g| == 4 && Base64DecodeGroup(g).Some?
    ensures Base64Group(Base64DecodeGroup(g).value) == g
  {
    var x := Base64DecodeGroup(g).value;
    var v0, v1 := Base64Value(g[0]).value, Base64Value(g[1]).value;
    assert x[0] / 4 == v0 && x[0] % 4 == v1 / 16 by { Pack4(v0, v1 / 16); }
    if |x| == 1 {
      assert (v1 / 16) * 16 == v1;
    } else {
      var v2 := Base64Value(g[2]).value;
      assert x[1] / 16 == v1 % 16 && x[1] % 16 == v2 / 4 by { Pack16(v1 % 16, v2 / 4); }
      assert (v1 / 16) * 16 + v1 % 16 == v1;
      if |x| == 2 {
        assert (v2 / 4) * 4 == v2;
      } else {
        var v3 := Base64Value(g[3]).value;
        assert x[2] / 64 == v2 % 4 && x[2] % 64 == v3 by { Pack64(v2 % 4, v3); }
        assert (v2 / 4) * 4 + v2 % 4 == v2;
      }
    }
  }

  /** Decoding recovers the encoded bytes. */
  lemma {:induction false} Base64RoundTrip(b: Bytes)
    ensures Base64Decode(Base64Encode(b)) == Some(b)
  {
    if 1 <= |b| <= 3 {
      var g := Base64Encode(b);
      Base64DecodeOne(g);
      if |b| == 1 {
        Base64GroupRoundTrip1(b);
      } else if |b| == 2 {
        Base64GroupRoundTrip2(b);
      } else {
        Base64GroupRoundTrip3(b);
      }
    } else if |b| > 3 {
      var g, t := Base64Group(b[..3]), Base64Encode(b[3..]);
      assert Base64Encode(b) == g + t;
      Base64GroupRoundTrip3(b[..3]);
      Base64RoundTrip(b[3..]);
      Base64DecodeCons(g, t);
      assert b[..3] + b[3..] == b;
    }
  }

  /** A single group decodes as that group. */
  lemma Base64DecodeOne(g: Bytes)
    requires |g| == 4
    ensures Base64Decode(g) == Base64DecodeGroup(g)
  {
    assert g[..4] == g && g[4..] == [];
    if Base64DecodeGroup(g).Some? {
      assert Base64DecodeGroup(g).value + [] == Base64DecodeGroup(g).value;
    }
  }

  /** A group followed by more text: the group must be a full three bytes, and the rest is
      decoded after it. */
  lemma Base64DecodeCons(g: Bytes, t: Bytes)
    requires |g| == 4 && t != []
    ensures Base64Decode(g + t) ==
      match Base64DecodeGroup(g)
      case None => None
      case Some(x) =>
        if |x| < 3 then None
        else
          match Base64Decode(t)
          case None => None
          case Some(rest) => Some(x + rest)
  {
    assert (g + t)[..4] == g && (g + t)[4..] == t;
  }

  /** The encoding is the only text that decodes to given bytes: a string is accepted as the
      base64 form of `b` exactly when it is `Base64Encode(b)`. */
  lemma Base64DecodeExact(s: Bytes, b: Bytes)
    ensures Base64Decode(s) == Some(b) <==> s == Base64Encode(b)
  {
    if s == Base64Encode(b) {
      Base64RoundTrip(b);
    }
    if Base64Decode(s) == Some(b) {
      Base64DecodeCanonical(s);
    }
  }

  /** Whatever decodes is the encoding of its result. */
  lemma {:induction false} Base64DecodeCanonical(s: Bytes)
    requires Base64Decode(s).Some?
    ensures s == Base64Encode(Base64Decode(s).value)
  {
    if |s| > 0 {
      var g, t := s[..4], s[4..];
      assert s == g + t;
      var x := Base64DecodeGroup(g).value;
      Base64GroupExact(g);
      if t == [] {
        Base64DecodeOne(g);
      } else {
        Base64DecodeCons(g, t);
        var rest := Base64Decode(t).value;
        Base64DecodeCanonical(t);
        assert (x + rest)[..3] == x && (x + rest)[3..] == rest;
      }
    }
  }

  /** The characters of one group: digits, then one `=` per missing byte. */
  lemma Base64GroupShape(b: Bytes)
    requires 1 <= |b| <= 3
    ensures var g := Base64Group(b);
      && (forall i | 0 <= i <= |b| :: IsBase64Digit(g[i]))
      && (forall i | |b| < i < 4 :: g[i] == PAD)
  {
    Base64ValueOfDigit(b[0] / 4);
    if |b| == 1 {
      Base64ValueOfDigit((b[0] % 4) * 16);
    } else if |b| == 2 {
      Base64ValueOfDigit((b[0] % 4) * 16 + b[1] / 16);
      Base64ValueOfDigit((b[1] % 16) * 4);
    } else {
      Base64ValueOfDigit((b[0] % 4) * 16 + b[1] / 16);
      Base64ValueOfDigit((b[1] % 16) * 4 + b[2] / 64);
      Base64ValueOfDigit(b[2] % 64);
    }
  }

  lemma GroupPadded(b: Bytes)
    requires 1 <= |b| <= 3
    ensures Padded(Base64Group(b), (3 - |b| % 3) % 3)
  {
    Base64GroupShape(b);
    var pad := (3 - |b| % 3) % 3;
    assert pad == 3 - |b| by {
      if |b| == 1 { } else if |b| == 2 { } else { }
    }
  }

  /** `r` is base64 digits followed by `pad` padding characters. */
  predicate Padded(r: Bytes, pad: nat)
  {
    pad <= |r| &&
    (forall i | 0 <= i < |r| - pad :: IsBase64Digit(r[i])) &&
    (forall i | |r| - pad <= i < |r| :: r[i] == PAD)
  }

  lemma PaddedPrepend(head: Bytes, tail: Bytes, pad: nat)
    requires forall i | 0 <= i < |head| :: IsBase64Digit(head[i])
    requires Padded(tail, pad)
    ensures Padded(head + tail, pad)
  {
    var r := head + tail;
    forall i | 0 <= i < |r| - pad
      ensures IsBase64Digit(r[i])
    {
      if i >= |head| { assert r[i] == tail[i - |head|]; }
    }
  }

  /** The characters of an encoding: digits of the alphabet, then exactly the padding the
      length calls for (none, one or two `=`). */
  lemma {:induction false} Base64Shape(b: Bytes)
    ensures Padded(Base64Encode(b), (3 - |b| % 3) % 3)
  {
    if 0 < |b| <= 3 {
      GroupPadded(b);
    } else if |b| > 3 {
      Base64GroupShape(b[..3]);
      Base64Shape(b[3..]);
      assert (3 - |b[3..]| % 3) % 3 == (3 - |b| % 3) % 3 by {
        assert |b[3..]| == |b| - 3;
      }
      PaddedPrepend(Base64Group(b[..3]), Base64Encode(b[3..]), (3 - |b| % 3) % 3);
    }
  }
}
