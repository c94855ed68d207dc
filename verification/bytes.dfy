/**
  Bytes of a WAD file and the little-endian signed integers stored in them.
  Every multi-byte field of the format is a two's-complement `i16` or `i32`
  written least significant byte first.
 */
module Bytes {

  type Byte = b: int | 0 <= b < 0x100
  type Int16 = v: int | -0x8000 <= v < 0x8000
  type Int32 = v: int | -0x8000_0000 <= v < 0x8000_0000

  /** Unsigned value of two little-endian bytes. */
  function U16(s: seq<Byte>): (u: nat)
    requires |s| == 2
    ensures u < 0x1_0000
  {
    s[0] as int + 0x100 * s[1] as int
  }

  /** Unsigned value of four little-endian bytes. */
  function U32(s: seq<Byte>): (u: nat)
    requires |s| == 4
    ensures u < 0x1_0000_0000
  {
    s[0] as int + 0x100 * (s[1] as int + 0x100 * (s[2] as int + 0x100 * s[3] as int))
  }

  /** A little-endian `i16`: the top bit of the second byte is the sign. */
  function DecodeI16(s: seq<Byte>): (v: Int16)
    requires |s| == 2
    ensures v < 0 <==> s[1] >= 0x80
    ensures (v + 0x1_0000) % 0x1_0000 == U16(s)
  {
    var u := U16(s);
    if u >= 0x8000 then u - 0x1_0000 else u
  }

  /** A little-endian `i32`: the top bit of the fourth byte is the sign. */
  function DecodeI32(s: seq<Byte>): (v: Int32)
    requires |s| == 4
    ensures v < 0 <==> s[3] >= 0x80
    ensures (v + 0x1_0000_0000) % 0x1_0000_0000 == U32(s)
  {
    var u := U32(s);
    if u >= 0x8000_0000 then u - 0x1_0000_0000 else u
  }

  function EncodeI16(v: Int16): (s: seq<Byte>)
    ensures |s| == 2
  {
    var u := if v < 0 then v + 0x1_0000 else v;
    [u % 0x100, u / 0x100]
  }

  function EncodeI32(v: Int32): (s: seq<Byte>)
    ensures |s| == 4
  {
    var u := if v < 0 then v + 0x1_0000_0000 else v;
    var r1 := u / 0x100;
    var r2 := r1 / 0x100;
    [u % 0x100, r1 % 0x100, r2 % 0x100, r2 / 0x100]
  }

  lemma I16RoundTrip(v: Int16)
    ensures DecodeI16(EncodeI16(v)) == v
  {
  }

  lemma I16BytesRoundTrip(s: seq<Byte>)
    requires |s| == 2
    ensures EncodeI16(DecodeI16(s)) == s
  {
    var e := EncodeI16(DecodeI16(s));
    assert e[0] == s[0] && e[1] == s[1];
  }

  lemma I32RoundTrip(v: Int32)
    ensures DecodeI32(EncodeI32(v)) == v
  {
    var u := if v < 0 then v + 0x1_0000_0000 else v;
    var r1 := u / 0x100;
    var r2 := r1 / 0x100;
    assert u == u % 0x100 + 0x100 * r1;
    assert r1 == r1 % 0x100 + 0x100 * r2;
    assert r2 == r2 % 0x100 + 0x100 * (r2 / 0x100);
    assert U32(EncodeI32(v)) == u;
  }

  lemma I32BytesRoundTrip(s: seq<Byte>)
    requires |s| == 4
    ensures EncodeI32(DecodeI32(s)) == s
  {
    var u := U32(s);
    var r1 := s[1] as int + 0x100 * (s[2] as int + 0x100 * s[3] as int);
    var r2 := s[2] as int + 0x100 * s[3] as int;
    assert u / 0x100 == r1 && u % 0x100 == s[0];
    assert r1 / 0x100 == r2 && r1 % 0x100 == s[1];
    assert r2 / 0x100 == s[3] && r2 % 0x100 == s[2];
    var e := EncodeI32(DecodeI32(s));
    assert e[0] == s[0] && e[1] == s[1] && e[2] == s[2] && e[3] == s[3];
  }
}
