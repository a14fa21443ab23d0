/**
 UTF-8, strictly: no overlong form, no surrogate, nothing above U+10FFFF. It is what
 `str::as_bytes` writes and what `std::str::from_utf8` accepts.
 */
module Utf8 {
  import opened Wrappers

  type u8 = b: int | 0 <= b < 0x100
  type Bytes = seq<u8>

  function EncodeChar(c: char): (bs: Bytes)
    ensures 1 <= |bs| <= 4
  {
    var v := c as int;
    var v1, v2, v3 := v / 0x40, v / 0x40 / 0x40, v / 0x40 / 0x40 / 0x40;
    if v < 0x80 then [v]
    else if v < 0x800 then [0xC0 + v1, 0x80 + v % 0x40]
    else if v < 0x1_0000 then [0xE0 + v2, 0x80 + v1 % 0x40, 0x80 + v % 0x40]
    else [0xF0 + v3, 0x80 + v2 % 0x40, 0x80 + v1 % 0x40, 0x80 + v % 0x40]
  }

  function Encode(s: string): Bytes {
    if s == "" then [] else EncodeChar(s[0]) + Encode(s[1..])
  }

  /** Byte `i` is a continuation byte; its six payload bits. */
  predicate Continues(bs: Bytes, i: nat) {
    i < |bs| && 0x80 <= bs[i] < 0xC0
  }

  function Payload(bs: Bytes, i: nat): (d: int)
    requires Continues(bs, i)
    ensures 0 <= d < 0x40
  {
    bs[i] - 0x80
  }

  predicate Scalar(v: int) {
    0 <= v < 0xD800 || 0xE000 <= v < 0x11_0000
  }

  /** The first scalar of `bs` and the number of bytes it takes. */
  function DecodeChar(bs: Bytes): (r: Option<(char, nat)>)
    requires bs != []
    ensures r.Some? ==> 1 <= r.value.1 <= |bs|
  {
    var b: int := bs[0];
    if b < 0x80 then Some((b as char, 1))
    else if 0xC0 <= b < 0xE0 && Continues(bs, 1) then
      var v := (b - 0xC0) * 0x40 + Payload(bs, 1);
      if 0x80 <= v then Some((v as char, 2)) else None
    else if 0xE0 <= b < 0xF0 && Continues(bs, 1) && Continues(bs, 2) then
      var v := ((b - 0xE0) * 0x40 + Payload(bs, 1)) * 0x40 + Payload(bs, 2);
      if 0x800 <= v && Scalar(v) then Some((v as char, 3)) else None
    else if 0xF0 <= b < 0xF8 && Continues(bs, 1) && Continues(bs, 2) && Continues(bs, 3) then
      var v := (((b - 0xF0) * 0x40 + Payload(bs, 1)) * 0x40 + Payload(bs, 2)) * 0x40 + Payload(bs, 3);
      if 0x1_0000 <= v && Scalar(v) then Some((v as char, 4)) else None
    else None
  }

  function Decode(bs: Bytes): Option<string> {
    if bs == [] then Some("")
    else
      var first :- DecodeChar(bs);
      var rest :- Decode(bs[first.1..]);
      Some([first.0] + rest)
  }

  lemma DecodeEncodeChar(c: char, rest: Bytes)
    ensures DecodeChar(EncodeChar(c) + rest) == Some((c, |EncodeChar(c)|))
  {
    var v := c as int;
    var bs := EncodeChar(c) + rest;
    assert Scalar(v);
    assert v == v / 0x40 * 0x40 + v % 0x40;
    if v >= 0x80 {
      assert Continues(bs, 1);
    }
    if v >= 0x800 {
      assert Continues(bs, 2);
    }
  }

  lemma {:induction false} DecodeEncode(s: string)
    ensures Decode(Encode(s)) == Some(s)
  {
    if s != "" {
      var head := EncodeChar(s[0]);
      DecodeEncodeChar(s[0], Encode(s[1..]));
      DecodeEncode(s[1..]);
      assert (head + Encode(s[1..]))[|head|..] == Encode(s[1..]);
      assert s == [s[0]] + s[1..];
    }
  }
}
