/** UTF-8 as `String::into_bytes` and `str::from_utf8` use it: strict, shortest form only. */
module Utf8 {
  import opened Base

  function EncodeChar(c: char): (r: Bytes)
    ensures 1 <= |r| <= 4
  {
    var n := c as int;
    if n < 0x80 then [n]
    else if n < 0x800 then [0xC0 + n / 64, 0x80 + n % 64]
    else if n < 0x1_0000 then [0xE0 + n / 4096, 0x80 + n / 64 % 64, 0x80 + n % 64]
    else [0xF0 + n / 0x4_0000, 0x80 + n / 4096 % 64, 0x80 + n / 64 % 64, 0x80 + n % 64]
  }

  function Encode(s: string): Bytes {
    if s == "" then [] else EncodeChar(s[0]) + Encode(s[1..])
  }

  lemma {:induction false} EncodeAppend(a: string, b: string)
    ensures Encode(a + b) == Encode(a) + Encode(b)
    decreases |a|
  {
    if a == "" {
      assert a + b == b;
    } else {
      assert (a + b)[1..] == a[1..] + b;
      EncodeAppend(a[1..], b);
    }
  }

  predicate Scalar(n: int) { 0 <= n < 0xD800 || 0xE000 <= n < 0x11_0000 }

  function SequenceLen(lead: byte): (n: nat)
    ensures 1 <= n <= 4
  {
    if lead < 0x80 then 1 else if lead < 0xE0 then 2 else if lead < 0xF0 then 3 else 4
  }

  /** The number the bytes of one sequence spell, well formed or not. */
  function CodePoint(b: Bytes): int
    requires 1 <= |b| <= 4
  {
    var lead: int := b[0];
    if |b| == 1 then lead
    else if |b| == 2 then 64 * (lead - 0xC0) + (b[1] as int - 0x80)
    else if |b| == 3 then 4096 * (lead - 0xE0) + 64 * (b[1] as int - 0x80) + (b[2] as int - 0x80)
    else 0x4_0000 * (lead - 0xF0) + 4096 * (b[1] as int - 0x80) + 64 * (b[2] as int - 0x80) + (b[3] as int - 0x80)
  }

  /** One character off the front, when its bytes are exactly that character's encoding. */
  function DecodeChar(b: Bytes): (r: Option<char>)
    ensures r.Some? ==> EncodeChar(r.value) <= b
  {
    if b == [] || |b| < SequenceLen(b[0]) then None
    else
      var n := CodePoint(b[..SequenceLen(b[0])]);
      if Scalar(n) && EncodeChar(n as char) == b[..SequenceLen(b[0])] then Some(n as char) else None
  }

  function Decode(b: Bytes): (r: Option<string>)
    ensures r.Some? ==> Encode(r.value) == b
  {
    if b == [] then Some("")
    else match DecodeChar(b)
      case None => None
      case Some(c) =>
        (match Decode(b[|EncodeChar(c)|..])
         case None => None
         case Some(s) => Some([c] + s))
  }

  lemma DecodeEncodeChar(c: char, rest: Bytes)
    ensures DecodeChar(EncodeChar(c) + rest) == Some(c)
  {
    var n := c as int;
    var b := EncodeChar(c) + rest;
    assert |EncodeChar(c)| == SequenceLen(b[0]);
    assert b[..SequenceLen(b[0])] == EncodeChar(c);
    CodePointEncode(c);
  }

  lemma CodePointEncode(c: char)
    ensures CodePoint(EncodeChar(c)) == c as int
  {
    var n := c as int;
    assert n == 64 * (n / 64) + n % 64;
    assert n / 64 == 64 * (n / 4096) + n / 64 % 64;
    assert n / 4096 == 64 * (n / 0x4_0000) + n / 4096 % 64;
  }

  lemma DecodeFirst(c: char, rest: Bytes)
    requires Decode(rest).Some?
    ensures Decode(EncodeChar(c) + rest) == Some([c] + Decode(rest).value)
  {
    hide EncodeChar, DecodeChar, Encode;
    var b := EncodeChar(c) + rest;
    DecodeEncodeChar(c, rest);
    assert b[|EncodeChar(c)|..] == rest;
  }

  /** Encoding and decoding are inverse: `Decode` accepts exactly the encodings. */
  lemma {:induction false} DecodeEncode(s: string)
    ensures Decode(Encode(s)) == Some(s)
    decreases |s|
  {
    if s != "" {
      hide EncodeChar, DecodeChar, Decode;
      DecodeEncode(s[1..]);
      DecodeFirst(s[0], Encode(s[1..]));
      assert s == [s[0]] + s[1..];
    }
  }
}
