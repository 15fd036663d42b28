/**
 SSH binary packet framing for the unencrypted phase (section 6 of RFC 4253).

 The program aligns the padding-length byte, payload and padding to the block size and leaves
 the four-byte length field out of the sum; RFC 4253 counts it. The model keeps the program's
 rule, its 32-bit length field and its one-byte padding field, both of which truncate.
 */
module Ssh {
  import opened Base

  datatype Packet = Packet(payload: Bytes, padding: Bytes)

  function BlockSize(requested: nat): nat { if requested < 8 then 8 else requested }

  function PaddingLen(payloadLen: nat, requested: nat): nat {
    var b := BlockSize(requested);
    var need := (b - (1 + payloadLen) % b) % b;
    if need < 4 then need + b else need
  }

  function PacketLen(payloadLen: nat, requested: nat): nat {
    1 + payloadLen + PaddingLen(payloadLen, requested)
  }

  function ToBe32(n: u32): (r: Bytes)
    ensures |r| == 4
  {
    [n / 0x100_0000, n / 0x1_0000 % 256, n / 256 % 256, n % 256]
  }

  function FromBe32(b: Bytes): u32
    requires |b| == 4
  {
    256 * (256 * (256 * (b[0] as int) + b[1]) + b[2]) + b[3]
  }

  function Zeros(n: nat): (r: Bytes)
    ensures |r| == n && forall i | 0 <= i < n :: r[i] == 0
  {
    seq(n, _ => 0)
  }

  /** The bytes of a frame; casts truncate as `as u32` and `as u8` do. */
  function Frame(payload: Bytes, requested: nat): (r: Bytes)
    ensures |r| == 4 + PacketLen(|payload|, requested)
  {
    var pad := PaddingLen(|payload|, requested);
    ToBe32(PacketLen(|payload|, requested) % TWO_32) + [pad % 256] + payload + Zeros(pad)
  }

  /** The program's buffer filling. */
  method EncodePacket(payload: Bytes, blockSize: nat) returns (frame: Bytes)
    ensures frame == Frame(payload, blockSize)
    ensures (|frame| - 4) % BlockSize(blockSize) == 0
  {
    var bsize := if blockSize < 8 then 8 else blockSize;
    var rawNeed := (bsize - (1 + |payload|) % bsize) % bsize;
    var paddingLen := if rawNeed < 4 then rawNeed + bsize else rawNeed;
    var packetLength := 1 + |payload| + paddingLen;
    frame := [];
    frame := frame + ToBe32(packetLength % TWO_32);
    frame := frame + [paddingLen % 256];
    frame := frame + payload;
    frame := frame + Zeros(paddingLen);
    PaddingAligns(|payload|, blockSize);
  }

  function DecodePacket(data: Bytes): Option<(Packet, nat)> {
    if |data| < 5 then None
    else
      var packetLength := FromBe32(data[..4]);
      var total := 4 + packetLength;
      if |data| < total then None
      else
        var paddingLength := data[4];
        if paddingLength + 1 > packetLength then None
        else
          var payloadLength := packetLength - 1 - paddingLength;
          Some((Packet(data[5..5 + payloadLength], data[5 + payloadLength..5 + payloadLength + paddingLength]), total))
  }

  // ---- Padding ----------------------------------------------------------------

  lemma Residue(x: nat, b: nat)
    requires b > 0
    ensures (b - x % b) % b == if x % b == 0 then 0 else b - x % b
  {
    if x % b == 0 {
      assert (b - 0) % b == 0;
    } else {
      assert 0 < b - x % b < b;
      SmallMod(b - x % b, b);
    }
  }

  lemma SmallMod(x: nat, b: nat)
    requires x < b
    ensures x % b == x
  {
  }

  lemma MultipleMod(k: nat, b: nat)
    requires b > 0
    ensures (k * b) % b == 0
  {
    if k > 0 {
      MultipleMod(k - 1, b);
      assert k * b == (k - 1) * b + b;
      AddBlock((k - 1) * b, b);
    }
  }

  lemma AddBlock(x: int, b: nat)
    requires b > 0
    ensures (x + b) % b == x % b
  {
    var q, r := x / b, x % b;
    assert x + b == (q + 1) * b + r;
    DivUnique(x + b, b, q + 1, r);
  }

  lemma DivUnique(x: int, b: nat, q: int, r: nat)
    requires b > 0 && x == q * b + r && r < b
    ensures x % b == r
  {
    assert (x / b - q) * b == r - x % b;
    CloseMultiples(x / b - q, b, r - x % b);
  }

  /** A multiple of `b` nearer to zero than `b` is zero. */
  lemma CloseMultiples(k: int, b: int, d: int)
    requires k * b == d && -b < d < b
    ensures k == 0 && d == 0
  {
    MulGrows(k, b);
  }

  lemma MulGrows(k: int, b: int)
    requires b >= 0
    ensures k >= 1 ==> k * b >= b
    ensures k <= -1 ==> k * b <= -b
  {
  }

  lemma NextMultiple(x: nat, b: nat)
    requires b > 0
    ensures x + (b - x % b) == (x / b + 1) * b
  {
    assert x == x / b * b + x % b;
    assert (x / b + 1) * b == x / b * b + b;
  }

  /** The bytes missing to the next block boundary. */
  lemma NeedAligns(x: nat, b: nat)
    requires b > 0
    ensures 0 <= (b - x % b) % b < b
    ensures (x + (b - x % b) % b) % b == 0
  {
    Residue(x, b);
    if x % b != 0 {
      NextMultiple(x, b);
      MultipleMod(x / b + 1, b);
    }
  }

  /** The padding aligns the packet and lies between four and one block more than three. */
  lemma PaddingAligns(payloadLen: nat, requested: nat)
    ensures 4 <= PaddingLen(payloadLen, requested) <= BlockSize(requested) + 3
    ensures PacketLen(payloadLen, requested) % BlockSize(requested) == 0
  {
    var b := BlockSize(requested);
    var x := 1 + payloadLen;
    NeedAligns(x, b);
    AddBlock(x + (b - x % b) % b, b);
  }

  /** With its length field a frame is four bytes past a block boundary, so the alignment of RFC 4253 never holds. */
  lemma FrameNeverAligned(payload: Bytes, requested: nat)
    ensures |Frame(payload, requested)| % BlockSize(requested) == 4
  {
    var b, n := BlockSize(requested), PacketLen(|payload|, requested);
    PaddingAligns(|payload|, requested);
    assert n == n / b * b;
    DivUnique(n + 4, b, n / b, 4);
  }

  /** No other padding in that range aligns it. */
  lemma PaddingUnique(payloadLen: nat, requested: nat, pad: nat)
    requires 4 <= pad <= BlockSize(requested) + 3
    requires (1 + payloadLen + pad) % BlockSize(requested) == 0
    ensures pad == PaddingLen(payloadLen, requested)
  {
    var b := BlockSize(requested);
    PaddingAligns(payloadLen, requested);
    var x, y := 1 + payloadLen + pad, PacketLen(payloadLen, requested);
    assert x == x / b * b && y == y / b * b;
    assert (y / b - x / b) * b == y - x;
    CloseMultiples(y / b - x / b, b, y - x);
  }

  // ---- Framing and decoding ---------------------------------------------------

  lemma Be32RoundTrip(n: u32)
    ensures FromBe32(ToBe32(n)) == n
  {
    assert n / 0x1_0000 == n / 0x100_0000 * 256 + n / 0x1_0000 % 256;
    assert n / 256 == n / 0x1_0000 * 256 + n / 256 % 256;
    assert n == n / 256 * 256 + n % 256;
  }

  lemma Horner(q: nat, r: nat)
    ensures r < 256 ==> (256 * q + r) / 256 == q && (256 * q + r) % 256 == r
    ensures r < 0x1_0000 ==> (0x1_0000 * q + r) / 0x1_0000 == q
    ensures r < 0x100_0000 ==> (0x100_0000 * q + r) / 0x100_0000 == q
  {
  }

  lemma Be32Inverse(b: Bytes)
    requires |b| == 4
    ensures ToBe32(FromBe32(b)) == b
  {
    var b0: int, b1: int, b2: int, b3: int := b[0], b[1], b[2], b[3];
    Horner(256 * (256 * b0 + b1) + b2, b3);
    Horner(256 * b0 + b1, 256 * b2 + b3);
    Horner(256 * b0 + b1, b2);
    Horner(b0, 0x1_0000 * b1 + 256 * b2 + b3);
    Horner(b0, b1);
    assert FromBe32(b) == 0x1_0000 * (256 * b0 + b1) + (256 * b2 + b3) == 0x100_0000 * b0 + (0x1_0000 * b1 + 256 * b2 + b3);
  }

  predicate Fits(p: Packet) { |p.padding| < 256 && 1 + |p.payload| + |p.padding| < TWO_32 }

  /** The wire image of a packet whose lengths fit their fields. */
  function Image(p: Packet): Bytes
    requires Fits(p)
  {
    ToBe32(1 + |p.payload| + |p.padding|) + [|p.padding|] + p.payload + p.padding
  }

  lemma DecodeImage(p: Packet, rest: Bytes)
    requires Fits(p)
    ensures DecodePacket(Image(p) + rest) == Some((p, |Image(p)|))
  {
    var data := Image(p) + rest;
    var n := 1 + |p.payload| + |p.padding|;
    assert data[..4] == ToBe32(n);
    Be32RoundTrip(n);
    assert data[4] == |p.padding|;
    assert data[5..5 + |p.payload|] == p.payload;
    assert data[5 + |p.payload|..4 + n] == p.padding;
  }

  /** Decoding is exactly un-framing: it succeeds with `p` if and only if the data starts with the image of `p`. */
  lemma DecodeCharacterised(data: Bytes, p: Packet, n: nat)
    ensures DecodePacket(data) == Some((p, n)) <==> Fits(p) && Image(p) <= data && n == |Image(p)|
  {
    if DecodePacket(data) == Some((p, n)) {
      Be32Inverse(data[..4]);
      assert Fits(p);
      assert data[..n] == data[..4] + [data[4]] + p.payload + p.padding;
      assert Image(p) == data[..n];
    }
    if Fits(p) && Image(p) <= data && n == |Image(p)| {
      DecodeImage(p, data[|Image(p)|..]);
      assert data == Image(p) + data[|Image(p)|..];
    }
  }

  /** No image is a proper prefix of another, so a cut-off packet decodes to nothing. */
  lemma ProperPrefixUndecoded(p: Packet, k: nat)
    requires Fits(p) && k < |Image(p)|
    ensures DecodePacket(Image(p)[..k]) == None
  {
    var cut := Image(p)[..k];
    if k >= 5 {
      assert cut[..4] == ToBe32(1 + |p.payload| + |p.padding|);
      Be32RoundTrip(1 + |p.payload| + |p.padding|);
    }
  }

  lemma FrameIsImage(payload: Bytes, requested: nat)
    requires PaddingLen(|payload|, requested) < 256 && PacketLen(|payload|, requested) < TWO_32
    ensures Frame(payload, requested) == Image(Packet(payload, Zeros(PaddingLen(|payload|, requested))))
  {
    hide PaddingLen, ToBe32;
    SmallMod(PacketLen(|payload|, requested), TWO_32);
  }

  /**
   Byte by byte: the length big-endian and cut to 32 bits, the padding length cut to eight, the
   payload, and zeros, at least four and less than a block more, up to a multiple of the block size,
   which is what was asked for but never under eight.
   */
  lemma FrameLayout(payload: Bytes, requested: nat)
    ensures
      var f, block, n := Frame(payload, requested), Max(8, requested), |payload|;
      var pad := |f| - 5 - n;
      && 4 <= pad < block + 4
      && (1 + n + pad) % block == 0
      && 0x100_0000 * f[0] as int + 0x1_0000 * f[1] as int + 0x100 * f[2] as int + f[3] as int == (1 + n + pad) % 0x1_0000_0000
      && f[4] as int == pad % 256
      && f[5..5 + n] == payload
      && forall i | 5 + n <= i < |f| :: f[i] == 0
  {
    var f, n := Frame(payload, requested), |payload|;
    var pad := PaddingLen(n, requested);
    PaddingAligns(n, requested);
    BigEndian((1 + n + pad) % TWO_32);
    hide PaddingLen, ToBe32;
    assert f[..4] == ToBe32((1 + n + pad) % TWO_32);
    assert f[5..5 + n] == payload;
    assert f[5 + n..] == Zeros(pad);
    assert forall i | 5 + n <= i < |f| :: f[i] == f[5 + n..][i - 5 - n];
  }

  lemma BigEndian(n: u32)
    ensures var b := ToBe32(n);
            0x100_0000 * b[0] as int + 0x1_0000 * b[1] as int + 0x100 * b[2] as int + b[3] as int == n
  {
    Be32RoundTrip(n);
  }

  /** A frame decodes to its payload exactly when neither length field truncates. */
  lemma FrameRoundTrip(payload: Bytes, requested: nat, rest: Bytes)
    ensures var pad := PaddingLen(|payload|, requested);
            DecodePacket(Frame(payload, requested) + rest) == Some((Packet(payload, Zeros(pad)), |Frame(payload, requested)|))
            <==> pad < 256 && PacketLen(|payload|, requested) < TWO_32
  {
    var pad := PaddingLen(|payload|, requested);
    var p := Packet(payload, Zeros(pad));
    var frame := Frame(payload, requested);
    hide DecodePacket, PaddingLen, Frame, Image;
    DecodeCharacterised(frame + rest, p, |frame|);
    if Fits(p) {
      FrameIsImage(payload, requested);
      assert Image(p) <= frame + rest;
    }
  }

  /** Every payload survives exactly for block sizes up to 252. */
  lemma BlockSizeLimit(requested: nat)
    ensures requested <= 252 ==>
              forall payload: Bytes, rest: Bytes | PacketLen(|payload|, requested) < TWO_32 ::
                DecodePacket(Frame(payload, requested) + rest)
                == Some((Packet(payload, Zeros(PaddingLen(|payload|, requested))), |Frame(payload, requested)|))
    ensures requested > 252 ==>
              var payload := Zeros(requested - 4);
              DecodePacket(Frame(payload, requested))
              != Some((Packet(payload, Zeros(PaddingLen(|payload|, requested))), |Frame(payload, requested)|))
  {
    if requested <= 252 {
      forall payload: Bytes, rest: Bytes | PacketLen(|payload|, requested) < TWO_32
        ensures DecodePacket(Frame(payload, requested) + rest)
                == Some((Packet(payload, Zeros(PaddingLen(|payload|, requested))), |Frame(payload, requested)|))
      {
        PaddingAligns(|payload|, requested);
        FrameRoundTrip(payload, requested, rest);
      }
    } else {
      var payload := Zeros(requested - 4);
      SmallMod(requested - 3, requested);
      SmallMod(3, requested);
      assert PaddingLen(|payload|, requested) == 3 + requested;
      FrameRoundTrip(payload, requested, []);
      assert Frame(payload, requested) + [] == Frame(payload, requested);
    }
  }

  // ---- Streams ----------------------------------------------------------------

  ghost predicate AllFit(ps: seq<Packet>) { forall i | 0 <= i < |ps| :: Fits(ps[i]) }

  /** The concatenated images of a list of packets. */
  ghost function Wire(ps: seq<Packet>): Bytes
    requires AllFit(ps)
  {
    if ps == [] then [] else Image(ps[0]) + Wire(ps[1..])
  }

  /** Decode packets from the front until none is complete; what is left over is returned too. */
  function DecodeAll(data: Bytes): (seq<Packet>, Bytes)
    decreases |data|
  {
    match DecodePacket(data)
    case None => ([], data)
    case Some((p, n)) =>
      DecodeCharacterised(data, p, n);
      var (ps, left) := DecodeAll(data[n..]);
      ([p] + ps, left)
  }

  /** A stream of images followed by an incomplete tail decodes to exactly those packets and that tail. */
  lemma {:induction false} StreamRoundTrip(ps: seq<Packet>, tail: Bytes)
    requires AllFit(ps) && DecodePacket(tail).None?
    ensures DecodeAll(Wire(ps) + tail) == (ps, tail)
    decreases |ps|
  {
    hide DecodePacket, Image;
    if ps == [] {
      assert Wire(ps) + tail == tail;
    } else {
      var rest := Wire(ps[1..]) + tail;
      assert Wire(ps) + tail == Image(ps[0]) + rest;
      DecodeImage(ps[0], rest);
      assert (Image(ps[0]) + rest)[|Image(ps[0])|..] == rest;
      StreamRoundTrip(ps[1..], tail);
      assert ps == [ps[0]] + ps[1..];
    }
  }

  /** Conversely, whatever is decoded from a stream re-frames to the bytes consumed. */
  lemma {:induction false} StreamReframes(data: Bytes)
    ensures var (ps, left) := DecodeAll(data);
            AllFit(ps) && Wire(ps) + left == data && DecodePacket(left).None?
    decreases |data|
  {
    hide DecodePacket, Image, Fits, DecodeAll, AllFit, Wire;
    if DecodePacket(data).None? {
      DecodeAllStops(data);
    } else {
      var (p, n) := DecodePacket(data).value;
      DecodeAllSteps(data, p, n);
      StreamReframes(data[n..]);
      var (ps, left) := DecodeAll(data[n..]);
      WireCons(p, ps);
      assert data == Image(p) + data[n..];
      assert Image(p) + (Wire(ps) + left) == Image(p) + Wire(ps) + left;
    }
  }

  lemma DecodeAllStops(data: Bytes)
    requires DecodePacket(data).None?
    ensures DecodeAll(data) == ([], data) && AllFit([]) && Wire([]) + data == data
  {
  }

  lemma DecodeAllSteps(data: Bytes, p: Packet, n: nat)
    requires DecodePacket(data) == Some((p, n))
    ensures 0 < n <= |data| && Fits(p) && data[..n] == Image(p)
    ensures var (ps, left) := DecodeAll(data[n..]); DecodeAll(data) == ([p] + ps, left)
  {
    DecodeCharacterised(data, p, n);
  }

  lemma WireCons(p: Packet, ps: seq<Packet>)
    requires Fits(p) && AllFit(ps)
    ensures AllFit([p] + ps) && Wire([p] + ps) == Image(p) + Wire(ps)
  {
    hide Image, Fits;
    assert ([p] + ps)[1..] == ps;
  }

  function FrameAll(payloads: seq<Bytes>, requested: nat): Bytes {
    if payloads == [] then [] else Frame(payloads[0], requested) + FrameAll(payloads[1..], requested)
  }

  function PacketOf(payload: Bytes, requested: nat): Packet {
    Packet(payload, Zeros(PaddingLen(|payload|, requested)))
  }

  lemma {:induction false} FramesAreWire(payloads: seq<Bytes>, requested: nat, ps: seq<Packet>)
    requires requested <= 252 && |ps| == |payloads|
    requires forall i | 0 <= i < |ps| :: PacketLen(|payloads[i]|, requested) < TWO_32 && ps[i] == PacketOf(payloads[i], requested)
    ensures AllFit(ps) && FrameAll(payloads, requested) == Wire(ps)
    decreases |ps|
  {
    hide Frame, Image, PaddingLen;
    if ps != [] {
      PaddingAligns(|payloads[0]|, requested);
      FrameIsImage(payloads[0], requested);
      FramesAreWire(payloads[1..], requested, ps[1..]);
      assert forall i | 0 < i < |ps| :: ps[i] == ps[1..][i - 1];
    }
  }

  /** Frames of any payloads at a block size up to 252 come back from one stream, in order, with nothing left. */
  lemma FramesRoundTrip(payloads: seq<Bytes>, requested: nat, ps: seq<Packet>)
    requires requested <= 252 && |ps| == |payloads|
    requires forall i | 0 <= i < |ps| :: PacketLen(|payloads[i]|, requested) < TWO_32 && ps[i] == PacketOf(payloads[i], requested)
    ensures DecodeAll(FrameAll(payloads, requested)) == (ps, [])
  {
    FramesAreWire(payloads, requested, ps);
    StreamRoundTrip(ps, []);
    assert Wire(ps) + [] == Wire(ps);
  }
}
