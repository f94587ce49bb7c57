/**
 * The WebSocket frame codec of RFC 6455 section 5.2 as the server uses it:
 * `Mask` builds an unmasked single-frame text message for a client, and
 * `Unmask` reads a masked frame sent by a client (section 5.3 masking).
 *
 * Bytes of a PHP string are modelled as `seq<byte>`. Reads past the end of
 * a PHP string follow PHP 8: `$s[$i]` gives "", `ord("")` is 0, `"" ^ $x`
 * is "" and `substr` past the end is "".
 */
module Frame {
  import opened Bytes

  /** First octet of every server frame: FIN set, RSV1-3 clear, opcode 1 (text). */
  const FinText: byte := 0x81

  /**
   * Payload lengths must stay below 2^63: section 5.2 of RFC 6455 requires the
   * most significant bit of the 64-bit length to be 0, and a PHP string
   * cannot be longer either.
   */
  const MaxPayload: nat := 0x8000_0000_0000_0000

  /** Offset just past the length field of a frame whose payload has `len` bytes. */
  function LengthFieldEnd(len: nat): (at: nat)
    ensures at == 2 || at == 4 || at == 10
  {
    if len <= 125 then 2 else if len < 65536 then 4 else 10
  }

  /**
   * The server frame carrying `text` (RFC 6455 section 5.2): the 7-bit
   * length when it fits in 0..125, else the marker 126 and a 2-byte
   * big-endian length for up to 65535 bytes, else the marker 127 and an
   * 8-byte big-endian length. No mask key, payload unchanged.
   */
  function Mask(text: seq<byte>): (frame: seq<byte>)
    requires |text| < MaxPayload
    ensures |frame| == LengthFieldEnd(|text|) + |text|
    ensures frame[0] == FinText
    ensures |text| <= 125 ==> frame == [FinText, |text|] + text
    ensures 126 <= |text| <= 65535 ==> frame[1] == 126 && BeValue(frame[2..4]) == |text|
    ensures 65536 <= |text| ==> frame[1] == 127 && BeValue(frame[2..10]) == |text|
    ensures frame[LengthFieldEnd(|text|)..] == text
  {
    var len := |text|;
    var header :=
      if len <= 125 then [FinText, len]
      else if len < 65536 then [FinText, 126] + BeBytes(len, 2)
      else
        assert Pow256(8) == 0x1_0000_0000_0000_0000;
        [FinText, 127] + BeBytes(len, 8);
    assert (header + text)[2..|header|] == header[2..];
    header + text
  }

  /**
   * `mask` as written: the 2-byte length is packed with PHP's `S` (host
   * byte order, so little-endian on a little-endian host) and the long form
   * writes a 4-byte `N` field holding the length modulo 2^32.
   */
  function MaskAsWritten(text: seq<byte>, littleEndianHost: bool): (frame: seq<byte>)
    ensures |text| <= 125 ==> frame == Mask(text)
    ensures 126 <= |text| <= 65535 && !littleEndianHost ==> frame == Mask(text)
    ensures 65536 <= |text| ==> |frame| == 6 + |text| && frame[..2] == [FinText, 127]
  {
    var len := |text|;
    var header :=
      if len <= 125 then [FinText, len]
      else if len < 65536 then
        [FinText, 126] + (if littleEndianHost then [len % 256, len / 256] else BeBytes(len, 2))
      else
        assert Pow256(4) == 0x1_0000_0000;
        [FinText, 127] + BeBytes(len % 0x1_0000_0000, 4);
    header + text
  }

  /** `ord($p[$i])`: a missing byte reads as 0. */
  function ByteAt(p: seq<byte>, i: nat): (b: byte)
    ensures i < |p| ==> b == p[i]
    ensures |p| <= i ==> b == 0
  {
    if i < |p| then p[i] else 0
  }

  /** PHP's signed 64-bit reading of an unsigned 64-bit pattern. */
  function Signed64(v: nat): (r: int)
    ensures v < 0x1_0000_0000_0000_0000 ==>
              -0x8000_0000_0000_0000 <= r < 0x8000_0000_0000_0000
              && (v - r) % 0x1_0000_0000_0000_0000 == 0
  {
    if v < 0x8000_0000_0000_0000 then v else v - 0x1_0000_0000_0000_0000
  }

  /** The eight bytes 2..9 that hold a 64-bit extended length. */
  function LongLength(p: seq<byte>): (field: seq<byte>)
    ensures |field| == 8
    ensures 10 <= |p| ==> field == p[2..10]
  {
    [ByteAt(p, 2), ByteAt(p, 3), ByteAt(p, 4), ByteAt(p, 5),
     ByteAt(p, 6), ByteAt(p, 7), ByteAt(p, 8), ByteAt(p, 9)]
  }

  /** The declared payload length and the offset of the mask key. */
  datatype Layout = Layout(len: int, keyAt: nat)

  /**
   * How `unmask` reads a frame header: the low 7 bits of the second byte;
   * 126 announces a 2-byte big-endian length (mask key at 4), 127 an 8-byte
   * one (mask key at 10); any other value is the length itself (mask key
   * at 2). The 8-byte sum is formed with PHP's signed 64-bit shifts.
   */
  function ReadHeader(p: seq<byte>): (h: Layout)
    ensures h.keyAt == 2 || h.keyAt == 4 || h.keyAt == 10
    ensures h.keyAt == 2 ==> 0 <= h.len <= 125
    ensures h.keyAt == 4 ==> 0 <= h.len < 65536
  {
    var marker := ByteAt(p, 1) % 128;
    if marker == 126 then Layout(BeValue([ByteAt(p, 2), ByteAt(p, 3)]), 4)
    else if marker == 127 then Layout(Signed64(BeValue(LongLength(p))), 10)
    else Layout(marker, 2)
  }

  /** XOR of byte i of `data` with byte i mod 4 of the mask key (RFC 6455 section 5.3). */
  function XorMask(data: seq<byte>, key: seq<byte>): (r: seq<byte>)
    requires |key| == 4
    ensures |r| == |data|
  {
    seq(|data|, i requires 0 <= i < |data| => Xor(data[i], key[i % 4]))
  }

  /** PHP `substr($s, $from, $count)` for non-negative arguments. */
  function Substr(s: seq<byte>, from: nat, count: nat): (r: seq<byte>)
    ensures |r| <= count
    ensures from + count <= |s| ==> r == s[from..from + count]
  {
    if from >= |s| then [] else if from + count <= |s| then s[from..from + count] else s[from..]
  }

  /** The number of payload bytes `unmask` appends: the declared length, cut at the end of the data. */
  function Produced(len: int, available: nat): (n: nat)
    ensures n <= available
    ensures len >= 0 ==> n <= len
    ensures 0 <= len <= available ==> n == len
  {
    if len <= 0 then 0 else if len <= available then len else available
  }

  /**
   * What `unmask` returns: the declared number of payload bytes, each XORed
   * with the mask key, but never more than the buffer holds.
   */
  function Unmasked(p: seq<byte>): (text: seq<byte>)
    ensures var h := ReadHeader(p); |text| <= if h.len < 0 then 0 else h.len
    ensures var h := ReadHeader(p); 0 <= h.len && h.keyAt + 4 + h.len <= |p| ==> |text| == h.len
  {
    var h := ReadHeader(p);
    var from := h.keyAt + 4;
    if |p| <= from then []
    else
      var n := Produced(h.len, |p| - from);
      XorMask(p[from..from + n], p[h.keyAt..from])
  }

  /** `unmask`: decodes the payload of a masked client frame, byte by byte. */
  method Unmask(payload: seq<byte>) returns (text: seq<byte>)
    ensures text == Unmasked(payload)
  {
    var h := ReadHeader(payload);
    var masks := Substr(payload, h.keyAt, 4);
    var data := Substr(payload, h.keyAt + 4, |payload|);
    SubstrsOfFrame(payload, h.keyAt, masks, data);
    text := UnmaskLoop(data, masks, h.len);
    UnmaskLoopResult(payload, masks, data, text);
  }

  /**
   * The `for` loop of `unmask`: for i below the declared length, append
   * data[i] XOR masks[i mod 4]; a missing byte contributes nothing.
   */
  method UnmaskLoop(data: seq<byte>, masks: seq<byte>, len: int) returns (text: seq<byte>)
    requires data != [] ==> |masks| == 4
    ensures |text| == Produced(len, |data|)
    ensures forall k :: 0 <= k < |text| ==> text[k] == Xor(data[k], masks[k % 4])
  {
    text := [];
    var i := 0;
    while i < len
      invariant 0 <= i && (i <= len || i == 0)
      invariant |text| == Produced(i, |data|)
      invariant forall k :: 0 <= k < |text| ==> text[k] == Xor(data[k], masks[k % 4])
    {
      if i < |data| && i % 4 < |masks| {
        text := text + [Xor(data[i], masks[i % 4])];
      }
      i := i + 1;
    }
  }

  /** The bytes the loop of `Unmask` collects are exactly `Unmasked(payload)`. */
  lemma UnmaskLoopResult(payload: seq<byte>, masks: seq<byte>, data: seq<byte>, text: seq<byte>)
    requires masks == Substr(payload, ReadHeader(payload).keyAt, 4)
    requires data == Substr(payload, ReadHeader(payload).keyAt + 4, |payload|)
    requires |text| == Produced(ReadHeader(payload).len, |data|)
    requires forall k :: 0 <= k < |text| ==> text[k] == Xor(data[k], masks[k % 4])
    ensures text == Unmasked(payload)
  {
    var h := ReadHeader(payload);
    SubstrsOfFrame(payload, h.keyAt, masks, data);
    if |payload| > h.keyAt + 4 {
      var from := h.keyAt + 4;
      var n := |text|;
      assert data[..n] == payload[from..from + n];
      forall k | 0 <= k < n
        ensures text[k] == XorMask(data[..n], masks)[k]
      {
      }
      assert text == XorMask(data[..n], masks);
    }
  }

  /** Where the mask key and the data of a frame lie, as `substr` cuts them. */
  lemma SubstrsOfFrame(p: seq<byte>, keyAt: nat, masks: seq<byte>, data: seq<byte>)
    requires masks == Substr(p, keyAt, 4) && data == Substr(p, keyAt + 4, |p|)
    ensures data == if |p| <= keyAt + 4 then [] else p[keyAt + 4..]
    ensures data != [] ==> masks == p[keyAt..keyAt + 4]
  {
  }

  /**
   * The frame a client sends for `text` under mask key `key`: the header of
   * `Mask(text)` with the mask bit set, the key, then the masked payload.
   */
  function ClientFrame(key: seq<byte>, text: seq<byte>): (frame: seq<byte>)
    requires |key| == 4 && |text| < MaxPayload
    ensures |frame| == LengthFieldEnd(|text|) + 4 + |text|
    ensures frame[0] == FinText && frame[1] >= 128
  {
    var server := Mask(text);
    var at := LengthFieldEnd(|text|);
    [server[0], server[1] + 128] + server[2..at] + key + XorMask(text, key)
  }

  /** Masking twice with the same key gives the data back. */
  lemma XorMaskInvolution(data: seq<byte>, key: seq<byte>)
    requires |key| == 4
    ensures XorMask(XorMask(data, key), key) == data
  {
    forall i | 0 <= i < |data| ensures XorMask(XorMask(data, key), key)[i] == data[i] {
      XorTwice(data[i], key[i % 4]);
    }
  }

  /**
   * Decoding a server frame: a reader that takes the length the way
   * `unmask` does finds exactly the length of `text`, and `text` right after
   * the length field.
   */
  lemma ServerFrameRoundTrip(text: seq<byte>)
    requires |text| < MaxPayload
    ensures var frame := Mask(text);
            var h := ReadHeader(frame);
            h.len == |text| && h.keyAt == LengthFieldEnd(|text|) && frame[h.keyAt..] == text
  {
    var frame := Mask(text);
    var len := |text|;
    if len <= 125 {
      assert ByteAt(frame, 1) == frame[1];
    } else if len < 65536 {
      assert [ByteAt(frame, 2), ByteAt(frame, 3)] == frame[2..4];
    } else {
      assert LongLength(frame) == frame[2..10];
    }
  }

  /** Where the parts of a client frame lie. */
  lemma ClientFrameParts(key: seq<byte>, text: seq<byte>)
    requires |key| == 4 && |text| < MaxPayload
    ensures var frame := ClientFrame(key, text);
            var at := LengthFieldEnd(|text|);
            && frame[1] == Mask(text)[1] + 128
            && frame[2..at] == Mask(text)[2..at]
            && frame[at..at + 4] == key
            && frame[at + 4..] == XorMask(text, key)
  {
  }

  /**
   * Two frames whose second bytes agree in their low 7 bits and whose
   * length fields agree are read with the same header.
   */
  lemma SameHeader(p: seq<byte>, q: seq<byte>, at: nat)
    requires at == ReadHeader(q).keyAt && at <= |p| && at <= |q|
    requires ByteAt(p, 1) % 128 == ByteAt(q, 1) % 128 && p[2..at] == q[2..at]
    ensures ReadHeader(p) == ReadHeader(q)
  {
    if at == 4 {
      assert [ByteAt(p, 2), ByteAt(p, 3)] == p[2..4];
      assert [ByteAt(q, 2), ByteAt(q, 3)] == q[2..4];
    } else if at == 10 {
      assert LongLength(p) == p[2..10];
      assert LongLength(q) == q[2..10];
    }
  }

  /** A client frame announces the same length, at the same place, as the server frame. */
  lemma ClientFrameHeader(key: seq<byte>, text: seq<byte>)
    requires |key| == 4 && |text| < MaxPayload
    ensures ReadHeader(ClientFrame(key, text)) == ReadHeader(Mask(text))
  {
    var server := Mask(text);
    var frame := ClientFrame(key, text);
    var at := LengthFieldEnd(|text|);
    ServerFrameRoundTrip(text);
    ClientFrameParts(key, text);
    assert server[1] < 128;
    assert ByteAt(frame, 1) % 128 == ByteAt(server, 1) % 128;
    SameHeader(frame, server, at);
  }

  /**
   * Masking any payload with any key and unmasking it gives the payload
   * back, for every length and every byte value.
   */
  lemma UnmaskClientFrame(key: seq<byte>, text: seq<byte>)
    requires |key| == 4 && |text| < MaxPayload
    ensures Unmasked(ClientFrame(key, text)) == text
  {
    var frame := ClientFrame(key, text);
    var at := LengthFieldEnd(|text|);
    ServerFrameRoundTrip(text);
    ClientFrameHeader(key, text);
    ClientFrameParts(key, text);
    var h := ReadHeader(frame);
    assert h.keyAt == at && h.len == |text|;
    assert |frame| == at + 4 + |text|;
    assert Produced(h.len, |frame| - (at + 4)) == |text|;
    XorMaskInvolution(text, key);
  }

  /**
   * A length of 65536 sent in the as-written 4-byte field is read back, by
   * the 8-byte rule of section 5.2 that `unmask` also follows, as 2^48:
   * the first four payload bytes are taken for the rest of the length.
   */
  lemma FourByteLengthMisread(littleEndianHost: bool)
    ensures var text := seq(65536, _ => 0);
            ReadHeader(MaskAsWritten(text, littleEndianHost)).len == 0x1_0000_0000_0000
            && ReadHeader(Mask(text)).len == 65536
  {
    var text := seq(65536, _ => 0);
    ServerFrameRoundTrip(text);
    LongFieldAsWritten(text, littleEndianHost);
    LongFieldValue();
  }

  /** The eight bytes 00 01 00 00 00 00 00 00 are the length 2^48. */
  lemma LongFieldValue()
    ensures Signed64(BeValue([0, 1, 0, 0, 0, 0, 0, 0])) == 0x1_0000_0000_0000
  {
    var eight: seq<byte> := [0, 1, 0, 0, 0, 0, 0, 0];
    BeValueOfPrefix(eight, 8);
    assert eight[..8] == eight;
    assert Pow256(6) == 0x1_0000_0000_0000;
  }

  /** The as-written long header for 65536 zero bytes, and the eight bytes a reader takes for the length. */
  lemma LongFieldAsWritten(text: seq<byte>, littleEndianHost: bool)
    requires text == seq(65536, _ => 0)
    ensures var frame := MaskAsWritten(text, littleEndianHost);
            ByteAt(frame, 1) == 127 && LongLength(frame) == [0, 1, 0, 0, 0, 0, 0, 0]
  {
    var frame := MaskAsWritten(text, littleEndianHost);
    var field := BeBytes(65536, 4);
    assert field == [0, 1, 0, 0] by {
      var four: seq<byte> := [0, 1, 0, 0];
      BeValueOfPrefix(four, 4);
      assert four[..4] == four;
      assert Pow256(2) == 65536;
      BeValueInjective(field, [0, 1, 0, 0]);
    }
    assert frame == [FinText, 127] + field + text;
    assert frame[2..10] == field + text[..4];
  }

  /**
   * On a little-endian host the as-written 2-byte field of a 300-byte
   * message holds 0x2C 0x01, which a big-endian reader takes for 11265.
   */
  lemma HostOrderLengthMisread()
    ensures var text := seq(300, _ => 0);
            ReadHeader(MaskAsWritten(text, true)).len == 11265
            && ReadHeader(Mask(text)).len == 300
  {
    var text := seq(300, _ => 0);
    var frame := MaskAsWritten(text, true);
    ServerFrameRoundTrip(text);
    assert [ByteAt(frame, 2), ByteAt(frame, 3)] == [0x2C, 0x01];
    assert BeValue([0x2C, 0x01]) == 0x2C01;
  }
}
