/** The Riak protocol-buffers request around the encoded term
    (erlang_interface.c:182-223 and 276-283, 426-435): a message code, the
    request field holding the term bytes, the content-type field, and a
    four-byte big-endian length in front. */
module RequestFrame {
  import opened ByteLayout
  import opened Wrappers
  import opened Varint

  /** The message code of a map-reduce request. */
  const RPB_MAP_RED_REQ: Byte := 0x17
  /** Field 1 (`request`), length-delimited. */
  const REQUEST_KEY: Byte := 0x0A
  /** Field 2 (`content_type`), length-delimited. */
  const CONTENT_TYPE_KEY: Byte := 0x12

  /** "application/x-erlang-binary", as strcpy leaves it in the 28-byte
      buffer of pb_add_content_type before strlen measures it. */
  function ContentType(): (r: seq<Byte>)
    ensures |r| == 27
  {
    AsciiBytes("application/x-erlang-binary")
  }

  /** What pb_add_request writes: the code, the field key, the length as
      a varint of the `unsigned int` conversion of `len`, the bytes. */
  function RequestBytes(p: seq<Byte>, len: Int64): (r: seq<Byte>)
    requires 0 <= len <= |p|
    ensures |r| == 2 + |VarintBytes(len % TWO32)| + len
  {
    [RPB_MAP_RED_REQ, REQUEST_KEY] + VarintBytes(len % TWO32) + p[..len]
  }

  /** What pb_add_content_type writes: the field key, the hard-coded length
      0x1B, the string. */
  function ContentTypeBytes(): (r: seq<Byte>)
    ensures |r| == 29
  {
    [CONTENT_TYPE_KEY, 0x1B] + ContentType()
  }

  /** The hard-coded length byte is the length of the string. */
  lemma ContentTypeLength()
    ensures ContentTypeBytes()[1] == |ContentType()|
    ensures ContentTypeBytes()[2..] == ContentType()
  {
  }

  /** A reader of the request field gets the code, the key, then a varint
      that announces exactly the payload: `p[..len]` when the length fits
      in 32 bits. */
  lemma RequestFieldReads(p: seq<Byte>, len: Int64, rest: seq<Byte>)
    requires 0 <= len <= |p|
    ensures var r := RequestBytes(p, len) + rest;
      r[0] == RPB_MAP_RED_REQ && r[1] == REQUEST_KEY &&
      ReadVarint(r[2..]) == Some((len % TWO32, p[..len] + rest))
  {
    var r := RequestBytes(p, len) + rest;
    assert r[2..] == VarintBytes(len % TWO32) + (p[..len] + rest);
    ReadVarintBytes(len % TWO32, p[..len] + rest);
  }

  /** pb_add_request (erlang_interface.c:182-199). The measure mode
      (`buf` null) advances by 1 + len, not by what the write mode
      writes. `base` is the offset of the pointer passed as `buf`. */
  method PbAddRequest(buf: array?<Byte>, base: nat, index: int, p: seq<Byte>, len: Int64)
    returns (rc: int, newIndex: int)
    requires 0 <= len
    requires buf != null ==>
      len <= |p| && 0 <= index && base + index + |RequestBytes(p, len)| <= buf.Length
    modifies buf
    ensures rc == 0
    ensures buf == null ==> newIndex == index + 1 + len
    ensures buf != null ==> newIndex == index + |RequestBytes(p, len)|
    ensures buf != null ==> buf[..] == Splice(old(buf[..]), base + index, RequestBytes(p, len))
  {
    var s := base + index;
    var s0 := s;
    if buf == null {
      s := s + 1;
    } else {
      ghost var b0 := buf[..];
      var v := VarintBytes(len % TWO32);
      s := Put8(buf, s, RPB_MAP_RED_REQ);
      s := Put8(buf, s, REQUEST_KEY);
      SpliceAdjacent(b0, s0, [RPB_MAP_RED_REQ], [REQUEST_KEY]);
      s := PutVarint32(buf, s, len % TWO32);
      SpliceAdjacent(b0, s0, [RPB_MAP_RED_REQ, REQUEST_KEY], v);
      var t := Move(buf, s, p[..len]);
      SpliceAdjacent(b0, s0, [RPB_MAP_RED_REQ, REQUEST_KEY] + v, p[..len]);
    }
    s := s + len;
    newIndex := index + (s - s0);
    rc := 0;
  }

  /** pb_add_content_type (erlang_interface.c:201-223). The measure mode
      advances by 1 + 27, the write mode by 2 + 27. */
  method PbAddContentType(buf: array?<Byte>, base: nat, index: int) returns (rc: int, newIndex: int)
    requires buf != null ==> 0 <= index && base + index + 29 <= buf.Length
    modifies buf
    ensures rc == 0
    ensures buf == null ==> newIndex == index + 28
    ensures buf != null ==> newIndex == index + 29
    ensures buf != null ==> buf[..] == Splice(old(buf[..]), base + index, ContentTypeBytes())
  {
    var s := base + index;
    var s0 := s;
    var p := ContentType();
    var len := |p|;
    if buf == null {
      s := s + 1;
    } else {
      ghost var b0 := buf[..];
      s := Put8(buf, s, CONTENT_TYPE_KEY);
      s := Put8(buf, s, 0x1B);
      SpliceAdjacent(b0, s0, [CONTENT_TYPE_KEY], [0x1B]);
      var t := Move(buf, s, p);
      SpliceAdjacent(b0, s0, [CONTENT_TYPE_KEY, 0x1B], p);
    }
    s := s + len;
    newIndex := index + (s - s0);
    rc := 0;
  }

  /** Unlike the term encoders, the two protocol-buffer writers' measure
      mode undercounts: by one byte plus the varint for the request field,
      by one byte for the content-type field. */
  lemma MeasureUndercounts(p: seq<Byte>, len: Int64)
    requires 0 <= len <= |p|
    ensures |RequestBytes(p, len)| - (1 + len) == 1 + |VarintBytes(len % TWO32)| >= 2
    ensures |ContentTypeBytes()| - 28 == 1
  {
  }

  // ---------------------------------------------------------------------
  // The word and byte macros of erlang_interface.c:276-283, on the `int`
  // length (an arithmetic right shift, as on the usual two's-complement
  // targets).

  function HiWord(x: Int32): (w: nat)
    ensures w < 0x1_0000
  {
    (x / 0x1_0000) % 0x1_0000
  }

  function LoWord(x: Int32): (w: nat)
    ensures w < 0x1_0000
  {
    x % 0x1_0000
  }

  /** HIBYTE: with LOBYTE, it splits a 16-bit word into two bytes. */
  function HiByte(w: nat): (r: Byte)
    requires w < 0x1_0000
    ensures w == r * 0x100 + LoByte(w)
  {
    (w / 0x100) % 0x100
  }

  /** LOBYTE: the word's bits 7-0, `(w) & 0xff`. */
  function LoByte(w: nat): (r: Byte)
    requires w < 0x1_0000
    ensures r == BitAnd(w, 0xFF)
  {
    Pow2Value8(); MaskLow(w, 8);
    w % 0x100
  }

  /** HH: bits 31-24 of x. */
  function HH(x: Int32): (r: Byte)
    ensures r == (x / 0x100_0000) % 0x100
  {
    var h := x / 0x1_0000;
    HighOfWord(h);
    assert h / 0x100 == x / 0x100_0000;
    HiByte(HiWord(x))
  }

  /** HL: bits 23-16 of x. */
  function HL(x: Int32): (r: Byte)
    ensures r == (x / 0x1_0000) % 0x100
  {
    LowOfWord(x / 0x1_0000);
    LoByte(HiWord(x))
  }

  /** LH: bits 15-8 of x. */
  function LH(x: Int32): (r: Byte)
    ensures r == (x / 0x100) % 0x100
  {
    HighOfWord(x);
    HiByte(LoWord(x))
  }

  /** LL: bits 7-0 of x. */
  function LL(x: Int32): (r: Byte)
    ensures r == x % 0x100
  {
    LowOfWord(x);
    LoByte(LoWord(x))
  }

  /** The four macros give exactly the bytes of put32be, so the length
      prefix reads back as `x mod 2^32`. */
  lemma LengthMacrosArePut32BE(x: Int32)
    ensures [HH(x), HL(x), LH(x), LL(x)] == Put32BEBytes(x)
    ensures Be32Value([HH(x), HL(x), LH(x), LL(x)]) == x % TWO32
  {
    Put32BERoundTrip(x);
  }

  lemma HighOfWord(h: int)
    ensures ((h % 0x1_0000) / 0x100) % 0x100 == (h / 0x100) % 0x100
  {
    var q := h / 0x1_0000;
    assert h / 0x100 == q * 0x100 + (h % 0x1_0000) / 0x100;
    ModMultipleAdd(q, (h % 0x1_0000) / 0x100);
  }

  lemma LowOfWord(h: int)
    ensures (h % 0x1_0000) % 0x100 == h % 0x100
  {
    ModMultipleAdd((h / 0x1_0000) * 0x100, h % 0x1_0000);
  }

  /** The whole packet of erlang_interface.c:426-435 for the term bytes
      `request`: the length of the message, then the message. */
  function PacketBytes(request: seq<Byte>): (r: seq<Byte>)
    requires |request| < 0x8000_0000 - 64
  {
    var message := RequestBytes(request, |request|) + ContentTypeBytes();
    Put32BEBytes(|message|) + message
  }

  lemma SmallLength(n: nat)
    requires n < TWO32
    ensures n % TWO32 == n
  {
  }

  /** The packet starts with the big-endian length of what follows, then
      the request code, then the request field announcing the term by its
      exact length, then the content type. */
  lemma PacketLayout(request: seq<Byte>)
    requires |request| < 0x8000_0000 - 64
    ensures var r := PacketBytes(request);
      |r| == 4 + 2 + |VarintBytes(|request|)| + |request| + 29 &&
      Be32Value(r[..4]) == |r| - 4 &&
      r[4] == RPB_MAP_RED_REQ && r[5] == REQUEST_KEY &&
      ReadVarint(r[6..]) == Some((|request|, request + ContentTypeBytes()))
  {
    SmallLength(|request|);
    var message := RequestBytes(request, |request|) + ContentTypeBytes();
    var r := PacketBytes(request);
    VarintBounds(|request|);
    Put32BERoundTrip(|message|);
    assert r[..4] == Put32BEBytes(|message|);
    assert r[4..] == message;
    RequestFieldReads(request, |request|, ContentTypeBytes());
    assert r[6..] == message[2..];
    assert request[..|request|] == request;
  }

  /** The framing steps of erlang_interface.c:426-435 on `packet_send`:
      both fields at offset 4, then the length macros in bytes 0-3. */
  method BuildPacket(packet: array<Byte>, request: seq<Byte>) returns (indexPacket: int)
    requires |request| < 0x8000_0000 - 64
    requires 4 + |VarintBytes(|request|)| + |request| + 31 <= packet.Length
    modifies packet
    ensures indexPacket + 4 == |PacketBytes(request)|
    ensures packet[..] == Splice(old(packet[..]), 0, PacketBytes(request))
  {
    ghost var b0 := packet[..];
    assert |request| % TWO32 == |request|;
    ghost var req := RequestBytes(request, |request|);
    ghost var ct := ContentTypeBytes();
    VarintBounds(|request|);
    var rc;
    rc, indexPacket := PbAddRequest(packet, 4, 0, request, |request|);
    ghost var b1 := packet[..];
    rc, indexPacket := PbAddContentType(packet, 4, indexPacket);
    ghost var b2 := packet[..];
    StoreLength(packet, indexPacket);
    FramingWrites(b0, b1, b2, packet[..], req, ct, Put32BEBytes(indexPacket));
  }

  /** The three writes of BuildPacket, composed. */
  lemma FramingWrites(b0: seq<Byte>, b1: seq<Byte>, b2: seq<Byte>, b3: seq<Byte>,
                      req: seq<Byte>, ct: seq<Byte>, len: seq<Byte>)
    requires |len| == 4 && 4 + |req| + |ct| <= |b0|
    requires b1 == Splice(b0, 4, req)
    requires b2 == Splice(b1, 4 + |req|, ct)
    requires b3 == Splice(b2, 0, len)
    ensures b3 == Splice(b0, 0, len + (req + ct))
  {
    SpliceAdjacent(b0, 4, req, ct);
    SpliceOver(b0, 0, len, req + ct);
  }

  /** `packet_send[0..3] = HH, HL, LH, LL` of the length. */
  method StoreLength(packet: array<Byte>, x: Int32)
    requires 4 <= packet.Length
    modifies packet
    ensures packet[..] == Splice(old(packet[..]), 0, [HH(x), HL(x), LH(x), LL(x)])
    ensures packet[..] == Splice(old(packet[..]), 0, Put32BEBytes(x))
  {
    SpliceIndex(packet[..], 0, [HH(x), HL(x), LH(x), LL(x)]);
    packet[0] := HH(x);
    packet[1] := HL(x);
    packet[2] := LH(x);
    packet[3] := LL(x);
    LengthMacrosArePut32BE(x);
  }
}
