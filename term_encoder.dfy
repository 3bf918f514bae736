/** The external-term-format encoders (erlang_interface.c:15-162).

    Every `ei_encode_*` function has two modes, chosen by its buffer
    argument: with no buffer it only advances `*index` by the number of
    bytes it would write (measure), otherwise it stores those bytes at
    `buf + *index` and advances (write). Each is modelled by a pure
    function giving the bytes of the write mode and by a method over a
    nullable array that does what the C function does in both modes; the
    method's contract says that the measured advance is the length of
    those bytes. */
module TermEncoder {
  import opened ByteLayout

  // ---------------------------------------------------------------------
  // The bytes each encoder writes.

  /** ei_encode_version: the version magic alone. */
  function VersionBytes(): (r: seq<Byte>)
    ensures r == [0x83]
  {
    Put8Bytes(ERL_VERSION_MAGIC)
  }

  /** ei_encode_list_header for a non-negative arity. */
  function ListHeaderBytes(arity: nat): (r: seq<Byte>)
    requires arity < 0x8000_0000
    ensures arity == 0 ==> r == [ERL_NIL_EXT]
    ensures arity > 0 ==> |r| == 5 && r[0] == ERL_LIST_EXT && Be32Value(r[1..]) == arity
  {
    if arity > 0 then
      Put32BERoundTrip(arity);
      Put8Bytes(ERL_LIST_EXT) + Put32BEBytes(arity)
    else
      Put8Bytes(ERL_NIL_EXT)
  }

  /** ei_encode_tuple_header for a non-negative arity. */
  function TupleHeaderBytes(arity: nat): (r: seq<Byte>)
    requires arity < 0x8000_0000
    ensures arity <= 0xff ==> r == [ERL_SMALL_TUPLE_EXT, arity]
    ensures arity > 0xff ==> |r| == 5 && r[0] == ERL_LARGE_TUPLE_EXT && Be32Value(r[1..]) == arity
  {
    if arity <= 0xff then
      Put8Bytes(ERL_SMALL_TUPLE_EXT) + Put8Bytes(arity)
    else
      Put32BERoundTrip(arity);
      Put8Bytes(ERL_LARGE_TUPLE_EXT) + Put32BEBytes(arity)
  }

  /** ei_encode_binary: tag, the length modulo 2^32 (put32be of a `long`),
      then the `len` bytes of `p`. */
  function BinaryBytes(p: seq<Byte>, len: Int64): (r: seq<Byte>)
    requires 0 <= len <= |p|
    ensures |r| == 5 + len
    ensures r[0] == ERL_BINARY_EXT && Be32Value(r[1..5]) == len % TWO32 && r[5..] == p[..len]
  {
    Put32BERoundTrip(len);
    Put8Bytes(ERL_BINARY_EXT) + Put32BEBytes(len) + p[..len]
  }

  /** The length ei_encode_atom_len actually uses: `len` cut to MAXATOMLEN. */
  function AtomLength(len: int): (c: int)
    ensures c <= MAXATOMLEN
    ensures c == len || (len > MAXATOMLEN && c == MAXATOMLEN)
  {
    if len > MAXATOMLEN then MAXATOMLEN else len
  }

  /** ei_encode_atom_len: tag, the clamped length as u16be, then exactly
      that many bytes of `p`, unterminated. */
  function AtomLenBytes(p: seq<Byte>, len: Int32): (r: seq<Byte>)
    requires 0 <= len && AtomLength(len) <= |p|
    ensures |r| == 3 + AtomLength(len)
    ensures r[0] == ERL_ATOM_EXT && Be16Value(r[1..3]) == AtomLength(len)
    ensures r[3..] == p[..AtomLength(len)]
  {
    var n := AtomLength(len);
    Put8Bytes(ERL_ATOM_EXT) + Put16BEBytes(n) + p[..n]
  }

  /** ei_encode_atom: the atom of a whole C string (its `strlen` bytes). */
  function AtomBytes(p: seq<Byte>): (r: seq<Byte>)
    requires |p| < 0x8000_0000
    ensures |r| == 3 + AtomLength(|p|)
    ensures |p| <= MAXATOMLEN ==> r == [ERL_ATOM_EXT, 0, |p|] + p
  {
    AtomLenBytes(p, |p|)
  }

  /** ei_encode_long, whose three cases are tried in this order. */
  function LongBytes(p: Int64): (r: seq<Byte>)
    ensures |r| == (if 0 <= p < 256 then 2 else if ERL_MIN <= p <= ERL_MAX then 5 else 7)
  {
    if 0 <= p < 256 then
      Put8Bytes(ERL_SMALL_INTEGER_EXT) + Put8Bytes(p % 0x100)
    else if ERL_MIN <= p <= ERL_MAX then
      Put8Bytes(ERL_INTEGER_EXT) + Put32BEBytes(p)
    else
      // the sign is kept apart, but the four bytes are those of `p`
      // itself, not of its absolute value
      Put8Bytes(ERL_SMALL_BIG_EXT) + Put8Bytes(4) + Put8Bytes(if p < 0 then 1 else 0)
      + Put32LEBytes(p)
  }

  /** What each of ei_encode_long's three layouts holds: the byte itself,
      the value as a signed 32-bit big-endian field, or a sign byte and the
      low 32 bits of the two's-complement value, little-endian. */
  lemma LongBytesFields(p: Int64)
    ensures 0 <= p < 256 ==> LongBytes(p) == [ERL_SMALL_INTEGER_EXT, p]
    ensures !(0 <= p < 256) && ERL_MIN <= p <= ERL_MAX ==>
              LongBytes(p)[0] == ERL_INTEGER_EXT && Int32Of(Be32Value(LongBytes(p)[1..])) == p
    ensures !(0 <= p < 256) && !(ERL_MIN <= p <= ERL_MAX) ==>
              LongBytes(p)[..3] == [ERL_SMALL_BIG_EXT, 4, if p < 0 then 1 else 0]
              && Le32Value(LongBytes(p)[3..]) == p % TWO32
  {
    if 0 <= p < 256 {
    } else if ERL_MIN <= p <= ERL_MAX {
      IntegerFields(p);
    } else {
      SmallBigFields(p);
    }
  }

  lemma IntegerFields(p: Int64)
    requires !(0 <= p < 256) && ERL_MIN <= p <= ERL_MAX
    ensures LongBytes(p)[0] == ERL_INTEGER_EXT && Int32Of(Be32Value(LongBytes(p)[1..])) == p
  {
    var r := LongBytes(p);
    assert r == [ERL_INTEGER_EXT] + Put32BEBytes(p);
    assert r[1..] == Put32BEBytes(p);
    Put32BERoundTrip(p);
    assert Be32Value(r[1..]) == if p < 0 then p + TWO32 else p;
  }

  lemma SmallBigFields(p: Int64)
    requires !(0 <= p < 256) && !(ERL_MIN <= p <= ERL_MAX)
    ensures LongBytes(p)[..3] == [ERL_SMALL_BIG_EXT, 4, if p < 0 then 1 else 0]
    ensures Le32Value(LongBytes(p)[3..]) == p % TWO32
  {
    var r := LongBytes(p);
    assert r == [ERL_SMALL_BIG_EXT, 4, if p < 0 then 1 else 0] + Put32LEBytes(p);
    assert r[3..] == Put32LEBytes(p);
    Put32LEIsReversedBE(p);
  }

  // ---------------------------------------------------------------------
  // The C functions, over a buffer that is absent in measure mode.
  // `index` is `*index` on entry and `newIndex` on return; `rc` is the
  // function's return value.

  method EncodeVersion(buf: array?<Byte>, index: int) returns (rc: int, newIndex: int)
    requires buf != null ==> 0 <= index && index + 1 <= buf.Length
    modifies buf
    ensures rc == 0 && newIndex == index + |VersionBytes()|
    ensures buf != null ==> buf[..] == Splice(old(buf[..]), index, VersionBytes())
  {
    var s := index;
    if buf == null {
      s := s + 1;
    } else {
      s := Put8(buf, s, ERL_VERSION_MAGIC);
    }
    newIndex := index + (s - index);
    rc := 0;
  }

  method EncodeListHeader(buf: array?<Byte>, index: int, arity: Int32) returns (rc: int, newIndex: int)
    requires buf != null && arity >= 0 ==>
               0 <= index && index + (if arity > 0 then 5 else 1) <= buf.Length
    modifies buf
    ensures arity < 0 ==> rc == -1 && newIndex == index
    ensures arity < 0 && buf != null ==> buf[..] == old(buf[..])
    ensures arity >= 0 ==> rc == 0 && newIndex == index + |ListHeaderBytes(arity)|
    ensures arity >= 0 && buf != null ==> buf[..] == Splice(old(buf[..]), index, ListHeaderBytes(arity))
  {
    var s := index;
    if arity < 0 {
      return -1, index;
    } else if arity > 0 {
      if buf == null {
        s := s + 5;
      } else {
        s := Put8(buf, s, ERL_LIST_EXT);
        s := Put32BE(buf, s, arity);
        SpliceAdjacent(old(buf[..]), index, Put8Bytes(ERL_LIST_EXT), Put32BEBytes(arity));
      }
    } else {
      if buf == null {
        s := s + 1;
      } else {
        s := Put8(buf, s, ERL_NIL_EXT);
      }
    }
    newIndex := index + (s - index);
    rc := 0;
  }

  method EncodeTupleHeader(buf: array?<Byte>, index: int, arity: Int32) returns (rc: int, newIndex: int)
    requires buf != null && arity >= 0 ==>
               0 <= index && index + (if arity <= 0xff then 2 else 5) <= buf.Length
    modifies buf
    ensures arity < 0 ==> rc == -1 && newIndex == index
    ensures arity < 0 && buf != null ==> buf[..] == old(buf[..])
    ensures arity >= 0 ==> rc == 0 && newIndex == index + |TupleHeaderBytes(arity)|
    ensures arity >= 0 && buf != null ==> buf[..] == Splice(old(buf[..]), index, TupleHeaderBytes(arity))
  {
    var s := index;
    if arity < 0 {
      return -1, index;
    }
    if arity <= 0xff {
      if buf == null {
        s := s + 2;
      } else {
        s := Put8(buf, s, ERL_SMALL_TUPLE_EXT);
        s := Put8(buf, s, arity);
        SpliceAdjacent(old(buf[..]), index, Put8Bytes(ERL_SMALL_TUPLE_EXT), Put8Bytes(arity));
      }
    } else {
      if buf == null {
        s := s + 5;
      } else {
        s := Put8(buf, s, ERL_LARGE_TUPLE_EXT);
        s := Put32BE(buf, s, arity);
        SpliceAdjacent(old(buf[..]), index, Put8Bytes(ERL_LARGE_TUPLE_EXT), Put32BEBytes(arity));
      }
    }
    newIndex := index + (s - index);
    rc := 0;
  }

  method EncodeBinary(buf: array?<Byte>, index: int, p: seq<Byte>, len: Int64) returns (rc: int, newIndex: int)
    requires 0 <= len
    requires buf != null ==> len <= |p| && 0 <= index && index + 5 + len <= buf.Length
    modifies buf
    ensures rc == 0 && newIndex == index + 5 + len
    ensures buf != null ==> buf[..] == Splice(old(buf[..]), index, BinaryBytes(p, len))
  {
    var s := index;
    if buf == null {
      s := s + 5;
    } else {
      ghost var before := buf[..];
      s := Put8(buf, s, ERL_BINARY_EXT);
      s := Put32BE(buf, s, len);
      SpliceAdjacent(before, index, Put8Bytes(ERL_BINARY_EXT), Put32BEBytes(len));
      var _ := Move(buf, s, p[..len]);
      SpliceAdjacent(before, index, Put8Bytes(ERL_BINARY_EXT) + Put32BEBytes(len), p[..len]);
    }
    s := s + len;
    newIndex := index + (s - index);
    rc := 0;
  }

  method EncodeAtomLen(buf: array?<Byte>, index: int, p: seq<Byte>, len: Int32) returns (rc: int, newIndex: int)
    requires 0 <= len
    requires buf != null ==> AtomLength(len) <= |p| && 0 <= index && index + 3 + AtomLength(len) <= buf.Length
    modifies buf
    ensures rc == 0 && newIndex == index + 3 + AtomLength(len)
    ensures buf != null ==> buf[..] == Splice(old(buf[..]), index, AtomLenBytes(p, len))
  {
    var s := index;
    var n := len;
    if n > MAXATOMLEN {
      n := MAXATOMLEN;
    }
    if buf == null {
      s := s + 3;
    } else {
      ghost var before := buf[..];
      s := Put8(buf, s, ERL_ATOM_EXT);
      s := Put16BE(buf, s, n);
      SpliceAdjacent(before, index, Put8Bytes(ERL_ATOM_EXT), Put16BEBytes(n));
      var _ := Move(buf, s, p[..n]);
      SpliceAdjacent(before, index, Put8Bytes(ERL_ATOM_EXT) + Put16BEBytes(n), p[..n]);
    }
    s := s + n;
    newIndex := index + (s - index);
    rc := 0;
  }

  method EncodeAtom(buf: array?<Byte>, index: int, p: seq<Byte>) returns (rc: int, newIndex: int)
    requires |p| < 0x8000_0000
    requires buf != null ==> 0 <= index && index + 3 + AtomLength(|p|) <= buf.Length
    modifies buf
    ensures rc == 0 && newIndex == index + 3 + AtomLength(|p|)
    ensures buf != null ==> buf[..] == Splice(old(buf[..]), index, AtomBytes(p))
  {
    rc, newIndex := EncodeAtomLen(buf, index, p, |p|);
  }

  method EncodeLong(buf: array?<Byte>, index: int, p: Int64) returns (rc: int, newIndex: int)
    requires buf != null ==> 0 <= index && index + |LongBytes(p)| <= buf.Length
    modifies buf
    ensures rc == 0 && newIndex == index + |LongBytes(p)|
    ensures buf != null ==> buf[..] == Splice(old(buf[..]), index, LongBytes(p))
  {
    var s := index;
    ghost var bytes := LongBytes(p);
    if 0 <= p < 256 {
      assert bytes == Put8Bytes(ERL_SMALL_INTEGER_EXT) + Put8Bytes(p % 0x100);
      if buf == null {
        s := s + 2;
      } else {
        ghost var before := buf[..];
        s := Put8(buf, s, ERL_SMALL_INTEGER_EXT);
        s := Put8(buf, s, p % 0x100);
        SpliceAdjacent(before, index, Put8Bytes(ERL_SMALL_INTEGER_EXT), Put8Bytes(p % 0x100));
        assert buf[..] == Splice(old(buf[..]), index, bytes);
      }
    } else if ERL_MIN <= p <= ERL_MAX {
      assert bytes == Put8Bytes(ERL_INTEGER_EXT) + Put32BEBytes(p);
      if buf == null {
        s := s + 5;
      } else {
        ghost var before := buf[..];
        s := Put8(buf, s, ERL_INTEGER_EXT);
        s := Put32BE(buf, s, p);
        SpliceAdjacent(before, index, Put8Bytes(ERL_INTEGER_EXT), Put32BEBytes(p));
        assert buf[..] == Splice(old(buf[..]), index, bytes);
      }
    } else {
      assert bytes == Put8Bytes(ERL_SMALL_BIG_EXT) + Put8Bytes(4)
                             + Put8Bytes(if p < 0 then 1 else 0) + Put32LEBytes(p);
      if buf == null {
        s := s + 7;
      } else {
        ghost var before := buf[..];
        var sign := if p < 0 then 1 else 0;
        s := Put8(buf, s, ERL_SMALL_BIG_EXT);
        s := Put8(buf, s, 4);
        SpliceAdjacent(before, index, Put8Bytes(ERL_SMALL_BIG_EXT), Put8Bytes(4));
        s := Put8(buf, s, sign);
        SpliceAdjacent(before, index, Put8Bytes(ERL_SMALL_BIG_EXT) + Put8Bytes(4), Put8Bytes(sign));
        s := Put32LE(buf, s, p);
        SpliceAdjacent(before, index, Put8Bytes(ERL_SMALL_BIG_EXT) + Put8Bytes(4) + Put8Bytes(sign),
                       Put32LEBytes(p));
        assert buf[..] == Splice(old(buf[..]), index, bytes);
      }
    }
    newIndex := index + (s - index);
    rc := 0;
  }
}
