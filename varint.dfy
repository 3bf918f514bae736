/** The base-128 variable-length integer of upb_put_v_uint64_t and
    upb_put_v_uint32_t (erlang_interface.c:166-180): seven bits per byte,
    least significant group first, the high bit set on every byte but the
    last. */
module Varint {
  import opened Wrappers
  import opened ByteLayout

  const TWO64: int := 0x1_0000_0000_0000_0000

  /** The bytes written for `v`: the do-while loop always writes at least
      one byte, so 0 is the single byte 0. */
  function VarintBytes(v: nat): (r: seq<Byte>)
    ensures |r| >= 1
    decreases v
  {
    if v < 0x80 then [v] else [v % 0x80 + 0x80] + VarintBytes(v / 0x80)
  }

  /** The number a little-endian base-128 digit string denotes, ignoring
      the continuation bits. */
  function DigitsValue(s: seq<Byte>): nat
  {
    if s == [] then 0 else s[0] % 0x80 + 0x80 * DigitsValue(s[1..])
  }

  /** The reader's side: digits up to and including the first byte whose
      high bit is clear, and the bytes after it. */
  function ReadVarint(s: seq<Byte>): (r: Option<(nat, seq<Byte>)>)
    ensures r.Some? ==> |r.value.1| < |s|
  {
    if s == [] then None
    else if s[0] < 0x80 then Some((s[0], s[1..]))
    else
      match ReadVarint(s[1..])
      case None => None
      case Some((v, rest)) => Some((s[0] - 0x80 + 0x80 * v, rest))
  }

  /** Every byte but the last carries the continuation bit and the last
      does not. */
  lemma {:induction false} VarintContinuation(v: nat)
    ensures var r := VarintBytes(v);
      (forall i | 0 <= i < |r| - 1 :: r[i] >= 0x80) && r[|r| - 1] < 0x80
    decreases v
  {
    if v >= 0x80 {
      VarintContinuation(v / 0x80);
      var r := VarintBytes(v);
      assert r[1..] == VarintBytes(v / 0x80);
    }
  }

  /** The digits of the encoding denote `v`. */
  lemma {:induction false} VarintDigits(v: nat)
    ensures DigitsValue(VarintBytes(v)) == v
    decreases v
  {
    if v >= 0x80 {
      VarintDigits(v / 0x80);
      var r := VarintBytes(v);
      assert r[1..] == VarintBytes(v / 0x80);
    }
  }

  /** The encoding is self-delimiting: a reader gets `v` back and stops
      exactly at its end. */
  lemma {:induction false} ReadVarintBytes(v: nat, rest: seq<Byte>)
    ensures ReadVarint(VarintBytes(v) + rest) == Some((v, rest))
    decreases v
  {
    var s := VarintBytes(v) + rest;
    if v < 0x80 {
      assert s[1..] == rest;
    } else {
      ReadVarintBytes(v / 0x80, rest);
      assert s[1..] == VarintBytes(v / 0x80) + rest;
    }
  }

  /** 128 to the power `k`. */
  function Pow128(k: nat): nat
  {
    if k == 0 then 1 else 0x80 * Pow128(k - 1)
  }

  /** A value below 128^k takes at most k bytes (and always at least one). */
  lemma {:induction false} VarintLength(v: nat, k: nat)
    requires 0 < k && v < Pow128(k)
    ensures |VarintBytes(v)| <= k
    decreases v
  {
    if v >= 0x80 {
      assert k > 1;
      VarintLength(v / 0x80, k - 1);
    }
  }

  /** A 64-bit value takes at most ten bytes and a 32-bit value five. */
  lemma VarintBounds(v: nat)
    ensures v < TWO64 ==> |VarintBytes(v)| <= 10
    ensures v < TWO32 ==> |VarintBytes(v)| <= 5
  {
    assert Pow128(5) == 0x8_0000_0000;
    assert Pow128(10) == 0x40_0000_0000_0000_0000;
    if v < TWO64 {
      VarintLength(v, 10);
    }
    if v < TWO32 {
      VarintLength(v, 5);
    }
  }

  /** upb_put_v_uint64_t: writes the encoding of `val` at `pos` and returns
      the position just after it. */
  method PutVarint64(buf: array<Byte>, pos: nat, val: nat) returns (end: nat)
    requires val < TWO64
    requires pos + |VarintBytes(val)| <= buf.Length
    modifies buf
    ensures end == pos + |VarintBytes(val)|
    ensures buf[..] == Splice(old(buf[..]), pos, VarintBytes(val))
  {
    ghost var s0 := buf[..];
    var v := val;
    end := pos;
    ghost var written: seq<Byte> := [];
    while true
      invariant end == pos + |written|
      invariant written + VarintBytes(v) == VarintBytes(val)
      invariant buf[..] == Splice(s0, pos, written)
      decreases v
    {
      var b := v % 0x80;
      VarintStep(val, written, v);
      v := v / 0x80;
      if v != 0 {
        b := b + 0x80;
      }
      SpliceAdjacent(s0, pos, written, [b]);
      end := Put8(buf, end, b);
      written := written + [b];
      if v == 0 {
        break;
      }
    }
  }

  /** One turn of the do-while loop: the low seven bits of `v`, with the
      continuation bit when bits remain, extend the written prefix. */
  lemma VarintStep(val: nat, written: seq<Byte>, v: nat)
    requires written + VarintBytes(v) == VarintBytes(val)
    ensures var b := if v / 0x80 != 0 then v % 0x80 + 0x80 else v % 0x80;
      v / 0x80 == 0 ==> written + [b] == VarintBytes(val)
    ensures var b := if v / 0x80 != 0 then v % 0x80 + 0x80 else v % 0x80;
      v / 0x80 != 0 ==> (written + [b]) + VarintBytes(v / 0x80) == VarintBytes(val)
  {
    var b := if v / 0x80 != 0 then v % 0x80 + 0x80 else v % 0x80;
    assert VarintBytes(v) == [b] + (if v / 0x80 == 0 then [] else VarintBytes(v / 0x80));
    assert written + VarintBytes(v) == (written + [b]) + (if v / 0x80 == 0 then [] else VarintBytes(v / 0x80));
  }

  /** upb_put_v_uint32_t: the 32-bit argument widened to 64 bits. */
  method PutVarint32(buf: array<Byte>, pos: nat, val: nat) returns (end: nat)
    requires val < TWO32
    requires pos + |VarintBytes(val)| <= buf.Length
    modifies buf
    ensures end == pos + |VarintBytes(val)|
    ensures buf[..] == Splice(old(buf[..]), pos, VarintBytes(val))
  {
    end := PutVarint64(buf, pos, val);
  }
}
