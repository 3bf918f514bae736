/** Fixed-width integer layout in a byte buffer, the constants of the
    external term format subset, and the buffer-splice view of a write
    (erlang_interface.h). */
module ByteLayout {

  /** One octet of a `char` buffer. */
  type Byte = x: int | 0 <= x < 0x100

  /** C `int` and `long` on the LP64 platform the program targets. */
  type Int32 = x: int | -0x8000_0000 <= x < 0x8000_0000
  type Int64 = x: int | -0x8000_0000_0000_0000 <= x < 0x8000_0000_0000_0000

  const TWO32: int := 0x1_0000_0000

  const MAXATOMLEN: int := 255
  const ERL_VERSION_MAGIC: Byte := 131
  const ERL_MAX: int := 0x800_0000 - 1
  const ERL_MIN: int := -0x800_0000

  const ERL_SMALL_INTEGER_EXT: Byte := 97  // 'a'
  const ERL_INTEGER_EXT: Byte := 98  // 'b'
  const ERL_SMALL_BIG_EXT: Byte := 110  // 'n'
  const ERL_LIST_EXT: Byte := 108  // 'l'
  const ERL_NIL_EXT: Byte := 106  // 'j'
  const ERL_SMALL_TUPLE_EXT: Byte := 104  // 'h'
  const ERL_LARGE_TUPLE_EXT: Byte := 105  // 'i'
  const ERL_BINARY_EXT: Byte := 109  // 'm'
  const ERL_ATOM_EXT: Byte := 100  // 'd'

  /** The nine tags, in the order the header declares them. */
  const Tags: seq<Byte> := [ERL_SMALL_INTEGER_EXT, ERL_INTEGER_EXT, ERL_SMALL_BIG_EXT,
                            ERL_LIST_EXT, ERL_NIL_EXT, ERL_SMALL_TUPLE_EXT,
                            ERL_LARGE_TUPLE_EXT, ERL_BINARY_EXT, ERL_ATOM_EXT]

  /** The two range bounds are the header's `(1 << 27) - 1` and
      `-(1 << 27)`, the shift of 1 by 27 places being 2^27. */
  lemma Constants()
    ensures ERL_MAX == Pow2(27) - 1 && ERL_MIN == -(Pow2(27) as int)
  {
    Pow2Value27();
  }

  /** No two tags coincide, so the leading byte of an encoded term names
      its kind, and none of them is the version byte. */
  lemma TagsPairwiseDistinct()
    ensures |Tags| == 9
    ensures forall i, j :: 0 <= i < j < |Tags| ==> Tags[i] != Tags[j]
    ensures ERL_VERSION_MAGIC !in Tags
  {
  }

  function Pow2(k: nat): (r: nat)
    ensures r >= 1
  {
    if k == 0 then 1 else 2 * Pow2(k - 1)
  }

  lemma {:induction false} Pow2Add(a: nat, b: nat)
    ensures Pow2(a + b) == Pow2(a) * Pow2(b)
  {
    if a > 0 {
      Pow2Add(a - 1, b);
    }
  }

  lemma Pow2Value27()
    ensures Pow2(27) == 0x800_0000
  {
    Pow2Add(7, 20);
    Pow2Add(10, 10);
    Pow2Add(5, 5);
    assert Pow2(5) == 32;
    assert Pow2(7) == 128;
  }

  // ---------------------------------------------------------------------
  // The bytes each macro stores. C's `>>` on a signed value is an
  // arithmetic shift, i.e. floor division, which is what Dafny's `/` does
  // for a positive divisor; `& 0xff` keeps the low byte, Dafny's `% 0x100`.

  /** C's `&` on the bit patterns of two non-negative values, taken bit
      by bit from the least significant. */
  function BitAnd(a: nat, b: nat): nat
  {
    if a == 0 || b == 0 then 0
    else 2 * BitAnd(a / 2, b / 2) + (if a % 2 == 1 && b % 2 == 1 then 1 else 0)
  }

  /** Masking with k one-bits keeps the value modulo 2^k. */
  lemma {:induction false} MaskLow(m: nat, k: nat)
    ensures BitAnd(m, Pow2(k) - 1) == m % Pow2(k)
  {
    if k > 0 && m > 0 {
      var p := Pow2(k - 1);
      assert Pow2(k) == 2 * p;
      BitAndOdd(m, p);
      MaskLow(m / 2, k - 1);
      HalfMod(m, p);
    } else if k == 0 {
      assert Pow2(k) == 1;
    } else {
      assert BitAnd(m, Pow2(k) - 1) == 0;
    }
  }

  lemma BitAndOdd(m: nat, p: nat)
    requires m > 0 && p >= 1
    ensures BitAnd(m, 2 * p - 1) == 2 * BitAnd(m / 2, p - 1) + m % 2
  {
    var b := 2 * p - 1;
    assert b / 2 == p - 1 && b % 2 == 1;
  }

  lemma HalfMod(m: nat, p: nat)
    requires p >= 1
    ensures m % (2 * p) == 2 * ((m / 2) % p) + m % 2
  {
    var q, r := m / 2, m % 2;
    var s, t := q / p, q % p;
    assert q == p * s + t;
    assert m == 2 * q + r;
    assert m == (2 * p) * s + (2 * t + r);
    ModUnique(m, 2 * p, s, 2 * t + r);
  }

  /** The remainder is the only offset below the divisor. */
  lemma ModUnique(m: int, d: int, s: int, x: int)
    requires d > 0 && m == d * s + x && 0 <= x < d
    ensures m % d == x && m / d == s
  {
    var k := s - m / d;
    assert d * k == m % d - x;
    if k >= 1 {
      MulAtLeast(d, k);
    } else if k <= -1 {
      MulAtLeast(d, -k);
    }
  }

  lemma MulAtLeast(d: int, k: int)
    requires d > 0 && k >= 1
    ensures d * k >= d
  {
  }

  /** `n & 0xff` on the 64-bit two's-complement pattern of `n` is its low
      byte. */
  lemma MaskByte(n: int)
    ensures BitAnd(n % 0x1_0000_0000_0000_0000, 0xFF) == n % 0x100
  {
    Pow2Value8();
    MaskLow(n % 0x1_0000_0000_0000_0000, 8);
    LowByteOfPattern(n);
  }

  lemma Pow2Value8()
    ensures Pow2(8) == 0x100
  {
    Pow2Add(4, 4);
    assert Pow2(4) == 16;
  }

  /** Reducing modulo 2^64 keeps the low byte. */
  lemma LowByteOfPattern(n: int)
    ensures (n % 0x1_0000_0000_0000_0000) % 0x100 == n % 0x100
  {
    var m := n % 0x1_0000_0000_0000_0000;
    var q := n / 0x1_0000_0000_0000_0000;
    assert n == q * 0x1_0000_0000_0000_0000 + m;
    ModUnique(m, 0x100, m / 0x100, m % 0x100);
    ModUnique(n, 0x100, q * 0x100_0000_0000_0000 + m / 0x100, m % 0x100);
  }

  /** put8: one byte, the low byte of `n`. */
  function Put8Bytes(n: int): (r: seq<Byte>)
    ensures |r| == 1 && r[0] == n % 0x100
  {
    [n % 0x100]
  }

  /** The byte put8 stores is `(n) & 0xff`, taken on n's two's-complement
      bit pattern. */
  lemma Put8IsMask(n: int)
    ensures Put8Bytes(n) == [BitAnd(n % 0x1_0000_0000_0000_0000, 0xFF)]
  {
    MaskByte(n);
  }

  /** put16be: bits 15-8, then bits 7-0. */
  function Put16BEBytes(n: int): (r: seq<Byte>)
    ensures |r| == 2 && Be16Value(r) == n % 0x1_0000
  {
    [(n / 0x100) % 0x100, n % 0x100]
  }

  /** put32be: bits 31-24, 23-16, 15-8, 7-0 in that order. */
  function Put32BEBytes(n: int): (r: seq<Byte>)
    ensures |r| == 4
  {
    [(n / 0x100_0000) % 0x100, (n / 0x1_0000) % 0x100, (n / 0x100) % 0x100, n % 0x100]
  }

  /** put32le: bits 7-0, 15-8, 23-16, 31-24 in that order. */
  function Put32LEBytes(n: int): (r: seq<Byte>)
    ensures |r| == 4
  {
    [n % 0x100, (n / 0x100) % 0x100, (n / 0x1_0000) % 0x100, (n / 0x100_0000) % 0x100]
  }

  /** Reading back two bytes, most significant first. */
  function Be16Value(b: seq<Byte>): (v: nat)
    requires |b| == 2
    ensures v < 0x1_0000
  {
    b[0] as int * 0x100 + b[1] as int
  }

  /** Reading back four bytes, most significant first. */
  function Be32Value(b: seq<Byte>): (v: nat)
    requires |b| == 4
    ensures v < TWO32
  {
    b[0] as int * 0x100_0000 + b[1] as int * 0x1_0000 + b[2] as int * 0x100 + b[3] as int
  }

  /** Reading back four bytes, least significant first. */
  function Le32Value(b: seq<Byte>): (v: nat)
    requires |b| == 4
    ensures v < TWO32
  {
    b[3] as int * 0x100_0000 + b[2] as int * 0x1_0000 + b[1] as int * 0x100 + b[0] as int
  }

  /** The two's-complement reading of four big-endian bytes. */
  function Int32Of(u: nat): (v: Int32)
    requires u < TWO32
    ensures v % TWO32 == u
  {
    if u < 0x8000_0000 then u else u - TWO32
  }

  /** Reading a 32-bit field back as a signed value undoes the wrap. */
  lemma Int32OfMod(v: Int32)
    ensures Int32Of(v % 0x1_0000_0000) == v
  {
    if v < 0 {
      assert v % 0x1_0000_0000 == v + 0x1_0000_0000;
    }
  }

  /** `n` and `n mod 2^32` agree above each byte boundary up to bit 31:
      `n / d` and `(n mod 2^32) / d` differ by a multiple of 2^32 / d. */
  lemma DivOfMod(n: int)
    ensures n / 0x100_0000 == (n / 0x1_0000_0000) * 0x100 + (n % 0x1_0000_0000) / 0x100_0000
    ensures n / 0x1_0000 == (n / 0x1_0000_0000) * 0x1_0000 + (n % 0x1_0000_0000) / 0x1_0000
    ensures n / 0x100 == (n / 0x1_0000_0000) * 0x100_0000 + (n % 0x1_0000_0000) / 0x100
  {
  }

  /** Each byte put32be extracts from `n` is the same byte of `n mod 2^32`. */
  lemma LowBytes(n: int)
    ensures (n / 0x100_0000) % 0x100 == ((n % 0x1_0000_0000) / 0x100_0000) % 0x100
    ensures (n / 0x1_0000) % 0x100 == ((n % 0x1_0000_0000) / 0x1_0000) % 0x100
    ensures (n / 0x100) % 0x100 == ((n % 0x1_0000_0000) / 0x100) % 0x100
    ensures n % 0x100 == (n % 0x1_0000_0000) % 0x100
  {
    DivOfMod(n);
    var q := n / 0x1_0000_0000;
    ModMultipleAdd(q, (n % 0x1_0000_0000) / 0x100_0000);
    ModMultipleAdd(q * 0x100, (n % 0x1_0000_0000) / 0x1_0000);
    ModMultipleAdd(q * 0x1_0000, (n % 0x1_0000_0000) / 0x100);
    ModMultipleAdd(q * 0x100_0000, n % 0x1_0000_0000);
  }

  lemma ModMultipleAdd(k: int, x: int)
    ensures (k * 0x100 + x) % 0x100 == x % 0x100
  {
  }

  /** A value below 2^32 is the sum of its four base-256 digits. */
  lemma Digits(m: int)
    requires 0 <= m < TWO32
    ensures (m / 0x100_0000) % 0x100 * 0x100_0000 + (m / 0x1_0000) % 0x100 * 0x1_0000
            + (m / 0x100) % 0x100 * 0x100 + m % 0x100 == m
  {
    assert m / 0x100 / 0x100 == m / 0x1_0000;
    assert m / 0x1_0000 / 0x100 == m / 0x100_0000;
  }

  /** put32be stores `n` modulo 2^32: the big-endian reading of its four
      bytes is `n mod 2^32` for every integer `n`, negative ones included. */
  lemma Put32BERoundTrip(n: int)
    ensures Be32Value(Put32BEBytes(n)) == n % TWO32
  {
    LowBytes(n);
    Digits(n % TWO32);
  }

  /** put32le writes the same four bytes as put32be, in reverse order, and
      its little-endian reading is also `n mod 2^32`. */
  lemma Put32LEIsReversedBE(n: int)
    ensures Put32LEBytes(n) == Reversed(Put32BEBytes(n))
    ensures Le32Value(Put32LEBytes(n)) == n % TWO32
  {
    Put32BERoundTrip(n);
  }

  /** The four bytes depend on `n` only modulo 2^32. */
  lemma Put32Modular(n: int)
    ensures Put32BEBytes(n) == Put32BEBytes(n % TWO32)
    ensures Put32LEBytes(n) == Put32LEBytes(n % TWO32)
  {
    LowBytes(n);
  }

  /** A C string literal of 8-bit characters as the bytes it stores, without
      the terminating NUL. */
  function AsciiBytes(s: string): (r: seq<Byte>)
    requires forall i | 0 <= i < |s| :: s[i] < 256 as char
    ensures |r| == |s| && forall i | 0 <= i < |s| :: r[i] == s[i] as int
  {
    seq(|s|, i requires 0 <= i < |s| => s[i] as int)
  }

  function Reversed(s: seq<Byte>): (r: seq<Byte>)
    ensures |r| == |s|
  {
    seq(|s|, i requires 0 <= i < |s| => s[|s| - 1 - i])
  }

  // ---------------------------------------------------------------------
  // A write of consecutive bytes into a buffer, as a value.

  /** The buffer `s` after `b` has been stored from position `pos` on, one
      byte after the other. */
  function Splice(s: seq<Byte>, pos: nat, b: seq<Byte>): (r: seq<Byte>)
    requires pos + |b| <= |s|
    ensures |r| == |s|
    decreases |b|
  {
    if b == [] then s else Splice(s[pos := b[0]], pos + 1, b[1..])
  }

  /** A write changes exactly the positions `pos .. pos + |b|`, which then
      hold `b`; every other position keeps its byte. */
  lemma {:induction false} SpliceIndex(s: seq<Byte>, pos: nat, b: seq<Byte>)
    requires pos + |b| <= |s|
    ensures forall i | 0 <= i < |s| ::
      Splice(s, pos, b)[i] == if pos <= i < pos + |b| then b[i - pos] else s[i]
    decreases |b|
  {
    if b != [] {
      SpliceIndex(s[pos := b[0]], pos + 1, b[1..]);
    }
  }

  /** The same, as slices. */
  lemma SpliceFrame(s: seq<Byte>, pos: nat, b: seq<Byte>)
    requires pos + |b| <= |s|
    ensures Splice(s, pos, b)[pos..pos + |b|] == b
    ensures Splice(s, pos, b)[..pos] == s[..pos]
    ensures Splice(s, pos, b)[pos + |b|..] == s[pos + |b|..]
  {
    SpliceIndex(s, pos, b);
  }

  /** Two adjacent writes are one write of the concatenation. */
  lemma SpliceAdjacent(s: seq<Byte>, pos: nat, a: seq<Byte>, b: seq<Byte>)
    requires pos + |a| + |b| <= |s|
    ensures Splice(Splice(s, pos, a), pos + |a|, b) == Splice(s, pos, a + b)
  {
    SpliceIndex(s, pos, a);
    SpliceIndex(Splice(s, pos, a), pos + |a|, b);
    SpliceIndex(s, pos, a + b);
  }

  /** Writing the first part after the rest is the same as writing both in
      order. */
  lemma SpliceOver(s: seq<Byte>, pos: nat, a: seq<Byte>, b: seq<Byte>)
    requires pos + |a| + |b| <= |s|
    ensures Splice(Splice(s, pos + |a|, b), pos, a) == Splice(s, pos, a + b)
  {
    SpliceIndex(s, pos + |a|, b);
    SpliceIndex(Splice(s, pos + |a|, b), pos, a);
    SpliceIndex(s, pos, a + b);
  }

  /** After a write at `pos`, the prefix up to its end is the old prefix
      followed by the written bytes. */
  lemma SplicePrefix(s: seq<Byte>, pos: nat, b: seq<Byte>)
    requires pos + |b| <= |s|
    ensures Splice(s, pos, b)[..pos + |b|] == s[..pos] + b
  {
    SpliceIndex(s, pos, b);
  }

  // ---------------------------------------------------------------------
  // The macros on a buffer. Each takes the cursor `pos` (the macro's `s`)
  // and returns the advanced cursor.

  method Put8(s: array<Byte>, pos: nat, n: int) returns (next: nat)
    requires pos + 1 <= s.Length
    modifies s
    ensures next == pos + 1
    ensures s[..] == Splice(old(s[..]), pos, Put8Bytes(n))
  {
    SpliceIndex(s[..], pos, Put8Bytes(n));
    s[pos] := n % 0x100;
    next := pos + 1;
  }

  method Put16BE(s: array<Byte>, pos: nat, n: int) returns (next: nat)
    requires pos + 2 <= s.Length
    modifies s
    ensures next == pos + 2
    ensures s[..] == Splice(old(s[..]), pos, Put16BEBytes(n))
  {
    SpliceIndex(s[..], pos, Put16BEBytes(n));
    s[pos] := (n / 0x100) % 0x100;
    s[pos + 1] := n % 0x100;
    next := pos + 2;
  }

  method Put32BE(s: array<Byte>, pos: nat, n: int) returns (next: nat)
    requires pos + 4 <= s.Length
    modifies s
    ensures next == pos + 4
    ensures s[..] == Splice(old(s[..]), pos, Put32BEBytes(n))
  {
    SpliceIndex(s[..], pos, Put32BEBytes(n));
    s[pos] := (n / 0x100_0000) % 0x100;
    s[pos + 1] := (n / 0x1_0000) % 0x100;
    s[pos + 2] := (n / 0x100) % 0x100;
    s[pos + 3] := n % 0x100;
    next := pos + 4;
  }

  method Put32LE(s: array<Byte>, pos: nat, n: int) returns (next: nat)
    requires pos + 4 <= s.Length
    modifies s
    ensures next == pos + 4
    ensures s[..] == Splice(old(s[..]), pos, Put32LEBytes(n))
  {
    SpliceIndex(s[..], pos, Put32LEBytes(n));
    s[pos] := n % 0x100;
    s[pos + 1] := (n / 0x100) % 0x100;
    s[pos + 2] := (n / 0x1_0000) % 0x100;
    s[pos + 3] := (n / 0x100_0000) % 0x100;
    next := pos + 4;
  }

  /** memmove of `src` to the cursor (the regions never overlap here). */
  method Move(s: array<Byte>, pos: nat, src: seq<Byte>) returns (next: nat)
    requires pos + |src| <= s.Length
    modifies s
    ensures next == pos + |src|
    ensures s[..] == Splice(old(s[..]), pos, src)
  {
    SpliceIndex(s[..], pos, src);
    forall i | 0 <= i < |src| {
      s[pos + i] := src[i];
    }
    next := pos + |src|;
  }
}
