/** The term tree that the encoders of erlang_interface.c:15-162 serialise
    when they are called in sequence, and its encoding, built from exactly
    those encoders: a tuple or list is its header followed by its elements,
    and a non-empty list is closed by an empty-list header, as the caller
    at erlang_interface.c:357-425 does. */
module Terms {
  import opened ByteLayout
  import opened TermEncoder

  datatype Term =
    | Atom(name: seq<Byte>)
    | SmallInteger(small: Byte)
    | Integer(integer: Int32)
    | SmallBig(negative: bool, magnitude: nat)
    | Binary(data: seq<Byte>)
    | Tuple(elements: seq<Term>)
    | List(elements: seq<Term>)

  /** The terms the encoders can write without losing information: an atom
      name within MAXATOMLEN (longer ones are cut before they are stored),
      a magnitude and a binary length that fit the 32-bit fields, arities
      that fit the C `int` argument. */
  predicate WellFormed(t: Term)
  {
    match t
    case Atom(name) => |name| <= MAXATOMLEN
    case SmallInteger(_) => true
    case Integer(_) => true
    case SmallBig(_, m) => m < TWO32
    case Binary(d) => |d| < TWO32
    case Tuple(es) => |es| < 0x8000_0000 && forall i | 0 <= i < |es| :: WellFormed(es[i])
    case List(es) => |es| < 0x8000_0000 && forall i | 0 <= i < |es| :: WellFormed(es[i])
  }

  predicate AllWellFormed(es: seq<Term>)
  {
    forall i | 0 <= i < |es| :: WellFormed(es[i])
  }

  /** The bytes the encoder calls for `t` write, in order. */
  function EncodeTerm(t: Term): (r: seq<Byte>)
    requires WellFormed(t)
    ensures |r| >= 1
    decreases t, 1
  {
    match t
    case Atom(name) => AtomLenBytes(name, |name|)
    case SmallInteger(v) => Put8Bytes(ERL_SMALL_INTEGER_EXT) + Put8Bytes(v)
    case Integer(v) => Put8Bytes(ERL_INTEGER_EXT) + Put32BEBytes(v)
    case SmallBig(neg, m) =>
      Put8Bytes(ERL_SMALL_BIG_EXT) + Put8Bytes(4) + Put8Bytes(if neg then 1 else 0) + Put32LEBytes(m)
    case Binary(d) => BinaryBytes(d, |d|)
    case Tuple(es) => TupleHeaderBytes(|es|) + EncodeElements(es)
    case List(es) =>
      if es == [] then ListHeaderBytes(0)
      else ListHeaderBytes(|es|) + EncodeElements(es) + ListHeaderBytes(0)
  }

  function EncodeElements(es: seq<Term>): (r: seq<Byte>)
    requires AllWellFormed(es)
    ensures |r| >= |es|
    decreases es, 0
  {
    if es == [] then [] else EncodeTerm(es[0]) + EncodeElements(es[1..])
  }

  /** The term ei_encode_long writes for `p`: the three ranges are tried in
      the order of erlang_interface.c:117-143, and a value outside both
      smaller ranges keeps only its sign and its low 32 bits. */
  function ClassifyLong(p: Int64): (t: Term)
    ensures WellFormed(t) && (t.SmallInteger? || t.Integer? || t.SmallBig?)
  {
    if 0 <= p < 256 then SmallInteger(p)
    else if ERL_MIN <= p <= ERL_MAX then Integer(p)
    else SmallBig(p < 0, p % TWO32)
  }

  /** The integer an Erlang node reads back from an integer term. */
  function IntegerValue(t: Term): int
    requires t.SmallInteger? || t.Integer? || t.SmallBig?
  {
    match t
    case SmallInteger(v) => v
    case Integer(v) => v
    case SmallBig(neg, m) => if neg then -(m as int) else m
  }

  /** ei_encode_long writes exactly the encoding of the classified term. */
  lemma LongIsClassified(p: Int64)
    ensures WellFormed(ClassifyLong(p))
    ensures EncodeTerm(ClassifyLong(p)) == LongBytes(p)
  {
    if !(0 <= p < 256) && !(ERL_MIN <= p <= ERL_MAX) {
      Put32Modular(p);
    }
  }

  /** What a value passed to ei_encode_long means once encoded: itself on
      [ERL_MIN, 2^32); its low 32 bits above that; and, below ERL_MIN, the
      negated low 32 bits of its two's complement, which is not the value,
      because the magnitude field is filled with `p` rather than `abs(p)`. */
  lemma LongValue(p: Int64)
    ensures ERL_MIN <= p < TWO32 ==> IntegerValue(ClassifyLong(p)) == p
    ensures p >= TWO32 ==> IntegerValue(ClassifyLong(p)) == p % TWO32
    ensures p < ERL_MIN ==> IntegerValue(ClassifyLong(p)) == -(p % TWO32)
    ensures p < ERL_MIN && p != -0x8000_0000 ==> IntegerValue(ClassifyLong(p)) != p
  {
  }

  /** The boundaries of the classification. */
  lemma LongClassBoundaries()
    ensures ClassifyLong(0).SmallInteger? && ClassifyLong(255).SmallInteger?
    ensures ClassifyLong(-1).Integer? && ClassifyLong(256).Integer?
    ensures ClassifyLong(ERL_MAX).Integer? && ClassifyLong(ERL_MIN).Integer?
    ensures ClassifyLong(ERL_MAX + 1).SmallBig? && ClassifyLong(ERL_MIN - 1).SmallBig?
  {
  }

  /** ei_encode_atom on a C string of any length writes the atom whose name
      is the string cut to MAXATOMLEN bytes. */
  lemma AtomTruncation(p: seq<Byte>)
    requires |p| < 0x8000_0000
    ensures WellFormed(Atom(p[..AtomLength(|p|)]))
    ensures EncodeTerm(Atom(p[..AtomLength(|p|)])) == AtomBytes(p)
  {
    var n := AtomLength(|p|);
    assert p[..n][..n] == p[..n];
  }
}
