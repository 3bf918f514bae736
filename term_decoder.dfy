/** A reader for the same term-format subset, written from the format's
    layouts and not from the encoders, and the proof that it reads back
    every well-formed term the encoders write: the encoding is
    self-delimiting and loses nothing. */
module TermDecoder {
  import opened Wrappers
  import opened ByteLayout
  import opened TermEncoder
  import opened Terms

  /** The first term of `s` and the bytes after it; the leading tag byte
      selects the layout. */
  function DecodeTerm(s: seq<Byte>): (r: Option<(Term, seq<Byte>)>)
    ensures r.Some? ==> |r.value.1| < |s|
    decreases |s|, 2
  {
    if |s| == 0 then None
    else if s[0] == ERL_SMALL_INTEGER_EXT then DecodeSmallIntegerExt(s)
    else if s[0] == ERL_INTEGER_EXT then DecodeIntegerExt(s)
    else if s[0] == ERL_SMALL_BIG_EXT then DecodeSmallBigExt(s)
    else if s[0] == ERL_ATOM_EXT then DecodeAtomExt(s)
    else if s[0] == ERL_BINARY_EXT then DecodeBinaryExt(s)
    else if s[0] == ERL_SMALL_TUPLE_EXT || s[0] == ERL_LARGE_TUPLE_EXT then DecodeTupleExt(s)
    else if s[0] == ERL_NIL_EXT then Some((List([]), s[1..]))
    else if s[0] == ERL_LIST_EXT then DecodeListExt(s)
    else None
  }

  function DecodeSmallIntegerExt(s: seq<Byte>): (r: Option<(Term, seq<Byte>)>)
    requires |s| > 0
    ensures r.Some? ==> |r.value.1| < |s|
  {
    if |s| < 2 then None else Some((SmallInteger(s[1]), s[2..]))
  }

  function DecodeIntegerExt(s: seq<Byte>): (r: Option<(Term, seq<Byte>)>)
    requires |s| > 0
    ensures r.Some? ==> |r.value.1| < |s|
  {
    if |s| < 5 then None else Some((Integer(Int32Of(Be32Value(s[1..5]))), s[5..]))
  }

  /** A small big of four digit bytes with a sign byte of 0 or 1. */
  function DecodeSmallBigExt(s: seq<Byte>): (r: Option<(Term, seq<Byte>)>)
    requires |s| > 0
    ensures r.Some? ==> |r.value.1| < |s|
  {
    if |s| < 7 || s[1] != 4 || s[2] > 1 then None
    else Some((SmallBig(s[2] == 1, Le32Value(s[3..7])), s[7..]))
  }

  function DecodeAtomExt(s: seq<Byte>): (r: Option<(Term, seq<Byte>)>)
    requires |s| > 0
    ensures r.Some? ==> |r.value.1| < |s|
  {
    if |s| < 3 then None
    else
      var n := Be16Value(s[1..3]);
      if n > MAXATOMLEN || |s| < 3 + n then None else Some((Atom(s[3..3 + n]), s[3 + n..]))
  }

  function DecodeBinaryExt(s: seq<Byte>): (r: Option<(Term, seq<Byte>)>)
    requires |s| > 0
    ensures r.Some? ==> |r.value.1| < |s|
  {
    if |s| < 5 then None
    else
      var n := Be32Value(s[1..5]);
      if |s| < 5 + n then None else Some((Binary(s[5..5 + n]), s[5 + n..]))
  }

  /** A tuple, small (one arity byte) or large (four), then its elements. */
  function DecodeTupleExt(s: seq<Byte>): (r: Option<(Term, seq<Byte>)>)
    requires |s| > 0
    ensures r.Some? ==> |r.value.1| < |s|
    decreases |s|, 1
  {
    var k := if s[0] == ERL_SMALL_TUPLE_EXT then 2 else 5;
    if |s| < k then None
    else
      var n := if k == 2 then s[1] else Be32Value(s[1..5]);
      match DecodeElements(n, s[k..])
      case None => None
      case Some((es, rest)) => Some((Tuple(es), rest))
  }

  /** A non-empty list: header, elements, and the empty-list tail. */
  function DecodeListExt(s: seq<Byte>): (r: Option<(Term, seq<Byte>)>)
    requires |s| > 0
    ensures r.Some? ==> |r.value.1| < |s|
    decreases |s|, 1
  {
    if |s| < 5 then None
    else
      match DecodeElements(Be32Value(s[1..5]), s[5..])
      case None => None
      case Some((es, rest)) =>
        if |rest| > 0 && rest[0] == ERL_NIL_EXT then Some((List(es), rest[1..])) else None
  }

  /** `n` consecutive terms at the start of `s` and the bytes after them. */
  function DecodeElements(n: nat, s: seq<Byte>): (r: Option<(seq<Term>, seq<Byte>)>)
    ensures r.Some? ==> |r.value.0| == n && |r.value.1| <= |s|
    decreases |s|, 3
  {
    if n == 0 then Some(([], s))
    else
      match DecodeTerm(s)
      case None => None
      case Some((t, rest)) =>
        match DecodeElements(n - 1, rest)
        case None => None
        case Some((ts, rest')) => Some(([t] + ts, rest'))
  }

  /** Reading back what the encoders wrote gives the term and leaves the
      following bytes untouched. */
  lemma {:induction false} DecodeEncode(t: Term, rest: seq<Byte>)
    requires WellFormed(t)
    ensures DecodeTerm(EncodeTerm(t) + rest) == Some((t, rest))
    decreases t, 1
  {
    match t
    case Atom(name) => DecodeAtom(name, rest);
    case SmallInteger(v) => DecodeSmallInteger(v, rest);
    case Integer(v) => DecodeInteger(v, rest);
    case SmallBig(neg, m) => DecodeSmallBig(neg, m, rest);
    case Binary(d) => DecodeBinary(d, rest);
    case Tuple(es) =>
      DecodeEncodeElements(es, rest);
      DecodeTuple(es, rest);
    case List(es) =>
      if es != [] {
        DecodeEncodeElements(es, ListHeaderBytes(0) + rest);
      }
      DecodeList(es, rest);
  }

  lemma {:induction false} DecodeEncodeElements(es: seq<Term>, rest: seq<Byte>)
    requires AllWellFormed(es)
    ensures DecodeElements(|es|, EncodeElements(es) + rest) == Some((es, rest))
    decreases es, 0
  {
    if es != [] {
      var more := EncodeElements(es[1..]) + rest;
      assert EncodeElements(es) + rest == EncodeTerm(es[0]) + more;
      DecodeEncode(es[0], more);
      DecodeEncodeElements(es[1..], rest);
      DecodeCons(es, EncodeElements(es) + rest, more, rest);
    } else {
      assert EncodeElements(es) + rest == rest;
    }
  }

  lemma DecodeCons(es: seq<Term>, s: seq<Byte>, more: seq<Byte>, rest: seq<Byte>)
    requires es != []
    requires DecodeTerm(s) == Some((es[0], more))
    requires DecodeElements(|es| - 1, more) == Some((es[1..], rest))
    ensures DecodeElements(|es|, s) == Some((es, rest))
  {
    assert [es[0]] + es[1..] == es;
  }

  lemma DecodeAtom(name: seq<Byte>, rest: seq<Byte>)
    requires |name| <= MAXATOMLEN
    ensures DecodeTerm(EncodeTerm(Atom(name)) + rest) == Some((Atom(name), rest))
  {
    var e := AtomLenBytes(name, |name|);
    var s := e + rest;
    assert s[0] == ERL_ATOM_EXT;
    assert s[1..3] == e[1..3];
    assert s[3..3 + |name|] == e[3..] == name;
    assert s[3 + |name|..] == rest;
  }

  lemma DecodeSmallInteger(v: Byte, rest: seq<Byte>)
    ensures DecodeTerm(EncodeTerm(SmallInteger(v)) + rest) == Some((SmallInteger(v), rest))
  {
    var s := EncodeTerm(SmallInteger(v)) + rest;
    assert s[0] == ERL_SMALL_INTEGER_EXT && s[1] == v;
    assert s[2..] == rest;
  }

  lemma DecodeInteger(v: Int32, rest: seq<Byte>)
    ensures DecodeTerm(EncodeTerm(Integer(v)) + rest) == Some((Integer(v), rest))
  {
    var s := EncodeTerm(Integer(v)) + rest;
    assert s[0] == ERL_INTEGER_EXT;
    assert s[1..5] == Put32BEBytes(v);
    Put32BERoundTrip(v);
    Int32OfMod(v);
    assert DecodeIntegerExt(s) == Some((Integer(v), s[5..]));
    assert s[5..] == rest;
  }

  lemma DecodeSmallBig(neg: bool, m: nat, rest: seq<Byte>)
    requires m < TWO32
    ensures DecodeTerm(EncodeTerm(SmallBig(neg, m)) + rest) == Some((SmallBig(neg, m), rest))
  {
    var s := EncodeTerm(SmallBig(neg, m)) + rest;
    assert s[0] == ERL_SMALL_BIG_EXT && s[1] == 4 && s[2] == if neg then 1 else 0;
    assert s[3..7] == Put32LEBytes(m);
    Put32LEIsReversedBE(m);
    assert s[7..] == rest;
  }

  lemma DecodeBinary(d: seq<Byte>, rest: seq<Byte>)
    requires |d| < TWO32
    ensures DecodeTerm(EncodeTerm(Binary(d)) + rest) == Some((Binary(d), rest))
  {
    var e := BinaryBytes(d, |d|);
    var s := e + rest;
    assert s[0] == ERL_BINARY_EXT;
    assert s[1..5] == e[1..5];
    assert s[5..5 + |d|] == e[5..] == d;
    assert s[5 + |d|..] == rest;
  }

  lemma DecodeTuple(es: seq<Term>, rest: seq<Byte>)
    requires WellFormed(Tuple(es))
    requires DecodeElements(|es|, EncodeElements(es) + rest) == Some((es, rest))
    ensures DecodeTerm(EncodeTerm(Tuple(es)) + rest) == Some((Tuple(es), rest))
  {
    var e := EncodeElements(es);
    assert EncodeTerm(Tuple(es)) + rest == TupleHeaderBytes(|es|) + (e + rest);
    DecodeTupleShape(es, e + rest, rest);
  }

  /** The tuple layout, with the elements' bytes left abstract. */
  lemma DecodeTupleShape(es: seq<Term>, body: seq<Byte>, rest: seq<Byte>)
    requires |es| < 0x8000_0000
    requires DecodeElements(|es|, body) == Some((es, rest))
    ensures DecodeTerm(TupleHeaderBytes(|es|) + body) == Some((Tuple(es), rest))
  {
    var h := TupleHeaderBytes(|es|);
    var s := h + body;
    assert s[|h|..] == body;
    if |es| <= 0xff {
      assert s[0] == ERL_SMALL_TUPLE_EXT && s[1] == |es|;
    } else {
      assert s[0] == ERL_LARGE_TUPLE_EXT;
      assert s[1..5] == h[1..];
    }
  }

  lemma DecodeList(es: seq<Term>, rest: seq<Byte>)
    requires WellFormed(List(es))
    requires es != [] ==>
      DecodeElements(|es|, EncodeElements(es) + (ListHeaderBytes(0) + rest)) == Some((es, ListHeaderBytes(0) + rest))
    ensures DecodeTerm(EncodeTerm(List(es)) + rest) == Some((List(es), rest))
  {
    if es == [] {
      var s := [ERL_NIL_EXT] + rest;
      assert EncodeTerm(List(es)) + rest == s;
      assert s[1..] == rest;
    } else {
      DecodeNonEmptyList(es, rest);
    }
  }

  lemma DecodeNonEmptyList(es: seq<Term>, rest: seq<Byte>)
    requires WellFormed(List(es)) && es != []
    requires DecodeElements(|es|, EncodeElements(es) + (ListHeaderBytes(0) + rest)) == Some((es, ListHeaderBytes(0) + rest))
    ensures DecodeTerm(EncodeTerm(List(es)) + rest) == Some((List(es), rest))
  {
    var e := EncodeElements(es);
    var h := ListHeaderBytes(|es|);
    assert ListHeaderBytes(0) == [ERL_NIL_EXT];
    assert EncodeTerm(List(es)) == h + e + [ERL_NIL_EXT];
    Associate(h, e, [ERL_NIL_EXT], rest);
    DecodeListShape(es, e, rest);
  }

  lemma Associate(a: seq<Byte>, b: seq<Byte>, c: seq<Byte>, d: seq<Byte>)
    ensures a + b + c + d == a + (b + (c + d))
  {
  }

  /** The non-empty list layout, with the elements' bytes left abstract. */
  lemma DecodeListShape(es: seq<Term>, e: seq<Byte>, rest: seq<Byte>)
    requires 0 < |es| < 0x8000_0000
    requires DecodeElements(|es|, e + ([ERL_NIL_EXT] + rest)) == Some((es, [ERL_NIL_EXT] + rest))
    ensures DecodeTerm(ListHeaderBytes(|es|) + (e + ([ERL_NIL_EXT] + rest))) == Some((List(es), rest))
  {
    var h := ListHeaderBytes(|es|);
    var tail := [ERL_NIL_EXT] + rest;
    var s := h + (e + tail);
    assert s[0] == ERL_LIST_EXT;
    assert s[5..] == e + tail;
    assert s[1..5] == h[1..];
    assert tail[1..] == rest;
  }

  /** Different well-formed terms never share an encoding, so the byte
      string determines the term. */
  lemma EncodeInjective(a: Term, b: Term)
    requires WellFormed(a) && WellFormed(b)
    requires EncodeTerm(a) == EncodeTerm(b)
    ensures a == b
  {
    DecodeEncode(a, []);
    DecodeEncode(b, []);
    assert EncodeTerm(a) + [] == EncodeTerm(a);
    assert EncodeTerm(b) + [] == EncodeTerm(b);
  }

  /** The value an Erlang reader gets from ei_encode_long(p). */
  lemma DecodeLong(p: Int64)
    ensures DecodeTerm(LongBytes(p)) == Some((ClassifyLong(p), []))
  {
    LongIsClassified(p);
    DecodeEncode(ClassifyLong(p), []);
    assert EncodeTerm(ClassifyLong(p)) + [] == LongBytes(p);
  }
}
