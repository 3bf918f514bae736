/** The map-reduce job that riak_mapreduce_request encodes into `buf`
    (erlang_interface.c:357-425): the sequence of encoder calls, grouped as
    the comments of the source group them, the bytes they write, and the
    term those bytes are,

      [{inputs, [{Bucket, Key}]},
       {query, [{map, {modfun, Module, Function}, [Serial, Version, File, Crc, Posxml], true}]},
       {timeout, 5000}]

    after the version byte. */
module MapReduceRequest {
  import opened ByteLayout
  import opened Wrappers
  import opened TermEncoder
  import opened Terms
  import opened TermDecoder

  /** The C string arguments, each as the bytes before its terminating
      NUL. */
  datatype Arguments = Arguments(
    bucket: seq<Byte>, key: seq<Byte>,
    erlangModule: seq<Byte>, mapFunction: seq<Byte>,
    serialTerminal: seq<Byte>, walkVersion: seq<Byte>,
    fileName: seq<Byte>, crcFile: seq<Byte>, posxml: seq<Byte>)

  /** The size of `char buf[2048]`. */
  const BUF_SIZE: int := 2048

  /** The job timeout the source passes to ei_encode_long. */
  const TIMEOUT: int := 5000

  /** An atom name given as a string literal. */
  function Name(s: string): (r: seq<Byte>)
    requires |s| <= MAXATOMLEN && forall i | 0 <= i < |s| :: s[i] < 256 as char
    ensures |r| == |s|
  {
    AsciiBytes(s)
  }

  const INPUTS := Name("inputs")
  const QUERY := Name("query")
  const MAP := Name("map")
  const MODFUN := Name("modfun")
  const TRUE := Name("true")
  const TIMEOUT_ATOM := Name("timeout")

  /** An atom name given as a C string variable: ei_encode_atom keeps at
      most MAXATOMLEN bytes of it. */
  function Cut(p: seq<Byte>): (r: seq<Byte>)
    ensures |r| == AtomLength(|p|)
  {
    p[..AtomLength(|p|)]
  }

  /** The number of bytes the calls write: a fixed 132 for the tags,
      headers and literal atoms, plus the arguments. */
  function RequestSize(a: Arguments): nat
  {
    132 + |a.bucket| + |a.key| + AtomLength(|a.erlangModule|) + AtomLength(|a.mapFunction|)
    + |a.serialTerminal| + |a.walkVersion| + |a.fileName| + |a.crcFile| + |a.posxml|
  }

  /** The bytes of a C string before its terminating NUL: none is 0. */
  predicate CString(s: seq<Byte>)
  {
    forall i | 0 <= i < |s| :: s[i] != 0
  }

  /** Every argument is a possible C string, so `strlen` measures it whole. */
  predicate CStrings(a: Arguments)
  {
    CString(a.bucket) && CString(a.key) && CString(a.erlangModule) && CString(a.mapFunction)
    && CString(a.serialTerminal) && CString(a.walkVersion) && CString(a.fileName)
    && CString(a.crcFile) && CString(a.posxml)
  }

  /** The C string arguments for which the calls stay inside `buf`. */
  predicate Fits(a: Arguments)
  {
    CStrings(a) && RequestSize(a) <= BUF_SIZE && |a.erlangModule| < 0x8000_0000 && |a.mapFunction| < 0x8000_0000
  }


  // ---------------------------------------------------------------------
  // The term of the job.

  function InputsTerm(bucket: seq<Byte>, key: seq<Byte>): Term
  {
    Tuple([Atom(INPUTS), List([Tuple([Binary(bucket), Binary(key)])])])
  }

  function ModFunTerm(erlangModule: seq<Byte>, mapFunction: seq<Byte>): Term
  {
    Tuple([Atom(MODFUN), Atom(Cut(erlangModule)), Atom(Cut(mapFunction))])
  }

  function WalkArgsTerm(a: Arguments): Term
  {
    List([Binary(a.serialTerminal), Binary(a.walkVersion), Binary(a.fileName),
          Binary(a.crcFile), Binary(a.posxml)])
  }

  function QueryTerm(a: Arguments): Term
  {
    Tuple([Atom(QUERY),
           List([Tuple([Atom(MAP), ModFunTerm(a.erlangModule, a.mapFunction), WalkArgsTerm(a), Atom(TRUE)])])])
  }

  function TimeoutTerm(): Term
  {
    Tuple([Atom(TIMEOUT_ATOM), ClassifyLong(TIMEOUT)])
  }

  function MapRedTerm(a: Arguments): Term
  {
    List([InputsTerm(a.bucket, a.key), QueryTerm(a), TimeoutTerm()])
  }

  // ---------------------------------------------------------------------
  // The bytes of each group, as the concatenation of what its calls write
  // in the order of the source.

  /** erlang_interface.c:363-376. */
  function InputsBytes(bucket: seq<Byte>, key: seq<Byte>): (r: seq<Byte>)
    requires |bucket| < TWO32 && |key| < TWO32
    ensures |r| == 29 + |bucket| + |key|
  {
    TupleHeaderBytes(2) + AtomBytes(INPUTS) + ListHeaderBytes(1) + TupleHeaderBytes(2)
    + BinaryBytes(bucket, |bucket|) + BinaryBytes(key, |key|) + ListHeaderBytes(0)
  }

  /** erlang_interface.c:388-395. */
  function ModFunBytes(erlangModule: seq<Byte>, mapFunction: seq<Byte>): (r: seq<Byte>)
    requires |erlangModule| < 0x8000_0000 && |mapFunction| < 0x8000_0000
    ensures |r| == 17 + AtomLength(|erlangModule|) + AtomLength(|mapFunction|)
  {
    TupleHeaderBytes(3) + AtomBytes(MODFUN) + AtomBytes(erlangModule) + AtomBytes(mapFunction)
  }

  /** The walk arguments are short enough for a binary term. */
  predicate ShortWalkArgs(a: Arguments)
  {
    |a.serialTerminal| < TWO32 && |a.walkVersion| < TWO32 && |a.fileName| < TWO32
    && |a.crcFile| < TWO32 && |a.posxml| < TWO32
  }

  /** erlang_interface.c:397-410. */
  function WalkArgsBytes(a: Arguments): (r: seq<Byte>)
    requires ShortWalkArgs(a)
    ensures |r| == 31 + |a.serialTerminal| + |a.walkVersion| + |a.fileName| + |a.crcFile| + |a.posxml|
  {
    ListHeaderBytes(5) + BinaryBytes(a.serialTerminal, |a.serialTerminal|)
    + BinaryBytes(a.walkVersion, |a.walkVersion|) + BinaryBytes(a.fileName, |a.fileName|)
    + BinaryBytes(a.crcFile, |a.crcFile|) + BinaryBytes(a.posxml, |a.posxml|) + ListHeaderBytes(0)
  }

  /** The query arguments are short enough for their terms. */
  predicate ShortQueryArgs(a: Arguments)
  {
    |a.erlangModule| < 0x8000_0000 && |a.mapFunction| < 0x8000_0000 && ShortWalkArgs(a)
  }

  /** erlang_interface.c:378-415. */
  function QueryBytes(a: Arguments): (r: seq<Byte>)
    requires ShortQueryArgs(a)
    ensures |r| == 79 + AtomLength(|a.erlangModule|) + AtomLength(|a.mapFunction|)
      + |a.serialTerminal| + |a.walkVersion| + |a.fileName| + |a.crcFile| + |a.posxml|
  {
    TupleHeaderBytes(2) + AtomBytes(QUERY) + ListHeaderBytes(1) + TupleHeaderBytes(4)
    + AtomBytes(MAP) + ModFunBytes(a.erlangModule, a.mapFunction) + WalkArgsBytes(a) + AtomBytes(TRUE)
    + ListHeaderBytes(0)
  }

  /** erlang_interface.c:417-422. */
  function TimeoutBytes(): (r: seq<Byte>)
    ensures |r| == 17
  {
    TupleHeaderBytes(2) + AtomBytes(TIMEOUT_ATOM) + LongBytes(TIMEOUT)
  }

  /** The fitting arguments are short enough for every term. */
  lemma FitsIsShort(a: Arguments)
    requires Fits(a)
    ensures |a.bucket| < TWO32 && |a.key| < TWO32 && ShortQueryArgs(a)
  {
    assert AtomLength(|a.erlangModule|) >= 0 && AtomLength(|a.mapFunction|) >= 0;
  }

  /** erlang_interface.c:357-425: the whole of `buf[..index]`. */
  function JobBytes(a: Arguments): (r: seq<Byte>)
    requires Fits(a)
    ensures |r| == RequestSize(a)
  {
    FitsIsShort(a);
    VersionBytes() + ListHeaderBytes(3) + InputsBytes(a.bucket, a.key) + QueryBytes(a) + TimeoutBytes()
    + ListHeaderBytes(0)
  }

  // ---------------------------------------------------------------------
  // The encodings of the shapes the job uses.

  lemma ElementsCons(x: Term, rest: seq<Term>)
    requires WellFormed(x) && AllWellFormed(rest)
    ensures AllWellFormed([x] + rest)
    ensures EncodeElements([x] + rest) == EncodeTerm(x) + EncodeElements(rest)
  {
    var es := [x] + rest;
    assert es[0] == x && es[1..] == rest;
  }

  lemma Elements1(x: Term)
    requires WellFormed(x)
    ensures AllWellFormed([x]) && EncodeElements([x]) == EncodeTerm(x)
  {
    ElementsCons(x, []);
    assert [x] + [] == [x];
    assert EncodeTerm(x) + [] == EncodeTerm(x);
  }

  lemma Elements2(x: Term, y: Term)
    requires WellFormed(x) && WellFormed(y)
    ensures AllWellFormed([x, y]) && EncodeElements([x, y]) == EncodeTerm(x) + EncodeTerm(y)
  {
    Elements1(y);
    ElementsCons(x, [y]);
    assert [x] + [y] == [x, y];
  }

  lemma Elements3(x: Term, y: Term, z: Term)
    requires WellFormed(x) && WellFormed(y) && WellFormed(z)
    ensures AllWellFormed([x, y, z])
    ensures EncodeElements([x, y, z]) == EncodeTerm(x) + (EncodeTerm(y) + EncodeTerm(z))
  {
    Elements2(y, z);
    ElementsCons(x, [y, z]);
    assert [x] + [y, z] == [x, y, z];
  }

  lemma Elements4(w: Term, x: Term, y: Term, z: Term)
    requires WellFormed(w) && WellFormed(x) && WellFormed(y) && WellFormed(z)
    ensures AllWellFormed([w, x, y, z])
    ensures EncodeElements([w, x, y, z]) == EncodeTerm(w) + (EncodeTerm(x) + (EncodeTerm(y) + EncodeTerm(z)))
  {
    Elements3(x, y, z);
    ElementsCons(w, [x, y, z]);
    assert [w] + [x, y, z] == [w, x, y, z];
  }

  lemma Elements5(v: Term, w: Term, x: Term, y: Term, z: Term)
    requires WellFormed(v) && WellFormed(w) && WellFormed(x) && WellFormed(y) && WellFormed(z)
    ensures AllWellFormed([v, w, x, y, z])
    ensures EncodeElements([v, w, x, y, z])
         == EncodeTerm(v) + (EncodeTerm(w) + (EncodeTerm(x) + (EncodeTerm(y) + EncodeTerm(z))))
  {
    Elements4(w, x, y, z);
    ElementsCons(v, [w, x, y, z]);
    assert [v] + [w, x, y, z] == [v, w, x, y, z];
  }

  /** A literal atom is written by ei_encode_atom unchanged. */
  lemma NameAtom(p: seq<Byte>)
    requires |p| <= MAXATOMLEN
    ensures WellFormed(Atom(p)) && EncodeTerm(Atom(p)) == AtomBytes(p)
  {
    AtomTruncation(p);
    assert p[..|p|] == p;
  }

  /** A string variable is written by ei_encode_atom as its cut name. */
  lemma CutAtom(p: seq<Byte>)
    requires |p| < 0x8000_0000
    ensures WellFormed(Atom(Cut(p))) && EncodeTerm(Atom(Cut(p))) == AtomBytes(p)
  {
    AtomTruncation(p);
  }

  // ---------------------------------------------------------------------
  // Regrouping concatenations, on plain byte strings.

  lemma Flat7(a: seq<Byte>, b: seq<Byte>, c: seq<Byte>, d: seq<Byte>, e: seq<Byte>, f: seq<Byte>, g: seq<Byte>)
    ensures a + (b + (c + ((d + (e + f)) + g))) == a + b + c + d + e + f + g
  {
  }

  lemma Flat4(a: seq<Byte>, b: seq<Byte>, c: seq<Byte>, d: seq<Byte>)
    ensures a + (b + (c + d)) == a + b + c + d
  {
  }

  lemma Flat7List(a: seq<Byte>, b: seq<Byte>, c: seq<Byte>, d: seq<Byte>, e: seq<Byte>, f: seq<Byte>, g: seq<Byte>)
    ensures a + (b + (c + (d + (e + f)))) + g == a + b + c + d + e + f + g
  {
  }

  // ---------------------------------------------------------------------
  // Each group writes the encoding of its term.

  lemma InputsEncoding(bucket: seq<Byte>, key: seq<Byte>)
    requires |bucket| < TWO32 && |key| < TWO32
    ensures WellFormed(InputsTerm(bucket, key))
    ensures EncodeTerm(InputsTerm(bucket, key)) == InputsBytes(bucket, key)
  {
    var pair := Tuple([Binary(bucket), Binary(key)]);
    NameAtom(INPUTS);
    Elements2(Binary(bucket), Binary(key));
    Elements1(pair);
    Elements2(Atom(INPUTS), List([pair]));
    Flat7(TupleHeaderBytes(2), AtomBytes(INPUTS), ListHeaderBytes(1), TupleHeaderBytes(2),
          BinaryBytes(bucket, |bucket|), BinaryBytes(key, |key|), ListHeaderBytes(0));
  }

  lemma ModFunEncoding(erlangModule: seq<Byte>, mapFunction: seq<Byte>)
    requires |erlangModule| < 0x8000_0000 && |mapFunction| < 0x8000_0000
    ensures WellFormed(ModFunTerm(erlangModule, mapFunction))
    ensures EncodeTerm(ModFunTerm(erlangModule, mapFunction)) == ModFunBytes(erlangModule, mapFunction)
  {
    NameAtom(MODFUN);
    CutAtom(erlangModule);
    CutAtom(mapFunction);
    Elements3(Atom(MODFUN), Atom(Cut(erlangModule)), Atom(Cut(mapFunction)));
    Flat4(TupleHeaderBytes(3), AtomBytes(MODFUN), AtomBytes(erlangModule), AtomBytes(mapFunction));
  }

  lemma WalkArgsEncoding(a: Arguments)
    requires ShortWalkArgs(a)
    ensures WellFormed(WalkArgsTerm(a)) && EncodeTerm(WalkArgsTerm(a)) == WalkArgsBytes(a)
  {
    Elements5(Binary(a.serialTerminal), Binary(a.walkVersion), Binary(a.fileName),
              Binary(a.crcFile), Binary(a.posxml));
    Flat7List(ListHeaderBytes(5), BinaryBytes(a.serialTerminal, |a.serialTerminal|),
              BinaryBytes(a.walkVersion, |a.walkVersion|), BinaryBytes(a.fileName, |a.fileName|),
              BinaryBytes(a.crcFile, |a.crcFile|), BinaryBytes(a.posxml, |a.posxml|), ListHeaderBytes(0));
  }

  lemma QueryEncoding(a: Arguments)
    requires ShortQueryArgs(a)
    ensures WellFormed(QueryTerm(a)) && EncodeTerm(QueryTerm(a)) == QueryBytes(a)
  {
    var modFun := ModFunTerm(a.erlangModule, a.mapFunction);
    var walkArgs := WalkArgsTerm(a);
    ModFunEncoding(a.erlangModule, a.mapFunction);
    WalkArgsEncoding(a);
    NameAtom(QUERY);
    NameAtom(MAP);
    NameAtom(TRUE);
    Elements4(Atom(MAP), modFun, walkArgs, Atom(TRUE));
    var phase := Tuple([Atom(MAP), modFun, walkArgs, Atom(TRUE)]);
    Elements1(phase);
    Elements2(Atom(QUERY), List([phase]));
    QueryAssemble(EncodeTerm(QueryTerm(a)), EncodeTerm(List([phase])), EncodeTerm(phase),
      EncodeTerm(modFun), EncodeTerm(walkArgs), ModFunBytes(a.erlangModule, a.mapFunction), WalkArgsBytes(a),
      TupleHeaderBytes(2), AtomBytes(QUERY), ListHeaderBytes(1), TupleHeaderBytes(4), AtomBytes(MAP),
      AtomBytes(TRUE), ListHeaderBytes(0));
  }

  /** The query group, regrouped. */
  lemma QueryAssemble(e: seq<Byte>, el: seq<Byte>, ep: seq<Byte>, em: seq<Byte>, ew: seq<Byte>,
                      mb: seq<Byte>, wb: seq<Byte>, t2: seq<Byte>, q: seq<Byte>, l1: seq<Byte>,
                      t4: seq<Byte>, m: seq<Byte>, t: seq<Byte>, l0: seq<Byte>)
    requires e == t2 + (q + el) && el == l1 + ep + l0 && ep == t4 + (m + (em + (ew + t)))
    requires em == mb && ew == wb
    ensures e == t2 + q + l1 + t4 + m + mb + wb + t + l0
  {
  }

  lemma TimeoutEncoding()
    ensures WellFormed(TimeoutTerm()) && EncodeTerm(TimeoutTerm()) == TimeoutBytes()
  {
    NameAtom(TIMEOUT_ATOM);
    LongIsClassified(TIMEOUT);
    Elements2(Atom(TIMEOUT_ATOM), ClassifyLong(TIMEOUT));
  }

  /** The calls of riak_mapreduce_request leave in `buf` the version byte
      followed by the encoding of the job term, RequestSize(a) bytes in
      all. */
  lemma JobEncoding(a: Arguments)
    requires Fits(a)
    ensures WellFormed(MapRedTerm(a))
    ensures JobBytes(a) == VersionBytes() + EncodeTerm(MapRedTerm(a))
  {
    FitsIsShort(a);
    var inputs := InputsTerm(a.bucket, a.key);
    InputsEncoding(a.bucket, a.key);
    QueryEncoding(a);
    TimeoutEncoding();
    Elements3(inputs, QueryTerm(a), TimeoutTerm());
    Assemble(VersionBytes(), ListHeaderBytes(3), InputsBytes(a.bucket, a.key), QueryBytes(a), TimeoutBytes(),
      ListHeaderBytes(0), EncodeTerm(MapRedTerm(a)), EncodeTerm(inputs), EncodeTerm(QueryTerm(a)),
      EncodeTerm(TimeoutTerm()));
  }

  /** The top-level list, regrouped. */
  lemma Assemble(ver: seq<Byte>, l3: seq<Byte>, ib: seq<Byte>, qb: seq<Byte>, tb: seq<Byte>, l0: seq<Byte>,
                 e: seq<Byte>, ei: seq<Byte>, eq: seq<Byte>, et: seq<Byte>)
    requires e == l3 + (ei + (eq + et)) + l0
    requires ei == ib && eq == qb && et == tb
    ensures ver + l3 + ib + qb + tb + l0 == ver + e
  {
  }

  // ---------------------------------------------------------------------
  // The calls, on `buf`. Each group method performs the calls of one group
  // from `index` on.

  /** Two consecutive writes compose into one: `w` from `pos`, then `x`
      from `at`, just after it. */
  lemma Extend(s0: seq<Byte>, pos: nat, w: seq<Byte>, cur: seq<Byte>, at: nat, x: seq<Byte>, next: seq<Byte>)
    requires at == pos + |w| && at + |x| <= |s0|
    requires cur == Splice(s0, pos, w)
    requires next == Splice(cur, at, x)
    ensures next == Splice(s0, pos, w + x)
  {
    SpliceAdjacent(s0, pos, w, x);
  }

  /** 3 consecutive writes compose into one. */
  lemma Writes3(b0: seq<Byte>, b1: seq<Byte>, b2: seq<Byte>, b3: seq<Byte>,
      p0: nat, p1: nat, p2: nat, p3: nat,
      x1: seq<Byte>, x2: seq<Byte>, x3: seq<Byte>)
    requires p1 == p0 + |x1| && p2 == p1 + |x2| && p3 == p2 + |x3|
    requires p3 <= |b0|
    requires b1 == Splice(b0, p0, x1)
    requires b2 == Splice(b1, p1, x2)
    requires b3 == Splice(b2, p2, x3)
    ensures b3 == Splice(b0, p0, x1 + x2 + x3)
  {
    Extend(b0, p0, x1, b1, p1, x2, b2);
    Extend(b0, p0, x1 + x2, b2, p2, x3, b3);
  }

  /** 4 consecutive writes compose into one. */
  lemma Writes4(b0: seq<Byte>, b1: seq<Byte>, b2: seq<Byte>, b3: seq<Byte>, b4: seq<Byte>,
      p0: nat, p1: nat, p2: nat, p3: nat, p4: nat,
      x1: seq<Byte>, x2: seq<Byte>, x3: seq<Byte>, x4: seq<Byte>)
    requires p1 == p0 + |x1| && p2 == p1 + |x2| && p3 == p2 + |x3| && p4 == p3 + |x4|
    requires p4 <= |b0|
    requires b1 == Splice(b0, p0, x1)
    requires b2 == Splice(b1, p1, x2)
    requires b3 == Splice(b2, p2, x3)
    requires b4 == Splice(b3, p3, x4)
    ensures b4 == Splice(b0, p0, x1 + x2 + x3 + x4)
  {
    Extend(b0, p0, x1, b1, p1, x2, b2);
    Extend(b0, p0, x1 + x2, b2, p2, x3, b3);
    Extend(b0, p0, x1 + x2 + x3, b3, p3, x4, b4);
  }

  /** 6 consecutive writes compose into one. */
  lemma Writes6(b0: seq<Byte>, b1: seq<Byte>, b2: seq<Byte>, b3: seq<Byte>, b4: seq<Byte>, b5: seq<Byte>, b6: seq<Byte>,
      p0: nat, p1: nat, p2: nat, p3: nat, p4: nat, p5: nat, p6: nat,
      x1: seq<Byte>, x2: seq<Byte>, x3: seq<Byte>, x4: seq<Byte>, x5: seq<Byte>, x6: seq<Byte>)
    requires p1 == p0 + |x1| && p2 == p1 + |x2| && p3 == p2 + |x3| && p4 == p3 + |x4| && p5 == p4 + |x5| && p6 == p5 + |x6|
    requires p6 <= |b0|
    requires b1 == Splice(b0, p0, x1)
    requires b2 == Splice(b1, p1, x2)
    requires b3 == Splice(b2, p2, x3)
    requires b4 == Splice(b3, p3, x4)
    requires b5 == Splice(b4, p4, x5)
    requires b6 == Splice(b5, p5, x6)
    ensures b6 == Splice(b0, p0, x1 + x2 + x3 + x4 + x5 + x6)
  {
    Extend(b0, p0, x1, b1, p1, x2, b2);
    Extend(b0, p0, x1 + x2, b2, p2, x3, b3);
    Extend(b0, p0, x1 + x2 + x3, b3, p3, x4, b4);
    Extend(b0, p0, x1 + x2 + x3 + x4, b4, p4, x5, b5);
    Extend(b0, p0, x1 + x2 + x3 + x4 + x5, b5, p5, x6, b6);
  }

  /** 7 consecutive writes compose into one. */
  lemma Writes7(b0: seq<Byte>, b1: seq<Byte>, b2: seq<Byte>, b3: seq<Byte>, b4: seq<Byte>, b5: seq<Byte>, b6: seq<Byte>, b7: seq<Byte>,
      p0: nat, p1: nat, p2: nat, p3: nat, p4: nat, p5: nat, p6: nat, p7: nat,
      x1: seq<Byte>, x2: seq<Byte>, x3: seq<Byte>, x4: seq<Byte>, x5: seq<Byte>, x6: seq<Byte>, x7: seq<Byte>)
    requires p1 == p0 + |x1| && p2 == p1 + |x2| && p3 == p2 + |x3| && p4 == p3 + |x4| && p5 == p4 + |x5| && p6 == p5 + |x6| && p7 == p6 + |x7|
    requires p7 <= |b0|
    requires b1 == Splice(b0, p0, x1)
    requires b2 == Splice(b1, p1, x2)
    requires b3 == Splice(b2, p2, x3)
    requires b4 == Splice(b3, p3, x4)
    requires b5 == Splice(b4, p4, x5)
    requires b6 == Splice(b5, p5, x6)
    requires b7 == Splice(b6, p6, x7)
    ensures b7 == Splice(b0, p0, x1 + x2 + x3 + x4 + x5 + x6 + x7)
  {
    Extend(b0, p0, x1, b1, p1, x2, b2);
    Extend(b0, p0, x1 + x2, b2, p2, x3, b3);
    Extend(b0, p0, x1 + x2 + x3, b3, p3, x4, b4);
    Extend(b0, p0, x1 + x2 + x3 + x4, b4, p4, x5, b5);
    Extend(b0, p0, x1 + x2 + x3 + x4 + x5, b5, p5, x6, b6);
    Extend(b0, p0, x1 + x2 + x3 + x4 + x5 + x6, b6, p6, x7, b7);
  }

  /** 9 consecutive writes compose into one. */
  lemma Writes9(b0: seq<Byte>, b1: seq<Byte>, b2: seq<Byte>, b3: seq<Byte>, b4: seq<Byte>, b5: seq<Byte>, b6: seq<Byte>, b7: seq<Byte>, b8: seq<Byte>, b9: seq<Byte>,
      p0: nat, p1: nat, p2: nat, p3: nat, p4: nat, p5: nat, p6: nat, p7: nat, p8: nat, p9: nat,
      x1: seq<Byte>, x2: seq<Byte>, x3: seq<Byte>, x4: seq<Byte>, x5: seq<Byte>, x6: seq<Byte>, x7: seq<Byte>, x8: seq<Byte>, x9: seq<Byte>)
    requires p1 == p0 + |x1| && p2 == p1 + |x2| && p3 == p2 + |x3| && p4 == p3 + |x4| && p5 == p4 + |x5| && p6 == p5 + |x6| && p7 == p6 + |x7| && p8 == p7 + |x8| && p9 == p8 + |x9|
    requires p9 <= |b0|
    requires b1 == Splice(b0, p0, x1)
    requires b2 == Splice(b1, p1, x2)
    requires b3 == Splice(b2, p2, x3)
    requires b4 == Splice(b3, p3, x4)
    requires b5 == Splice(b4, p4, x5)
    requires b6 == Splice(b5, p5, x6)
    requires b7 == Splice(b6, p6, x7)
    requires b8 == Splice(b7, p7, x8)
    requires b9 == Splice(b8, p8, x9)
    ensures b9 == Splice(b0, p0, x1 + x2 + x3 + x4 + x5 + x6 + x7 + x8 + x9)
  {
    Extend(b0, p0, x1, b1, p1, x2, b2);
    Extend(b0, p0, x1 + x2, b2, p2, x3, b3);
    Extend(b0, p0, x1 + x2 + x3, b3, p3, x4, b4);
    Extend(b0, p0, x1 + x2 + x3 + x4, b4, p4, x5, b5);
    Extend(b0, p0, x1 + x2 + x3 + x4 + x5, b5, p5, x6, b6);
    Extend(b0, p0, x1 + x2 + x3 + x4 + x5 + x6, b6, p6, x7, b7);
    Extend(b0, p0, x1 + x2 + x3 + x4 + x5 + x6 + x7, b7, p7, x8, b8);
    Extend(b0, p0, x1 + x2 + x3 + x4 + x5 + x6 + x7 + x8, b8, p8, x9, b9);
  }

  /** erlang_interface.c:363-376: `{inputs, [{Bucket, Key}]}`. */
  method EncodeInputs(buf: array<Byte>, index: nat, bucket: seq<Byte>, key: seq<Byte>) returns (next: int)
    requires |bucket| < TWO32 && |key| < TWO32
    requires index + 29 + |bucket| + |key| <= buf.Length
    modifies buf
    ensures next == index + |InputsBytes(bucket, key)|
    ensures buf[..] == Splice(old(buf[..]), index, InputsBytes(bucket, key))
  {
    ghost var b0 := buf[..];
    var rc;
    rc, next := EncodeTupleHeader(buf, index, 2);
    ghost var b1, p1 := buf[..], next;
    rc, next := EncodeAtom(buf, next, INPUTS);
    ghost var b2, p2 := buf[..], next;
    rc, next := EncodeListHeader(buf, next, 1);
    ghost var b3, p3 := buf[..], next;
    rc, next := EncodeTupleHeader(buf, next, 2);
    ghost var b4, p4 := buf[..], next;
    rc, next := EncodeBinary(buf, next, bucket, |bucket|);
    ghost var b5, p5 := buf[..], next;
    rc, next := EncodeBinary(buf, next, key, |key|);
    ghost var b6, p6 := buf[..], next;
    rc, next := EncodeListHeader(buf, next, 0);
    Writes7(b0, b1, b2, b3, b4, b5, b6, buf[..], index, p1, p2, p3, p4, p5, p6, next, TupleHeaderBytes(2), AtomBytes(INPUTS),
      ListHeaderBytes(1), TupleHeaderBytes(2), BinaryBytes(bucket, |bucket|), BinaryBytes(key, |key|),
      ListHeaderBytes(0));
  }

  /** erlang_interface.c:388-395: `{modfun, Module, Function}`. */
  method EncodeModFun(buf: array<Byte>, index: nat, erlangModule: seq<Byte>, mapFunction: seq<Byte>)
    returns (next: int)
    requires |erlangModule| < 0x8000_0000 && |mapFunction| < 0x8000_0000
    requires index + |ModFunBytes(erlangModule, mapFunction)| <= buf.Length
    modifies buf
    ensures next == index + |ModFunBytes(erlangModule, mapFunction)|
    ensures buf[..] == Splice(old(buf[..]), index, ModFunBytes(erlangModule, mapFunction))
  {
    ghost var b0 := buf[..];
    var rc;
    rc, next := EncodeTupleHeader(buf, index, 3);
    ghost var b1, p1 := buf[..], next;
    rc, next := EncodeAtom(buf, next, MODFUN);
    ghost var b2, p2 := buf[..], next;
    rc, next := EncodeAtom(buf, next, erlangModule);
    ghost var b3, p3 := buf[..], next;
    rc, next := EncodeAtom(buf, next, mapFunction);
    Writes4(b0, b1, b2, b3, buf[..], index, p1, p2, p3, next, TupleHeaderBytes(3), AtomBytes(MODFUN),
      AtomBytes(erlangModule), AtomBytes(mapFunction));
  }

  /** erlang_interface.c:397-410: `[Serial, Version, File, Crc, Posxml]`. */
  method EncodeWalkArgs(buf: array<Byte>, index: nat, a: Arguments) returns (next: int)
    requires ShortWalkArgs(a)
    requires index + |WalkArgsBytes(a)| <= buf.Length
    modifies buf
    ensures next == index + |WalkArgsBytes(a)|
    ensures buf[..] == Splice(old(buf[..]), index, WalkArgsBytes(a))
  {
    ghost var b0 := buf[..];
    var rc;
    rc, next := EncodeListHeader(buf, index, 5);
    ghost var b1, p1 := buf[..], next;
    rc, next := EncodeBinary(buf, next, a.serialTerminal, |a.serialTerminal|);
    ghost var b2, p2 := buf[..], next;
    rc, next := EncodeBinary(buf, next, a.walkVersion, |a.walkVersion|);
    ghost var b3, p3 := buf[..], next;
    rc, next := EncodeBinary(buf, next, a.fileName, |a.fileName|);
    ghost var b4, p4 := buf[..], next;
    rc, next := EncodeBinary(buf, next, a.crcFile, |a.crcFile|);
    ghost var b5, p5 := buf[..], next;
    rc, next := EncodeBinary(buf, next, a.posxml, |a.posxml|);
    ghost var b6, p6 := buf[..], next;
    rc, next := EncodeListHeader(buf, next, 0);
    Writes7(b0, b1, b2, b3, b4, b5, b6, buf[..], index, p1, p2, p3, p4, p5, p6, next, ListHeaderBytes(5),
      BinaryBytes(a.serialTerminal, |a.serialTerminal|), BinaryBytes(a.walkVersion, |a.walkVersion|),
      BinaryBytes(a.fileName, |a.fileName|), BinaryBytes(a.crcFile, |a.crcFile|),
      BinaryBytes(a.posxml, |a.posxml|), ListHeaderBytes(0));
  }

  /** erlang_interface.c:378-415: `{query, [{map, ModFun, WalkArgs, true}]}`. */
  method EncodeQuery(buf: array<Byte>, index: nat, a: Arguments) returns (next: int)
    requires ShortQueryArgs(a)
    requires index + |QueryBytes(a)| <= buf.Length
    modifies buf
    ensures next == index + |QueryBytes(a)|
    ensures buf[..] == Splice(old(buf[..]), index, QueryBytes(a))
  {
    ghost var b0 := buf[..];
    var rc;
    rc, next := EncodeTupleHeader(buf, index, 2);
    ghost var b1, p1 := buf[..], next;
    rc, next := EncodeAtom(buf, next, QUERY);
    ghost var b2, p2 := buf[..], next;
    rc, next := EncodeListHeader(buf, next, 1);
    ghost var b3, p3 := buf[..], next;
    rc, next := EncodeTupleHeader(buf, next, 4);
    ghost var b4, p4 := buf[..], next;
    rc, next := EncodeAtom(buf, next, MAP);
    ghost var b5, p5 := buf[..], next;
    next := EncodeModFun(buf, next, a.erlangModule, a.mapFunction);
    ghost var b6, p6 := buf[..], next;
    next := EncodeWalkArgs(buf, next, a);
    ghost var b7, p7 := buf[..], next;
    rc, next := EncodeAtom(buf, next, TRUE);
    ghost var b8, p8 := buf[..], next;
    rc, next := EncodeListHeader(buf, next, 0);
    Writes9(b0, b1, b2, b3, b4, b5, b6, b7, b8, buf[..], index, p1, p2, p3, p4, p5, p6, p7, p8, next, TupleHeaderBytes(2), AtomBytes(QUERY),
      ListHeaderBytes(1), TupleHeaderBytes(4), AtomBytes(MAP), ModFunBytes(a.erlangModule, a.mapFunction),
      WalkArgsBytes(a), AtomBytes(TRUE), ListHeaderBytes(0));
  }

  /** erlang_interface.c:417-422: `{timeout, 5000}`. */
  method EncodeTimeout(buf: array<Byte>, index: nat) returns (next: int)
    requires index + |TimeoutBytes()| <= buf.Length
    modifies buf
    ensures next == index + |TimeoutBytes()|
    ensures buf[..] == Splice(old(buf[..]), index, TimeoutBytes())
  {
    ghost var b0 := buf[..];
    var rc;
    rc, next := EncodeTupleHeader(buf, index, 2);
    ghost var b1, p1 := buf[..], next;
    rc, next := EncodeAtom(buf, next, TIMEOUT_ATOM);
    ghost var b2, p2 := buf[..], next;
    rc, next := EncodeLong(buf, next, TIMEOUT);
    Writes3(b0, b1, b2, buf[..], index, p1, p2, next, TupleHeaderBytes(2), AtomBytes(TIMEOUT_ATOM), LongBytes(TIMEOUT));
  }

  /** erlang_interface.c:357-425: the encoder calls from `index = 0`.
      They end with `index` at RequestSize(a), `buf` holding the version
      byte and the encoding of the job term before it and the rest of
      `buf` as it was (zeros, as `BuildRequest` allocates it). */
  method EncodeMapReduce(buf: array<Byte>, a: Arguments) returns (index: int)
    requires Fits(a) && buf.Length == BUF_SIZE
    modifies buf
    ensures index == RequestSize(a)
    ensures buf[..] == Splice(old(buf[..]), 0, JobBytes(a))
  {
    FitsIsShort(a);
    ghost var b0 := buf[..];
    var rc;
    rc, index := EncodeVersion(buf, 0);
    ghost var b1, p1 := buf[..], index;
    rc, index := EncodeListHeader(buf, index, 3);
    ghost var b2, p2 := buf[..], index;
    index := EncodeInputs(buf, index, a.bucket, a.key);
    ghost var b3, p3 := buf[..], index;
    index := EncodeQuery(buf, index, a);
    ghost var b4, p4 := buf[..], index;
    index := EncodeTimeout(buf, index);
    ghost var b5, p5 := buf[..], index;
    rc, index := EncodeListHeader(buf, index, 0);
    Writes6(b0, b1, b2, b3, b4, b5, buf[..], 0, p1, p2, p3, p4, p5, index, VersionBytes(), ListHeaderBytes(3),
      InputsBytes(a.bucket, a.key), QueryBytes(a), TimeoutBytes(), ListHeaderBytes(0));
  }
}
