/** The reply side of riak_mapreduce_request (erlang_interface.c:436-523):
    the socket and the destination file as oracles, the fixed-offset check
    of the first chunk, and the loop that streams the rest of the declared
    payload into the file or into the caller's memory. */
module Response {
  import opened ByteLayout
  import opened Wrappers

  /** sizeof(packet_recv), also the largest block the loop asks for. */
  const RECV_SIZE: nat := 1024
  /** The bytes of the first chunk in front of the payload. */
  const HEADER_SIZE: nat := 22

  /** What riak_mapreduce_request ends with: a return value, or the process
      ending in error() (a negative count from write() or read()). */
  datatype Outcome = Return(code: int) | Exit

  // ---------------------------------------------------------------------
  // The transport: what successive read() calls on the socket deliver.

  /** One delivery of the peer: some bytes (an empty one is a read that
      returns 0) or a failed read (a negative count). */
  datatype ReadResult = Data(bytes: seq<Byte>) | Failure

  type Transport = seq<ReadResult>

  /** The count read() returns, the bytes it stores, what stays unread. */
  datatype Step = Step(count: int, got: seq<Byte>, rest: Transport)

  /** read(fd, buf, max): a failure gives -1, a transport with nothing
      left (the peer closed) gives 0, and a delivery longer than `max`
      leaves its tail for the next read. */
  function ReadStep(t: Transport, max: nat): (s: Step)
    ensures |s.got| <= max
    ensures s.count == (if t != [] && t[0].Failure? then -1 else |s.got|)
  {
    if t == [] then Step(0, [], [])
    else match t[0]
      case Failure => Step(-1, [], t[1..])
      case Data(c) =>
        if |c| <= max then Step(|c|, c, t[1..])
        else Step(max, c[..max], [Data(c[max..])] + t[1..])
  }

  /** The byte stream the transport carries up to its first failure or
      empty delivery. */
  function Available(t: Transport): seq<Byte>
  {
    if t == [] || t[0].Failure? || t[0].bytes == [] then []
    else t[0].bytes + Available(t[1..])
  }

  /** A read that returns bytes returns the next bytes of the stream, as
      many as asked for when the delivery has them, and the stream goes on
      after them. */
  lemma ReadStepAvailable(t: Transport, max: nat)
    requires ReadStep(t, max).count > 0
    ensures var s := ReadStep(t, max);
      s.got == Available(t)[..|s.got|] && Available(s.rest) == Available(t)[|s.got|..] &&
      (|s.got| == max || |s.got| == |t[0].bytes|)
  {
    var c := t[0].bytes;
    assert Available(t) == c + Available(t[1..]);
    if |c| > max {
      ReadPart(c, max, t[1..]);
    } else {
      assert (c + Available(t[1..]))[..|c|] == c;
    }
  }

  /** A delivery longer than the read: its tail is read next. */
  lemma ReadPart(c: seq<Byte>, max: nat, t: Transport)
    requires 0 < max < |c|
    ensures Available([Data(c[max..])] + t) == (c + Available(t))[max..]
    ensures c[..max] == (c + Available(t))[..max]
  {
    var rest := [Data(c[max..])] + t;
    assert rest[1..] == t;
    assert Available(rest) == c[max..] + Available(t);
  }

  // ---------------------------------------------------------------------
  // The receive loop of erlang_interface.c:492-518 on values.

  /** What the loop ends with: the declared size reached, a read that
      returned 0 (the function returns -1), or a failed read (error()). */
  datatype StreamEnd = Complete | Closed | Failed

  /** The blocks the loop receives, in order, how it ends, and what it
      leaves unread. */
  datatype Drained = Drained(blocks: seq<seq<Byte>>, end: StreamEnd, rest: Transport)

  /** size_block: min(size_to_receive, 1024). */
  function BlockSize(remaining: int): (n: nat)
    requires remaining > 0
    ensures 0 < n <= RECV_SIZE && n <= remaining
    ensures n == RECV_SIZE || n == remaining
  {
    if remaining > RECV_SIZE then RECV_SIZE else remaining
  }

  /** The loop from `size_to_receive == remaining` on transport `t`. */
  function Drain(remaining: int, t: Transport): (d: Drained)
    ensures remaining <= 0 ==> d == Drained([], Complete, t)
    decreases if remaining > 0 then remaining else 0
  {
    if remaining <= 0 then Drained([], Complete, t)
    else
      var s := ReadStep(t, BlockSize(remaining));
      if s.count < 0 then Drained([], Failed, s.rest)
      else if s.count == 0 then Drained([], Closed, s.rest)
      else
        var d := Drain(remaining - s.count, s.rest);
        assert ([s.got] + d.blocks)[1..] == d.blocks;
        Drained([s.got] + d.blocks, d.end, d.rest)
  }

  /** The blocks one after the other. */
  function Flatten(bs: seq<seq<Byte>>): seq<Byte>
  {
    if bs == [] then [] else bs[0] + Flatten(bs[1..])
  }

  lemma {:induction false} FlattenAppend(bs: seq<seq<Byte>>, b: seq<Byte>)
    ensures Flatten(bs + [b]) == Flatten(bs) + b
  {
    if bs != [] {
      assert (bs + [b])[1..] == bs[1..] + [b];
      FlattenAppend(bs[1..], b);
    }
  }

  /** All but the last byte. */
  function Trim(s: seq<Byte>): (r: seq<Byte>)
    ensures |r| == if s == [] then 0 else |s| - 1
  {
    if s == [] then [] else s[..|s| - 1]
  }

  /** What the loop passes to fwrite: every block whole, except that the
      block that brings size_to_receive to 0 loses its last byte. */
  function LoopFileBytes(d: Drained): seq<Byte>
  {
    if d.end == Complete then Trim(Flatten(d.blocks)) else Flatten(d.blocks)
  }

  /** size_to_receive stays positive until the loop ends, so every block
      is non-empty and no larger than the block asked for; the loop
      completes exactly when the blocks add up to the declared size, and
      otherwise it stops short of it. */
  lemma {:induction false} DrainAccounting(remaining: int, t: Transport)
    ensures var d := Drain(remaining, t);
      (forall k | 0 <= k < |d.blocks| :: 0 < |d.blocks[k]| <= RECV_SIZE) &&
      (remaining <= 0 ==> d.blocks == [] && d.end == Complete && d.rest == t) &&
      (remaining > 0 && d.end == Complete ==> |Flatten(d.blocks)| == remaining) &&
      (d.end != Complete ==> |Flatten(d.blocks)| < remaining)
    decreases if remaining > 0 then remaining else 0
  {
    if remaining > 0 {
      var s := ReadStep(t, BlockSize(remaining));
      if s.count > 0 {
        DrainAccounting(remaining - s.count, s.rest);
        var d := Drain(remaining - s.count, s.rest);
        assert Drain(remaining, t).blocks == [s.got] + d.blocks;
        assert ([s.got] + d.blocks)[1..] == d.blocks;
      }
    }
  }

  /** However the peer splits its bytes into deliveries, the loop receives
      the first `remaining` bytes of the stream, and completes exactly when
      the stream holds that many. */
  lemma {:induction false} DrainIsChunkingIndependent(remaining: int, t: Transport)
    requires remaining > 0
    ensures var d := Drain(remaining, t);
      (d.end == Complete <==> |Available(t)| >= remaining) &&
      Flatten(d.blocks) == Available(t)[..if |Available(t)| < remaining then |Available(t)| else remaining]
    decreases remaining
  {
    var s := ReadStep(t, BlockSize(remaining));
    if s.count > 0 {
      ReadStepAvailable(t, BlockSize(remaining));
      var d := Drain(remaining - s.count, s.rest);
      assert ([s.got] + d.blocks)[1..] == d.blocks;
      if remaining - s.count > 0 {
        DrainIsChunkingIndependent(remaining - s.count, s.rest);
      } else {
        assert d.blocks == [];
      }
    }
  }

  /** In the file the loop leaves out the last byte exactly when it
      completes, so a completed positive size reaches the file as one byte
      fewer, and an interrupted stream reaches it whole. */
  lemma LoopFileLength(remaining: int, t: Transport)
    ensures var d := Drain(remaining, t);
      (d.end == Complete && remaining > 0 ==>
        |LoopFileBytes(d)| == remaining - 1 && LoopFileBytes(d) == Flatten(d.blocks)[..remaining - 1]) &&
      (d.end != Complete ==> LoopFileBytes(d) == Flatten(d.blocks))
  {
    DrainAccounting(remaining, t);
  }

  lemma TrimAppend(a: seq<Byte>, b: seq<Byte>)
    requires b != []
    ensures Trim(a + b) == a + b[..|b| - 1]
  {
    assert (a + b)[..|a + b| - 1] == a + b[..|b| - 1];
  }

  // ---------------------------------------------------------------------
  // The header check of erlang_interface.c:453-464 and the macros of
  // erlang_interface.c:284-285.

  function Zeros(n: nat): (z: seq<Byte>)
    ensures |z| == n && forall i | 0 <= i < n :: z[i] == 0
  {
    seq(n, _ => 0)
  }

  /** packet_recv after the memset and the first read of `c`. */
  function Padded(c: seq<Byte>): (p: seq<Byte>)
    requires |c| <= RECV_SIZE
    ensures |p| == RECV_SIZE
  {
    Splice(Zeros(RECV_SIZE), 0, c)
  }

  /** Bytes 9, 10 and 14 hold the version magic, the list tag and 2. */
  predicate MarkersOk(p: seq<Byte>)
    requires |p| == RECV_SIZE
  {
    p[9] == ERL_VERSION_MAGIC && p[10] == ERL_LIST_EXT && p[14] == 0x02
  }

  /** A `char` read as an `int`, `char` being signed. */
  function SignedChar(b: Byte): (v: int)
    ensures -0x80 <= v < 0x80 && v % 0x100 == b
  {
    if b < 0x80 then b else b - 0x100
  }

  /** MAKEWORD(a, b): the low byte of `a` below the low byte of `b`. */
  function MakeWord(a: int, b: int): (w: nat)
    ensures w < 0x1_0000 && w % 0x100 == a % 0x100 && w / 0x100 == b % 0x100
  {
    a % 0x100 + (b % 0x100) * 0x100
  }

  /** MAKELONG(low, high), with the `(int)` conversion of the unsigned
      value done as on a two's-complement target. */
  function MakeLong(low: int, high: int): (v: Int32)
    ensures v % TWO32 == low % 0x1_0000 + (high % 0x1_0000) * 0x1_0000
  {
    Int32Of(low % 0x1_0000 + (high % 0x1_0000) * 0x1_0000)
  }

  /** size_to_receive as first computed from packet_recv[18..21]. */
  function DeclaredLength(p: seq<Byte>): Int32
    requires |p| == RECV_SIZE
  {
    MakeLong(MakeWord(SignedChar(p[21]), SignedChar(p[20])), MakeWord(SignedChar(p[19]), SignedChar(p[18])))
  }

  /** The macros read bytes 18 to 21 big-endian: the declared length is the
      big-endian value of those bytes, read as a signed 32-bit number. */
  lemma DeclaredLengthIsBigEndian(p: seq<Byte>)
    requires |p| == RECV_SIZE
    ensures DeclaredLength(p) == Int32Of(Be32Value(p[18..22]))
    ensures p[18] < 0x80 ==> DeclaredLength(p) == Be32Value(p[18..22])
  {
    assert p[18..22] == [p[18], p[19], p[20], p[21]];
    MakeLongBigEndian(p[18], p[19], p[20], p[21]);
  }

  lemma MakeLongBigEndian(b0: Byte, b1: Byte, b2: Byte, b3: Byte)
    ensures MakeLong(MakeWord(SignedChar(b3), SignedChar(b2)), MakeWord(SignedChar(b1), SignedChar(b0)))
      == Int32Of(Be32Value([b0, b1, b2, b3]))
    ensures b0 < 0x80 ==> Be32Value([b0, b1, b2, b3]) < 0x8000_0000
  {
    var lo := MakeWord(SignedChar(b3), SignedChar(b2));
    var hi := MakeWord(SignedChar(b1), SignedChar(b0));
    assert lo == b3 as int + b2 as int * 0x100;
    assert hi == b1 as int + b0 as int * 0x100;
    assert lo % 0x1_0000 == lo && hi % 0x1_0000 == hi;
    var u: int := lo + hi * 0x1_0000;
    assert u == Be32Value([b0, b1, b2, b3]);
  }

  // ---------------------------------------------------------------------
  // The whole reply on values.

  /** What riak_mapreduce_request leaves behind after sending: its result,
      `*ret_code` (None when not assigned), the destination file and
      whether the function skipped its own fclose of it, the `response` memory, the unread
      transport. */
  datatype Reply = Reply(outcome: Outcome, retCode: Option<int>, fileBytes: seq<Byte>, fileOpen: bool,
                         memory: seq<Byte>, rest: Transport)

  /** The first read of erlang_interface.c:445, of up to sizeof(packet_recv). */
  function FirstRead(t: Transport): Step
  {
    ReadStep(t, RECV_SIZE)
  }

  /** The first read returned bytes and they pass the marker check. */
  predicate Accepted(t: Transport)
  {
    var s := FirstRead(t);
    s.count > 0 && MarkersOk(Padded(s.got))
  }

  /** ret_size: the length declared in an accepted first chunk. */
  function DeclaredSize(t: Transport): Int32
    requires Accepted(t)
  {
    DeclaredLength(Padded(FirstRead(t).got))
  }

  /** `recvd` after `recvd -= 22 + 1`: the payload the code counts in the
      first chunk, the header and the list terminator taken off. */
  function FirstPayload(t: Transport): int
    requires Accepted(t)
  {
    |FirstRead(t).got| - (HEADER_SIZE + 1)
  }

  /** size_to_receive when the loop starts. */
  function Remaining(t: Transport): int
    requires Accepted(t)
  {
    DeclaredSize(t) - FirstPayload(t)
  }

  /** The loop on what the first read leaves unread. */
  function Loop(t: Transport): Drained
    requires Accepted(t)
  {
    Drain(Remaining(t), FirstRead(t).rest)
  }

  /** The buffers the code relies on without checking: an accepted first
      chunk holds the header and the terminator, and in memory mode
      `response` holds the first chunk's payload and the rest of the
      declared size. */
  predicate WellSized(t: Transport, toFile: bool, memoryLength: nat)
  {
    Accepted(t) ==>
      FirstPayload(t) >= 0 &&
      (!toFile ==> FirstPayload(t) <= memoryLength && Remaining(t) <= memoryLength)
  }

  /** erlang_interface.c:444-523 from the first read on, with the file (if
      `toFile`) initially closed and holding `file0`, whether fopen
      succeeds, and `memory0` in `response`. */
  function Respond(t: Transport, toFile: bool, openable: bool, file0: seq<Byte>, memory0: seq<Byte>): Reply
    requires WellSized(t, toFile, |memory0|)
  {
    var s := FirstRead(t);
    if s.count < 0 then Reply(Exit, None, file0, false, memory0, s.rest)
    else if s.count == 0 then Reply(Return(-1), None, file0, false, memory0, s.rest)
    else if !MarkersOk(Padded(s.got)) then Reply(Return(-2), None, file0, false, memory0, s.rest)
    else if toFile then FileReply(t, openable, file0, memory0)
    else MemoryReply(t, file0, memory0)
  }

  /** `*ret_code`: byte 16 of an accepted first chunk, as a signed char. */
  function ReturnCode(t: Transport): int
    requires Accepted(t)
  {
    SignedChar(Padded(FirstRead(t).got)[16])
  }

  /** The result once the loop has ended: ret_size when it completed, -1
      when the peer closed the connection, error() when a read failed. */
  function Finish(end: StreamEnd, size: int): Outcome
  {
    match end
    case Complete => Return(size)
    case Closed => Return(-1)
    case Failed => Exit
  }

  /** The reply past the checks when save_to_file is given: -3 when fopen
      fails for a positive size; otherwise the file, opened only for a
      positive size, gets the first chunk's payload without its last byte
      (and without one more when that chunk completes the size), then the
      loop's bytes. */
  function FileReply(t: Transport, openable: bool, file0: seq<Byte>, memory0: seq<Byte>): Reply
    requires Accepted(t) && FirstPayload(t) >= 0
  {
    var s := FirstRead(t);
    var size := DeclaredSize(t);
    if size > 0 && !openable then Reply(Return(-3), Some(ReturnCode(t)), file0, false, memory0, s.rest)
    else
      var d := Loop(t);
      if size > 0 then
        var first := if Remaining(t) <= 0 then s.got[HEADER_SIZE..|s.got| - 2]
                     else s.got[HEADER_SIZE..|s.got| - 1];
        Reply(Finish(d.end, size), Some(ReturnCode(t)), first + LoopFileBytes(d), d.end == Failed, memory0, d.rest)
      else Reply(Finish(d.end, size), Some(ReturnCode(t)), file0, false, memory0, d.rest)
  }

  /** The reply past the checks when save_to_file is NULL: the first
      chunk's payload is copied to the start of `response`, then the
      loop's blocks are copied over it from offset 0 again. */
  function MemoryReply(t: Transport, file0: seq<Byte>, memory0: seq<Byte>): Reply
    requires Accepted(t) && WellSized(t, false, |memory0|)
  {
    var s := FirstRead(t);
    var d := Loop(t);
    DrainAccounting(Remaining(t), s.rest);
    var m := Splice(memory0, 0, s.got[HEADER_SIZE..|s.got| - 1]);
    Reply(Finish(d.end, DeclaredSize(t)), Some(ReturnCode(t)), file0, false, Splice(m, 0, Flatten(d.blocks)), d.rest)
  }

  // ---------------------------------------------------------------------
  // What the reply means.

  /** The first chunk's own bytes lie at the start of packet_recv. */
  lemma PaddedPrefix(c: seq<Byte>)
    requires |c| <= RECV_SIZE
    ensures Padded(c)[..|c|] == c
    ensures forall i | |c| <= i < RECV_SIZE :: Padded(c)[i] == 0
  {
    SpliceIndex(Zeros(RECV_SIZE), 0, c);
  }

  /** The results before the loop: error() on a failed first read, -1 when
      it returns 0, -2 when the markers do not match, and -3 when the file
      cannot be opened for a positive size; `*ret_code` is assigned exactly
      when the markers match, with byte 16 read as a signed char, and
      nothing else changes before that. */
  lemma RespondEarlyOutcomes(t: Transport, toFile: bool, openable: bool, file0: seq<Byte>, memory0: seq<Byte>)
    requires WellSized(t, toFile, |memory0|)
    ensures var r := Respond(t, toFile, openable, file0, memory0);
      var s := FirstRead(t);
      (s.count < 0 ==> r.outcome == Exit) &&
      (s.count == 0 ==> r.outcome == Return(-1)) &&
      (s.count > 0 && !MarkersOk(Padded(s.got)) ==> r.outcome == Return(-2)) &&
      (!Accepted(t) ==> r.retCode == None && r.fileBytes == file0 && !r.fileOpen && r.memory == memory0 &&
                        r.rest == s.rest) &&
      (Accepted(t) ==> r.retCode == Some(SignedChar(s.got[16])) && -0x80 <= r.retCode.value < 0x80) &&
      (Accepted(t) && toFile && DeclaredSize(t) > 0 && !openable ==>
        r.outcome == Return(-3) && r.fileBytes == file0 && !r.fileOpen && r.memory == memory0 &&
        r.rest == s.rest)
  {
    var s := FirstRead(t);
    if Accepted(t) {
      PaddedPrefix(s.got);
      assert Padded(s.got)[16] == s.got[16];
    }
  }

  /** A first chunk too short to reach byte 14 is rejected: the zeros the
      memset left there are not the marker. */
  lemma ShortFirstChunkRejected(t: Transport, toFile: bool, openable: bool, file0: seq<Byte>, memory0: seq<Byte>)
    requires WellSized(t, toFile, |memory0|)
    requires 0 < FirstRead(t).count <= 14
    ensures Respond(t, toFile, openable, file0, memory0).outcome == Return(-2)
  {
    PaddedPrefix(FirstRead(t).got);
  }

  /** Past the checks, the declared size is bytes 18-21 read big-endian as
      a signed 32-bit number; the call returns it when the stream holds the
      rest of it, however the peer splits it, and otherwise it returns -1
      or ends in error(). */
  lemma RespondReturnsDeclaredSize(t: Transport, toFile: bool, openable: bool, file0: seq<Byte>, memory0: seq<Byte>)
    requires WellSized(t, toFile, |memory0|) && Accepted(t)
    requires !(toFile && DeclaredSize(t) > 0 && !openable)
    ensures var r := Respond(t, toFile, openable, file0, memory0);
      var s := FirstRead(t);
      DeclaredSize(t) == Int32Of(Be32Value(s.got[18..22])) &&
      (Remaining(t) <= |Available(s.rest)| ==> r.outcome == Return(DeclaredSize(t))) &&
      (Remaining(t) > |Available(s.rest)| ==> r.outcome == Return(-1) || r.outcome == Exit)
  {
    var s := FirstRead(t);
    PaddedPrefix(s.got);
    var p := Padded(s.got);
    DeclaredLengthIsBigEndian(p);
    assert p[18..22] == s.got[18..22];
    if Remaining(t) > 0 {
      DrainIsChunkingIndependent(Remaining(t), s.rest);
    }
  }

  /** Every return closes the file with the function's own fclose; that
      fclose is skipped exactly when the file was opened and error() ends
      the process during the loop, the exit then closing the file. */
  lemma RespondClosesFile(t: Transport, toFile: bool, openable: bool, file0: seq<Byte>, memory0: seq<Byte>)
    requires WellSized(t, toFile, |memory0|)
    ensures var r := Respond(t, toFile, openable, file0, memory0);
      r.fileOpen <==> toFile && Accepted(t) && DeclaredSize(t) > 0 && openable && r.outcome == Exit
  {
  }

  /** In file mode the file receives one byte fewer than the declared size
      whenever the stream completes without the first chunk overrunning it:
      the first chunk loses the byte before its end, or its last payload
      byte when it holds the whole payload. */
  lemma FileGetsOneByteLess(t: Transport, openable: bool, file0: seq<Byte>, memory0: seq<Byte>)
    requires WellSized(t, true, |memory0|) && Accepted(t)
    requires DeclaredSize(t) > 0 && Remaining(t) >= 0
    ensures var r := Respond(t, true, openable, file0, memory0);
      r.outcome == Return(DeclaredSize(t)) ==> |r.fileBytes| == DeclaredSize(t) - 1
  {
    LoopFileLength(Remaining(t), FirstRead(t).rest);
  }

  /** When more than the first chunk is needed, the byte missing from the
      file is the last one of the first chunk: the file holds the received
      payload with the byte at that offset left out. */
  lemma FileMissesFirstChunkEnd(t: Transport, openable: bool, file0: seq<Byte>, memory0: seq<Byte>)
    requires WellSized(t, true, |memory0|) && Accepted(t)
    requires Remaining(t) > 0 && openable
    ensures var r := Respond(t, true, openable, file0, memory0);
      var s := FirstRead(t);
      var received := s.got[HEADER_SIZE..] + Trim(Flatten(Loop(t).blocks));
      var k := FirstPayload(t);
      r.outcome == Return(DeclaredSize(t)) ==>
        r.fileBytes == received[..k] + received[k + 1..]
  {
    var s := FirstRead(t);
    var received := s.got[HEADER_SIZE..] + Trim(Flatten(Loop(t).blocks));
    var k := FirstPayload(t);
    assert received[..k] == s.got[HEADER_SIZE..|s.got| - 1];
    assert received[k + 1..] == Trim(Flatten(Loop(t).blocks));
  }

  /** In memory mode every block of the loop is copied to `response` from
      offset 0 again, over the first chunk's payload, which survives only
      beyond what the loop delivered. */
  lemma MemoryRestartsAtZero(t: Transport, openable: bool, file0: seq<Byte>, memory0: seq<Byte>)
    requires WellSized(t, false, |memory0|) && Accepted(t)
    ensures var r := Respond(t, false, openable, file0, memory0);
      var first := FirstRead(t).got[HEADER_SIZE..|FirstRead(t).got| - 1];
      var loop := Flatten(Loop(t).blocks);
      |r.memory| == |memory0| && |loop| <= |memory0| && |first| <= |memory0| &&
      r.memory[..|loop|] == loop &&
      (|loop| < |first| ==> r.memory[|loop|..|first|] == first[|loop|..]) &&
      r.memory[if |loop| < |first| then |first| else |loop|..] ==
        memory0[if |loop| < |first| then |first| else |loop|..]
  {
    var first := FirstRead(t).got[HEADER_SIZE..|FirstRead(t).got| - 1];
    var loop := Flatten(Loop(t).blocks);
    DrainAccounting(Remaining(t), FirstRead(t).rest);
    assert Respond(t, false, openable, file0, memory0).memory == Splice(Splice(memory0, 0, first), 0, loop);
    SpliceTwice(memory0, first, loop);
  }

  /** Two writes from offset 0: the second wins where they overlap. */
  lemma SpliceTwice(m0: seq<Byte>, a: seq<Byte>, b: seq<Byte>)
    requires |a| <= |m0| && |b| <= |m0|
    ensures var r := Splice(Splice(m0, 0, a), 0, b);
      |r| == |m0| && r[..|b|] == b &&
      (|b| < |a| ==> r[|b|..|a|] == a[|b|..]) &&
      r[if |b| < |a| then |a| else |b|..] == m0[if |b| < |a| then |a| else |b|..]
  {
    var m := Splice(m0, 0, a);
    SpliceIndex(m0, 0, a);
    SpliceIndex(m, 0, b);
  }

  // ---------------------------------------------------------------------
  // The collaborators, as objects the code updates.

  /** The socket: what the peer has received so far, the count the next
      write() returns, and what the next reads deliver. */
  class Connection {
    var sent: seq<Byte>
    var writeResult: int
    var incoming: Transport

    constructor (writeResult: int, incoming: Transport)
      ensures sent == [] && this.writeResult == writeResult && this.incoming == incoming
    {
      sent := [];
      this.writeResult := writeResult;
      this.incoming := incoming;
    }

    /** write(socket_handle, buf, len) in UCLSend: returns the oracle's
        count, and a positive count (at most `len`) of bytes reaches the
        peer. */
    method Send(buf: array<Byte>, len: nat) returns (n: int)
      requires len <= buf.Length
      modifies this
      ensures n == old(writeResult)
      ensures sent == old(sent) + (if n <= 0 then [] else buf[..if n < len then n else len])
      ensures incoming == old(incoming) && writeResult == old(writeResult)
    {
      n := writeResult;
      if n > 0 {
        sent := sent + buf[..if n < len then n else len];
      }
    }

    /** read(socket_handle, buf, max) in UCLReceive, into `buf` from 0. */
    method Receive(buf: array<Byte>, max: nat) returns (n: int)
      requires max <= buf.Length
      modifies this, buf
      ensures var s := ReadStep(old(incoming), max);
        n == s.count && incoming == s.rest && buf[..] == Splice(old(buf[..]), 0, s.got)
      ensures var s := ReadStep(old(incoming), max); buf[..|s.got|] == s.got
      ensures sent == old(sent) && writeResult == old(writeResult)
    {
      var s := ReadStep(incoming, max);
      var end := Move(buf, 0, s.got);
      SplicePrefix(old(buf[..]), 0, s.got);
      incoming := s.rest;
      n := s.count;
    }
  }

  /** The destination file: its bytes, whether it is open, and whether
      fopen(save_to_file, "wb") succeeds. */
  class File {
    var contents: seq<Byte>
    var isOpen: bool
    var openable: bool

    constructor (contents: seq<Byte>, openable: bool)
      ensures this.contents == contents && !isOpen && this.openable == openable
    {
      this.contents := contents;
      isOpen := false;
      this.openable := openable;
    }

    /** fopen in "wb" mode: when it succeeds the file is open and empty. */
    method Open() returns (ok: bool)
      modifies this
      ensures ok == old(openable) && openable == old(openable)
      ensures ok ==> isOpen && contents == []
      ensures !ok ==> isOpen == old(isOpen) && contents == old(contents)
    {
      ok := openable;
      if ok {
        isOpen := true;
        contents := [];
      }
    }

    /** fwrite of `data`. */
    method Write(data: seq<Byte>)
      requires isOpen
      modifies this
      ensures contents == old(contents) + data && isOpen && openable == old(openable)
    {
      contents := contents + data;
    }

    /** fclose. */
    method Close()
      requires isOpen
      modifies this
      ensures !isOpen && contents == old(contents) && openable == old(openable)
    {
      isOpen := false;
    }
  }

  // ---------------------------------------------------------------------
  // The code.

  /** memset(a, 0, sizeof a). */
  method Clear(a: array<Byte>)
    modifies a
    ensures a[..] == Zeros(a.Length)
  {
    forall i | 0 <= i < a.Length {
      a[i] := 0;
    }
  }

  /** The steps of the loop so far: the blocks received, then what the
      loop still does. */
  function After(done: seq<seq<Byte>>, d: Drained): Drained
  {
    Drained(done + d.blocks, d.end, d.rest)
  }

  /** One turn of the loop that receives bytes. */
  lemma DrainStep(done: seq<seq<Byte>>, remaining: int, t: Transport, n: int, got: seq<Byte>, rest: Transport)
    requires remaining > 0 && n > 0
    requires ReadStep(t, BlockSize(remaining)) == Step(n, got, rest)
    ensures After(done, Drain(remaining, t)) == After(done + [got], Drain(remaining - n, rest))
  {
    var d := Drain(remaining - n, rest);
    assert Drain(remaining, t) == Drained([got] + d.blocks, d.end, d.rest);
    assert done + ([got] + d.blocks) == (done + [got]) + d.blocks;
  }

  /** The turn of the loop whose read returns no bytes ends it. */
  lemma DrainStop(done: seq<seq<Byte>>, remaining: int, t: Transport)
    requires remaining > 0 && ReadStep(t, BlockSize(remaining)).count <= 0
    ensures var s := ReadStep(t, BlockSize(remaining));
      After(done, Drain(remaining, t)) == Drained(done, if s.count < 0 then Failed else Closed, s.rest)
  {
    assert done + [] == done;
  }

  /** The loop's exit on a read that returns no bytes, in terms of the
      drain it started. */
  lemma LoopStops(d: Drained, done: seq<seq<Byte>>, remaining: int, t: Transport)
    requires remaining > 0 && ReadStep(t, BlockSize(remaining)).count <= 0
    requires d == After(done, Drain(remaining, t))
    ensures var s := ReadStep(t, BlockSize(remaining));
      d == Drained(done, if s.count < 0 then Failed else Closed, s.rest) &&
      LoopFileBytes(d) == FileSoFar(done, remaining)
  {
    DrainStop(done, remaining, t);
  }

  /** The loop's exit once size_to_receive is no longer positive. */
  lemma LoopCompletes(d: Drained, done: seq<seq<Byte>>, remaining: int, t: Transport)
    requires remaining <= 0
    requires d == After(done, Drain(remaining, t))
    ensures d == Drained(done, Complete, t) && LoopFileBytes(d) == FileSoFar(done, remaining)
  {
    assert done + [] == done;
  }

  /** What the file has received after the blocks `done`, the last one
      trimmed once size_to_receive has reached 0. */
  function FileSoFar(done: seq<seq<Byte>>, remaining: int): seq<Byte>
  {
    if remaining > 0 then Flatten(done) else Trim(Flatten(done))
  }

  lemma FileStep(done: seq<seq<Byte>>, block: seq<Byte>, remaining: int)
    requires block != []
    ensures FileSoFar(done + [block], remaining) ==
      Flatten(done) + (if remaining <= 0 then block[..|block| - 1] else block)
  {
    FlattenAppend(done, block);
    if remaining <= 0 {
      TrimAppend(Flatten(done), block);
    }
  }

  lemma MemoryStep(m0: seq<Byte>, done: seq<seq<Byte>>, block: seq<Byte>)
    requires |Flatten(done)| + |block| <= |m0|
    ensures Flatten(done + [block]) == Flatten(done) + block
    ensures Splice(Splice(m0, 0, Flatten(done)), |Flatten(done)|, block) == Splice(m0, 0, Flatten(done + [block]))
  {
    FlattenAppend(done, block);
    SpliceAdjacent(m0, 0, Flatten(done), block);
  }

  /** The memset of packet_recv and the read of the next block into it
      (erlang_interface.c:499-500). */
  method NextBlock(conn: Connection, packet: array<Byte>, size: nat) returns (n: int, ghost got: seq<Byte>)
    requires size <= packet.Length
    modifies conn, packet
    ensures ReadStep(old(conn.incoming), size) == Step(n, got, conn.incoming)
    ensures packet[..|got|] == got
    ensures conn.sent == old(conn.sent) && conn.writeResult == old(conn.writeResult)
  {
    Clear(packet);
    ghost var s := ReadStep(conn.incoming, size);
    n := conn.Receive(packet, size);
    got := s.got;
  }

  /** One turn of the loop of erlang_interface.c:492-518 when a file is
      being written: read a block of at most min(size_to_receive, 1024)
      bytes; on a read of 0 close the file; otherwise write the block,
      without its last byte when it brings size_to_receive to 0. In terms
      of the blocks `done` before it and the whole drain `d`. */
  method FileTurn(conn: Connection, fp: File, packet: array<Byte>, remaining: int,
                  ghost d: Drained, ghost done: seq<seq<Byte>>, ghost f0: seq<Byte>)
    returns (n: int, ghost got: seq<Byte>)
    requires packet.Length == RECV_SIZE && remaining > 0
    requires d == After(done, Drain(remaining, conn.incoming))
    requires fp.isOpen && fp.contents == f0 + FileSoFar(done, remaining)
    modifies conn, fp, packet
    ensures conn.sent == old(conn.sent) && conn.writeResult == old(conn.writeResult)
    ensures fp.openable == old(fp.openable)
    ensures n > 0 ==> (n <= remaining && d == After(done + [got], Drain(remaining - n, conn.incoming)) &&
      fp.isOpen && fp.contents == f0 + FileSoFar(done + [got], remaining - n))
    ensures n <= 0 ==> (d == Drained(done, if n < 0 then Failed else Closed, conn.incoming) &&
      fp.isOpen == (n < 0) && fp.contents == f0 + LoopFileBytes(d))
  {
    ghost var t := conn.incoming;
    n, got := NextBlock(conn, packet, BlockSize(remaining));
    if n <= 0 {
      LoopStops(d, done, remaining, t);
      if n == 0 {
        fp.Close();
      }
      return;
    }
    DrainStep(done, remaining, t, n, got, conn.incoming);
    FileStep(done, got, remaining - n);
    var block := if remaining - n <= 0 then packet[..n - 1] else packet[..n];
    fp.Write(block);
  }

  /** The loop of erlang_interface.c:492-518 when a file is being
      written (`fp` open): turns of FileTurn while size_to_receive > 0. A
      failed read ends the process. The file receives the drain's bytes,
      trimmed by one when the whole size arrived, and is closed when the
      peer closes the connection first. */
  method ReceiveToFile(conn: Connection, fp: File, packet: array<Byte>, remaining0: int)
    returns (end: StreamEnd, ghost d: Drained)
    requires packet.Length == RECV_SIZE && fp.isOpen
    modifies conn, fp, packet
    ensures d == Drain(remaining0, old(conn.incoming))
    ensures end == d.end && conn.incoming == d.rest
    ensures conn.sent == old(conn.sent) && conn.writeResult == old(conn.writeResult)
    ensures fp.contents == old(fp.contents) + LoopFileBytes(d)
    ensures fp.isOpen == (end != Closed) && fp.openable == old(fp.openable)
  {
    ghost var f0 := fp.contents;
    d := Drain(remaining0, conn.incoming);
    ghost var done: seq<seq<Byte>> := [];
    var remaining := remaining0;
    end := Complete;
    while remaining > 0
      invariant d == After(done, Drain(remaining, conn.incoming))
      invariant conn.sent == old(conn.sent) && conn.writeResult == old(conn.writeResult)
      invariant fp.isOpen && fp.openable == old(fp.openable)
      invariant fp.contents == f0 + FileSoFar(done, remaining)
      decreases remaining
    {
      var n, got := FileTurn(conn, fp, packet, remaining, d, done, f0);
      if n <= 0 {
        end := if n < 0 then Failed else Closed;
        return;
      }
      remaining := remaining - n;
      done := done + [got];
    }
    LoopCompletes(d, done, remaining, conn.incoming);
  }

  /** One turn of the loop of erlang_interface.c:492-518 when no file is
      being written: read a block of at most min(size_to_receive, 1024)
      bytes and copy it to `response` at total_size. In terms of the blocks
      `done` before it and the whole drain `d`. */
  method MemoryTurn(conn: Connection, response: array<Byte>, packet: array<Byte>, remaining: int,
                    totalSize: nat, ghost d: Drained, ghost done: seq<seq<Byte>>, ghost m0: seq<Byte>)
    returns (n: int, ghost got: seq<Byte>)
    requires packet.Length == RECV_SIZE && response != packet && remaining > 0
    requires d == After(done, Drain(remaining, conn.incoming))
    requires totalSize == |Flatten(done)| && totalSize + remaining <= response.Length
    requires |m0| == response.Length && response[..] == Splice(m0, 0, Flatten(done))
    modifies conn, response, packet
    ensures conn.sent == old(conn.sent) && conn.writeResult == old(conn.writeResult)
    ensures n > 0 ==> (n <= remaining && d == After(done + [got], Drain(remaining - n, conn.incoming)) &&
      |Flatten(done + [got])| == totalSize + n && response[..] == Splice(m0, 0, Flatten(done + [got])))
    ensures n <= 0 ==> d == Drained(done, if n < 0 then Failed else Closed, conn.incoming)
    ensures n <= 0 ==> response[..] == old(response[..])
  {
    ghost var t := conn.incoming;
    n, got := NextBlock(conn, packet, BlockSize(remaining));
    if n <= 0 {
      LoopStops(d, done, remaining, t);
      return;
    }
    DrainStep(done, remaining, t, n, got, conn.incoming);
    MemoryStep(m0, done, got);
    var next := Move(response, totalSize, packet[..n]);
  }

  /** The loop of erlang_interface.c:492-518 when no file is being
      written: turns of MemoryTurn while size_to_receive > 0. total_size
      starts again at 0, so the blocks overwrite `response` from its start.
      A read of 0 stops the loop, a failed read ends the process. */
  method ReceiveToMemory(conn: Connection, response: array<Byte>, packet: array<Byte>, remaining0: int)
    returns (end: StreamEnd, ghost d: Drained)
    requires packet.Length == RECV_SIZE && response != packet
    requires remaining0 <= response.Length
    modifies conn, response, packet
    ensures d == Drain(remaining0, old(conn.incoming))
    ensures end == d.end && conn.incoming == d.rest
    ensures conn.sent == old(conn.sent) && conn.writeResult == old(conn.writeResult)
    ensures |Flatten(d.blocks)| <= response.Length
    ensures response[..] == Splice(old(response[..]), 0, Flatten(d.blocks))
  {
    ghost var m0 := response[..];
    d := Drain(remaining0, conn.incoming);
    ghost var done: seq<seq<Byte>> := [];
    var remaining := remaining0;
    var totalSize := 0;
    end := Complete;
    while remaining > 0
      invariant d == After(done, Drain(remaining, conn.incoming))
      invariant totalSize == |Flatten(done)| && totalSize + remaining == remaining0
      invariant totalSize <= response.Length
      invariant conn.sent == old(conn.sent) && conn.writeResult == old(conn.writeResult)
      invariant response[..] == Splice(m0, 0, Flatten(done))
      decreases remaining
    {
      var n, got := MemoryTurn(conn, response, packet, remaining, totalSize, d, done, m0);
      if n <= 0 {
        end := if n < 0 then Failed else Closed;
        return;
      }
      remaining := remaining - n;
      totalSize := totalSize + n;
      done := done + [got];
    }
    LoopCompletes(d, done, remaining, conn.incoming);
  }

  /** erlang_interface.c:443-490 and 519-523, from the first read on:
      read the first chunk into a fresh packet_recv, check its markers,
      take `*ret_code` and the declared size from its header, and deliver
      the payload to the file or to `response`. `file` is null when
      save_to_file is; `retCode` is None while `*ret_code` has not been
      assigned. The result is the reply Respond describes. */
  method ReceiveResponse(conn: Connection, file: File?, response: array?<Byte>)
    returns (outcome: Outcome, retCode: Option<int>)
    requires file != null ==> !file.isOpen
    requires file == null ==> response != null
    requires WellSized(conn.incoming, file != null, if response != null then response.Length else 0)
    modifies conn, file, response
    ensures var r := Respond(old(conn.incoming), file != null, file != null && old(file.openable),
                             if file != null then old(file.contents) else [],
                             if response != null then old(response[..]) else []);
      outcome == r.outcome && retCode == r.retCode && conn.incoming == r.rest &&
      conn.sent == old(conn.sent) && conn.writeResult == old(conn.writeResult) &&
      (file != null ==> file.contents == r.fileBytes && file.isOpen == r.fileOpen) &&
      (response != null ==> response[..] == r.memory)
  {
    ghost var t := conn.incoming;
    ghost var s := FirstRead(t);
    var packet := new Byte[RECV_SIZE](_ => 0);
    assert packet[..] == Zeros(RECV_SIZE);
    var recvd := conn.Receive(packet, RECV_SIZE);
    assert packet[..] == Padded(s.got);
    if recvd < 0 {
      return Exit, None;
    }
    if recvd == 0 {
      return Return(-1), None;
    }
    if packet[9] != ERL_VERSION_MAGIC || packet[10] != ERL_LIST_EXT || packet[14] != 0x02 {
      return Return(-2), None;
    }
    retCode := Some(SignedChar(packet[16]));
    var sizeToReceive := MakeLong(MakeWord(SignedChar(packet[21]), SignedChar(packet[20])),
                                  MakeWord(SignedChar(packet[19]), SignedChar(packet[18])));
    var retSize := sizeToReceive;
    recvd := recvd - (HEADER_SIZE + 1);
    sizeToReceive := sizeToReceive - recvd;
    if file != null {
      outcome := DeliverToFile(conn, file, packet, retSize, recvd, sizeToReceive, t);
    } else {
      outcome := DeliverToMemory(conn, response, packet, retSize, recvd, sizeToReceive, t);
    }
  }

  /** erlang_interface.c:473-483, 492-518 and 521-523 for an accepted first
      chunk in packet_recv when save_to_file is given: for a positive size
      open the file, write the first chunk's payload (one byte shorter when
      it completes the size), run the loop, and close the file on success.
      For a size that is not positive nothing is opened and the loop does
      not run. */
  method DeliverToFile(conn: Connection, file: File, packet: array<Byte>, retSize: Int32, recvd: int,
                       sizeToReceive: int, ghost t: Transport) returns (outcome: Outcome)
    requires packet.Length == RECV_SIZE && Accepted(t) && FirstPayload(t) >= 0
    requires packet[..|FirstRead(t).got|] == FirstRead(t).got && conn.incoming == FirstRead(t).rest
    requires retSize == DeclaredSize(t) && recvd == FirstPayload(t) && sizeToReceive == Remaining(t)
    requires !file.isOpen
    modifies conn, file, packet
    ensures var r := FileReply(t, old(file.openable), old(file.contents), []);
      outcome == r.outcome && conn.incoming == r.rest &&
      file.contents == r.fileBytes && file.isOpen == r.fileOpen
    ensures conn.sent == old(conn.sent) && conn.writeResult == old(conn.writeResult)
  {
    ghost var s := FirstRead(t);
    if retSize <= 0 {
      // fp stays NULL and size_to_receive is not positive: the loop does
      // not run.
      return Return(retSize);
    }
    var ok := file.Open();
    if !ok {
      return Return(-3);
    }
    ghost var first := if sizeToReceive <= 0 then s.got[HEADER_SIZE..|s.got| - 2]
                       else s.got[HEADER_SIZE..|s.got| - 1];
    var block := if sizeToReceive <= 0 then packet[HEADER_SIZE..HEADER_SIZE + recvd - 1]
                 else packet[HEADER_SIZE..HEADER_SIZE + recvd];
    assert block == first;
    file.Write(block);
    assert file.contents == first;
    var end, d := ReceiveToFile(conn, file, packet, sizeToReceive);
    assert d == Loop(t) && file.contents == first + LoopFileBytes(d);
    if end == Complete {
      file.Close();
    }
    outcome := Finish(end, retSize);
  }

  /** erlang_interface.c:485-488, 492-518 and 523 for an accepted first chunk
      in packet_recv when save_to_file is NULL: copy the first chunk's
      payload to `response`, then run the loop. */
  method DeliverToMemory(conn: Connection, response: array<Byte>, packet: array<Byte>, retSize: Int32,
                         recvd: int, sizeToReceive: int, ghost t: Transport) returns (outcome: Outcome)
    requires packet.Length == RECV_SIZE && response != packet && Accepted(t)
    requires WellSized(t, false, response.Length)
    requires packet[..|FirstRead(t).got|] == FirstRead(t).got && conn.incoming == FirstRead(t).rest
    requires retSize == DeclaredSize(t) && recvd == FirstPayload(t) && sizeToReceive == Remaining(t)
    modifies conn, response, packet
    ensures var r := MemoryReply(t, [], old(response[..]));
      outcome == r.outcome && conn.incoming == r.rest && response[..] == r.memory
    ensures conn.sent == old(conn.sent) && conn.writeResult == old(conn.writeResult)
  {
    ghost var s := FirstRead(t);
    assert packet[HEADER_SIZE..HEADER_SIZE + recvd] == s.got[HEADER_SIZE..|s.got| - 1];
    var next := Move(response, 0, packet[HEADER_SIZE..HEADER_SIZE + recvd]);
    var end, d := ReceiveToMemory(conn, response, packet, sizeToReceive);
    outcome := Finish(end, retSize);
  }
}
