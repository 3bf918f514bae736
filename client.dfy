/** riak_mapreduce_request (erlang_interface.c:343-523): encode the
    map-reduce job into `buf`, frame it as a protocol-buffers request in
    `packet_send`, send it, and receive the reply. */
module Client {
  import opened ByteLayout
  import opened Wrappers
  import opened Varint
  import opened Terms
  import opened TermDecoder
  import opened MapReduceRequest
  import opened RequestFrame
  import opened Response

  /** The framed request for the arguments `a`. */
  function RequestPacket(a: Arguments): (r: seq<Byte>)
    requires Fits(a)
    ensures |r| == 4 + 2 + |VarintBytes(RequestSize(a))| + RequestSize(a) + 29
  {
    PacketLayout(JobBytes(a));
    PacketBytes(JobBytes(a))
  }

  /** The arguments for which both `buf` and `packet_send` hold what is
      written to them. */
  predicate PacketFits(a: Arguments)
  {
    Fits(a) && |RequestPacket(a)| <= BUF_SIZE
  }

  /** The job's length needs a two-byte varint, so the packet fits in
      `packet_send` exactly when the job is at most 2011 bytes. */
  lemma PacketFitsExactly(a: Arguments)
    requires Fits(a)
    ensures |VarintBytes(RequestSize(a))| == 2
    ensures PacketFits(a) <==> RequestSize(a) <= BUF_SIZE - 37
  {
    var v := RequestSize(a);
    assert VarintBytes(v) == [v % 0x80 + 0x80] + VarintBytes(v / 0x80);
    assert VarintBytes(v / 0x80) == [v / 0x80];
  }

  /** What the peer reads back from the packet: the length of what
      follows, the map-reduce request code, the request field announcing
      exactly the job's bytes, and in those bytes the version magic and
      then the term MapRedTerm(a), followed by the content-type field. */
  lemma RequestPacketDecodes(a: Arguments)
    requires Fits(a)
    ensures var p := RequestPacket(a);
      Be32Value(p[..4]) == |p| - 4 &&
      p[4] == RPB_MAP_RED_REQ && p[5] == REQUEST_KEY &&
      ReadVarint(p[6..]) == Some((RequestSize(a), JobBytes(a) + ContentTypeBytes())) &&
      JobBytes(a)[0] == ERL_VERSION_MAGIC &&
      DecodeTerm(JobBytes(a)[1..] + ContentTypeBytes()) == Some((MapRedTerm(a), ContentTypeBytes()))
  {
    var job := JobBytes(a);
    PacketLayout(job);
    JobEncoding(a);
    assert job[1..] == EncodeTerm(MapRedTerm(a));
    DecodeEncode(MapRedTerm(a), ContentTypeBytes());
  }

  /** erlang_interface.c:347-435 without the sending: the zeroed `buf`
      receives the job's encoding and the zeroed `packet_send` the framed
      request, whose first `len` bytes are then RequestPacket(a). */
  method BuildRequest(a: Arguments) returns (packet: array<Byte>, len: nat)
    requires PacketFits(a)
    ensures fresh(packet) && packet.Length == BUF_SIZE
    ensures len == |RequestPacket(a)| && packet[..len] == RequestPacket(a)
  {
    var buf := new Byte[BUF_SIZE](_ => 0);
    packet := new Byte[BUF_SIZE](_ => 0);
    ghost var b0 := buf[..];
    var index := EncodeMapReduce(buf, a);
    SplicePrefix(b0, 0, JobBytes(a));
    assert buf[..index] == JobBytes(a);
    PacketLayout(JobBytes(a));
    ghost var p0 := packet[..];
    var indexPacket := BuildPacket(packet, buf[..index]);
    SplicePrefix(p0, 0, RequestPacket(a));
    len := indexPacket + 4;
  }

  /** riak_mapreduce_request, with the socket `conn`, the destination
      file `file` (null when save_to_file is NULL) and `response`. The
      packet goes out once; the peer receives the prefix of it that write()
      reports. error() on a failed write ends the process, a write of 0
      returns -1 with nothing else touched, and otherwise the reply is the
      one Respond describes. */
  method RiakMapReduceRequest(conn: Connection, a: Arguments, file: File?, response: array?<Byte>)
    returns (outcome: Outcome, retCode: Option<int>)
    requires PacketFits(a)
    requires file != null ==> !file.isOpen
    requires file == null ==> response != null
    requires WellSized(conn.incoming, file != null, if response != null then response.Length else 0)
    modifies conn, file, response
    ensures var p := RequestPacket(a);
      var n := old(conn.writeResult);
      conn.sent == old(conn.sent) + (if n <= 0 then [] else p[..if n < |p| then n else |p|])
    ensures old(conn.writeResult) <= 0 ==>
      outcome == (if old(conn.writeResult) < 0 then Exit else Return(-1)) && retCode == None &&
      conn.incoming == old(conn.incoming) &&
      (file != null ==> file.contents == old(file.contents) && !file.isOpen) &&
      (response != null ==> response[..] == old(response[..]))
    ensures old(conn.writeResult) > 0 ==>
      var r := Respond(old(conn.incoming), file != null, file != null && old(file.openable),
                       if file != null then old(file.contents) else [],
                       if response != null then old(response[..]) else []);
      outcome == r.outcome && retCode == r.retCode && conn.incoming == r.rest &&
      (file != null ==> file.contents == r.fileBytes && file.isOpen == r.fileOpen) &&
      (response != null ==> response[..] == r.memory)
  {
    var packet, len := BuildRequest(a);
    var n := conn.Send(packet, len);
    if n < 0 {
      return Exit, None;
    }
    if n == 0 {
      return Return(-1), None;
    }
    outcome, retCode := ReceiveResponse(conn, file, response);
  }
}
