# erlang_interface: a verified model

erlang_interface is a small C client for a Riak node's protocol-buffers
interface. It has one entry point, `riak_mapreduce_request`. That function
does four things:

- It encodes a fixed map-reduce job into a 2048-byte buffer, using a
  subset of the Erlang external term format: atoms, small and 32-bit
  integers, small bignums, binaries, tuples and lists.
- It wraps the encoded job in an `RpbMapRedReq` message, with a `request`
  field and a `content_type` field, behind a four-byte big-endian length.
- It writes the message to a socket.
- It reads the reply. The reply's first chunk is checked at fixed offsets.
  The payload the reply declares is then streamed into a file or into a
  caller-supplied memory buffer, in blocks of at most 1024 bytes.

The model follows the C code function by function, in the code's own
imperative form:

- Every `ei_encode_*`, `pb_add_*` and `upb_put_v_*` function is a Dafny
  method over a byte array. Those that accept a null buffer for their
  measuring mode take an `array?`.
- Each method is proved against a pure function giving the bytes it
  writes. A buffer update is stated as `Splice(old, pos, bytes)`: those
  bytes stored at `pos`, everything else unchanged.
- The term-format bytes are tied to a `Term` datatype. An independent
  decoder reads every well-formed term back, which proves the encoding
  round-trips and is injective.
- The job that `riak_mapreduce_request` builds is proved to be the version
  byte followed by the encoding of
  `[{inputs, [{Bucket, Key}]}, {query, [{map, {modfun, M, F}, [S, V, N, C, P], true}]}, {timeout, 5000}]`.
  The framed packet is proved to read back as that term.
- The socket and the output file are classes the code updates in place:
  - `Connection` holds the bytes sent, the count the next `write` returns,
    and the sequence of deliveries the next `read` calls return.
  - `File` holds the file's bytes, whether it is open, and whether `fopen`
    succeeds.
- The reply side is proved against a value-level description, `Respond`.
  Lemmas about `Respond` then state what the code guarantees and where it
  falls short:
  - the early error codes;
  - the declared size, read big-endian, returned however the peer splits
    its bytes;
  - the function's own `fclose` on every return;
  - the file receiving one byte less than declared;
  - memory mode overwriting the first chunk's payload.

Modules, in dependency order:

| module | file | models |
|---|---|---|
| `Wrappers` | wrappers.dfy | `Option` |
| `ByteLayout` | byte_layout.dfy | the macros and constants of erlang_interface.h; the `Splice` view of a buffer write |
| `TermEncoder` | term_encoder.dfy | the `ei_encode_*` functions |
| `Terms` | terms.dfy | the term tree the encoders write, and its encoding |
| `TermDecoder` | term_decoder.dfy | a reference reader, and the round-trip proofs |
| `Varint` | varint.dfy | `upb_put_v_uint64_t` and `upb_put_v_uint32_t` |
| `RequestFrame` | request_frame.dfy | `pb_add_request`, `pb_add_content_type`, the byte macros, the outer length |
| `MapReduceRequest` | mapreduce_request.dfy | the encoder calls of `riak_mapreduce_request` |
| `Response` | response.dfy | the socket and file objects, the first-chunk check, the receive loop |
| `Client` | client.dfy | `riak_mapreduce_request` as a whole |

There are two places where the intended behaviour and the code disagree.
The model follows the code in both, and states the code's behaviour as a
lemma:

- A complete transfer does not deliver exactly the declared number of
  bytes to the file. `Response.FileGetsOneByteLess` and
  `Response.FileMissesFirstChunkEnd` show that the file gets one byte
  less: the last byte of the first chunk, or, when one chunk holds the
  whole payload, the last payload byte.
- In memory mode the loop copies its blocks from `response[0]`, because
  `total_size` starts at 0. They land on top of the first chunk's payload
  (`Response.MemoryRestartsAtZero`).

There are three smaller divergences from the intended behaviour. The model
follows the code in each:

- A failed read or write ends the process through `error()`; only a count
  of 0 returns -1.
- When the loop ends that way, the function does not `fclose` the file
  before `error()` ends the process (`exit` closes it)
  (`Response.RespondClosesFile`).
- The measuring mode of the two protocol-buffer writers undercounts
  (`RequestFrame.MeasureUndercounts`).

## Model

| member | source | states |
|---|---|---|
| ByteLayout.Constants | erlang_interface.h:30-31 | ERL_MAX is `(1 << 27) - 1` and ERL_MIN is `-(1 << 27)`, the shift of 1 by 27 places being 2^27 |
| ByteLayout.TagsPairwiseDistinct | erlang_interface.h:29-41 | the nine tags are pairwise distinct and differ from the version magic, so a leading byte names one term kind |
| ByteLayout.Put8Bytes | erlang_interface.h:1-4 | put8 stores exactly one byte; which byte is ByteLayout.Put8IsMask |
| ByteLayout.Put8IsMask | erlang_interface.h:1-4 | the byte put8 stores is `(n) & 0xff` on n's 64-bit two's-complement pattern, with `&` defined bit by bit (BitAnd) |
| ByteLayout.MaskLow | erlang_interface.h:2 | `m & (2^k - 1)` is m mod 2^k for every non-negative m |
| ByteLayout.MaskByte | erlang_interface.h:2 | `n & 0xff` on n's 64-bit pattern is n's low byte, for negative n too |
| ByteLayout.Put16BEBytes | erlang_interface.h:6-10 | put16be stores two bytes that read back big-endian as n mod 2^16 |
| ByteLayout.Put32BEBytes | erlang_interface.h:12-18 | put32be stores four bytes, bits 31-24 first; Put32BERoundTrip gives their value and Put32Modular their dependence on n mod 2^32 |
| ByteLayout.Put32BERoundTrip | erlang_interface.h:12-18 | the four bytes of put32be read back big-endian as n mod 2^32 |
| ByteLayout.Put32LEBytes | erlang_interface.h:20-26 | put32le stores four bytes, bits 7-0 first; Put32LEIsReversedBE ties them to put32be's and gives their little-endian value |
| ByteLayout.Put32LEIsReversedBE | erlang_interface.h:20-26 | put32le stores put32be's bytes in reverse order, which read back little-endian as n mod 2^32 |
| ByteLayout.Put32Modular | erlang_interface.h:12-26 | both 32-bit macros depend on n only modulo 2^32 |
| ByteLayout.Int32Of | erlang_interface.c:285 | the two's-complement `(int)` reading of an unsigned 32-bit value is congruent to it mod 2^32 and lies in the `int` range |
| ByteLayout.Int32OfMod | erlang_interface.c:285 | reading a value's low 32 bits back as an `int` gives the value again |
| ByteLayout.Put8 | erlang_interface.h:1-4 | the cursor advances by 1, and only `s[0]` changes, to put8's byte |
| ByteLayout.Put16BE | erlang_interface.h:6-10 | the cursor advances by 2, and only `s[0..2]` changes, to put16be's bytes |
| ByteLayout.Put32BE | erlang_interface.h:12-18 | the cursor advances by 4, and only `s[0..4]` changes, to put32be's bytes |
| ByteLayout.Put32LE | erlang_interface.h:20-26 | the cursor advances by 4, and only `s[0..4]` changes, to put32le's bytes |
| ByteLayout.Move | erlang_interface.c:75 | memmove stores the source bytes at the cursor and changes nothing else |
| TermEncoder.VersionBytes | erlang_interface.c:152-162 | the version header is the single byte 0x83 |
| TermEncoder.ListHeaderBytes | erlang_interface.c:15-37 | arity 0 gives `'j'` alone; a positive arity gives `'l'` and four bytes reading back big-endian as the arity |
| TermEncoder.TupleHeaderBytes | erlang_interface.c:39-64 | an arity up to 255 gives `'h'` and the arity byte; a larger one gives `'i'` and the arity as u32be |
| TermEncoder.BinaryBytes | erlang_interface.c:66-82 | `'m'`, the length mod 2^32 big-endian, then exactly the first `len` bytes of `p`; 5 + len bytes in all |
| TermEncoder.AtomLength | erlang_interface.c:89-91 | the length kept is `len` itself, or MAXATOMLEN when `len` exceeds it |
| TermEncoder.AtomLenBytes | erlang_interface.c:84-105 | `'d'`, the clamped length as u16be, then exactly that many bytes of `p`, with no terminator |
| TermEncoder.AtomBytes | erlang_interface.c:107-110 | the atom of a whole C string: 3 bytes plus the clamped length, and for a short string the tag, 0, its length, then the string |
| TermEncoder.LongBytes | erlang_interface.c:112-149 | 2 bytes on [0, 256), otherwise 5 on [ERL_MIN, ERL_MAX], otherwise 7 |
| TermEncoder.LongBytesFields | erlang_interface.c:112-149 | the byte itself; or `'b'` with a field reading back as p; or `'n'`, 4, the sign byte, then p's own low 32 bits little-endian |
| TermEncoder.EncodeVersion | erlang_interface.c:152-162 | returns 0; both modes advance the index by 1, and the write mode stores the version byte there |
| TermEncoder.EncodeListHeader | erlang_interface.c:15-37 | a negative arity returns -1 and changes neither the index nor the buffer; otherwise both modes advance by the header's length and the write mode stores the header |
| TermEncoder.EncodeTupleHeader | erlang_interface.c:39-64 | the same for tuple headers: -1 and nothing changed for a negative arity; otherwise measure/write parity and the header stored |
| TermEncoder.EncodeBinary | erlang_interface.c:66-82 | both modes advance by 5 + len; the write mode stores the binary's bytes and changes nothing else |
| TermEncoder.EncodeAtomLen | erlang_interface.c:84-105 | both modes advance by 3 plus the clamped length; the write mode stores the atom's bytes |
| TermEncoder.EncodeAtom | erlang_interface.c:107-110 | the same for the whole string's length |
| TermEncoder.EncodeLong | erlang_interface.c:112-149 | both modes advance by the length of the chosen layout; the write mode stores it |
| Terms.EncodeTerm | erlang_interface.c:357-425 | every term writes at least one byte; what the bytes mean is TermDecoder.DecodeEncode |
| Terms.EncodeElements | erlang_interface.c:357-425 | a sequence of terms writes at least one byte per term |
| Terms.ClassifyLong | erlang_interface.c:117-143 | the term ei_encode_long writes, chosen in the order of the C's tests: always a well-formed small integer, integer or small big; LongIsClassified, LongValue and LongClassBoundaries state which and with what value |
| Terms.LongIsClassified | erlang_interface.c:112-149 | ei_encode_long writes exactly the encoding of the term its range selects, a well-formed one |
| Terms.LongValue | erlang_interface.c:136-142 | the value a reader gets back: p itself on [ERL_MIN, 2^32); p's low 32 bits above that; the negated low 32 bits below ERL_MIN, which differ from p unless p = -2^31, because `abs` is not applied |
| Terms.LongClassBoundaries | erlang_interface.c:117-124 | 0 and 255 are small integers; -1, 256, ERL_MAX and ERL_MIN are integers; ERL_MAX + 1 and ERL_MIN - 1 are small bignums |
| Terms.AtomTruncation | erlang_interface.c:84-110 | ei_encode_atom of a string of any length writes the atom named by its first MAXATOMLEN bytes |
| TermDecoder.DecodeTerm | erlang_interface.c:15-162 | a successful read consumes at least one byte |
| TermDecoder.DecodeEncode | erlang_interface.c:15-162 | reading back the bytes of any well-formed term gives that term and leaves the following bytes untouched |
| TermDecoder.DecodeEncodeElements | erlang_interface.c:15-162 | the same for the elements of a tuple or list, read one after another |
| TermDecoder.EncodeInjective | erlang_interface.c:15-162 | two well-formed terms with the same bytes are the same term |
| TermDecoder.DecodeLong | erlang_interface.c:112-149 | ei_encode_long's bytes read back as the term its range selects, with nothing left over |
| Varint.VarintBytes | erlang_interface.c:166-175 | the do-while loop writes at least one byte, even for 0 |
| Varint.ReadVarint | erlang_interface.c:166-175 | a successful read consumes at least one byte |
| Varint.VarintContinuation | erlang_interface.c:168-172 | every byte but the last has bit 7 set, and the last has it clear |
| Varint.VarintDigits | erlang_interface.c:166-175 | the 7-bit groups, least significant first, denote `val` |
| Varint.ReadVarintBytes | erlang_interface.c:166-175 | a reader gets `val` back and stops exactly at the end of its encoding |
| Varint.VarintLength | erlang_interface.c:166-175 | a value below 128^k takes at most k bytes |
| Varint.VarintBounds | erlang_interface.c:166-180 | a 64-bit value takes at most 10 bytes, a 32-bit one at most 5 |
| Varint.PutVarint64 | erlang_interface.c:166-175 | the returned position is `buf` plus the number of bytes emitted, and exactly those bytes are stored there |
| Varint.VarintStep | erlang_interface.c:168-172 | one turn of the loop extends the bytes written by the next byte of the encoding |
| Varint.PutVarint32 | erlang_interface.c:177-180 | the 32-bit writer stores the same encoding |
| RequestFrame.ContentType | erlang_interface.c:205-209 | the content type string has 27 bytes |
| RequestFrame.RequestBytes | erlang_interface.c:182-199 | the request field has 2 + the varint's length + len bytes |
| RequestFrame.ContentTypeBytes | erlang_interface.c:201-223 | the content-type field has 29 bytes |
| RequestFrame.ContentTypeLength | erlang_interface.c:212-215 | the hard-coded length 0x1B is the string's length, and the string follows it |
| RequestFrame.RequestFieldReads | erlang_interface.c:182-199 | the field starts 0x17 0x0A, and its varint announces exactly the payload that follows it, len mod 2^32 |
| RequestFrame.PbAddRequest | erlang_interface.c:182-199 | returns 0; the measuring mode advances by 1 + len, and the write mode advances by the field's length and stores it |
| RequestFrame.PbAddContentType | erlang_interface.c:201-223 | returns 0; the measuring mode advances by 28, and the write mode advances by 29 and stores the field |
| RequestFrame.MeasureUndercounts | erlang_interface.c:186-220 | both measuring modes fall short of what is written: by 1 + the varint's length, and by 1 |
| RequestFrame.HiWord | erlang_interface.c:277 | HIWORD is a 16-bit value |
| RequestFrame.LoWord | erlang_interface.c:276 | LOWORD is a 16-bit value |
| RequestFrame.LoByte | erlang_interface.c:278 | LOBYTE is the independent bitwise AND of the word with 0xFF |
| RequestFrame.HiByte | erlang_interface.c:279 | HIBYTE and LOBYTE split the word: it is 256 times HIBYTE plus LOBYTE |
| RequestFrame.HH | erlang_interface.c:280 | HH(x) is bits 31-24 of x's two's-complement pattern |
| RequestFrame.HL | erlang_interface.c:281 | HL(x) is bits 23-16 of x |
| RequestFrame.LH | erlang_interface.c:282 | LH(x) is bits 15-8 of x |
| RequestFrame.LL | erlang_interface.c:283 | LL(x) is bits 7-0 of x |
| RequestFrame.LengthMacrosArePut32BE | erlang_interface.c:276-283 | HH, HL, LH and LL of x are put32be's bytes, which read back as x mod 2^32 |
| RequestFrame.PacketBytes | erlang_interface.c:426-435 | the packet_send bytes for the term bytes: the message's length by the length macros, then the request and content-type fields; PacketLayout states what a reader finds in them and Client.RequestPacketDecodes that the term reads back |
| RequestFrame.PacketLayout | erlang_interface.c:426-435 | the packet's first four bytes read back as the length of the rest; then 0x17 0x0A; then a varint announcing exactly the term bytes, followed by the content type |
| RequestFrame.BuildPacket | erlang_interface.c:426-435 | `index_packet + 4` is the packet's length, and `packet_send` starts with the packet and is otherwise unchanged |
| RequestFrame.StoreLength | erlang_interface.c:432-435 | the four length macros, which are put32be's bytes of the length, are stored in bytes 0-3, and nothing else changes |
| MapReduceRequest.Name | erlang_interface.c:366 | a string literal atom name has as many bytes as characters |
| MapReduceRequest.Cut | erlang_interface.c:393-395 | a module or function name keeps its clamped length |
| MapReduceRequest.RequestSize | erlang_interface.c:357-425 | the final `index`: 132 bytes of tags, headers and literal atoms plus the arguments, with the two names clamped; JobBytes, EncodeMapReduce and Client.PacketFitsExactly use it |
| MapReduceRequest.InputsTerm | erlang_interface.c:363-376 | the term `{inputs, [{Bucket, Key}]}` with two binaries; InputsEncoding states that the calls write it |
| MapReduceRequest.ModFunTerm | erlang_interface.c:388-395 | the term `{modfun, Module, Function}` with the names cut as ei_encode_atom cuts them; ModFunEncoding states that the calls write it |
| MapReduceRequest.WalkArgsTerm | erlang_interface.c:397-410 | the list of the five argument binaries, in the C's order; WalkArgsEncoding states that the calls write it |
| MapReduceRequest.QueryTerm | erlang_interface.c:378-415 | the term `{query, [{map, ModFun, WalkArgs, true}]}`; QueryEncoding states that the calls write it |
| MapReduceRequest.TimeoutTerm | erlang_interface.c:417-422 | the term `{timeout, 5000}`, 5000 as ei_encode_long classifies it; TimeoutEncoding states that the calls write it |
| MapReduceRequest.MapRedTerm | erlang_interface.c:357-425 | the job term, the list of the inputs, query and timeout terms; JobEncoding states that it is well formed and that the calls write it after the version byte, TermDecoder.DecodeEncode that it reads back |
| MapReduceRequest.InputsBytes | erlang_interface.c:363-376 | the inputs group has 29 bytes plus the bucket and key |
| MapReduceRequest.ModFunBytes | erlang_interface.c:388-395 | the modfun tuple has 17 bytes plus the clamped module and function names |
| MapReduceRequest.WalkArgsBytes | erlang_interface.c:397-410 | the walk argument list has 31 bytes plus its five strings |
| MapReduceRequest.QueryBytes | erlang_interface.c:378-415 | the query group has 79 bytes plus the names and strings it holds |
| MapReduceRequest.TimeoutBytes | erlang_interface.c:417-422 | the timeout group has 17 bytes |
| MapReduceRequest.JobBytes | erlang_interface.c:357-425 | the job has RequestSize bytes: 132 plus the arguments' lengths, with the atom names clamped |
| MapReduceRequest.InputsEncoding | erlang_interface.c:363-376 | the inputs calls write the encoding of `{inputs, [{Bucket, Key}]}` |
| MapReduceRequest.ModFunEncoding | erlang_interface.c:388-395 | the modfun calls write the encoding of `{modfun, Module, Function}`, the names clamped |
| MapReduceRequest.WalkArgsEncoding | erlang_interface.c:397-410 | the walk calls write the encoding of the list of the five binaries |
| MapReduceRequest.QueryEncoding | erlang_interface.c:378-415 | the query calls write the encoding of `{query, [{map, ModFun, WalkArgs, true}]}` |
| MapReduceRequest.TimeoutEncoding | erlang_interface.c:417-422 | the timeout calls write the encoding of `{timeout, 5000}` |
| MapReduceRequest.JobEncoding | erlang_interface.c:357-425 | `buf[..index]` is the version byte followed by the encoding of the whole well-formed job term |
| MapReduceRequest.EncodeInputs | erlang_interface.c:363-376 | the calls advance the index by the group's length and store exactly its bytes |
| MapReduceRequest.EncodeModFun | erlang_interface.c:388-395 | the same for the modfun tuple |
| MapReduceRequest.EncodeWalkArgs | erlang_interface.c:397-410 | the same for the walk argument list |
| MapReduceRequest.EncodeQuery | erlang_interface.c:378-415 | the same for the query group |
| MapReduceRequest.EncodeTimeout | erlang_interface.c:417-422 | the same for the timeout group |
| MapReduceRequest.EncodeMapReduce | erlang_interface.c:357-425 | from offset 0, `index` ends at RequestSize and `buf` holds the job's bytes there, the rest unchanged |
| Response.ReadStep | erlang_interface.c:331-338 | read returns -1 on a failure, otherwise the number of bytes it stores, which is at most the number asked for |
| Response.ReadStepAvailable | erlang_interface.c:334 | a read that returns bytes returns the next bytes of the stream, as many as asked when the delivery has them, and the stream goes on after them |
| Response.BlockSize | erlang_interface.c:494-495 | the block asked for is min(size_to_receive, 1024), positive and at most size_to_receive |
| Response.Drain | erlang_interface.c:492-520 | the loop does nothing once size_to_receive is not positive |
| Response.DrainAccounting | erlang_interface.c:492-520 | every block is non-empty and at most 1024 bytes; the loop completes exactly when the blocks add up to size_to_receive, and otherwise it stops short |
| Response.DrainIsChunkingIndependent | erlang_interface.c:492-520 | however the peer splits its bytes, the loop receives the first size_to_receive bytes of the stream, and completes exactly when the stream holds that many |
| Response.LoopFileLength | erlang_interface.c:505-511 | in file mode one byte is dropped, the last one, exactly when the loop completes |
| Response.Padded | erlang_interface.c:445 | packet_recv after the memset and the first read is still 1024 bytes |
| Response.PaddedPrefix | erlang_interface.c:445 | the first read's bytes start packet_recv, and zeros follow them |
| Response.SignedChar | erlang_interface.c:461 | a `char` byte read as a signed value in [-128, 128), congruent to the byte mod 256 |
| Response.MakeWord | erlang_interface.c:284 | MAKEWORD puts the low byte of `a` under the low byte of `b` |
| Response.MakeLong | erlang_interface.c:285 | MAKELONG is congruent mod 2^32 to the low word plus 2^16 times the high word |
| Response.DeclaredLength | erlang_interface.c:464 | size_to_receive as the C computes it from bytes 18-21 with MAKEWORD, MAKELONG and signed chars; DeclaredLengthIsBigEndian states its value |
| Response.DeclaredLengthIsBigEndian | erlang_interface.c:464 | size_to_receive is bytes 18-21 read big-endian as a signed 32-bit number, which is the plain big-endian value when byte 18 is below 0x80 |
| Response.MarkersOk | erlang_interface.c:453-458 | the first-chunk test: bytes 9, 10 and 14 are the version magic, the list tag and 2; RespondEarlyOutcomes and ShortFirstChunkRejected state its effect |
| Response.Finish | erlang_interface.c:499-523 | the result once the loop has ended: ret_size when it completed, -1 when the peer closed, error() when a read failed; RespondReturnsDeclaredSize states when each happens |
| Response.FileReply | erlang_interface.c:474-523 | the outcome, ret_code, file and memory past the checks when save_to_file is given; DeliverToFile is the code shown to produce it, and FileGetsOneByteLess and FileMissesFirstChunkEnd state its file |
| Response.MemoryReply | erlang_interface.c:485-523 | the same when save_to_file is NULL; DeliverToMemory is the code shown to produce it, and MemoryRestartsAtZero states its memory |
| Response.Respond | erlang_interface.c:444-523 | the outcome, ret_code, file and memory of the whole receive side, from the first read on; ReceiveResponse is the code shown to produce it, and its promises are RespondEarlyOutcomes, RespondReturnsDeclaredSize, RespondClosesFile, FileGetsOneByteLess, FileMissesFirstChunkEnd and MemoryRestartsAtZero |
| Response.RespondEarlyOutcomes | erlang_interface.c:445-480 | the early results: error() on a failed read; -1 on a read of 0; -2 on a marker mismatch; -3 when the file cannot be opened for a positive size. `*ret_code` is set, to byte 16 as a signed char, exactly when the markers match. Before that point nothing else changes |
| Response.ShortFirstChunkRejected | erlang_interface.c:453-458 | a first chunk of at most 14 bytes is rejected with -2 |
| Response.RespondReturnsDeclaredSize | erlang_interface.c:464-523 | the call returns the declared size exactly when the stream holds the rest of it, however the peer splits it; otherwise it returns -1 or ends in error() |
| Response.RespondClosesFile | erlang_interface.c:499-503 | the function's own `fclose` is skipped exactly when the file was opened and a read in the loop fails; `error()` then ends the process, and `exit` closes the file |
| Response.FileGetsOneByteLess | erlang_interface.c:481-510 | whenever a positive size completes and the first chunk does not run past it, the file holds one byte less than declared |
| Response.FileMissesFirstChunkEnd | erlang_interface.c:481-482 | when the loop runs, the byte missing from the file is the last byte of the first chunk |
| Response.MemoryRestartsAtZero | erlang_interface.c:485-518 | in memory mode the loop's bytes start `response` again from offset 0; the first chunk's payload survives only beyond them, and the rest of the buffer is unchanged |
| Response.Connection.Send | erlang_interface.c:322-329 | write returns the connection's count; a positive count sends that prefix of the buffer, at most `len` bytes |
| Response.Connection.Receive | erlang_interface.c:331-338 | read returns and stores what ReadStep gives, from offset 0 of the buffer, and consumes it |
| Response.File.Open | erlang_interface.c:479-480 | fopen in "wb" mode either fails, changing nothing, or leaves the file open and empty |
| Response.File.Write | erlang_interface.c:481-482 | fwrite appends the bytes |
| Response.File.Close | erlang_interface.c:522 | fclose closes the file and keeps its bytes |
| Response.Clear | erlang_interface.c:497 | memset zeroes the whole buffer |
| Response.NextBlock | erlang_interface.c:497-498 | the next read of size_block bytes, stored at the start of packet_recv |
| Response.FileTurn | erlang_interface.c:494-519 | one turn of the file loop: a read that returns bytes extends the file by the block (its last byte dropped when it completes the size); a read of 0 closes the file |
| Response.ReceiveToFile | erlang_interface.c:492-520 | the file loop receives Drain's blocks; the file gains exactly the loop's file bytes, and stays open unless the peer closed the connection |
| Response.MemoryTurn | erlang_interface.c:494-519 | one turn of the memory loop: a read that returns bytes copies the block to `response[total_size]` |
| Response.ReceiveToMemory | erlang_interface.c:492-520 | the memory loop receives Drain's blocks and stores them one after another from `response[0]`, the rest unchanged |
| Response.ReceiveResponse | erlang_interface.c:444-523 | from the first read on, the result, `*ret_code`, the file, `response` and the unread stream are those Respond describes |
| Response.DeliverToFile | erlang_interface.c:474-523 | the file path after the checks: -3 when fopen fails; otherwise the first chunk's payload, then the loop's bytes, and the result of the loop |
| Response.DeliverToMemory | erlang_interface.c:485-523 | the memory path after the checks: the first chunk's payload at offset 0, then the loop's blocks from offset 0, and the result of the loop |
| Client.RequestPacket | erlang_interface.c:426-435 | the framed request has 4 + 2 + the varint's length + the job's length + 29 bytes |
| Client.PacketFitsExactly | erlang_interface.c:347-348 | the job's length always takes a two-byte varint, so the packet fits `packet_send` exactly when the job has at most 2011 bytes |
| Client.RequestPacketDecodes | erlang_interface.c:357-435 | the peer reads from the packet: the length of the rest; 0x17 0x0A; a varint announcing exactly the job's bytes; and in those bytes the version magic and then the job term, followed by the content type |
| Client.BuildRequest | erlang_interface.c:347-435 | `index_packet + 4` bytes of the zeroed `packet_send` hold the framed request for the arguments |
| Client.RiakMapReduceRequest | erlang_interface.c:343-524 | the peer receives the prefix of the packet that write reports. A failed write ends in error() and a write of 0 returns -1, with nothing else changed. Otherwise the reply is the one Respond describes |

## Left out

- `hex_dump` (erlang_interface.c:225-274) and its two calls: they only print diagnostics.
- `connect_`, `error` and `main`: sockets, name lookup, command-line arguments and process exit. The exit that `error()` causes is the outcome `Exit`; that `exit` flushes and closes the open file is not modelled, and `fileOpen` records only that the function skipped its own `fclose`.
- The `write` and `read` system calls on the global `socket_handle` are replaced by a `Connection` object. It holds the count `write` returns and the sequence of deliveries `read` returns. A delivery longer than the read leaves its tail for the next read.
- stdio's `fopen`, `fwrite` and `fclose` are replaced by the `File` object. Whether `fopen` succeeds is a field of it. A failing `fwrite` is not modelled, because the code does not check its result.
- Response.Connection.Send: a short write is not retried, and the peer receives the prefix `write` reports, as the code leaves it.
- Client.RiakMapReduceRequest: requires the job and the packet to fit the 2048-byte `buf` and `packet_send` (PacketFits). The code does not check this and overflows them. PacketFits also requires each of the nine arguments to hold no 0 byte, as a C string measured by `strlen` does.
- Response.ReceiveResponse: requires WellSized, that is:
  - an accepted first chunk holds at least the 22-byte header and the terminator;
  - in memory mode, `response` holds the first chunk's payload and the rest of the declared size.

  The code checks neither.
- Response.ReceiveResponse: `size_to_receive -= recvd` is computed on unbounded integers. The `int` overflow it has for a declared size near -2^31 is not modelled.
- Response.ReceiveToFile: does not track `total_size` and `i`, which the file loop updates but never reads.
- Response.ReceiveToMemory: does not track `i`. The loop is split by mode into ReceiveToFile and ReceiveToMemory, because `fp` does not change inside it.
- The memset of `packet_recv` at erlang_interface.c:355 is the zero-filled allocation of the array in ReceiveResponse.
- Platform assumptions: `char` is signed and `long` is 64 bits. A right shift of a negative `int` is arithmetic. The `(int)` conversion in MAKELONG is two's complement.
