# gala-gopher probe core, modelled in Dafny

gala-gopher is an eBPF-based observability agent. This project models the
sequential logic at the centre of several of its probes. It proves what that
logic promises, without the kernel programs, the threads or the `/proc` and
shell I/O around it.

- **L7 byte-stream parsing** (`DataStream`, `BinaryDecoder`, `HttpParser`).
  - `RawData` is a captured chunk with its `current_pos` cursor.
  - There are three bounded caches: 1024 frames, 50 raw chunks and 1024 records.
  - The big-endian cursor extractors of `binary_decoder.c` are methods on the chunk.
  - The HTTP/1.x framing of `http_parser.c` as its comments and the HTTP/1.1 rules describe it:
    - the Content-Length body (checked before Transfer-Encoding, as the code does);
    - the chunked transfer coding of section 7.1 of RFC 9112, up to and including the last-chunk line (trailers and the final CRLF are not consumed, as in the code);
    - the response rules for 1xx, 204 and 304, and 101 Switching Protocols, which ends the stream (section 15.2.2 of RFC 9110);
    - the `\r\n\r\n` re-synchronisation of `http_find_frame_boundary`.
  - Where the code as written departs from that framing, `HttpParserAsWritten` follows the code line by line, and a lemma shows each departure (see "## Findings").
- **Stack sampling** (`StackProbe`, from `stackprobe.c`).
  - The bounded raw-sample buffer.
  - The process cache: a FIFO-aged array mirror plus a keyed map.
  - Folded-stack strings (`a; b; c`) and the per-flame-graph histograms.
  - The conversion of every sample of a period (stack map lookup, deepest-first frame walk, `do_idle` skip).
  - The timeout gate, the statistics reset that keeps two counters, and the even/odd choice between the two stack maps.
- **Snooper configuration** (`Snooper`, from `snooper.c`).
  - The probe-range name table and its case-insensitive lookup.
  - Parsing a JSON description into at most `SNOOPER_MAX` (100) configurations, and printing it back.
  - The object slot table: lowest idle slot, generators per configuration type, process exec and exit.
- **Utility formatting** (`Util`, from `util.c`).
  - IPv4 dotted quads.
  - IPv6 text with leading zeros removed per group (section 4.1 of RFC 5952, without `::` compression).
  - The IPv4-mapped form of section 2.5.5.2 of RFC 4291.
  - The trailing-newline strip, the digit check and the bounded `__snprintf` append.
- **Process metrics** (`SystemProcs`, from `system_procs.c`).
  - The 64-hex-digit container id check and the pid directory check.
  - The `:`-token stat dispatch and the `/proc/<pid>/io` and `smaps_rollup` line scans.
  - The quote-escaping copy of `/proc/<pid>/cmdline`.
  - The process table keyed by (pid, start time).

`CStr` holds the C library behaviour the sources rely on: `atoi` and `atoll` (saturating as `strtol` does, then cut to an int for `atoi`), case-insensitive comparison, hex digits, `memmem`-style search, and the `(u32)`/`(u64)` casts. `Wrappers` holds `Option`.

Code that changes state in place is modelled as classes with `modifies` clauses and loops with invariants:
- `RawData` and the caches;
- `StackTrace` and `RawStackTrace`;
- `Snooper.Probe`'s slot arrays;
- `ProcInfo` and `ProcTable`;
- the `ip6_str` compression loop.

Each method is proved against a specification function, and the properties are proved about that function. Things the code reads from outside are parameters:
- the header tokenizer;
- the symbol tables;
- the stack maps' contents;
- `/proc` contents;
- the regex matcher;
- the container table;
- the clock.

## Model

| member | source | states |
|---|---|---|
| DataStream.RawData.constructor | src/probes/extends/ebpf.probe/src/l7probe/include/data_stream.h:71-79 | a new chunk holds its bytes and timestamp with the cursor at 0 and no flags |
| DataStream.RawData.Advance | src/probes/extends/ebpf.probe/src/l7probe/include/data_stream.h:71-79 | moving the cursor by n keeps it within [0, data_len] and drops exactly n bytes from the unconsumed rest |
| DataStream.RawData.MarkInvalid | src/probes/extends/ebpf.probe/src/l7probe/include/data_stream.h:66-79 | setting RAW_DATA_FLAGS_INVALID ORs the bit into the flags and leaves the cursor alone |
| DataStream.FrameBuf.constructor | src/probes/extends/ebpf.probe/src/l7probe/include/data_stream.h:59-64 | an empty frame cache: size 0, read position 0 |
| DataStream.FrameBuf.Push | src/probes/extends/ebpf.probe/src/l7probe/include/data_stream.h:59-64 | a frame is stored at frame_buf_size only while fewer than 1024 are held, and earlier frames are untouched; a full cache changes nothing |
| DataStream.FrameBuf.Next | src/probes/extends/ebpf.probe/src/l7probe/include/data_stream.h:59-64 | frames are handed out in order from current_pos, and none once current_pos reaches frame_buf_size |
| DataStream.RawBuf.constructor | src/probes/extends/ebpf.probe/src/l7probe/include/data_stream.h:104-108 | an empty raw cache |
| DataStream.RawBuf.Add | src/probes/extends/ebpf.probe/src/l7probe/include/data_stream.h:104-108 | a chunk is appended while fewer than 50 are held; a full cache drops its oldest chunk first, so the newest 50 are kept in arrival order |
| DataStream.RawBuf.ShiftOut | src/probes/extends/ebpf.probe/src/l7probe/include/data_stream.h:104-108 | dropping the oldest chunk of a full cache leaves the other 49 in order, one slot toward the front |
| DataStream.Latency | src/probes/extends/ebpf.probe/src/l7probe/include/data_stream.h:84-87 | the latency is response minus request timestamp in u64 arithmetic: adding it to the request time gives the response time modulo 2^64, and exactly when the response is not earlier |
| DataStream.RecordBuf.constructor | src/probes/extends/ebpf.probe/src/l7probe/include/data_stream.h:92-99 | an empty record cache with err, req and resp counts at 0 |
| DataStream.RecordBuf.AddRecord | src/probes/extends/ebpf.probe/src/l7probe/include/data_stream.h:92-99 | a matched pair is stored with its latency only while fewer than 1024 records are held; earlier records and the three counters are untouched |
| DataStream.Stream.constructor | src/probes/extends/ebpf.probe/src/l7probe/include/data_stream.h:113-118 | a data stream is one protocol tag with its own empty raw and frame caches |
| BinaryDecoder.BigEndian | src/probes/extends/ebpf.probe/src/l7probe/protocol/utils/binary_decoder.c:37-45 | the fold res = (res << 8) \| byte stays below 256^n for n bytes |
| BinaryDecoder.DecodeEncode | src/probes/extends/ebpf.probe/src/l7probe/protocol/utils/binary_decoder.c:37-45 | decoding the n-byte big-endian encoding of v gives v back |
| BinaryDecoder.EncodeDecode | src/probes/extends/ebpf.probe/src/l7probe/protocol/utils/binary_decoder.c:37-45 | encoding the decoded value of n bytes gives the same bytes back |
| BinaryDecoder.SignedRoundTrip | src/probes/extends/ebpf.probe/src/l7probe/protocol/utils/binary_decoder.c:37-45 | the two's complement reading of a signed value's bit pattern is that value |
| BinaryDecoder.BigEndianBytesToInt | src/probes/extends/ebpf.probe/src/l7probe/protocol/utils/binary_decoder.c:37-45 | the accumulating loop computes the big-endian value of the first sizeof(T) bytes, in the range of T |
| BinaryDecoder.ValueOfEncoding | src/probes/extends/ebpf.probe/src/l7probe/protocol/utils/binary_decoder.c:37-45 | every value of each of the six integer types reads back from its own big-endian encoding |
| BinaryDecoder.ExtractChar | src/probes/extends/ebpf.probe/src/l7probe/protocol/utils/binary_decoder.c:18-29 | with at least one byte left, the next byte is returned and the cursor moves by 1; otherwise NEEDS_MORE_DATA with cursor and output unchanged |
| BinaryDecoder.ExtractInt | src/probes/extends/ebpf.probe/src/l7probe/protocol/utils/binary_decoder.c:69-78 | with at least sizeof(T) bytes left, the big-endian value of the next sizeof(T) bytes is returned and the cursor moves by sizeof(T); otherwise NEEDS_MORE_DATA with nothing changed |
| BinaryDecoder.ExtractPrefixBytesString | src/probes/extends/ebpf.probe/src/l7probe/protocol/utils/binary_decoder.c:95-116 | when the copy is allocated, true with the decode_len bytes at the cursor and the cursor moved by the given offset; when the allocation fails, false with the cursor and output unchanged |
| BinaryDecoder.ExtractString | src/probes/extends/ebpf.probe/src/l7probe/protocol/utils/binary_decoder.c:118-129 | exactly decode_len bytes are returned and consumed; NEEDS_MORE_DATA when fewer remain and INVALID when the copy cannot be allocated, both with nothing changed |
| BinaryDecoder.ExtractStrUntilChar | src/probes/extends/ebpf.probe/src/l7probe/protocol/utils/binary_decoder.c:131-153 | returns the bytes strictly before the first search_char and consumes them and the character; NOT_FOUND, with the cursor unmoved, iff the character is absent from the unconsumed bytes; INVALID with nothing changed when the copy cannot be allocated |
| BinaryDecoder.ExtractStrUntilStr | src/probes/extends/ebpf.probe/src/l7probe/protocol/utils/binary_decoder.c:155-172 | returns the unconsumed bytes before the first occurrence of the delimiter and advances by their length plus the delimiter's; NOT_FOUND iff no occurrence remains; INVALID with nothing changed when the copy cannot be allocated |
| BinaryDecoder.ExtractPrefixIgnore | src/probes/extends/ebpf.probe/src/l7probe/protocol/utils/binary_decoder.c:175-183 | skips prefix_len bytes, or returns NEEDS_MORE_DATA with no change when fewer remain |
| HttpParser.FirstKeyIndex | src/probes/extends/ebpf.probe/src/l7probe/protocol/http1.x/parser/http_parser.c:107-108 | get_1st_value_by_key finds the first header with the key, and none when no header carries it |
| HttpParser.HexOfValue | src/probes/extends/ebpf.probe/src/l7probe/protocol/http1.x/parser/http_parser.c:54 | simple_hex_atoi reads back the hex text of every chunk size |
| HttpParser.ChunkSizeUncut | src/probes/extends/ebpf.probe/src/l7probe/protocol/http1.x/parser/http_parser.c:48-51 | a size line without ';', or whose only ';' is its last character, is read whole |
| HttpParser.ChunkSizeCut | src/probes/extends/ebpf.probe/src/l7probe/protocol/http1.x/parser/http_parser.c:48-51 | a chunk extension after ';' is dropped before the size is read |
| HttpParser.LineEndFinds | src/probes/extends/ebpf.probe/src/l7probe/protocol/http1.x/parser/http_parser.c:41 | the CRLF search is find_str of "\r\n" |
| HttpParser.ChunkedBodyNoSize | src/probes/extends/ebpf.probe/src/l7probe/protocol/http1.x/parser/http_parser.c:41-44 | with no CRLF in the 2048-byte window the result is NEEDS_MORE_DATA when at most 2048 bytes are left where the size line starts and INVALID otherwise; a size token that is not hex is INVALID (see ChunkSize under Left out) |
| HttpParser.ChunkDataCases | src/probes/extends/ebpf.probe/src/l7probe/protocol/http1.x/parser/http_parser.c:60-74 | size 0 ends the body; data short of size + 2 bytes needs more data; data not followed by CRLF is invalid; otherwise decoding resumes after the CRLF |
| HttpParser.ChunkedRound | src/probes/extends/ebpf.probe/src/l7probe/protocol/http1.x/parser/http_parser.c:38-81 | one round of the loop consumes one size line and one chunk and adds the chunk size to the total |
| HttpParser.ScanChunked | src/probes/extends/ebpf.probe/src/l7probe/protocol/http1.x/parser/http_parser.c:38-81 | the byte-walking loop computes the chunked decoding of the unconsumed bytes |
| HttpParser.ParseChunked | src/probes/extends/ebpf.probe/src/l7probe/protocol/http1.x/parser/http_parser.c:31-90 | a complete chunked body is consumed exactly and its size recorded as the sum of chunk sizes; incomplete or invalid input leaves the cursor unmoved |
| HttpParser.ChunkedRoundTrip | src/probes/extends/ebpf.probe/src/l7probe/protocol/http1.x/parser/http_parser.c:31-90 | decoding the chunked encoding of any list of non-empty chunks, whatever follows, consumes exactly the encoding and records the total data size |
| HttpParser.LastChunkDecodes | src/probes/extends/ebpf.probe/src/l7probe/protocol/http1.x/parser/http_parser.c:57-61 | the last-chunk line "0" CRLF ends the body right after it |
| HttpParser.ContentLengthOfDecimal | src/probes/extends/ebpf.probe/src/l7probe/protocol/http1.x/parser/http_parser.c:109-114 | a Content-Length written as the decimal digits of a value below 2^31 reads as that value |
| HttpParser.ContentLengthTruncated | src/probes/extends/ebpf.probe/src/l7probe/protocol/http1.x/parser/http_parser.c:110 | atoi returns an int: "4294967297" reads as 1, "4294967296" as 0 and is refused, and "2147483648" turns negative and is sign-extended to 2^64 - 2^31 |
| HttpParser.ContentLengthOfLarge | src/probes/extends/ebpf.probe/src/l7probe/protocol/http1.x/parser/http_parser.c:110-111 | a decimal value below 2^63 reads as its 32-bit truncation sign-extended to size_t, and is refused when that truncation is 0 |
| CStr.CAtoi | src/probes/extends/ebpf.probe/src/l7probe/protocol/http1.x/parser/http_parser.c:110 | atoi is (int) strtol: the result is always in the range of int, and it is the decimal reading of the text whenever that reading is in range |
| HttpParser.ContentLengthBody | src/probes/extends/ebpf.probe/src/l7probe/protocol/http1.x/parser/http_parser.c:109-121 | INVALID iff the value is malformed; NEEDS_MORE_DATA iff the length N exceeds the bytes left; otherwise SUCCESS with the next N bytes as body, body_size N and N consumed |
| HttpParser.FramedBody | src/probes/extends/ebpf.probe/src/l7probe/protocol/http1.x/parser/http_parser.c:107-135 | Content-Length, when present, decides the framing before Transfer-Encoding |
| HttpParser.RequestBody | src/probes/extends/ebpf.probe/src/l7probe/protocol/http1.x/parser/http_parser.c:103-142 | a request with neither Content-Length nor Transfer-Encoding has an empty body and succeeds |
| HttpParser.ResponseBody | src/probes/extends/ebpf.probe/src/l7probe/protocol/http1.x/parser/http_parser.c:157-226 | only status 101 ends the stream, with an empty body, and the body never takes more than the bytes left |
| HttpParser.RequestContentLengthFraming | src/probes/extends/ebpf.probe/src/l7probe/protocol/http1.x/parser/http_parser.c:107-121 | a request whose Content-Length is the body's length yields exactly that body and consumes it; with any proper prefix of it received the result is NEEDS_MORE_DATA |
| HttpParser.RequestChunkedFraming | src/probes/extends/ebpf.probe/src/l7probe/protocol/http1.x/parser/http_parser.c:124-135 | a chunked request without Content-Length consumes exactly its encoding and records the data size |
| HttpParser.ContentLengthFirst | src/probes/extends/ebpf.probe/src/l7probe/protocol/http1.x/parser/http_parser.c:107-135 | Content-Length wins over Transfer-Encoding for requests, and for responses not followed by a new status line |
| HttpParser.ResponseWithoutLength | src/probes/extends/ebpf.probe/src/l7probe/protocol/http1.x/parser/http_parser.c:202-225 | a response with no length header gets an empty body: 101 returns EOS, every other status (1xx, 204, 304 or any other) SUCCESS |
| HttpParser.ApplyBody | src/probes/extends/ebpf.probe/src/l7probe/protocol/http1.x/parser/http_parser.c:119-121 | recording a body moves the cursor past exactly the bytes it took |
| HttpParser.ParseRequestBody | src/probes/extends/ebpf.probe/src/l7probe/protocol/http1.x/parser/http_parser.c:103-142 | the request body rules applied at the cursor: state, body and body_size as RequestBody says, cursor advanced by what it consumed |
| HttpParser.ParseResponseBody | src/probes/extends/ebpf.probe/src/l7probe/protocol/http1.x/parser/http_parser.c:157-226 | the response body rules applied at the cursor, including the HEAD-response pre-parse of a following status line |
| HttpParser.ParseRequestFrame | src/probes/extends/ebpf.probe/src/l7probe/protocol/http1.x/parser/http_parser.c:235-270 | the state, message and cursor advance are those of RequestFrame on the unconsumed bytes and the tokenizer's header result |
| HttpParser.ParseResponseFrame | src/probes/extends/ebpf.probe/src/l7probe/protocol/http1.x/parser/http_parser.c:280-315 | the state, message and cursor advance are those of ResponseFrame, with the following bytes pre-parsed for the HEAD-response test |
| HttpParser.RequestFrameOutcomes | src/probes/extends/ebpf.probe/src/l7probe/protocol/http1.x/parser/http_parser.c:235-270 | a request frame is SUCCESS, INVALID or NEEDS_MORE_DATA; it consumes nothing exactly when the header block did not parse; SUCCESS carries the header fields, byte size and timestamp; a failure records no body and consumes at most the header block |
| HttpParser.ResponseFrameOutcomes | src/probes/extends/ebpf.probe/src/l7probe/protocol/http1.x/parser/http_parser.c:280-315 | the same for responses, where END_OF_STREAM arises only for status 101 and consumes exactly the header block |
| HttpParser.RequestFrameContentLength | src/probes/extends/ebpf.probe/src/l7probe/protocol/http1.x/parser/http_parser.c:235-270 | a header block followed by the Content-Length body it announces is one SUCCESS frame of exactly the header block and that body |
| HttpParser.ParseFrame | src/probes/extends/ebpf.probe/src/l7probe/protocol/http1.x/parser/http_parser.c:326-345 | an unknown message type is INVALID with nothing consumed; a request or response gives the state, frame and cursor of RequestFrame or ResponseFrame, with the frame's type and timestamp |
| HttpParser.LastStart | src/probes/extends/ebpf.probe/src/l7probe/protocol/http1.x/parser/http_parser.c:403-417 | the loop over the patterns finds the last position where any start pattern begins |
| HttpParser.LastStartOfSpec | src/probes/extends/ebpf.probe/src/l7probe/protocol/http1.x/parser/http_parser.c:403-417 | the position found is a pattern start with no start after it, and none is found exactly when no pattern occurs |
| HttpParser.FindFrameBoundary | src/probes/extends/ebpf.probe/src/l7probe/protocol/http1.x/parser/http_parser.c:352-428 | MESSAGE_UNKNOW gives nothing; otherwise the index and final cursor are BoundaryFrom: marker by marker from the entry cursor, the closest start before the first marker that has one |
| HttpParser.BoundarySpec | src/probes/extends/ebpf.probe/src/l7probe/protocol/http1.x/parser/http_parser.c:389-427 | nothing is found exactly when no "\r\n\r\n" marker after the entry cursor has a start pattern between the cursor and it; otherwise the index is the closest start before the first such marker |
| HttpParser.BoundaryFromSpec | src/probes/extends/ebpf.probe/src/l7probe/protocol/http1.x/parser/http_parser.c:389-427 | the same for a search resumed past markers already known to have no start before them |
| HttpParser.NoStartIntoMarker | src/probes/extends/ebpf.probe/src/l7probe/protocol/http1.x/parser/http_parser.c:400-406 | a start pattern, ending in a space, cannot end inside a marker, so growing the window into the marker finds no new start |
| HttpParser.PatternsEndInSpace | src/probes/extends/ebpf.probe/src/l7probe/protocol/http1.x/parser/http_parser.c:357-363 | every request and response start pattern ends in a space |
| HttpParserAsWritten.HeaderTestRejectsAll | src/probes/extends/ebpf.probe/src/l7probe/protocol/http1.x/parser/http_parser.c:242-251 | as written, the size_t tests send -2 to NEEDS_MORE_DATA and every other header result, a block parsed in a buffer shorter than 2^64 - 2 bytes included, to INVALID, while the intended frame of a parsed block with no length header is SUCCESS |
| HttpParserAsWritten.HeaderCursorDoubles | src/probes/extends/ebpf.probe/src/l7probe/protocol/http1.x/parser/http_parser.c:254-266 | setting the cursor to the header length and then adding it again lands just past the header block only when the block started exactly its own length into the chunk; from 0 it skips the length twice |
| HttpParserAsWritten.ContentLengthAsWrittenAgrees | src/probes/extends/ebpf.probe/src/l7probe/protocol/http1.x/parser/http_parser.c:110-114 | with strcmp not returning 1, the test as written agrees with the intended one on every value except "0", which it refuses where the intended parse reads an empty body |
| HttpParserAsWritten.ContentLengthBodyKept | src/probes/extends/ebpf.probe/src/l7probe/protocol/http1.x/parser/http_parser.c:115-121 | as written a Content-Length body is recorded with SUCCESS but its bytes are not consumed, while the intended parse consumes exactly them |
| HttpParserAsWritten.RequestBodyAsWrittenCases | src/probes/extends/ebpf.probe/src/l7probe/protocol/http1.x/parser/http_parser.c:124-141 | with no Content-Length, "chunked" falls through to STATE_UNKNOWN, no Transfer-Encoding gives STATE_UNKNOWN instead of SUCCESS, and any other Transfer-Encoding reads through the uninitialised `body` |
| HttpParserAsWritten.HeadTestAcceptsAll | src/probes/extends/ebpf.probe/src/l7probe/protocol/http1.x/parser/http_parser.c:163-170 | as written any bytes after the header block that start with "HTTP" end the response with an empty body, whatever the pre-parse of them returned |
| HttpParserAsWritten.BodyStartingWithHttpDropped | src/probes/extends/ebpf.probe/src/l7probe/protocol/http1.x/parser/http_parser.c:163-188 | a response whose Content-Length body starts with "HTTP" gets an empty body as written, while the intended parse takes the whole body |
| HttpParserAsWritten.ChunkedAsWrittenOvershoots | src/probes/extends/ebpf.probe/src/l7probe/protocol/http1.x/parser/http_parser.c:57-81 | as written the loop skips each chunk twice, so on the encoding of the one chunk "abc" it reads past the 11 bytes the intended decoding consumes |
| HttpParserAsWritten.ChunkedAsWrittenEntryLength | src/probes/extends/ebpf.probe/src/l7probe/protocol/http1.x/parser/http_parser.c:36-44 | one chunk "X" then 2045 bytes without CR: 2045 bytes fit the window, so more data is needed, but as written the test compares the 2051 bytes at entry and gives STATE_INVALID |
| HttpParserAsWritten.ChunkedAsWrittenCursor | src/probes/extends/ebpf.probe/src/l7probe/protocol/http1.x/parser/http_parser.c:83-89 | as written the final cursor adds the starting position three times over and the state is STATE_UNKNOWN: a last chunk at position p > 0 moves the cursor to 3p + 3 instead of p + 3 |
| HttpParserAsWritten.FirstListedStartFindsSome | src/probes/extends/ebpf.probe/src/l7probe/protocol/http1.x/parser/http_parser.c:403-417 | the loop as written visits the first count - 1 patterns and keeps the match of the first one that occurs: it finds a start exactly when the intended search over those patterns does, and that start is one of the whole list no closer to the marker than the intended one |
| HttpParserAsWritten.FirstMatchInFindsSome | src/probes/extends/ebpf.probe/src/l7probe/protocol/http1.x/parser/http_parser.c:405-417 | over the patterns visited, the first pattern that occurs gives a start exactly when some pattern occurs, never closer to the marker than the last start |
| HttpParserAsWritten.LastResponsePatternSkipped | src/probes/extends/ebpf.probe/src/l7probe/protocol/http1.x/parser/http_parser.c:404 | with count the response list's length only "HTTP/1.1 " is tried, so "HTTP/1.0 200 OK" yields no start where its start is 0 |
| HttpParserAsWritten.EarlierListedMethodWins | src/probes/extends/ebpf.probe/src/l7probe/protocol/http1.x/parser/http_parser.c:403-417 | on "GET PUT ", with count the request list's length, the loop as written returns 0 where the start closest to the marker is 4 |
| StackProbe.AddrSymbString | src/probes/extends/ebpf.probe/src/stackprobe/stackprobe.c:323-356 | a frame name is written, prefixed "; " after the first, only when it fits strictly in the room left; the text written is always a prefix of that piece |
| StackProbe.FoldAllSpec | src/probes/extends/ebpf.probe/src/stackprobe/stackprobe.c:358-395 | the step-by-step folding keeps the text equal to the names so far joined with "; ", or a prefix of it after the first frame that does not fit |
| StackProbe.FoldedSpec | src/probes/extends/ebpf.probe/src/stackprobe/stackprobe.c:358-395 | the folded string of user then kernel frames, skipping address 0, succeeds iff the joined names fit, and is then exactly that join; a failed conversion keeps a shorter prefix |
| StackProbe.WriteFrames | src/probes/extends/ebpf.probe/src/stackprobe/stackprobe.c:366-392 | the frame loop computes the fold over the frames |
| StackProbe.Symbs2String | src/probes/extends/ebpf.probe/src/stackprobe/stackprobe.c:358-395 | returns 0 iff the joined names of user then kernel frames fit in the buffer, and the string is that join; -1 otherwise |
| StackProbe.FirstHolder | src/probes/extends/ebpf.probe/src/stackprobe/stackprobe.c:416-426 | finds the first enabled flame graph that already counts the string, and none when no enabled one does |
| StackProbe.HistoAddSpec | src/probes/extends/ebpf.probe/src/stackprobe/stackprobe.c:416-438 | adding a folded stack: every enabled table before the first holder gets it with count 1, the holder's count goes up by one, later tables are untouched; with no holder every enabled table gets count 1 |
| StackProbe.RawStackTrace.constructor | src/probes/extends/ebpf.probe/src/stackprobe/stackprobe.c:286-301 | the raw buffer has room for cpus_num * PERCPU_SAMPLE_COUNT samples and holds none |
| StackProbe.RawStackTrace.Add | src/probes/extends/ebpf.probe/src/stackprobe/stackprobe.c:303-318 | below capacity the sample is appended at raw_trace_count; at capacity -1 and nothing changes |
| StackProbe.RawStackTrace.Clear | src/probes/extends/ebpf.probe/src/stackprobe/stackprobe.c:266-273 | clearing leaves no sample held |
| StackProbe.MirrorIsNewest | src/probes/extends/ebpf.probe/src/stackprobe/stackprobe.c:193-209 | appending to the mirror, with the oldest dropped at capacity, always leaves it holding the newest created entries in creation order |
| StackProbe.MirrorAddValid | src/probes/extends/ebpf.probe/src/stackprobe/stackprobe.c:179-209 | adding a new process keeps the cache map and its mirror in step |
| StackProbe.StackTrace.CacheBounded | src/probes/extends/ebpf.probe/src/stackprobe/stackprobe.c:193-209 | the cache never holds more than PROC_CACHE_MAX_COUNT processes |
| StackProbe.StackTrace.AgingProcCache | src/probes/extends/ebpf.probe/src/stackprobe/stackprobe.c:179-191 | a cached process is deleted and counted as PCACHE_DEL with result 0; an uncached one gives -1 and nothing changes |
| StackProbe.StackTrace.ShiftMirror | src/probes/extends/ebpf.probe/src/stackprobe/stackprobe.c:202-207 | the shift moves every mirror entry one slot toward index 0 and stores the new entry last |
| StackProbe.StackTrace.AddProcCacheMirror | src/probes/extends/ebpf.probe/src/stackprobe/stackprobe.c:193-209 | below capacity the entry is appended; at capacity the oldest is evicted from the mirror and from the cache, counted as PCACHE_DEL |
| StackProbe.StackTrace.CreateProcCache | src/probes/extends/ebpf.probe/src/stackprobe/stackprobe.c:218-243 | a process whose symbols load is cached, counted as PCACHE_CRT and appended to the mirror, evicting the oldest at capacity; a failed load changes nothing |
| StackProbe.StackTrace.SearchUserAddrSymb | src/probes/extends/ebpf.probe/src/stackprobe/stackprobe.c:245-260 | reports whether the process has a symbol table (cached, or loaded on a miss) and the symbol that table gives the address; nothing when it has none or the address is unknown |
| StackProbe.LiveIpsMembers | src/probes/extends/ebpf.probe/src/stackprobe/stackprobe.c:55 | the walk keeps exactly the non-zero addresses other than the 0xcccc… and 0xffff… sentinels |
| StackProbe.LiveIpsAppend | src/probes/extends/ebpf.probe/src/stackprobe/stackprobe.c:475-476 | the walk goes from the last slot down, so later slots come out first |
| StackProbe.StackTrace.KernWalk | src/probes/extends/ebpf.probe/src/stackprobe/stackprobe.c:517-534 | the kernel walk fills one slot per live address, deepest first, and returns 1 iff one of them is do_idle |
| StackProbe.StackTrace.Id2SymbsKern | src/probes/extends/ebpf.probe/src/stackprobe/stackprobe.c:502-536 | a missing stack is a map lookup error (-1); an idle stack returns 1; otherwise the slots hold the walked frames and KERN_ADDR counts the resolved ones |
| StackProbe.StackTrace.UserWalk | src/probes/extends/ebpf.probe/src/stackprobe/stackprobe.c:475-489 | the user walk fills one slot per live address with UserSlot and counts USR_ADDR and USR_ADDR_ERR: an unresolved frame gets the command as module, and for a process without symbols its address stays 0 |
| StackProbe.StackTrace.Id2SymbsUser | src/probes/extends/ebpf.probe/src/stackprobe/stackprobe.c:460-491 | a missing stack is a map lookup error (-1); otherwise the slots hold the walked frames, which for a process without symbols keep address 0 and so drop out of the fold, and the resolved and unresolved counts add up to the live frames |
| StackProbe.KernSlot | src/probes/extends/ebpf.probe/src/stackprobe/stackprobe.c:517-528 | the slot of a kernel frame keeps the frame's address, with the symbol and module the kernel table holds for it (a miss: see "## Left out") |
| StackProbe.UserSlot | src/probes/extends/ebpf.probe/src/stackprobe/stackprobe.c:475-489 | the slot of one user frame: for a process without symbol table address 0 and the command as module; an address the table holds takes its symbol and module; any other address keeps itself with the command as module |
| StackProbe.UserSlotNamed | src/probes/extends/ebpf.probe/src/stackprobe/stackprobe.c:475-489 | the slot evidently intended: always the frame's own address, named after the command when the process has no symbols |
| StackProbe.NoSymbolsFramesVanish | src/probes/extends/ebpf.probe/src/stackprobe/stackprobe.c:366-367 | for a process without symbols no user frame reaches the folded string, since every slot keeps address 0 |
| StackProbe.NamedFramesKept | src/probes/extends/ebpf.probe/src/stackprobe/stackprobe.c:475-489 | with the intended slot every live user frame reaches the folded string, in walk order, named after the command when the process has no symbols |
| StackProbe.NoSymbolsFolding | src/probes/extends/ebpf.probe/src/stackprobe/stackprobe.c:358-395 | user addresses 2 and 1 of a process "app" without symbols under kernel frame "k": as written the fold is "k", with the intended slot "app; app; k" |
| StackProbe.LiveNamesAppend | src/probes/extends/ebpf.probe/src/stackprobe/stackprobe.c:366-392 | the names the fold keeps from two runs of slots are those of the first run then the second |
| StackProbe.IdleInWalk | src/probes/extends/ebpf.probe/src/stackprobe/stackprobe.c:493-500 | a do_idle frame anywhere in the kernel stack makes the walk report idle |
| StackProbe.StackTrace.Id2Symbs | src/probes/extends/ebpf.probe/src/stackprobe/stackprobe.c:538-563 | the sample's outcome: abort on a missing map entry, skip on an idle kernel stack, otherwise the user frames as UserWalk leaves them (address 0 for a process without symbols) and the kernel frames |
| StackProbe.BlankPadding | src/probes/extends/ebpf.probe/src/stackprobe/stackprobe.c:600-612 | the blank slots after the walked frames do not change the folded string |
| StackProbe.StackTrace.CountStack | src/probes/extends/ebpf.probe/src/stackprobe/stackprobe.c:416-438 | the histogram update of add_stack_histo: tables become HistoAdd of the string, and HISTO_FOLDED counts a string already held |
| StackProbe.StackTrace.AddStackHisto | src/probes/extends/ebpf.probe/src/stackprobe/stackprobe.c:397-439 | counts HISTO_ERR when the conversion fails; an empty string returns -1 and changes no table; otherwise the folded string is added to the histograms |
| StackProbe.StackTrace.RecordSample | src/probes/extends/ebpf.probe/src/stackprobe/stackprobe.c:610-611 | a resolved sample is counted as ID2SYMBS and its folded stack recorded |
| StackProbe.StackTrace.ConvertSample | src/probes/extends/ebpf.probe/src/stackprobe/stackprobe.c:600-612 | one sample of the conversion loop moves the histograms exactly as its outcome says |
| StackProbe.RunKeepsEnabled | src/probes/extends/ebpf.probe/src/stackprobe/stackprobe.c:591-617 | converting a period never enables or disables a flame graph |
| StackProbe.StackTrace.Id2Histogram | src/probes/extends/ebpf.probe/src/stackprobe/stackprobe.c:591-617 | the loop converts the samples in order and stops at the first that aborts; P_CACHE becomes the cache size |
| StackProbe.StackTrace.IsTmout | src/probes/extends/ebpf.probe/src/stackprobe/stackprobe.c:621-634 | returns true and records the time only when at least TMOUT_PERIOD seconds have passed; otherwise nothing changes |
| StackProbe.StackTrace.ProcessLossData | src/probes/extends/ebpf.probe/src/stackprobe/stackprobe.c:636-642 | samples the perf buffer dropped are added to LOSS |
| StackProbe.StackTrace.ProcessRawStackTrace | src/probes/extends/ebpf.probe/src/stackprobe/stackprobe.c:644-657 | a stored sample counts RAW; a sample refused by a full buffer counts LOSS and changes no sample |
| StackProbe.Cleared | src/probes/extends/ebpf.probe/src/stackprobe/stackprobe.c:441-455 | clearing empties every enabled histogram and keeps which are enabled |
| StackProbe.StackTrace.ClearRunningCtx | src/probes/extends/ebpf.probe/src/stackprobe/stackprobe.c:911-928 | no sample is held, the active stack map is emptied and the other kept, histograms are cleared, and every statistic is zeroed except PCACHE_DEL and PCACHE_CRT |
| StackProbe.StackTrace.GetStackMapFd | src/probes/extends/ebpf.probe/src/stackprobe/stackprobe.c:127-134 | map A's descriptor while A is selected, otherwise map B's |
| StackProbe.StackTrace.ConvertPeriod | src/probes/extends/ebpf.probe/src/stackprobe/stackprobe.c:998-1010 | a period's conversion leaves no sample, an empty active map, the other map kept, and only PCACHE_DEL and PCACHE_CRT among the stats |
| StackProbe.StackTrace.SwitchStackmap | src/probes/extends/ebpf.probe/src/stackprobe/stackprobe.c:988-1012 | map A is selected iff convert_stack_count is even; before the timeout nothing else changes; after it the selected map is converted and emptied, the other is kept, and the raised count makes the next switch select the other map |
| StackProbe.StackTrace.constructor | src/probes/extends/ebpf.probe/src/stackprobe/stackprobe.c:753-802 | a new context: empty buffers and cache, a histogram per enabled flame graph, zero stats, map A selected |
| Snooper.RangeIndexFrom | src/lib/probe/snooper.c:132-144 | the lookup finds the first row whose name equals the range ignoring case, and none when no row does |
| Snooper.GetProbeRangeIgnoresCase | src/lib/probe/snooper.c:132-144 | get_probe_range gives the same flag for two spellings that differ only in case |
| Snooper.GetProbeRangeFirstRow | src/lib/probe/snooper.c:132-144 | the first matching row of probe_range_define gives the flag |
| Snooper.GetProbeRangeUnknown | src/lib/probe/snooper.c:132-144 | a name no row carries maps to 0 |
| Snooper.PrintedRangesExact | src/lib/probe/snooper.c:611-623 | print_snooper lists a range name exactly when a row of the probe's own type carries it with its flag bit set |
| Snooper.PrintedNothing | src/lib/probe/snooper.c:611-623 | with no flag set nothing is listed |
| Snooper.FindMemberFirst | src/lib/probe/snooper.c:392-415 | cJSON_GetObjectItem finds the first member whose key matches ignoring case, none when none does |
| Snooper.ProbeFlagsGrow | src/lib/probe/snooper.c:392-415 | parsing the probe list fails exactly on a non-string element and otherwise only adds flag bits |
| Snooper.FlagsBeforeAgrees | src/lib/probe/snooper.c:392-415 | when the probe list parses, the bits ORed element by element up to the end are the flags it describes |
| Snooper.Probe.ParseProbe | src/lib/probe/snooper.c:392-415 | ORs each listed range's flag into probe_range_flags and ignores unknown names; on a non-string element -1, with the bits of the elements before it kept |
| Snooper.NonEmpty | src/lib/probe/snooper.c:221-254 | an optional string is stored exactly when it is non-empty |
| Snooper.AppConfOf | src/lib/probe/snooper.c:438-478 | a procname element yields an application configuration only |
| Snooper.AppConfAsWrittenLosesStrings | src/lib/probe/snooper.c:237-243 | as written a non-empty comm drops the cmdline, which was read from the comm item anyway, and a debugging_dir is stored only when it is empty, so it differs from the intended one exactly when the item is present |
| Snooper.ExtendKeeps | src/lib/probe/snooper.c:198-309 | a section's elements append at most SNOOPER_MAX configurations, keep the earlier ones and add no empty comm, pod or container id |
| Snooper.ExtendBeforeAgrees | src/lib/probe/snooper.c:365-609 | when a section parses, the configurations added element by element are those it describes |
| Snooper.GaussdbAsWrittenLosesStrings | src/lib/probe/snooper.c:323-335 | as written ip, dbname, usr and pass are each stored only when empty, so all four differ from the intended configuration and only the port agrees |
| Snooper.ConfsSpecBounded | src/lib/probe/snooper.c:639-707 | a description that parses yields at most SNOOPER_MAX configurations, none of them empty |
| Snooper.LeftAgrees | src/lib/probe/snooper.c:639-707 | when a description parses, the flags and configurations parsed section by section are the ones it describes |
| Snooper.Probe.AddConf | src/lib/probe/snooper.c:198-309 | -1 iff the table already holds SNOOPER_MAX configurations; an empty comm, pod or container id is not stored; otherwise the configuration as Stored gives it (comm and container id cut by strncpy) is appended at snooper_conf_num |
| Snooper.Stored | src/lib/probe/snooper.c:198-309 | the stored configuration keeps its section and its emptiness; its comm is a prefix of at most TASK_COMM_LEN characters and its container id of at most CONTAINER_ABBR_ID_LEN, the other strings kept whole; one that fits is stored unchanged and a longer one is cut |
| Snooper.Probe.ParseSection | src/lib/probe/snooper.c:365-609 | one section's elements are added in order; -1 at the first bad element, with the configurations added before it kept |
| Snooper.Probe.ParseSections | src/lib/probe/snooper.c:656-691 | the sections are parsed in their fixed order; the configurations afterwards are those of the sections parsed up to the first failure |
| Snooper.Probe.ParseSnooper | src/lib/probe/snooper.c:639-707 | a reset and then the parse: 0 iff the description parses, with flags and configurations as it says (each as Stored keeps it) and the objects regenerated; on -1 the flags and configurations parsed so far are kept and the object table is untouched |
| Snooper.ConfJsonParses | src/lib/probe/snooper.c:611-630 | a storable configuration printed as JSON parses back to itself |
| Snooper.ExtendPrinted | src/lib/probe/snooper.c:611-630 | parsing a printed section appends that section's configurations, when each fits its buffers |
| Snooper.PrintParses | src/lib/probe/snooper.c:611-707 | parsing what print_snooper prints gives back its configurations, grouped by section, when each fits its buffers |
| Snooper.PrintSnooperParses | src/lib/probe/snooper.c:611-707 | the same round trip for print_snooper's own output |
| Snooper.FirstIdle | src/lib/probe/snooper.c:839-849 | the lowest empty object slot, and none only when every slot is filled |
| Snooper.PlacedTable | src/lib/probe/snooper.c:851-929 | placing an object into a gap-free table appends it, or fails when all SNOOPER_MAX slots are filled |
| Snooper.Probe.IdleSlot | src/lib/probe/snooper.c:839-849 | __get_snooper_obj_idle returns the lowest empty slot, or -1 |
| Snooper.Probe.AddObj | src/lib/probe/snooper.c:851-929 | the object fills the lowest empty slot with result 0, or -1 with no change when the table is full |
| Snooper.AppObjsFromProcDirs | src/lib/probe/snooper.c:931-986 | every process object the procname scan adds is named by a /proc directory whose name starts with 1-9, with pid (u32)atoi of it, positive when the name has at most nine characters |
| Snooper.AddAll | src/lib/probe/snooper.c:851-929 | adding objects one by one keeps the earlier ones and stops growing at SNOOPER_MAX |
| Snooper.Generate | src/lib/probe/snooper.c:988-1057 | a generator only appends objects and never exceeds SNOOPER_MAX |
| Snooper.Probe.RunGenerator | src/lib/probe/snooper.c:1089-1099 | runs the generator of the configuration's type on the slot table |
| Snooper.Probe.RefreshObjs | src/lib/probe/snooper.c:1075-1102 | all slots are emptied, then the generators run in configuration order up to the first failure |
| Snooper.Probe.ExecConf | src/lib/probe/snooper.c:1116-1125 | an application configuration whose comm matches adds the new pid in the lowest empty slot; others change nothing |
| Snooper.Probe.ProcExec | src/lib/probe/snooper.c:1104-1128 | the new process is added once for every matching configuration |
| Snooper.DropPidExact | src/lib/probe/snooper.c:1130-1158 | after removal no process object of the pid remains, every other slot is unchanged, and removing again changes nothing |
| Snooper.Probe.ProcExit | src/lib/probe/snooper.c:1130-1158 | __rcv_snooper_proc_exit empties every process slot of the pid and leaves all other slots unchanged |
| Snooper.Probe.constructor | src/lib/probe/snooper.c:639-707 | a new probe, with the given buffer sizes, has no configurations, no flags and an empty object table |
| Util.StripNewline | src/common/util.c:119-125 | removes one trailing newline if there is one and keeps everything else |
| Util.StripNewlineAppended | src/common/util.c:119-125 | stripping a newline that was appended gives the text back |
| Util.SplitNewline | src/common/util.c:119-125 | split_newline_symbol overwrites a final '\n' with NUL and changes nothing else |
| Util.IsDigitStr | src/common/util.c:193-202 | true iff every character is a decimal digit, so the empty string is accepted |
| Util.Snprintf | src/common/util.c:169-191 | -1 with nothing moved when bufLen <= 0 or the text does not fit, after writing as much of it as fits and a NUL; otherwise the text and a NUL are written, the position advances by its length and the remaining length is bufLen minus it; no character outside the written span changes |
| Util.WriteTruncated | src/common/util.c:180 | vsnprintf writes at most size-1 characters of the text and a NUL and nothing outside the buffer |
| Util.DottedQuadReadsBack | src/common/util.c:114-115 | a dotted quad is 7 to 15 characters and its four fields read back as the four bytes |
| Util.Hex4Value | src/common/util.c:87 | "%04x" gives four hex digits whose value is the group |
| Util.Ip6GroupsReadBack | src/common/util.c:86-87 | the formatted address splits at ':' into eight groups, each reading back as that 16-bit group, and is never longer than the formatted text |
| Util.StripZerosShortest | src/common/util.c:89-98 | each group drops its leading zeros but keeps at least one digit |
| Util.StripZerosValue | src/common/util.c:89-98 | dropping leading zeros does not change a group's value |
| Util.KeptJoin | src/common/util.c:89-101 | compressing the formatted text yields the zero-stripped groups joined with ':', with no "::" |
| Util.Compress | src/common/util.c:89-101 | the loop copies exactly the characters that survive zero suppression, then a NUL |
| Util.Ip6Str | src/common/util.c:71-103 | an IPv4-mapped address prints as the dotted quad of its last four bytes, any other as the eight zero-stripped groups |
| Util.IpStr | src/common/util.c:105-117 | AF_INET6 goes through ip6_str; any other family prints a dotted quad, truncated to the buffer |
| Util.SplitJoinColon | src/common/util.c:87 | joining groups with ':' and splitting at ':' are inverse |
| SystemProcs.ValidContainerIdIsHex | src/probes/system_infos.probe/system_procs.c:253-272 | a container id is accepted exactly when it is 64 characters, all hex digits in either case |
| SystemProcs.HexDigitsAreContainerId | src/probes/system_infos.probe/system_procs.c:253-272 | any 64 hex digits form an accepted container id |
| SystemProcs.ProcInfo.GetProcContainerId | src/probes/system_infos.probe/system_procs.c:274-288 | an unreadable cpuset gives -1; a valid id stores its first CONTAINER_ABBR_ID_LEN characters; an invalid one returns 0 and leaves container_id alone |
| SystemProcs.IsProcSubdir | src/probes/system_infos.probe/system_procs.c:110-116 | the result is 0 or -1 |
| SystemProcs.ProcSubdirOfPid | src/probes/system_infos.probe/system_procs.c:110-116 | every positive pid's directory is accepted and (u32)atoi reads a pid below 2^31 back from its name; an accepted name of at most nine characters is stored as a positive pid; "self" and "" are rejected |
| CStr.ShortNumberInRange | src/probes/system_infos.probe/system_procs.c:626-629 | a name of at most nine characters starting with 1-9 reads as a positive int: atoi neither saturates nor wraps it |
| SystemProcs.TokensExact | src/probes/system_infos.probe/system_procs.c:353-356 | strtok's tokens are non-empty, hold no separator, and together are the line without its separators |
| SystemProcs.ProcInfo.SetStat | src/probes/system_infos.probe/system_procs.c:314-340 | the index-th stat field becomes (u64)atoll of the token, atoll saturating at the range of long; an index with no case changes nothing |
| SystemProcs.ProcInfo.GetProcStat | src/probes/system_infos.probe/system_procs.c:342-361 | the tokens go to fields 0, 1, … in order, at most PROC_STAT_MAX of them; an unreadable line gives -1 and changes nothing |
| SystemProcs.OverlayAt | src/probes/system_infos.probe/system_procs.c:354-357 | each field after the scan is the value read for it, or its old value when no value reached it |
| SystemProcs.ScanLineReadsBack | src/probes/system_infos.probe/system_procs.c:418 | a line "key value rest", as /proc prints it, scans back to its key and value |
| SystemProcs.ProcInfo.SetIo | src/probes/system_infos.probe/system_procs.c:363-391 | the index-th io field becomes the value; other indexes change nothing |
| SystemProcs.ProcInfo.GetProcIo | src/probes/system_infos.probe/system_procs.c:393-429 | the fields take the numbers of the leading lines that convert, at most PROC_IO_MAX of them; an unreadable file changes nothing |
| SystemProcs.IoValuesReadBack | src/probes/system_infos.probe/system_procs.c:393-429 | lines that each print a key and a value read back as exactly those values |
| SystemProcs.ProcInfo.SetMss | src/probes/system_infos.probe/system_procs.c:431-462 | the index-th smaps field becomes the value; other indexes change nothing |
| SystemProcs.ProcInfo.ScanMss | src/probes/system_infos.probe/system_procs.c:487-507 | after skipping the first line, a value is stored only for a line whose key is the next expected key, and the expected key advances only on a match |
| SystemProcs.ProcInfo.GetProcMss | src/probes/system_infos.probe/system_procs.c:464-513 | the smaps fields after the scan, with nothing changed for a missing or empty file |
| SystemProcs.MssValuesReadBack | src/probes/system_infos.probe/system_procs.c:464-513 | lines listing the expected keys in order read back as their values |
| SystemProcs.SmapsRollupReadsPast | src/probes/system_infos.probe/system_procs.c:502 | the usual smaps_rollup text, with a Locked: line after the eight keys, reads all eight values and then compares against a ninth key the list does not have |
| SystemProcs.EscapedIsPrefix | src/probes/system_infos.probe/system_procs.c:226-247 | the bounded copy is always a prefix of the unbounded escaping |
| SystemProcs.EscapedFits | src/probes/system_infos.probe/system_procs.c:226-247 | when the escaped text fits, nothing is lost |
| SystemProcs.CmdlineRoundTrip | src/probes/system_infos.probe/system_procs.c:226-247 | for a command line without NUL, backslash or 0xFF bytes that fits, unescaping the copy gives the text back |
| SystemProcs.StoreOne | src/probes/system_infos.probe/system_procs.c:231-246 | one read stores its escaped form, or stops at a quote with no room for two characters |
| SystemProcs.CopyEscaped | src/probes/system_infos.probe/system_procs.c:226-247 | the loop fills the cleared buffer with the escaped text cut to buf_len - 1 characters, NUL after it |
| SystemProcs.ProcInfo.GetProcCmdline | src/probes/system_infos.probe/system_procs.c:211-251 | an unopenable file gives -1 and a cleared buffer; otherwise 0 and the escaped command line |
| SystemProcs.FilterMapExact | src/probes/system_infos.probe/system_procs.c:649-675 | the table holds exactly the (pid, start time) keys of the process objects, each with its comm and marked in range |
| SystemProcs.ProcTable.Find | src/probes/system_infos.probe/system_procs.c:54-64 | hash_find_proc finds the record under the key (pid, (u64)atoll(start time)), atoll saturating at the range of long, and nothing when absent |
| SystemProcs.ProcTable.RefreshFilterMap | src/probes/system_infos.probe/system_procs.c:649-675 | the table is cleared and rebuilt from the process objects among the first snooper_obj_num slots, each key once |
| SystemProcs.ProcInfo.constructor | src/probes/system_infos.probe/system_procs.c:584-610 | a new record is zero-filled |

## Left out

- `data_stream_*` functions, the request/response matcher and the HTTP header tokenizer: their implementations are not part of this model. The tokenizer is a parameter giving a header-parse result.
- DataStream.FrameBuf.Push, DataStream.RecordBuf.AddRecord: `data_stream.h` declares the frame and record caches but not what happens when one is full; `data_stream.c` is not part of this model. Refusing the new frame or record and changing nothing is the model's own policy.
- DataStream.RawBuf.Add: dropping the oldest chunk of a full raw cache follows the design of the raw cache, not code in the shown files.
- HttpParser: the framing modelled is the one the code's comments and the HTTP/1.1 rules describe. Where the code as written does otherwise, a member of `HttpParserAsWritten` follows the code and a lemma shows the difference (see "## Findings"); the rest of the model uses the intended framing.
- HttpParser: the chunked decoding stops right after the last-chunk line "0" CRLF, as `parse_chunked` does; a trailer section and the final CRLF of section 7.1 of RFC 9112 are left unconsumed.
- ChunkSize: `simple_hex_atoi` is not part of this model. The model reads a non-empty token of hex digits as its value and makes any other token INVALID (HttpParser.ChunkedBodyNoSize); the code uses whatever value `simple_hex_atoi` gives such a token, and a 0 ends the body.
- HttpParser: `find_str`, `rfind_str`, `substr`, `starts_with`, `get_array_len` and the header map of `get_1st_value_by_key` are not part of this model. The searches are modelled as first and last occurrence, and a missing CRLF in the 2048-byte window (41-44) as not found; `strlen` on binary data (66, 80), which stops at a NUL, is modelled as the remaining length.
- HttpParser.ContentLengthBody: `substr` takes a length as its third argument elsewhere in the file (41, 48, 400), yet at 119 and 185 it is passed `current_pos + content_len`; the model takes the N bytes at the cursor as the body.
- HttpParser.ChunkedOutcome: the code stores `*body` although `body` is never set (127-132, 193-197), which C leaves undefined; the model records an empty body with the decoded size, and `HttpParserAsWritten` marks the path Undefined.
- ResponseBody: the HEAD-response pre-parse (163-170) tests the size_t result with `> 0`, so -1 and -2 also count as a following response; HttpParser.ResponseBody takes only a parsed header block, and the test as written is `HttpParserAsWritten.ResponseBodyAsWritten` (see "## Findings"). The pre-parse reads into an uninitialised `resp` (164); the model uses the tokenizer's reading of the following bytes instead.
- HttpParser.FindFrameBoundary: `get_array_len` is not part of this model and is applied to a `const char **` (404). `HttpParserAsWritten.FirstListedStart` takes its result as the parameter `count`, at most the list's length, and visits the first count - 1 patterns as the loop bound says; HttpParser.FindFrameBoundary and HttpParser.LastStartOf visit every pattern (see "## Findings").
- HttpParser.ChunkedBody, HttpParser.ChunkFrom: a size line missing from the window is judged by the bytes left where that line starts, the evidently intended test; the code compares `data_len`, fixed when the walk starts (36, 43), which `HttpParserAsWritten.ChunkedWalkAsWritten` follows (see "## Findings").
- BinaryDecoder: `unconsumed_len` is not a field of `raw_data_s`. It is modelled as data_len - current_pos.
- DataStream: frame, record and protocol payloads are type parameters; the 7-way state is a datatype.
- StackProbe.StackTrace.SwitchStackmap, StackProbe.StackTrace.Id2Histogram: the histogram claim is stated only when the process cache agrees with the symbol loader (CacheAgrees). Otherwise a cached process can resolve with a table the loader would no longer give.
- StackProbe: the BPF maps are the maps `stackmapA`/`stackmapB`; `clear_stackmap` is assignment of the empty map and `update_convert_counter` is not modelled.
- StackProbe: SYMB_CACHE and `__stack_count_symb`, `record_running_ctx` printing, `wr_flamegraph`, `sleep` and the poll thread are output or threads and are not modelled.
- StackProbe.UserSlot: the user walk keeps the slot as the code writes it, so a process without symbols contributes no user frame; the slot evidently intended is StackProbe.UserSlotNamed, with StackProbe.NamedFramesKept proved about it (see "## Findings").
- StackProbe.KernSlot, StackProbe.UserSlot: `search_kern_addr_symb` and `proc_search_addr_symb` are not part of this model, so what they leave in the slot when the table lacks the address is not known. The model's slot is the address with no symbol, with an empty module for a kernel frame and the command (482) for a user frame. A helper that left the slot zeroed would have the fold skip it (367), and one that set only the address would print "(null)"; the model's empty kernel name instead fails the conversion when it comes first and adds an empty name after "; " otherwise.
- StackProbe.StackTrace.Id2SymbsKern: KERN_ADDR_ERR is only counted in debug builds (GOPHER_DEBUG), so the model does not count it.
- StackProbe: symbol resolution (`proc_load_all_symbs`, `search_kern_addr_symb`, `proc_search_addr_symb`) is maps given as inputs; malloc failures are not modelled; the u64 statistics counters are unbounded.
- StackProbe: the string buffer of `add_stack_histo` is a string whose length bound is the `symbsLen` parameter; the constants PROC_CACHE_MAX_COUNT, PERCPU_SAMPLE_COUNT, TMOUT_PERIOD, STACK_SYMBS_LEN and PERF_MAX_STACK_DEPTH are not in the shown files and are parameters.
- Snooper: `free_snooper_conf`/`free_snooper_obj` use `=` for `==` (152, 161, 176, 715); memory release is not modelled.
- Snooper: JSON is a datatype (cJSON is a foreign library); the regex matcher, the /proc directory scan, the container and pod tables and the inode lookups are the `Env` parameter; the rwlocks are not modelled.
- Snooper.Probe.ProcExec, Snooper.Probe.ProcExit: they act on one probe; the outer loop over the probes of the probe manager and `send_snooper_obj` (an IPC message) are not modelled.
- Snooper.Probe.AddConf, Snooper.Stored: TASK_COMM_LEN and CONTAINER_ABBR_ID_LEN are not in the shown files and are the `Limits` given to the probe's constructor. `strncpy` (237, 298) leaves a comm of TASK_COMM_LEN or more characters without a terminating NUL; the model stores its first TASK_COMM_LEN characters. Whether the container id buffer has room for a terminator is not known from the shown files; the model stores the first CONTAINER_ABBR_ID_LEN characters.
- Snooper.ExtendPrinted, Snooper.PrintParses, Snooper.PrintSnooperParses: the round trip is stated for configurations whose comm and container id fit their buffers (Snooper.Fits); a longer one comes back cut, as Snooper.Stored says.
- Snooper: the probe-range table's rows are not proved distinct; the lookup lemmas are stated per row instead.
- Util: `get_cur_date`, `get_cur_time`, `exec_cmd`, `copy_file`, `get_system_uuid`, `is_exist_mod`, `get_kern_version`, `is_valid_proc` and the `/proc` readers are I/O and are not modelled.
- Util.Snprintf: the formatted text is given already formatted; the `%` conversions of vsnprintf are not modelled.
- EscapeOne: SystemProcs.EscapeOne stores fgetc's result in a signed char, as on x86-64, so a 0xFF byte compares equal to EOF and ends the text (system_procs.c:243). Where char is unsigned, as on aarch64, that test never holds and 0xFF is stored as it is; the model does not cover that case.
- SystemProcs: `/proc` and shell reads are inputs (the line read, the lines of a file, the bytes of cmdline); `fd_free_per` is floating point; `output_proc_infos` is output; `get_java_proc_cmd`, `get_proc_id`, `get_proc_max_fdnum`, `get_proc_fdcnt` and `update_proc_infos` run shell commands and are not modelled.
- SystemProcs.ProcInfo.ScanMss: `%lu` is scanned into the u32 `value` (468, 498), which C leaves undefined where long is 64 bits; the model keeps the low 32 bits of the number, what a little-endian target stores.
- SystemProcs.ProcTable.RefreshFilterMap: the comm and start time of a pid come from the `ProcSys` parameter, and the record keeps only comm and the in-range flag of `init_one_proc`.
- SystemProcs: CONTAINER_ABBR_ID_LEN is not in the shown files and is a constructor parameter; the PROC_STAT index order follows the awk field order of PROC_STAT_CMD.

## Findings

| source | as written | input that shows it | evidently intended | confidence | as-written member | corrected member |
|---|---|---|---|---|---|---|
| src/probes/system_infos.probe/system_procs.c:233-239 | a quote read at index buf_len-2 is escaped into the last two cells, index becomes buf_len, and the next round writes `buf[buf_len]` | command line `ab"` into a 4-character buffer | stop at a quote when fewer than two characters of room remain | high, not executed | SystemProcs.QuoteOverrun | SystemProcs.CopyEscaped |
| src/probes/system_infos.probe/system_procs.c:502 | after all eight keys matched, `smap_key_list[smap_index]` is read with smap_index 8, one past the list | a smaps_rollup with a `Locked:` line after `SwapPss:` | stop comparing once every expected key was found | high, not executed | SystemProcs.SmapsRollupReadsPast | SystemProcs.ProcInfo.ScanMss |
| src/lib/probe/snooper.c:953 | `!__is_proc_dir(name) == -1` is never true, so non-pid entries such as `self` are scanned as processes with pid atoi(name) = 0 | /proc entry `self` whose comm matches | skip entries that are not pid directories | high, not executed | Snooper.SelfEntryAsWritten | Snooper.AppObjsFromProcDirs |
| src/probes/extends/ebpf.probe/src/l7probe/protocol/http1.x/parser/http_parser.c:242-251 | `offset` is a size_t, so `offset < -2` (here and at 292) holds for every length the header parser returns, and every parsed header block is INVALID | any request whose header block parses, e.g. `GET / HTTP/1.1` CRLF CRLF | -1 is invalid and a non-negative length builds the frame | high, not executed | HttpParserAsWritten.HeaderTestRejectsAll | HttpParser.RequestFrameOutcomes |
| src/probes/extends/ebpf.probe/src/l7probe/protocol/http1.x/parser/http_parser.c:254-266 | the cursor is set to the header length and then moved by it again (likewise at 299 and 311) | a header block of L bytes parsed at position 0 leaves the cursor at 2L | the cursor moves once past the header block | high, not executed | HttpParserAsWritten.HeaderCursorDoubles | HttpParser.RequestFrameContentLength |
| src/probes/extends/ebpf.probe/src/l7probe/protocol/http1.x/parser/http_parser.c:110-114 | `strcmp(content_len_str, "0") != 1` (here and at 177) holds for "0" itself, so `Content-Length: 0` is INVALID | `Content-Length: 0` | refuse only texts other than "0" that read as 0 | high, not executed | HttpParserAsWritten.ContentLengthAsWrittenAgrees | HttpParser.ContentLength |
| src/probes/extends/ebpf.probe/src/l7probe/protocol/http1.x/parser/http_parser.c:115-121 | the body is recorded but the cursor is not moved past it (likewise at 181-187) | `Content-Length: 3` followed by `abc` | consume the Content-Length bytes | high, not executed | HttpParserAsWritten.ContentLengthBodyKept | HttpParser.RequestContentLengthFraming |
| src/probes/extends/ebpf.probe/src/l7probe/protocol/http1.x/parser/http_parser.c:124-141 | `strcmp(transfer_encoding, "chunked")` is non-zero when the coding is not chunked, so "chunked" falls through to STATE_UNKNOWN, any other coding reads through the unset `body`, and a request without body is STATE_UNKNOWN | `Transfer-Encoding: chunked` without Content-Length | decode a chunked body, and succeed with an empty body otherwise | high, not executed | HttpParserAsWritten.RequestBodyAsWrittenCases | HttpParser.RequestChunkedFraming |
| src/probes/extends/ebpf.probe/src/l7probe/protocol/http1.x/parser/http_parser.c:163-170 | the size_t pre-parse result is tested with `> 0`, which -1 and -2 pass, so any bytes after the header block that start with "HTTP" end the response with an empty body | a response with `Content-Length: 4` and body `HTTP` | only a following status line that parses marks a HEAD response | medium, not executed | HttpParserAsWritten.BodyStartingWithHttpDropped | HttpParser.ContentLengthFirst |
| src/probes/extends/ebpf.probe/src/l7probe/protocol/http1.x/parser/http_parser.c:57-89 | chunk data is skipped at 70 and again at 77, the start position is added three times over at 83, and STATE_UNKNOWN is returned | the body `3` CRLF `abc` CRLF `0` CRLF | one skip per chunk, the cursor just past the encoding, SUCCESS | high, not executed | HttpParserAsWritten.ChunkedAsWrittenOvershoots | HttpParser.ChunkedRoundTrip |
| src/probes/extends/ebpf.probe/src/l7probe/protocol/http1.x/parser/http_parser.c:403-417 | `substr_pos` keeps the match of the first pattern in list order, and the `marker_pos` written at 413 is never read | `GET PUT ` before a `\r\n\r\n` marker | the start closest to the marker | high, not executed | HttpParserAsWritten.EarlierListedMethodWins | HttpParser.LastStartOfSpec |
| src/lib/probe/snooper.c:237-243 | cmdline is taken from the comm item (469) and stored only when comm is empty, and debugging_dir is stored only when it is empty | a procname element with comm `java`, cmdline `-jar x` and debugging_dir `/d` | store each non-empty string from its own item | high, not executed | Snooper.AppConfAsWrittenLosesStrings | Snooper.ConfJsonParses |
| src/lib/probe/snooper.c:323-335 | ip, dbname, usr and pass are each stored only when empty | a gaussdb element with dbip `10.0.0.1` | store each non-empty string | high, not executed | Snooper.GaussdbAsWrittenLosesStrings | Snooper.ConfJsonParses |
| src/probes/extends/ebpf.probe/src/stackprobe/stackprobe.c:254-256 | with no symbol table `search_user_addr_symb` returns -1 before filling the slot, so the slot's address stays 0; 482 sets only its module, and the fold skips address 0 (367), so the process's user frames vanish from the folded stack | process `app` without symbols, user addresses 1 and 2, kernel frame `k` | name each such frame after the command, as 482 does for an address the table lacks | medium, not executed | StackProbe.NoSymbolsFolding | StackProbe.NamedFramesKept |
| src/probes/extends/ebpf.probe/src/l7probe/protocol/http1.x/parser/http_parser.c:36-44 | `data_len` is fixed when the walk starts (36) and compared with the window at 43 after the walk has moved past earlier chunks | the body `1` CRLF `X` CRLF followed by 2045 bytes without CR | judge the bytes left where the size line starts: 2045 fit the window, so more data is needed | medium, not executed | HttpParserAsWritten.ChunkedAsWrittenEntryLength | HttpParser.ChunkedBodyNoSize |
| src/probes/extends/ebpf.probe/src/l7probe/protocol/http1.x/parser/http_parser.c:404 | the loop runs while `i < get_array_len(start_patterns) - 1`, and the lists at 358 and 363 have no NULL entry, so if get_array_len gives the list's length the last pattern (`PATCH `, `HTTP/1.0 `) is never tried | a response `HTTP/1.0 200 OK` before its `\r\n\r\n` marker | try every pattern of the list | medium, not executed (get_array_len is not part of this model) | HttpParserAsWritten.LastResponsePatternSkipped | HttpParser.LastStartOfSpec |
