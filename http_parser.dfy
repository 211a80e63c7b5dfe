/**
 * HTTP/1.x framing over a captured chunk: header-block handling, the choice
 * of body length (Content-Length first, then chunked transfer coding, then
 * the status rules of section 6.3 of RFC 9112), chunked decoding
 * (section 7.1 of RFC 9112) and the search for a frame boundary after a
 * desynchronisation.
 *
 * The header tokenizer, the header lookup and the hex conversion of a
 * chunk size are collaborators; they appear here as a function-valued
 * parameter and as small functions with their own contracts.
 */
module HttpParser {
  import opened Wrappers
  import opened CStr
  import opened DataStream

  const K_MAX_NUM_HEADERS: nat := 50
  /** How far parse_chunked looks for the CRLF ending a chunk-size line. */
  const SEARCH_WINDOW: nat := 2048
  const CRLF: string := "\r\n"
  const BOUNDARY_MARKER: string := "\r\n\r\n"
  const CONTENT_LENGTH: string := "Content-Length"
  const TRANSFER_ENCODING: string := "Transfer-Encoding"
  const CHUNKED: string := "chunked"

  datatype Header = Header(key: string, value: string)

  /** Outcome of the header tokenizer on the unconsumed bytes: the -2 and -1 results, or the header-block length. */
  datatype HeaderParse =
    | HeadersIncomplete
    | HeadersMalformed
    | HeadersParsed(len: nat, minorVersion: int, methodName: string, path: string,
                    status: int, msg: string, headers: seq<Header>)

  /** A successful tokenizer result consumes some of the bytes it was given, and at most K_MAX_NUM_HEADERS headers. */
  predicate Fits(hp: HeaderParse, s: seq<char>)
  {
    hp.HeadersParsed? ==> 0 < hp.len <= |s| && |hp.headers| <= K_MAX_NUM_HEADERS
  }

  /** The header tokenizer (http_parse_request_headers / http_parse_response_headers). */
  type Tokenizer = f: seq<char> -> HeaderParse | forall s :: Fits(f(s), s)
    witness (s: seq<char>) => HeadersIncomplete

  /** A parsed HTTP message (http_message). */
  datatype HttpMessage = HttpMessage(
    msgType: MessageType,
    timestampNs: nat,
    minorVersion: int,
    headers: seq<Header>,
    reqMethod: string,
    reqPath: string,
    respStatus: int,
    respMessage: string,
    headersByteSize: nat,
    body: string,
    bodySize: nat)

  /** A freshly initialised message (init_http_msg). */
  function InitMessage(): HttpMessage
  {
    HttpMessage(MessageUnknown, 0, 0, [], "", "", 0, "", 0, "", 0)
  }

  // ---------------------------------------------------------------------
  // Header lookup (get_1st_value_by_key)
  // ---------------------------------------------------------------------

  function FirstKeyIndex(headers: seq<Header>, key: string): (r: Option<nat>)
    ensures r.Some? ==> r.value < |headers| && headers[r.value].key == key
    ensures r.Some? ==> forall j :: 0 <= j < r.value ==> headers[j].key != key
    ensures r.None? ==> forall j :: 0 <= j < |headers| ==> headers[j].key != key
  {
    if |headers| == 0 then None
    else if headers[0].key == key then Some(0)
    else match FirstKeyIndex(headers[1..], key)
      case None => None
      case Some(i) => Some(i + 1)
  }

  /** The value of the first header named key. */
  function FirstValue(headers: seq<Header>, key: string): (r: Option<string>)
    ensures r.Some? <==> exists j :: 0 <= j < |headers| && headers[j].key == key
  {
    match FirstKeyIndex(headers, key)
    case None => None
    case Some(i) => Some(headers[i].value)
  }

  // ---------------------------------------------------------------------
  // Chunk sizes (simple_hex_atoi) and their encoding
  // ---------------------------------------------------------------------

  /** simple_hex_atoi: the value of a non-empty token of hex digits; None for any other token. */
  function HexValue(s: string): Option<nat>
  {
    if |s| > 0 && AllHex(s) then Some(HexFold(s)) else None
  }

  /** Lower-case hex digits of n, most significant first, without leading zeros. */
  function HexOf(n: nat): (s: string)
    ensures |s| > 0 && AllHex(s)
  {
    if n < 16 then [HexDigitOf(n)] else HexOf(n / 16) + [HexDigitOf(n % 16)]
  }

  lemma {:induction false} HexOfValue(n: nat)
    ensures HexValue(HexOf(n)) == Some(n)
  {
    if n >= 16 {
      HexOfValue(n / 16);
      var s := HexOf(n);
      var init := HexOf(n / 16);
      assert s[..|s| - 1] == init;
      assert HexFold(s) == HexFold(init) * 16 + HexDigitValue(HexDigitOf(n % 16));
    }
  }

  function Pow16(k: nat): (p: nat)
    ensures p >= 1
  {
    if k == 0 then 1 else 16 * Pow16(k - 1)
  }

  lemma {:induction false} HexOfLength(n: nat, k: nat)
    requires n < Pow16(k) && k > 0
    ensures |HexOf(n)| <= k
  {
    if n >= 16 {
      HexOfLength(n / 16, k - 1);
    }
  }

  /** Every size_t value has at most 16 hex digits. */
  lemma HexOfSizeT(n: nat)
    requires n < U64_MOD
    ensures |HexOf(n)| <= 16
  {
    assert Pow16(4) == 0x1_0000;
    assert Pow16(8) == 0x1_0000_0000 by {
      assert Pow16(8) == 16 * 16 * 16 * 16 * Pow16(4);
    }
    assert Pow16(16) == U64_MOD by {
      assert Pow16(12) == 16 * 16 * 16 * 16 * Pow16(8);
      assert Pow16(16) == 16 * 16 * 16 * 16 * Pow16(12);
    }
    HexOfLength(n, 16);
  }

  // ---------------------------------------------------------------------
  // Chunked transfer coding (section 7.1 of RFC 9112)
  // ---------------------------------------------------------------------

  datatype ChunkedResult = ChunkedDone(consumed: nat, bodySize: nat) | ChunkedNeedMore | ChunkedInvalid

  function Min(a: nat, b: nat): nat
  {
    if a < b then a else b
  }

  /** Index of the first c in s at or after from, or |s| when there is none (find_str with a one-character needle). */
  function IndexOf(s: string, c: char, from: nat): (i: nat)
    requires from <= |s|
    ensures from <= i <= |s|
    decreases |s| - from
  {
    if from == |s| || s[from] == c then from else IndexOf(s, c, from + 1)
  }

  lemma {:induction false} IndexOfSpec(s: string, c: char, from: nat)
    requires from <= |s|
    ensures IndexOf(s, c, from) < |s| ==> s[IndexOf(s, c, from)] == c
    ensures forall j :: from <= j < IndexOf(s, c, from) ==> s[j] != c
    decreases |s| - from
  {
    if from < |s| && s[from] != c {
      IndexOfSpec(s, c, from + 1);
    }
  }

  /**
   * The size a size line announces: its text up to the first ';' (an
   * extension is dropped) read as a hex number. A ';' in the last position
   * is not cut off, so the token keeps it and is not a hex number.
   */
  function ChunkSize(line: string): Option<nat>
  {
    var i := IndexOf(line, ';', 0);
    if i + 1 == |line| then None else HexValue(line[..i])
  }

  /** ChunkSize reads the whole line when it has no ';' and when its only cut would be a trailing ';'. */
  lemma ChunkSizeUncut(line: string)
    ensures ';' !in line ==> ChunkSize(line) == HexValue(line)
    ensures IndexOf(line, ';', 0) + 1 == |line| ==> ChunkSize(line) == HexValue(line) == None
  {
    IndexOfSpec(line, ';', 0);
    var i := IndexOf(line, ';', 0);
    if ';' !in line {
      assert line[..i] == line;
    }
    if i + 1 == |line| {
      assert !IsHexDigit(line[i]);
    }
  }

  /** With a ';' before the last position, ChunkSize reads the text before it. */
  lemma ChunkSizeCut(line: string, i: nat)
    requires i + 1 < |line| && line[i] == ';' && ';' !in line[..i]
    ensures ChunkSize(line) == HexValue(line[..i])
  {
    IndexOfSpec(line, ';', 0);
  }

  /** Index of the first CRLF in s at or after from (find_str with "\r\n"). */
  function LineEnd(s: seq<char>, from: nat): (r: Option<nat>)
    ensures r.Some? ==> from <= r.value && r.value + 2 <= |s|
    decreases |s| - from
  {
    if from + 2 > |s| then None
    else if s[from] == '\r' && s[from + 1] == '\n' then Some(from)
    else LineEnd(s, from + 1)
  }

  /** LineEnd is the search for the CRLF string. */
  lemma {:induction false} LineEndFinds(s: seq<char>, from: nat)
    ensures LineEnd(s, from) == FindFrom(s, CRLF, from)
    decreases |s| - from
  {
    if from + 2 <= |s| {
      assert s[from..from + 2] == CRLF <==> s[from] == '\r' && s[from + 1] == '\n' by {
        if s[from] == '\r' && s[from + 1] == '\n' {
          assert s[from..from + 2] == [s[from], s[from + 1]];
        }
      }
      LineEndFinds(s, from + 1);
    }
  }

  /** What the head of a chunked body holds: no complete size line, an unreadable size, or a size line. */
  datatype SizeLine = NoLine | BadSize | Line(end: nat, size: nat)

  /**
   * The size line at the start of s: it must end in CRLF within the first
   * SEARCH_WINDOW bytes, and its token must be a hexadecimal number; end is
   * the index of that CRLF.
   */
  function SizeLineOf(s: seq<char>): (l: SizeLine)
    ensures l.Line? ==> l.end + 2 <= |s|
  {
    match LineEnd(s[..Min(|s|, SEARCH_WINDOW)], 0)
    case None => NoLine
    case Some(d) =>
      match ChunkSize(s[..d])
      case None => BadSize
      case Some(n) => Line(d, n)
  }

  /**
   * Decoding of a chunked body from the start of s: each chunk is a size
   * line ending in CRLF within the first SEARCH_WINDOW bytes, that many
   * bytes of data and a CRLF; a size of 0 ends the body, just after its
   * size line. A size line not found in the window needs more data while
   * at most SEARCH_WINDOW bytes are available and is invalid beyond that.
   */
  function ChunkedBody(s: seq<char>): (r: ChunkedResult)
    ensures r.ChunkedDone? ==> r.consumed <= |s| && r.bodySize <= r.consumed
    decreases |s|, 2
  {
    ChunkFrom(s, SizeLineOf(s))
  }

  /** ChunkedBody once the size line at the start of s has been read as line. */
  function ChunkFrom(s: seq<char>, line: SizeLine): (r: ChunkedResult)
    requires line.Line? ==> line.end + 2 <= |s|
    ensures r.ChunkedDone? ==> r.consumed <= |s| && r.bodySize <= r.consumed
    decreases |s|, 1
  {
    match line
    case NoLine => if |s| > SEARCH_WINDOW then ChunkedInvalid else ChunkedNeedMore
    case BadSize => ChunkedInvalid
    case Line(d, n) => ChunkData(s, d + 2, n)
  }

  /**
   * The rest of the body once a size line ending before start announced n
   * bytes of data: the last chunk (n = 0) ends the body, otherwise the data
   * and its CRLF must be present before the next size line.
   */
  function ChunkData(s: seq<char>, start: nat, n: nat): (r: ChunkedResult)
    requires start <= |s|
    ensures r.ChunkedDone? ==> start <= r.consumed <= |s| && r.bodySize + start <= r.consumed
    decreases |s| - start, 0
  {
    if n == 0 then ChunkedDone(start, 0)
    else if |s| - start < n + 2 then ChunkedNeedMore
    else if s[start + n..start + n + 2] != CRLF then ChunkedInvalid
    else Resume(start + n + 2, n, ChunkedBody(s[start + n + 2..]))
  }

  /** Outcome of the rest of a body after p bytes holding total bytes of data. */
  function Resume(p: nat, total: nat, r: ChunkedResult): ChunkedResult
  {
    match r
    case ChunkedDone(c, b) => ChunkedDone(p + c, total + b)
    case other => other
  }

  /** ChunkedBody when no size line is found or its size does not parse. */
  lemma ChunkedBodyNoSize(s: seq<char>)
    ensures SizeLineOf(s).NoLine? ==> ChunkedBody(s) == if |s| > SEARCH_WINDOW then ChunkedInvalid else ChunkedNeedMore
    ensures SizeLineOf(s).BadSize? ==> ChunkedBody(s) == ChunkedInvalid
  {
  }

  /** ChunkedBody after a size line ending at d that announces n bytes. */
  lemma ChunkedBodyLine(s: seq<char>, d: nat, n: nat)
    requires SizeLineOf(s) == Line(d, n)
    ensures d + 2 <= |s|
    ensures ChunkedBody(s) == ChunkData(s, d + 2, n)
  {
  }

  /** The chunk-data step by case: last chunk, missing data, missing CRLF, or hand-over. */
  lemma ChunkDataCases(s: seq<char>, start: nat, n: nat)
    requires start <= |s|
    ensures n == 0 ==> ChunkData(s, start, n) == ChunkedDone(start, 0)
    ensures n > 0 && |s| - start < n + 2 ==> ChunkData(s, start, n) == ChunkedNeedMore
    ensures n > 0 && |s| - start >= n + 2 && s[start + n..start + n + 2] != CRLF ==> ChunkData(s, start, n) == ChunkedInvalid
    ensures n > 0 && |s| - start >= n + 2 && s[start + n..start + n + 2] == CRLF ==>
              ChunkData(s, start, n) == Resume(start + n + 2, n, ChunkedBody(s[start + n + 2..]))
  {
  }

  lemma ResumeResume(p: nat, total: nat, k: nat, n: nat, r: ChunkedResult)
    ensures Resume(p, total, Resume(k, n, r)) == Resume(p + k, total + n, r)
  {
  }

  /**
   * One round of the parse_chunked loop after a size line ending at d that
   * announces n bytes, on the bytes cur left after p bytes holding total
   * bytes of chunk data, where whole is the outcome of the entire body: the
   * round decides whole, or hands over to the next size line.
   */
  lemma ChunkedRound(cur: seq<char>, p: nat, total: nat, whole: ChunkedResult, d: nat, n: nat)
    requires Resume(p, total, ChunkedBody(cur)) == whole
    requires d + 2 <= |cur| && ChunkedBody(cur) == ChunkData(cur, d + 2, n)
    ensures n == 0 ==> whole == ChunkedDone(p + d + 2, total)
    ensures n > 0 && |cur| - (d + 2) < n + 2 ==> whole == ChunkedNeedMore
    ensures n > 0 && |cur| - (d + 2) >= n + 2 && cur[d + 2 + n..d + 2 + n + 2] != CRLF ==> whole == ChunkedInvalid
    ensures n > 0 && |cur| - (d + 2) >= n + 2 && cur[d + 2 + n..d + 2 + n + 2] == CRLF ==>
              Resume(p + d + 2 + n + 2, total + n, ChunkedBody(cur[d + 2 + n + 2..])) == whole
  {
    ChunkDataCases(cur, d + 2, n);
    if n > 0 && |cur| - (d + 2) >= n + 2 {
      ResumeResume(p, total, d + 2 + n + 2, n, ChunkedBody(cur[d + 2 + n + 2..]));
    }
  }

  /** The loop of parse_chunked over the unconsumed bytes: one size line and one chunk per round. */
  method ScanChunked(data: seq<char>) returns (r: ChunkedResult)
    ensures r == ChunkedBody(data)
  {
    var cur := data;
    var p: nat := 0;
    var total: nat := 0;
    while true
      invariant Resume(p, total, ChunkedBody(cur)) == ChunkedBody(data)
      decreases |cur|
    {
      var line := SizeLineOf(cur);
      if !line.Line? {
        ChunkedBodyNoSize(cur);
        return if line.BadSize? || |cur| > SEARCH_WINDOW then ChunkedInvalid else ChunkedNeedMore;
      }
      var d, n := line.end, line.size;
      ChunkedBodyLine(cur, d, n);
      ChunkedRound(cur, p, total, ChunkedBody(data), d, n);
      if n == 0 {
        return ChunkedDone(p + d + 2, total);
      }
      if |cur| - (d + 2) < n + 2 {
        return ChunkedNeedMore;
      }
      if cur[d + 2 + n..d + 2 + n + 2] != CRLF {
        return ChunkedInvalid;
      }
      cur := cur[d + 2 + n + 2..];
      p := p + d + 2 + n + 2;
      total := total + n;
    }
  }

  /** parse_chunked: decodes the chunked body at the cursor and moves the cursor past it. */
  method ParseChunked(raw: RawData) returns (st: ParseState, bodySize: nat)
    requires raw.Valid()
    modifies raw
    ensures raw.Valid() && raw.flags == old(raw.flags)
    ensures var r := ChunkedBody(old(raw.Rest()));
            && (r.ChunkedDone? ==> st == Success && bodySize == r.bodySize
                                   && raw.currentPos == old(raw.currentPos) + r.consumed)
            && (r.ChunkedNeedMore? ==> st == NeedsMoreData && bodySize == 0 && raw.currentPos == old(raw.currentPos))
            && (r.ChunkedInvalid? ==> st == Invalid && bodySize == 0 && raw.currentPos == old(raw.currentPos))
  {
    var r := ScanChunked(raw.Rest());
    match r {
      case ChunkedDone(c, b) =>
        raw.Advance(c);
        st, bodySize := Success, b;
      case ChunkedNeedMore =>
        st, bodySize := NeedsMoreData, 0;
      case ChunkedInvalid =>
        st, bodySize := Invalid, 0;
    }
  }

  /** The chunked encoding of a list of non-empty chunks, closed by the last-chunk line "0\r\n". */
  function EncodeChunked(chunks: seq<string>): (e: string)
    ensures |e| >= 3
  {
    if |chunks| == 0 then "0" + CRLF
    else HexOf(|chunks[0]|) + CRLF + chunks[0] + CRLF + EncodeChunked(chunks[1..])
  }

  function TotalSize(chunks: seq<string>): nat
  {
    if |chunks| == 0 then 0 else |chunks[0]| + TotalSize(chunks[1..])
  }

  /** The first CRLF of a size line "hex CRLF ..." is the one right after the hex digits. */
  lemma SizeLineCrlf(h: string, rest: string)
    requires AllHex(h) && |h| + 2 <= SEARCH_WINDOW
    ensures var s := h + CRLF + rest;
            LineEnd(s[..Min(|s|, SEARCH_WINDOW)], 0) == Some(|h|)
  {
    var s := h + CRLF + rest;
    var w := s[..Min(|s|, SEARCH_WINDOW)];
    assert w[|h|..|h| + 2] == s[|h|..|h| + 2] == CRLF;
    assert OccursAt(w, CRLF, |h|);
    forall j | 0 <= j < |h| ensures !OccursAt(w, CRLF, j) {
      assert w[j] == h[j];
    }
    LineEndFinds(w, 0);
  }

  /** A size line made of the hex digits h announcing n is read back as such. */
  lemma SizeLineOfHex(h: string, rest: string, n: nat)
    requires AllHex(h) && |h| + 2 <= SEARCH_WINDOW && HexValue(h) == Some(n)
    ensures SizeLineOf(h + CRLF + rest) == Line(|h|, n)
  {
    var s := h + CRLF + rest;
    SizeLineCrlf(h, rest);
    assert s[..|h|] == h;
    assert ';' !in h by {
      forall i | 0 <= i < |h| ensures h[i] != ';' {
        assert IsHexDigit(h[i]);
      }
    }
    ChunkSizeUncut(h);
  }

  /** The last-chunk line "0" CRLF ends the body right after it, whatever follows. */
  lemma LastChunkDecodes(tail: string)
    ensures ChunkedBody("0" + CRLF + tail) == ChunkedDone(3, 0)
  {
    var s := "0" + CRLF + tail;
    assert HexValue("0") == Some(0);
    SizeLineOfHex("0", tail, 0);
    ChunkedBodyLine(s, 1, 0);
    ChunkDataCases(s, 3, 0);
  }

  /** A chunk of size n written as hex h, CRLF, the data and CRLF hands over to what follows it. */
  lemma ChunkDecodes(h: string, c: string, rest: string)
    requires AllHex(h) && |h| + 2 <= SEARCH_WINDOW && HexValue(h) == Some(|c|) && |c| > 0
    ensures ChunkedBody(h + CRLF + c + CRLF + rest) == Resume(|h| + 2 + |c| + 2, |c|, ChunkedBody(rest))
  {
    var s := h + CRLF + c + CRLF + rest;
    assert s == h + CRLF + (c + CRLF + rest);
    SizeLineOfHex(h, c + CRLF + rest, |c|);
    ChunkedBodyLine(s, |h|, |c|);
    ChunkDataCases(s, |h| + 2, |c|);
    assert s[|h| + 2 + |c|..|h| + 2 + |c| + 2] == CRLF;
    assert s[|h| + 2 + |c| + 2..] == rest;
  }

  /** Chunked decoding of an encoding gives back its total size and consumes exactly the encoding. */
  lemma {:induction false} ChunkedRoundTrip(chunks: seq<string>, tail: string)
    requires forall i :: 0 <= i < |chunks| ==> 0 < |chunks[i]| < U64_MOD
    ensures ChunkedBody(EncodeChunked(chunks) + tail) == ChunkedDone(|EncodeChunked(chunks)|, TotalSize(chunks))
  {
    if |chunks| == 0 {
      assert EncodeChunked(chunks) + tail == "0" + CRLF + tail;
      LastChunkDecodes(tail);
    } else {
      var c := chunks[0];
      var h := HexOf(|c|);
      HexOfSizeT(|c|);
      HexOfValue(|c|);
      var rest := chunks[1..];
      var enc := EncodeChunked(rest);
      assert EncodeChunked(chunks) == h + CRLF + c + CRLF + enc;
      assert EncodeChunked(chunks) + tail == h + CRLF + c + CRLF + (enc + tail);
      ChunkDecodes(h, c, enc + tail);
      assert forall i :: 0 <= i < |rest| ==> rest[i] == chunks[i + 1];
      ChunkedRoundTrip(rest, tail);
      assert TotalSize(chunks) == |c| + TotalSize(rest);
    }
  }

  // ---------------------------------------------------------------------
  // Content-Length
  // ---------------------------------------------------------------------

  datatype LengthField = LengthMalformed | LengthValue(n: nat)

  /**
   * A Content-Length value read into a size_t through atoi, whose result is
   * an int: the decimal value is cut to its low 32 bits and sign-extended.
   * A value that reads as 0 without being "0" cannot be told apart from a
   * failed conversion and is refused.
   */
  function ContentLength(value: string): (r: LengthField)
    ensures r.LengthValue? ==> r.n < U64_MOD
    ensures r.LengthMalformed? <==> value != "0" && CAtoi(value) == 0
  {
    var n := U64(CAtoi(value));
    if value != "0" && n == 0 then LengthMalformed else LengthValue(n)
  }

  /** A Content-Length written as the decimal digits of a value that fits an int reads as that value. */
  lemma ContentLengthOfDecimal(n: nat)
    requires n < INT_LIMIT
    ensures ContentLength(DecimalOf(n)) == LengthValue(n)
  {
    AtoiDecimal(n);
    if n == 0 {
      assert DecimalOf(0) == "0";
    }
  }

  /**
   * Values from 2^31 up do not read as themselves: 2^32 + 1 reads as 1,
   * 2^32 reads as 0 and is refused, and 2^31 turns negative and is
   * sign-extended to 2^64 - 2^31.
   */
  lemma ContentLengthTruncated()
    ensures ContentLength(DecimalOf(0x1_0000_0001)) == LengthValue(1)
    ensures ContentLength(DecimalOf(0x1_0000_0000)) == LengthMalformed
    ensures ContentLength(DecimalOf(0x8000_0000)) == LengthValue(U64_MOD - 0x8000_0000)
  {
    ContentLengthOfLarge(0x1_0000_0001, 1);
    ContentLengthOfLarge(0x1_0000_0000, 0);
    ContentLengthOfLarge(0x8000_0000, -0x8000_0000);
  }

  /** The decimal text of a positive n below 2^63 is read as the int i that n is cut to. */
  lemma ContentLengthOfLarge(n: nat, i: int)
    requires 0 < n < LONG_LIMIT && I32(n) == i
    ensures ContentLength(DecimalOf(n)) == if i == 0 then LengthMalformed else LengthValue(U64(i))
  {
    AtoiDecimal(n);
    assert Strtol(DecimalOf(n)) == n;
    assert CAtoi(DecimalOf(n)) == i;
    DecimalOfLead(n);
    assert DecimalOf(n) != "0";
  }

  // ---------------------------------------------------------------------
  // Body length selection
  // ---------------------------------------------------------------------

  /** What a body parse produced: its state, the body text, its size and the bytes consumed. */
  datatype BodyOutcome = BodyOutcome(state: ParseState, body: string, bodySize: nat, consumed: nat)

  function NoBody(st: ParseState): BodyOutcome
  {
    BodyOutcome(st, "", 0, 0)
  }

  /**
   * Body of Content-Length value bytes at the start of rest: INVALID for a
   * refused value, NEEDS_MORE_DATA while fewer bytes are at hand, otherwise
   * exactly that many bytes.
   */
  function ContentLengthBody(value: string, rest: seq<char>): (o: BodyOutcome)
    ensures o.state == Invalid <==> ContentLength(value).LengthMalformed?
    ensures o.state == NeedsMoreData <==> ContentLength(value).LengthValue? && ContentLength(value).n > |rest|
    ensures o.state == Success <==> ContentLength(value).LengthValue? && ContentLength(value).n <= |rest|
    ensures o.state == Success ==> o.consumed == ContentLength(value).n
                                   && o.body == rest[..o.consumed] && o.bodySize == o.consumed
    ensures o.state != Success ==> o == NoBody(o.state)
  {
    match ContentLength(value)
    case LengthMalformed => NoBody(Invalid)
    case LengthValue(n) =>
      if n > |rest| then NoBody(NeedsMoreData) else BodyOutcome(Success, rest[..n], n, n)
  }

  /** Body in chunked coding at the start of rest; only its size is recorded. */
  function ChunkedOutcome(rest: seq<char>): (o: BodyOutcome)
    ensures o.consumed <= |rest| && o.body == ""
  {
    match ChunkedBody(rest)
    case ChunkedDone(c, b) => BodyOutcome(Success, "", b, c)
    case ChunkedNeedMore => NoBody(NeedsMoreData)
    case ChunkedInvalid => NoBody(Invalid)
  }

  /** Content-Length first, then Transfer-Encoding "chunked"; None when neither applies. */
  function FramedBody(headers: seq<Header>, rest: seq<char>): (o: Option<BodyOutcome>)
    ensures o.Some? ==> o.value.consumed <= |rest|
    ensures FirstValue(headers, CONTENT_LENGTH).Some? ==>
              o == Some(ContentLengthBody(FirstValue(headers, CONTENT_LENGTH).value, rest))
  {
    match FirstValue(headers, CONTENT_LENGTH)
    case Some(v) => Some(ContentLengthBody(v, rest))
    case None =>
      if FirstValue(headers, TRANSFER_ENCODING) == Some(CHUNKED) then Some(ChunkedOutcome(rest)) else None
  }

  /** Body of a request: framed by its headers, or empty. */
  function RequestBody(headers: seq<Header>, rest: seq<char>): (o: BodyOutcome)
    ensures o.consumed <= |rest|
    ensures FirstValue(headers, CONTENT_LENGTH).None? && FirstValue(headers, TRANSFER_ENCODING).None? ==>
              o == NoBody(Success)
  {
    match FramedBody(headers, rest)
    case Some(o) => o
    case None => NoBody(Success)
  }

  /** Status codes whose responses carry no body: 1xx, 204 and 304. */
  predicate NoBodyStatus(status: int)
  {
    (100 <= status < 200) || status == 204 || status == 304
  }

  /**
   * Body of a response. When the bytes after the header block already start
   * a new response (the reply to a HEAD request) the body is empty;
   * otherwise the headers frame it; otherwise 1xx, 204 and 304 carry no
   * body, 101 ending the stream; any other status gets an empty body.
   */
  function ResponseBody(status: int, headers: seq<Header>, rest: seq<char>, next: HeaderParse): (o: BodyOutcome)
    ensures o.consumed <= |rest|
    ensures o.state == Eos ==> status == 101 && o == NoBody(Eos)
  {
    if IsPrefix("HTTP", rest) && next.HeadersParsed? then NoBody(Success)
    else match FramedBody(headers, rest)
      case Some(o) => o
      case None =>
        if NoBodyStatus(status) then NoBody(if status == 101 then Eos else Success)
        else NoBody(Success)
  }

  /**
   * A request whose Content-Length gives the body's length yields exactly
   * that body, and needs more data while any of it is missing.
   */
  lemma RequestContentLengthFraming(headers: seq<Header>, body: string, tail: string)
    requires |body| < INT_LIMIT
    requires FirstValue(headers, CONTENT_LENGTH) == Some(DecimalOf(|body|))
    ensures RequestBody(headers, body + tail) == BodyOutcome(Success, body, |body|, |body|)
    ensures forall k :: 0 <= k < |body| ==> RequestBody(headers, body[..k]) == NoBody(NeedsMoreData)
  {
    var v := DecimalOf(|body|);
    ContentLengthOfDecimal(|body|);
    assert FramedBody(headers, body + tail) == Some(ContentLengthBody(v, body + tail));
    assert (body + tail)[..|body|] == body;
    forall k | 0 <= k < |body|
      ensures RequestBody(headers, body[..k]) == NoBody(NeedsMoreData)
    {
      assert FramedBody(headers, body[..k]) == Some(ContentLengthBody(v, body[..k]));
    }
  }

  /** A chunked request without Content-Length consumes exactly its encoding and records the data size. */
  lemma RequestChunkedFraming(headers: seq<Header>, chunks: seq<string>, tail: string)
    requires forall i :: 0 <= i < |chunks| ==> 0 < |chunks[i]| < U64_MOD
    requires FirstValue(headers, CONTENT_LENGTH).None?
    requires FirstValue(headers, TRANSFER_ENCODING) == Some(CHUNKED)
    ensures RequestBody(headers, EncodeChunked(chunks) + tail)
            == BodyOutcome(Success, "", TotalSize(chunks), |EncodeChunked(chunks)|)
  {
    ChunkedRoundTrip(chunks, tail);
  }

  /** Content-Length wins over Transfer-Encoding, for requests and for responses not preceded by a new status line. */
  lemma ContentLengthFirst(status: int, headers: seq<Header>, rest: seq<char>, next: HeaderParse)
    requires FirstValue(headers, CONTENT_LENGTH).Some?
    ensures RequestBody(headers, rest) == ContentLengthBody(FirstValue(headers, CONTENT_LENGTH).value, rest)
    ensures !(IsPrefix("HTTP", rest) && next.HeadersParsed?) ==>
              ResponseBody(status, headers, rest, next) == ContentLengthBody(FirstValue(headers, CONTENT_LENGTH).value, rest)
  {
  }

  /** A response with no length header: 1xx, 204 and 304 have no body, 101 ends the stream, others get an empty body too. */
  lemma ResponseWithoutLength(status: int, headers: seq<Header>, rest: seq<char>, next: HeaderParse)
    requires FirstValue(headers, CONTENT_LENGTH).None? && FirstValue(headers, TRANSFER_ENCODING).None?
    ensures ResponseBody(status, headers, rest, next) == NoBody(if status == 101 && !(IsPrefix("HTTP", rest) && next.HeadersParsed?) then Eos else Success)
  {
  }

  // ---------------------------------------------------------------------
  // Frame parsing
  // ---------------------------------------------------------------------

  /** Applies a body outcome: records the body and moves the cursor past it. */
  method ApplyBody(raw: RawData, msg: HttpMessage, o: BodyOutcome) returns (st: ParseState, m: HttpMessage)
    requires raw.Valid() && o.consumed <= raw.Unconsumed()
    modifies raw
    ensures raw.Valid() && raw.flags == old(raw.flags)
    ensures st == o.state && m == msg.(body := o.body, bodySize := o.bodySize)
    ensures raw.currentPos == old(raw.currentPos) + o.consumed
  {
    raw.Advance(o.consumed);
    st := o.state;
    m := msg.(body := o.body, bodySize := o.bodySize);
  }

  /** parse_request_body */
  method ParseRequestBody(raw: RawData, msg: HttpMessage) returns (st: ParseState, m: HttpMessage)
    requires raw.Valid()
    modifies raw
    ensures raw.Valid() && raw.flags == old(raw.flags)
    ensures var o := RequestBody(msg.headers, old(raw.Rest()));
            st == o.state && m == msg.(body := o.body, bodySize := o.bodySize)
            && raw.currentPos == old(raw.currentPos) + o.consumed
  {
    var rest := raw.Rest();
    var cl := FirstValue(msg.headers, CONTENT_LENGTH);
    if cl.Some? {
      st, m := ApplyBody(raw, msg, ContentLengthBody(cl.value, rest));
      return;
    }
    var te := FirstValue(msg.headers, TRANSFER_ENCODING);
    if te == Some(CHUNKED) {
      var size;
      st, size := ParseChunked(raw);
      m := msg.(body := "", bodySize := size);
      return;
    }
    st, m := ApplyBody(raw, msg, NoBody(Success));
  }

  /** parse_response_body; next is the tokenizer's reading of the bytes after the header block. */
  method ParseResponseBody(raw: RawData, msg: HttpMessage, tok: Tokenizer) returns (st: ParseState, m: HttpMessage)
    requires raw.Valid()
    modifies raw
    ensures raw.Valid() && raw.flags == old(raw.flags)
    ensures var o := ResponseBody(msg.respStatus, msg.headers, old(raw.Rest()), tok(old(raw.Rest())));
            st == o.state && m == msg.(body := o.body, bodySize := o.bodySize)
            && raw.currentPos == old(raw.currentPos) + o.consumed
  {
    var rest := raw.Rest();
    if IsPrefix("HTTP", rest) && tok(rest).HeadersParsed? {
      st, m := ApplyBody(raw, msg, NoBody(Success));
      return;
    }
    var cl := FirstValue(msg.headers, CONTENT_LENGTH);
    if cl.Some? {
      st, m := ApplyBody(raw, msg, ContentLengthBody(cl.value, rest));
      return;
    }
    var te := FirstValue(msg.headers, TRANSFER_ENCODING);
    if te == Some(CHUNKED) {
      var size;
      st, size := ParseChunked(raw);
      m := msg.(body := "", bodySize := size);
      return;
    }
    if NoBodyStatus(msg.respStatus) {
      st, m := ApplyBody(raw, msg, NoBody(if msg.respStatus == 101 then Eos else Success));
      return;
    }
    st, m := ApplyBody(raw, msg, NoBody(Success));
  }

  /** The message fields a parsed request header block fills in; ts is the chunk's capture time. */
  function RequestHead(ts: nat, hp: HeaderParse): HttpMessage
    requires hp.HeadersParsed?
  {
    InitMessage().(msgType := MessageRequest, timestampNs := ts, minorVersion := hp.minorVersion,
                   headers := hp.headers, reqMethod := hp.methodName, reqPath := hp.path, headersByteSize := hp.len)
  }

  /** The message fields a parsed response header block fills in. */
  function ResponseHead(ts: nat, hp: HeaderParse): HttpMessage
    requires hp.HeadersParsed?
  {
    InitMessage().(msgType := MessageResponse, timestampNs := ts, minorVersion := hp.minorVersion,
                   headers := hp.headers, respStatus := hp.status, respMessage := hp.msg, headersByteSize := hp.len)
  }

  /** What a frame parse makes of the unconsumed bytes: its state, the message and the bytes consumed. */
  datatype FrameOutcome = FrameOutcome(state: ParseState, msg: HttpMessage, consumed: nat)

  /**
   * A request frame over the unconsumed bytes rest, which the tokenizer
   * reads as hp, in a chunk captured at ts: an incomplete header block
   * needs more data and a malformed one is invalid, both consuming
   * nothing; a header block is consumed and its body framed after it.
   */
  function RequestFrame(rest: seq<char>, hp: HeaderParse, ts: nat): (r: FrameOutcome)
    requires Fits(hp, rest)
  {
    match hp
    case HeadersIncomplete => FrameOutcome(NeedsMoreData, InitMessage(), 0)
    case HeadersMalformed => FrameOutcome(Invalid, InitMessage(), 0)
    case HeadersParsed(len, _, _, _, _, _, _) =>
      var o := RequestBody(hp.headers, rest[len..]);
      FrameOutcome(o.state, RequestHead(ts, hp).(body := o.body, bodySize := o.bodySize), len + o.consumed)
  }

  /**
   * A response frame, as for requests, where next is the tokenizer's
   * reading of the bytes after the header block (the pre-parse for the
   * reply to a HEAD request).
   */
  function ResponseFrame(rest: seq<char>, hp: HeaderParse, next: HeaderParse, ts: nat): (r: FrameOutcome)
    requires Fits(hp, rest)
  {
    match hp
    case HeadersIncomplete => FrameOutcome(NeedsMoreData, InitMessage(), 0)
    case HeadersMalformed => FrameOutcome(Invalid, InitMessage(), 0)
    case HeadersParsed(len, _, _, _, _, _, _) =>
      var o := ResponseBody(hp.status, hp.headers, rest[len..], next);
      FrameOutcome(o.state, ResponseHead(ts, hp).(body := o.body, bodySize := o.bodySize), len + o.consumed)
  }

  /** The tokenizer's reading of the bytes after a parsed header block; unused otherwise. */
  function After(tok: Tokenizer, rest: seq<char>, hp: HeaderParse): HeaderParse
    requires Fits(hp, rest)
  {
    if hp.HeadersParsed? then tok(rest[hp.len..]) else HeadersIncomplete
  }

  /**
   * What each outcome of a request frame parse means for the bytes: only
   * SUCCESS, INVALID and NEEDS_MORE_DATA arise; SUCCESS consumes the header
   * block and the body after it; INVALID and NEEDS_MORE_DATA record no body
   * and consume nothing when the header block itself is at fault, or
   * exactly the header block when its body is.
   */
  lemma {:induction false} RequestFrameOutcomes(rest: seq<char>, hp: HeaderParse, ts: nat)
    requires Fits(hp, rest)
    ensures var r := RequestFrame(rest, hp, ts);
            && (r.state == Success || r.state == Invalid || r.state == NeedsMoreData)
            && r.consumed <= |rest|
            && (r.consumed == 0 <==> !hp.HeadersParsed?)
            && (r.state == Success ==> hp.HeadersParsed? && hp.len <= r.consumed
                                       && r.msg.msgType == MessageRequest && r.msg.timestampNs == ts
                                       && r.msg.headers == hp.headers && r.msg.headersByteSize == hp.len)
            && (r.state != Success ==> r.msg.body == "" && r.msg.bodySize == 0
                                       && r.consumed == (if hp.HeadersParsed? then hp.len else 0))
  {
    if hp.HeadersParsed? {
      var tail := rest[hp.len..];
      var o := RequestBody(hp.headers, tail);
      match FirstValue(hp.headers, CONTENT_LENGTH) {
        case Some(v) =>
          assert o == ContentLengthBody(v, tail);
        case None =>
          if FirstValue(hp.headers, TRANSFER_ENCODING) == Some(CHUNKED) {
            assert o == ChunkedOutcome(tail);
          }
      }
    }
  }

  /**
   * The same for responses, with END_OF_STREAM besides: it arises only for
   * status 101 and consumes exactly the header block.
   */
  lemma {:induction false} ResponseFrameOutcomes(rest: seq<char>, hp: HeaderParse, next: HeaderParse, ts: nat)
    requires Fits(hp, rest)
    ensures var r := ResponseFrame(rest, hp, next, ts);
            && (r.state == Success || r.state == Invalid || r.state == NeedsMoreData || r.state == Eos)
            && r.consumed <= |rest|
            && (r.consumed == 0 <==> !hp.HeadersParsed?)
            && (r.state == Success || r.state == Eos ==>
                  hp.HeadersParsed? && hp.len <= r.consumed
                  && r.msg.msgType == MessageResponse && r.msg.timestampNs == ts
                  && r.msg.respStatus == hp.status && r.msg.headersByteSize == hp.len)
            && (r.state == Eos ==> hp.status == 101 && r.consumed == hp.len)
            && (r.state != Success ==> r.msg.body == "" && r.msg.bodySize == 0
                                       && r.consumed == (if hp.HeadersParsed? then hp.len else 0))
  {
    if hp.HeadersParsed? {
      var tail := rest[hp.len..];
      var o := ResponseBody(hp.status, hp.headers, tail, next);
      if !(IsPrefix("HTTP", tail) && next.HeadersParsed?) {
        match FirstValue(hp.headers, CONTENT_LENGTH) {
          case Some(v) =>
            assert o == ContentLengthBody(v, tail);
          case None =>
            if FirstValue(hp.headers, TRANSFER_ENCODING) == Some(CHUNKED) {
              assert o == ChunkedOutcome(tail);
            }
        }
      }
    }
  }

  /**
   * A request whose header block is followed by the Content-Length body it
   * announces is one frame: the header block and exactly that body.
   */
  lemma RequestFrameContentLength(rest: seq<char>, hp: HeaderParse, ts: nat, body: string, tail: string)
    requires Fits(hp, rest) && hp.HeadersParsed? && rest[hp.len..] == body + tail
    requires |body| < INT_LIMIT && FirstValue(hp.headers, CONTENT_LENGTH) == Some(DecimalOf(|body|))
    ensures RequestFrame(rest, hp, ts)
            == FrameOutcome(Success, RequestHead(ts, hp).(body := body, bodySize := |body|), hp.len + |body|)
  {
    RequestContentLengthFraming(hp.headers, body, tail);
  }

  /** parse_request_frame: the request frame over the unconsumed bytes, with the cursor moved past what it consumed. */
  method ParseRequestFrame(raw: RawData, tok: Tokenizer) returns (st: ParseState, msg: HttpMessage)
    requires raw.Valid()
    modifies raw
    ensures raw.Valid() && raw.flags == old(raw.flags)
    ensures var r := RequestFrame(old(raw.Rest()), tok(old(raw.Rest())), raw.timestampNs);
            st == r.state && msg == r.msg && raw.currentPos == old(raw.currentPos) + r.consumed
  {
    var hp := tok(raw.Rest());
    if hp.HeadersIncomplete? {
      return NeedsMoreData, InitMessage();
    }
    if hp.HeadersMalformed? {
      return Invalid, InitMessage();
    }
    raw.Advance(hp.len);
    msg := RequestHead(raw.timestampNs, hp);
    st, msg := ParseRequestBody(raw, msg);
  }

  /** parse_response_frame: the response frame over the unconsumed bytes, with the cursor moved past what it consumed. */
  method ParseResponseFrame(raw: RawData, tok: Tokenizer) returns (st: ParseState, msg: HttpMessage)
    requires raw.Valid()
    modifies raw
    ensures raw.Valid() && raw.flags == old(raw.flags)
    ensures var rest := old(raw.Rest());
            var hp := tok(rest);
            var r := ResponseFrame(rest, hp, After(tok, rest, hp), raw.timestampNs);
            st == r.state && msg == r.msg && raw.currentPos == old(raw.currentPos) + r.consumed
  {
    var hp := tok(raw.Rest());
    if hp.HeadersIncomplete? {
      return NeedsMoreData, InitMessage();
    }
    if hp.HeadersMalformed? {
      return Invalid, InitMessage();
    }
    raw.Advance(hp.len);
    msg := ResponseHead(raw.timestampNs, hp);
    st, msg := ParseResponseBody(raw, msg, tok);
  }

  /**
   * http_parse_frame: parses a request or a response and wraps the message
   * in a frame stamped with the message's time; any other message type is
   * invalid and touches nothing.
   */
  method ParseFrame(msgType: MessageType, raw: RawData, reqTok: Tokenizer, respTok: Tokenizer)
    returns (st: ParseState, frame: Option<FrameData<HttpMessage>>)
    requires raw.Valid()
    modifies raw
    ensures raw.Valid() && raw.flags == old(raw.flags)
    ensures msgType == MessageUnknown ==> st == Invalid && frame == None && raw.currentPos == old(raw.currentPos)
    ensures msgType == MessageRequest ==>
              var r := RequestFrame(old(raw.Rest()), reqTok(old(raw.Rest())), raw.timestampNs);
              st == r.state && frame == Some(FrameData(msgType, r.msg, r.msg.timestampNs))
              && raw.currentPos == old(raw.currentPos) + r.consumed
    ensures msgType == MessageResponse ==>
              var rest := old(raw.Rest());
              var hp := respTok(rest);
              var r := ResponseFrame(rest, hp, After(respTok, rest, hp), raw.timestampNs);
              st == r.state && frame == Some(FrameData(msgType, r.msg, r.msg.timestampNs))
              && raw.currentPos == old(raw.currentPos) + r.consumed
  {
    var msg;
    match msgType {
      case MessageRequest =>
        st, msg := ParseRequestFrame(raw, reqTok);
      case MessageResponse =>
        st, msg := ParseResponseFrame(raw, respTok);
      case MessageUnknown =>
        return Invalid, None;
    }
    frame := Some(FrameData(msgType, msg, msg.timestampNs));
  }

  // ---------------------------------------------------------------------
  // Frame boundary search
  // ---------------------------------------------------------------------

  const REQUEST_START_PATTERNS: seq<string> :=
    ["GET ", "HEAD ", "POST ", "PUT ", "DELETE ", "CONNECT ", "OPTIONS ", "TRACE ", "PATCH "]
  const RESPONSE_START_PATTERNS: seq<string> := ["HTTP/1.1 ", "HTTP/1.0 "]

  /** Some pattern of pats starts at index j of buf. */
  predicate StartAt(buf: string, pats: seq<string>, j: int)
  {
    exists k :: 0 <= k < |pats| && OccursAt(buf, pats[k], j)
  }

  /**
   * j is the start pattern closest to the boundary marker at m: a pattern
   * begins at start + j, ends before m, and no pattern begins later in
   * data[start..m].
   */
  ghost predicate ClosestStart(data: string, start: nat, m: nat, pats: seq<string>, j: nat)
    requires start <= m <= |data|
  {
    StartAt(data[start..m], pats, j) && forall j' :: j < j' ==> !StartAt(data[start..m], pats, j')
  }

  /**
   * The last start of any pattern in buf: the largest rfind_str result over
   * the pattern list.
   */
  function LastStartOf(buf: string, pats: seq<string>): Option<nat>
    decreases |pats|
  {
    if |pats| == 0 then None
    else
      var r := LastStartOf(buf, pats[..|pats| - 1]);
      var cur := FindLast(buf, pats[|pats| - 1]);
      if cur.Some? && (r.None? || r.value < cur.value) then cur else r
  }

  /** LastStartOf is the start of a pattern with none later, or None when no pattern occurs. */
  lemma {:induction false} LastStartOfSpec(buf: string, pats: seq<string>)
    ensures var r := LastStartOf(buf, pats);
            && (r.Some? ==> StartAt(buf, pats, r.value) && forall j :: r.value < j ==> !StartAt(buf, pats, j))
            && (r.None? ==> forall j :: !StartAt(buf, pats, j))
    decreases |pats|
  {
    if |pats| > 0 {
      var init := pats[..|pats| - 1];
      var p := pats[|pats| - 1];
      LastStartOfSpec(buf, init);
      var r := LastStartOf(buf, pats);
      forall j | StartAt(buf, pats, j)
        ensures StartAt(buf, init, j) || OccursAt(buf, p, j)
      {
        var k :| 0 <= k < |pats| && OccursAt(buf, pats[k], j);
        if k < |pats| - 1 {
          assert init[k] == pats[k];
        }
      }
      forall j | StartAt(buf, init, j)
        ensures StartAt(buf, pats, j)
      {
        var k :| 0 <= k < |init| && OccursAt(buf, init[k], j);
        assert pats[k] == init[k];
      }
      if r.Some? && OccursAt(buf, p, r.value) {
        assert OccursAt(buf, pats[|pats| - 1], r.value);
      }
    }
  }

  /** The pattern loop of http_find_frame_boundary: the last start of any pattern in buf. */
  method LastStart(buf: string, pats: seq<string>) returns (r: Option<nat>)
    ensures r == LastStartOf(buf, pats)
  {
    r := None;
    var i := 0;
    while i < |pats|
      invariant 0 <= i <= |pats|
      invariant r == LastStartOf(buf, pats[..i])
    {
      assert pats[..i + 1][..i] == pats[..i];
      var cur := FindLast(buf, pats[i]);
      if cur.Some? && (r.None? || r.value < cur.value) {
        r := cur;
      }
      i := i + 1;
    }
    assert pats[..i] == pats;
  }

  /**
   * The search loop of http_find_frame_boundary with the cursor at pos,
   * looking back to start: the index it returns and the cursor it leaves.
   * It takes the first marker from pos; the closest start before it is the
   * boundary; without one, it goes on from the end of that marker.
   */
  function BoundaryFrom(data: string, start: nat, pos: nat, pats: seq<string>): (r: (Option<nat>, nat))
    requires start <= pos <= |data|
    ensures pos <= r.1 <= |data|
    decreases |data| - pos
  {
    match FindFrom(data, BOUNDARY_MARKER, pos)
    case None => (None, pos)
    case Some(m) =>
      match LastStartOf(data[start..m], pats)
      case Some(j) => (Some(start + j), pos)
      case None => BoundaryFrom(data, start, m + |BOUNDARY_MARKER|, pats)
  }

  /** The start patterns of a message type. */
  function PatternsOf(msgType: MessageType): seq<string>
  {
    if msgType == MessageRequest then REQUEST_START_PATTERNS else RESPONSE_START_PATTERNS
  }

  /** Every pattern ends with a space, a character the boundary marker does not hold. */
  predicate EndsInSpace(pats: seq<string>)
  {
    forall k :: 0 <= k < |pats| ==> |pats[k]| > 0 && pats[k][|pats[k]| - 1] == ' '
  }

  lemma PatternsEndInSpace(msgType: MessageType)
    ensures EndsInSpace(PatternsOf(msgType))
  {
  }

  /** No boundary marker from start up to before pos has a start pattern before it. */
  ghost predicate NoStartBefore(data: string, start: nat, pos: nat, pats: seq<string>)
  {
    forall m :: start <= m < pos && OccursAt(data, BOUNDARY_MARKER, m) ==> NoStart(data, start, m, pats)
  }

  /** No pattern starts in data[start..m]. */
  ghost predicate NoStart(data: string, start: nat, m: nat, pats: seq<string>)
    requires start <= m <= |data|
  {
    forall j :: !StartAt(data[start..m], pats, j)
  }

  /**
   * A pattern ending in a space cannot end inside a boundary marker, so a
   * window without a start still has none when it grows into the marker.
   */
  lemma NoStartIntoMarker(data: string, start: nat, m: nat, m': nat, pats: seq<string>)
    requires EndsInSpace(pats)
    requires start <= m <= m' <= m + |BOUNDARY_MARKER| && OccursAt(data, BOUNDARY_MARKER, m)
    requires NoStart(data, start, m, pats)
    ensures NoStart(data, start, m', pats)
  {
    var w, w' := data[start..m], data[start..m'];
    assert forall i :: m <= i < m + |BOUNDARY_MARKER| ==> data[i] != ' ' by {
      forall i | m <= i < m + |BOUNDARY_MARKER| ensures data[i] != ' ' {
        assert data[m..m + |BOUNDARY_MARKER|][i - m] == data[i];
      }
    }
    forall j | StartAt(w', pats, j)
      ensures StartAt(w, pats, j)
    {
      var k :| 0 <= k < |pats| && OccursAt(w', pats[k], j);
      var p := pats[k];
      assert forall i :: 0 <= i < |p| ==> w'[j + i] == p[i] by {
        forall i | 0 <= i < |p| ensures w'[j + i] == p[i] {
          assert w'[j..j + |p|][i] == w'[j + i];
        }
      }
      assert |p| > 0 && p[|p| - 1] == ' ';
      var e := j + |p| - 1;
      assert w'[e] == p[|p| - 1];
      assert w'[e] == data[start + e];
      assert start + e < m;
      assert j + |p| <= |w|;
      assert w[j..j + |p|] == p by {
        forall i | 0 <= i < |p| ensures w[j..j + |p|][i] == p[i] {
          assert w[j + i] == data[start + j + i] == w'[j + i];
        }
      }
      assert OccursAt(w, pats[k], j);
    }
  }

  /**
   * When the first marker from pos has no start before it, no marker up to
   * the end of that one has a start before it either.
   */
  lemma NoStartThroughMarker(data: string, start: nat, pos: nat, m: nat, pats: seq<string>)
    requires start <= pos <= |data| && EndsInSpace(pats)
    requires NoStartBefore(data, start, pos, pats)
    requires FindFrom(data, BOUNDARY_MARKER, pos) == Some(m) && LastStartOf(data[start..m], pats).None?
    ensures NoStartBefore(data, start, m + |BOUNDARY_MARKER|, pats)
  {
    LastStartOfSpec(data[start..m], pats);
    forall m' | start <= m' < m + |BOUNDARY_MARKER| && OccursAt(data, BOUNDARY_MARKER, m')
      ensures NoStart(data, start, m', pats)
    {
      if m < m' {
        NoStartIntoMarker(data, start, m, m', pats);
      }
    }
  }

  /**
   * What BoundaryFrom finds once no marker before pos has a start before
   * it: None exactly when no marker from start on has one, and otherwise
   * the closest start before the first marker that has one.
   */
  lemma BoundaryFromSpec(data: string, start: nat, pos: nat, pats: seq<string>)
    requires start <= pos <= |data| && EndsInSpace(pats)
    requires NoStartBefore(data, start, pos, pats)
    ensures var r := BoundaryFrom(data, start, pos, pats).0;
            && (r.None? ==> forall m :: start <= m && OccursAt(data, BOUNDARY_MARKER, m) ==> NoStart(data, start, m, pats))
            && (r.Some? ==> exists m :: FirstWithStart(data, start, m, pats) && start <= r.value
                                        && ClosestStart(data, start, m, pats, r.value - start))
  {
    BoundaryFromNone(data, start, pos, pats);
    var w := BoundaryFromSome(data, start, pos, pats);
  }

  /** r, when found, is the closest start before marker w, the first marker with a start. */
  ghost predicate FoundBy(data: string, start: nat, w: nat, pats: seq<string>, r: Option<nat>)
  {
    r.Some? ==> FirstWithStart(data, start, w, pats) && start <= r.value
                && ClosestStart(data, start, w, pats, r.value - start)
  }

  /** The None half of BoundaryFromSpec, by induction over the markers. */
  lemma {:induction false} BoundaryFromNone(data: string, start: nat, pos: nat, pats: seq<string>)
    requires start <= pos <= |data| && EndsInSpace(pats)
    requires NoStartBefore(data, start, pos, pats)
    ensures BoundaryFrom(data, start, pos, pats).0.None? ==>
              forall m :: start <= m && OccursAt(data, BOUNDARY_MARKER, m) ==> NoStart(data, start, m, pats)
    decreases |data| - pos
  {
    BoundaryUnfold(data, start, pos, pats);
    match FindFrom(data, BOUNDARY_MARKER, pos) {
      case None =>
      case Some(m) =>
        if LastStartOf(data[start..m], pats).None? {
          NoStartThroughMarker(data, start, pos, m, pats);
          BoundaryFromNone(data, start, m + |BOUNDARY_MARKER|, pats);
        }
    }
  }

  /**
   * The Some half of BoundaryFromSpec, by induction over the markers: the
   * marker w is the one before which the start was found.
   */
  lemma {:induction false} BoundaryFromSome(data: string, start: nat, pos: nat, pats: seq<string>) returns (w: nat)
    requires start <= pos <= |data| && EndsInSpace(pats)
    requires NoStartBefore(data, start, pos, pats)
    ensures FoundBy(data, start, w, pats, BoundaryFrom(data, start, pos, pats).0)
    decreases |data| - pos
  {
    w := 0;
    match FindFrom(data, BOUNDARY_MARKER, pos) {
      case None =>
        BoundaryNoMarker(data, start, pos, pats);
      case Some(m) =>
        if LastStartOf(data[start..m], pats).Some? {
          FoundAtFirstMarker(data, start, pos, m, pats);
          w := m;
        } else {
          NoStartThroughMarker(data, start, pos, m, pats);
          w := BoundaryFromSome(data, start, m + |BOUNDARY_MARKER|, pats);
          BoundaryPastMarker(data, start, pos, m, pats);
        }
    }
  }

  /** A start before the first marker m from pos is what the search returns, found by m. */
  lemma FoundAtFirstMarker(data: string, start: nat, pos: nat, m: nat, pats: seq<string>)
    requires start <= pos <= |data| && NoStartBefore(data, start, pos, pats)
    requires FindFrom(data, BOUNDARY_MARKER, pos) == Some(m) && LastStartOf(data[start..m], pats).Some?
    ensures FoundBy(data, start, m, pats, BoundaryFrom(data, start, pos, pats).0)
  {
    BoundaryAtMarker(data, start, pos, m, pats);
    FoundAtMarker(data, start, pos, m, pats, LastStartOf(data[start..m], pats).value);
  }

  /** The search stops at the first marker from pos when a start precedes it. */
  lemma BoundaryAtMarker(data: string, start: nat, pos: nat, m: nat, pats: seq<string>)
    requires start <= pos <= |data|
    requires FindFrom(data, BOUNDARY_MARKER, pos) == Some(m) && LastStartOf(data[start..m], pats).Some?
    ensures BoundaryFrom(data, start, pos, pats) == (Some((start + LastStartOf(data[start..m], pats).value) as nat), pos)
  {
  }

  /** With no marker from pos on, the search ends there with nothing found. */
  lemma BoundaryNoMarker(data: string, start: nat, pos: nat, pats: seq<string>)
    requires start <= pos <= |data|
    requires FindFrom(data, BOUNDARY_MARKER, pos).None?
    ensures BoundaryFrom(data, start, pos, pats) == (None, pos)
  {
  }

  /** The search goes on past the first marker from pos when no start precedes it. */
  lemma BoundaryPastMarker(data: string, start: nat, pos: nat, m: nat, pats: seq<string>)
    requires start <= pos <= |data|
    requires FindFrom(data, BOUNDARY_MARKER, pos) == Some(m) && LastStartOf(data[start..m], pats).None?
    ensures m + |BOUNDARY_MARKER| <= |data|
    ensures BoundaryFrom(data, start, pos, pats) == BoundaryFrom(data, start, m + |BOUNDARY_MARKER|, pats)
  {
  }

  /** The first marker from pos, with a start before it, is the first such marker from start. */
  lemma FirstWithStartAt(data: string, start: nat, pos: nat, m: nat, pats: seq<string>)
    requires start <= pos <= |data|
    requires NoStartBefore(data, start, pos, pats)
    requires FindFrom(data, BOUNDARY_MARKER, pos) == Some(m) && !NoStart(data, start, m, pats)
    ensures FirstWithStart(data, start, m, pats)
  {
  }

  /** A start j found before the first marker m from pos is the closest start before the first marker that has one. */
  lemma FoundAtMarker(data: string, start: nat, pos: nat, m: nat, pats: seq<string>, j: nat)
    requires start <= pos <= |data|
    requires NoStartBefore(data, start, pos, pats)
    requires FindFrom(data, BOUNDARY_MARKER, pos) == Some(m) && LastStartOf(data[start..m], pats) == Some(j)
    ensures FirstWithStart(data, start, m, pats) && ClosestStart(data, start, m, pats, j)
  {
    LastStartOfSpec(data[start..m], pats);
    assert StartAt(data[start..m], pats, j);
    FirstWithStartAt(data, start, pos, m, pats);
  }

  /** m is a boundary marker with a start before it, and no earlier marker from start has one. */
  ghost predicate FirstWithStart(data: string, start: nat, m: nat, pats: seq<string>)
  {
    start <= m && OccursAt(data, BOUNDARY_MARKER, m) && !NoStart(data, start, m, pats)
    && forall m' :: start <= m' < m && OccursAt(data, BOUNDARY_MARKER, m') ==> NoStart(data, start, m', pats)
  }

  /**
   * The boundary search from the cursor start finds nothing exactly when no
   * boundary marker from start on has a start pattern before it; otherwise
   * it returns the closest start before the first marker that has one.
   */
  lemma BoundarySpec(data: string, start: nat, msgType: MessageType)
    requires start <= |data|
    ensures var r := BoundaryFrom(data, start, start, PatternsOf(msgType)).0;
            && (r.None? <==> forall m :: start <= m && OccursAt(data, BOUNDARY_MARKER, m) ==>
                                           NoStart(data, start, m, PatternsOf(msgType)))
            && (r.Some? ==> exists m :: FirstWithStart(data, start, m, PatternsOf(msgType)) && start <= r.value
                                        && ClosestStart(data, start, m, PatternsOf(msgType), r.value - start))
  {
    PatternsEndInSpace(msgType);
    BoundaryFromSpec(data, start, start, PatternsOf(msgType));
  }

  /**
   * http_find_frame_boundary: finds the next "\r\n\r\n" from the cursor and
   * looks back, from the entry cursor, for the start pattern closest to it;
   * if there is none the cursor moves past that marker and the search goes
   * on. None stands for PARSER_INVALID_BOUNDARY_INDEX.
   */
  method FindFrameBoundary(msgType: MessageType, raw: RawData) returns (idx: Option<nat>)
    requires raw.Valid()
    modifies raw
    ensures raw.Valid() && raw.flags == old(raw.flags)
    ensures msgType == MessageUnknown ==> idx == None && raw.currentPos == old(raw.currentPos)
    ensures msgType != MessageUnknown ==>
              (idx, raw.currentPos) == BoundaryFrom(raw.data, old(raw.currentPos), old(raw.currentPos), PatternsOf(msgType))
  {
    match msgType {
      case MessageRequest => idx := SearchBoundary(raw, REQUEST_START_PATTERNS);
      case MessageResponse => idx := SearchBoundary(raw, RESPONSE_START_PATTERNS);
      case MessageUnknown => return None;
    }
  }

  /** The search loop of http_find_frame_boundary for the start patterns pats. */
  method SearchBoundary(raw: RawData, pats: seq<string>) returns (idx: Option<nat>)
    requires raw.Valid()
    modifies raw
    ensures raw.Valid() && raw.flags == old(raw.flags)
    ensures (idx, raw.currentPos) == BoundaryFrom(raw.data, old(raw.currentPos), old(raw.currentPos), pats)
  {
    var start := raw.currentPos;
    var data := raw.data;
    ghost var goal := BoundaryFrom(data, start, start, pats);
    while true
      invariant raw.Valid() && raw.flags == old(raw.flags) && start <= raw.currentPos
      invariant BoundaryFrom(data, start, raw.currentPos, pats) == goal
      decreases |data| - raw.currentPos
    {
      var pos := raw.currentPos;
      var marker := FindFrom(data, BOUNDARY_MARKER, pos);
      if marker.None? {
        BoundaryNoMarker(data, start, pos, pats);
        return None;
      }
      var m := marker.value;
      var found := LastStart(data[start..m], pats);
      if found.Some? {
        BoundaryAtMarker(data, start, pos, m, pats);
        return Some(start + found.value);
      }
      BoundaryPastMarker(data, start, pos, m, pats);
      raw.currentPos := m + |BOUNDARY_MARKER|;
    }
  }

  /** One round of the search: no marker, a marker with a start before it, or a hand-over past the marker. */
  lemma BoundaryUnfold(data: string, start: nat, pos: nat, pats: seq<string>)
    requires start <= pos <= |data|
    ensures FindFrom(data, BOUNDARY_MARKER, pos).None? ==> BoundaryFrom(data, start, pos, pats) == (None, pos)
    ensures FindFrom(data, BOUNDARY_MARKER, pos).Some? ==>
              var m := FindFrom(data, BOUNDARY_MARKER, pos).value;
              && start <= m + |BOUNDARY_MARKER| <= |data|
              && (LastStartOf(data[start..m], pats).Some? ==>
                    var r := BoundaryFrom(data, start, pos, pats);
                    r.0.Some? && r.0.value == start + LastStartOf(data[start..m], pats).value && r.1 == pos)
              && (LastStartOf(data[start..m], pats).None? ==>
                    BoundaryFrom(data, start, pos, pats) == BoundaryFrom(data, start, m + |BOUNDARY_MARKER|, pats))
  {
  }
}
