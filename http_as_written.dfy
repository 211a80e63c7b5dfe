/**
 * The framing of http_parser.c as its code reads, beside the intended
 * framing of HttpParser: each member here follows the lines it names, and
 * each lemma shows an input on which it departs from the HttpParser member
 * that the rest of the model uses.
 */
module HttpParserAsWritten {
  import opened Wrappers
  import opened CStr
  import opened DataStream
  import opened HttpParser

  /** A C expression whose value the language leaves undefined (a read through an uninitialised variable, a read past the bytes). */
  datatype Written<T> = Defined(value: T) | Undefined

  // ---------------------------------------------------------------------
  // The header-parse test of parse_request_frame / parse_response_frame
  // ---------------------------------------------------------------------

  /** The int the header tokenizer returns, held in the size_t offset: -2 and -1 wrap to 2^64 - 2 and 2^64 - 1. */
  function OffsetOf(hp: HeaderParse): (r: nat)
    ensures r < U64_MOD
    ensures hp.HeadersIncomplete? ==> r == U64_MOD - 2
    ensures hp.HeadersMalformed? ==> r == U64_MOD - 1
  {
    U64(match hp
        case HeadersIncomplete => -2
        case HeadersMalformed => -1
        case HeadersParsed(len, _, _, _, _, _, _) => len)
  }

  /**
   * The two tests on offset, with -2 converted to size_t as C does:
   * Some(st) returns st, None goes on to build the frame.
   */
  function HeaderTestAsWritten(offset: nat): Option<ParseState>
  {
    if offset == U64(-2) then Some(NeedsMoreData)
    else if offset == U64(-1) || offset < U64(-2) then Some(Invalid)
    else None
  }

  /**
   * Every header block the tokenizer parses in a buffer shorter than
   * 2^64 - 2 bytes falls under offset < (size_t)-2 and is INVALID, so
   * no frame is ever built; the intended frame of a header block with no
   * length header is a SUCCESS.
   */
  lemma HeaderTestRejectsAll(rest: seq<char>, hp: HeaderParse, ts: nat)
    requires Fits(hp, rest) && |rest| < U64_MOD - 2
    ensures HeaderTestAsWritten(OffsetOf(hp)) == Some(if hp.HeadersIncomplete? then NeedsMoreData else Invalid)
    ensures hp.HeadersParsed? && FirstValue(hp.headers, CONTENT_LENGTH).None?
            && FirstValue(hp.headers, TRANSFER_ENCODING).None? ==>
              RequestFrame(rest, hp, ts).state == Success
  {
    if hp.HeadersParsed? {
      assert OffsetOf(hp) == hp.len;
    }
  }

  /**
   * The cursor after the header block as written: set to the header length
   * and then moved by it again.
   */
  function HeaderCursorAsWritten(pos: nat, len: nat): nat
  {
    var cursor := len;
    cursor + len
  }

  /** The cursor lands just past the header block only when the block started exactly its own length into the chunk. */
  lemma HeaderCursorDoubles(pos: nat, len: nat)
    ensures HeaderCursorAsWritten(pos, len) == pos + len <==> pos == len
    ensures pos == 0 && len > 0 ==> HeaderCursorAsWritten(pos, len) == pos + 2 * len
  {
  }

  // ---------------------------------------------------------------------
  // Content-Length as written
  // ---------------------------------------------------------------------

  /**
   * The Content-Length test as written, where cmp is strcmp(value, "0"):
   * a value reading as 0 is refused unless strcmp returned exactly 1.
   */
  function ContentLengthAsWritten(value: string, cmp: int): LengthField
  {
    var n := U64(CAtoi(value));
    if cmp != 1 && n == 0 then LengthMalformed else LengthValue(n)
  }

  /** With strcmp not returning 1, the test agrees with the intended one on every value except "0", which it refuses. */
  lemma ContentLengthAsWrittenAgrees(value: string, cmp: int)
    requires cmp != 1
    requires value == "0" ==> cmp == 0
    ensures ContentLengthAsWritten(value, cmp) == ContentLength(value) <==> value != "0"
    ensures value == "0" ==> ContentLengthAsWritten(value, cmp) == LengthMalformed && ContentLength(value) == LengthValue(0)
  {
    if value == "0" {
      ContentLengthOfDecimal(0);
      assert DecimalOf(0) == "0";
    }
  }

  /**
   * The Content-Length body as written: the body is recorded but the
   * cursor is not moved past it.
   */
  function ContentLengthBodyAsWritten(value: string, cmp: int, rest: seq<char>): (o: BodyOutcome)
    ensures o.consumed == 0
  {
    match ContentLengthAsWritten(value, cmp)
    case LengthMalformed => NoBody(Invalid)
    case LengthValue(n) =>
      if n > |rest| then NoBody(NeedsMoreData) else BodyOutcome(Success, rest[..n], n, 0)
  }

  // ---------------------------------------------------------------------
  // parse_request_body and parse_response_body as written
  // ---------------------------------------------------------------------

  /**
   * parse_request_body as written: the chunked branch is taken for every
   * Transfer-Encoding other than "chunked" and then reads through the
   * uninitialised `body`; the fall-through returns STATE_UNKNOWN.
   */
  function RequestBodyAsWritten(headers: seq<Header>, rest: seq<char>, cmp: int): Written<BodyOutcome>
  {
    match FirstValue(headers, CONTENT_LENGTH)
    case Some(v) => Defined(ContentLengthBodyAsWritten(v, cmp, rest))
    case None =>
      var te := FirstValue(headers, TRANSFER_ENCODING);
      if te.Some? && te.value != CHUNKED then Undefined else Defined(NoBody(Unknown))
  }

  /**
   * A request announcing a Content-Length body keeps the body under the
   * cursor, where the next frame parse starts, instead of consuming it.
   */
  lemma ContentLengthBodyKept(headers: seq<Header>, body: string, tail: string, cmp: int)
    requires 0 < |body| < INT_LIMIT
    requires FirstValue(headers, CONTENT_LENGTH) == Some(DecimalOf(|body|))
    ensures RequestBodyAsWritten(headers, body + tail, cmp) == Defined(BodyOutcome(Success, body, |body|, 0))
    ensures RequestBody(headers, body + tail) == BodyOutcome(Success, body, |body|, |body|)
  {
    ContentLengthOfDecimal(|body|);
    RequestContentLengthFraming(headers, body, tail);
    assert (body + tail)[..|body|] == body;
  }

  /**
   * Without Content-Length: a chunked request is not decoded and is
   * STATE_UNKNOWN, as is a request with no body; any other coding is
   * undefined; the intended outcomes are the chunked decoding and SUCCESS.
   */
  lemma RequestBodyAsWrittenCases(headers: seq<Header>, rest: seq<char>, cmp: int)
    requires FirstValue(headers, CONTENT_LENGTH).None?
    ensures FirstValue(headers, TRANSFER_ENCODING) == Some(CHUNKED) ==>
              RequestBodyAsWritten(headers, rest, cmp) == Defined(NoBody(Unknown))
              && RequestBody(headers, rest) == ChunkedOutcome(rest)
    ensures FirstValue(headers, TRANSFER_ENCODING).None? ==>
              RequestBodyAsWritten(headers, rest, cmp) == Defined(NoBody(Unknown))
              && RequestBody(headers, rest) == NoBody(Success)
    ensures FirstValue(headers, TRANSFER_ENCODING).Some? && FirstValue(headers, TRANSFER_ENCODING) != Some(CHUNKED) ==>
              RequestBodyAsWritten(headers, rest, cmp) == Undefined
              && RequestBody(headers, rest) == NoBody(Success)
  {
  }

  /**
   * parse_response_body as written, where next is the tokenizer's reading
   * of the bytes after the header block: its int result, held in a size_t,
   * is tested with > 0.
   */
  function ResponseBodyAsWritten(status: int, headers: seq<Header>, rest: seq<char>, next: HeaderParse, cmp: int)
    : Written<BodyOutcome>
  {
    if IsPrefix("HTTP", rest) && OffsetOf(next) > 0 then Defined(NoBody(Success))
    else match FirstValue(headers, CONTENT_LENGTH)
      case Some(v) => Defined(ContentLengthBodyAsWritten(v, cmp, rest))
      case None =>
        var te := FirstValue(headers, TRANSFER_ENCODING);
        if te.Some? && te.value != CHUNKED then Undefined
        else if NoBodyStatus(status) then Defined(NoBody(if status == 101 then Eos else Success))
        else Defined(NoBody(Success))
  }

  /** Any bytes after the header block that start with "HTTP" are taken as the next response, whatever the tokenizer says of them. */
  lemma HeadTestAcceptsAll(status: int, headers: seq<Header>, rest: seq<char>, next: HeaderParse, cmp: int)
    requires IsPrefix("HTTP", rest)
    requires next.HeadersParsed? ==> 0 < next.len < U64_MOD
    ensures ResponseBodyAsWritten(status, headers, rest, next, cmp) == Defined(NoBody(Success))
  {
  }

  /**
   * A response whose Content-Length body starts with "HTTP", not followed
   * by a parsable response, loses its body as written.
   */
  lemma BodyStartingWithHttpDropped(status: int, headers: seq<Header>, body: string, tail: string, next: HeaderParse, cmp: int)
    requires IsPrefix("HTTP", body) && !next.HeadersParsed?
    requires |body| < INT_LIMIT && FirstValue(headers, CONTENT_LENGTH) == Some(DecimalOf(|body|))
    ensures ResponseBodyAsWritten(status, headers, body + tail, next, cmp) == Defined(NoBody(Success))
    ensures ResponseBody(status, headers, body + tail, next) == BodyOutcome(Success, body, |body|, |body|)
  {
    assert (body + tail)[..4] == body[..4];
    ContentLengthOfDecimal(|body|);
    assert (body + tail)[..|body|] == body;
  }

  // ---------------------------------------------------------------------
  // parse_chunked as written
  // ---------------------------------------------------------------------

  /** Where the loop of parse_chunked as written stops. */
  datatype ChunkWalk = WalkDone(at: nat, total: nat) | WalkNeedMore | WalkInvalid | WalkPastEnd

  /**
   * The loop of parse_chunked as written from offset p of s: each round
   * reads a size line and checks the data and its CRLF as ChunkedBody
   * does, then skips the data and the CRLF a second time. A round that
   * would start past the captured bytes reads memory beyond them. A size
   * line missing from the window is judged by data_len, the length the
   * walk started with (|s|), not by the bytes left from p.
   */
  function ChunkedWalkAsWritten(s: seq<char>, p: nat, total: nat): ChunkWalk
    decreases |s| - p
  {
    if p > |s| then WalkPastEnd
    else
      var t := s[p..];
      match SizeLineOf(t)
      case NoLine => if |s| > SEARCH_WINDOW then WalkInvalid else WalkNeedMore
      case BadSize => WalkInvalid
      case Line(d, n) =>
        if n == 0 then WalkDone(p + d + 2, total)
        else if |t| - (d + 2) < n + 2 then WalkNeedMore
        else if t[d + 2 + n..d + 2 + n + 2] != CRLF then WalkInvalid
        else ChunkedWalkAsWritten(s, p + d + 2 + n + 2 + n + 2, total + n)
  }

  /**
   * parse_chunked as written on the chunk bytes data with the cursor at
   * cp: a finished walk returns STATE_UNKNOWN, the data size and the
   * cursor moved by the walked length plus the cursor twice over.
   */
  function ParseChunkedAsWritten(data: seq<char>, cp: nat): Written<(ParseState, nat, nat)>
    requires cp <= |data|
  {
    match ChunkedWalkAsWritten(data[cp..], 0, 0)
    case WalkDone(at, total) => Defined((Unknown, cp + (cp + at + cp), total))
    case WalkNeedMore => Defined((NeedsMoreData, cp, 0))
    case WalkInvalid => Defined((Invalid, cp, 0))
    case WalkPastEnd => Undefined
  }

  /** One full round of the walk as written hands over past the chunk's second skip. */
  lemma WalkRound(s: seq<char>, p: nat, total: nat, d: nat, n: nat)
    requires p <= |s| && SizeLineOf(s[p..]) == Line(d, n) && n > 0
    requires |s| - p - (d + 2) >= n + 2 && s[p + d + 2 + n..p + d + 2 + n + 2] == CRLF
    ensures ChunkedWalkAsWritten(s, p, total) == ChunkedWalkAsWritten(s, p + d + 2 + n + 2 + n + 2, total + n)
  {
    assert s[p..][d + 2 + n..d + 2 + n + 2] == s[p + d + 2 + n..p + d + 2 + n + 2];
  }

  /** Text without a carriage return holds no CRLF. */
  lemma {:induction false} LineEndNoCr(s: seq<char>, from: nat)
    requires '\r' !in s
    ensures LineEnd(s, from) == None
    decreases |s| - from
  {
    if from + 2 <= |s| {
      assert s[from] in s;
      LineEndNoCr(s, from + 1);
    }
  }

  /** Text without a carriage return has no size line. */
  lemma NoCrNoSizeLine(s: seq<char>)
    requires '\r' !in s
    ensures SizeLineOf(s) == NoLine
  {
    var w := s[..Min(|s|, SEARCH_WINDOW)];
    assert '\r' !in w by {
      forall i | 0 <= i < |w| ensures w[i] != '\r' {
        assert w[i] == s[i] && s[i] in s;
      }
    }
    LineEndNoCr(w, 0);
  }

  /**
   * One chunk "X" followed by 2045 bytes without a CRLF: 2045 bytes are
   * left after the chunk, within the 2048-byte window, so more data is
   * needed; as written the test compares the 2051 bytes the walk started
   * with and reports STATE_INVALID.
   */
  lemma ChunkedAsWrittenEntryLength(junk: string)
    requires |junk| == 2045 && '\r' !in junk
    ensures ChunkedBody("1\r\nX\r\n" + junk) == ChunkedNeedMore
    ensures ParseChunkedAsWritten("1\r\nX\r\n" + junk, 0) == Defined((Invalid, 0, 0))
  {
    var s := "1" + CRLF + ("X" + CRLF + junk);
    assert s == "1\r\nX\r\n" + junk;
    assert HexValue("1") == Some(1);
    SizeLineOfHex("1", "X" + CRLF + junk, 1);
    ChunkedBodyLine(s, 1, 1);
    assert s[4..6] == CRLF;
    assert s[6..] == junk;
    NoCrNoSizeLine(junk);
    ChunkedBodyNoSize(junk);
    WalkRound(s, 0, 0, 1, 1);
    var t := s[9..];
    assert '\r' !in t by {
      forall i | 0 <= i < |t| ensures t[i] != '\r' {
        assert t[i] == junk[i + 3] && junk[i + 3] in junk;
      }
    }
    NoCrNoSizeLine(t);
    assert s[0..] == s;
  }

  /** The chunked encoding of the single chunk "abc". */
  lemma EncodeAbc()
    ensures EncodeChunked(["abc"]) == "3" + CRLF + ("abc" + CRLF + "0" + CRLF)
  {
    HexOfValue(3);
    assert HexOf(3) == "3";
    assert ["abc"][1..] == [];
  }

  /**
   * The one-chunk body "3\r\nabc\r\n0\r\n" decodes to 3 bytes of data
   * over its 11 bytes, but as written the second skip puts the next size
   * line at offset 13, past the captured bytes.
   */
  lemma ChunkedAsWrittenOvershoots()
    ensures ChunkedBody(EncodeChunked(["abc"])) == ChunkedDone(11, 3)
    ensures ParseChunkedAsWritten(EncodeChunked(["abc"]), 0) == Undefined
  {
    AbcDecodes();
    var s := EncodeChunked(["abc"]);
    EncodeAbc();
    WalkPastAbc(s);
    assert s[0..] == s;
  }

  /** The intended decoding of the encoding of "abc": 11 bytes, 3 of data. */
  lemma AbcDecodes()
    ensures ChunkedBody(EncodeChunked(["abc"])) == ChunkedDone(11, 3)
  {
    var s := EncodeChunked(["abc"]);
    ChunkedRoundTrip(["abc"], "");
    assert s + "" == s;
    EncodeAbc();
  }

  /** As written, the walk over the encoding of "abc" goes past its 11 bytes. */
  lemma WalkPastAbc(s: seq<char>)
    requires s == "3" + CRLF + ("abc" + CRLF + "0" + CRLF)
    ensures ChunkedWalkAsWritten(s, 0, 0) == WalkPastEnd
  {
    assert HexValue("3") == Some(3);
    SizeLineOfHex("3", "abc" + CRLF + "0" + CRLF, 3);
    assert s[0..] == s;
    assert s[6..8] == CRLF;
    WalkRound(s, 0, 0, 1, 3);
  }

  /**
   * An empty chunked body "0\r\n" after k > 0 bytes already consumed:
   * SUCCESS with the cursor at k + 3 was meant, but as written it is
   * STATE_UNKNOWN with the cursor at 3k + 3.
   */
  lemma ChunkedAsWrittenCursor(prefix: string, tail: string)
    requires |prefix| > 0
    ensures var data := prefix + EncodeChunked([]) + tail;
            && ChunkedBody(data[|prefix|..]) == ChunkedDone(3, 0)
            && ParseChunkedAsWritten(data, |prefix|) == Defined((Unknown, (3 * |prefix| + 3) as nat, 0 as nat))
  {
    var data := prefix + EncodeChunked([]) + tail;
    assert data[|prefix|..] == "0" + CRLF + tail;
    LastChunkDecodes(tail);
    assert HexValue("0") == Some(0);
    SizeLineOfHex("0", tail, 0);
    assert data[|prefix|..][0..] == data[|prefix|..];
  }

  // ---------------------------------------------------------------------
  // The pattern loop of http_find_frame_boundary as written
  // ---------------------------------------------------------------------

  /**
   * The body of the pattern loop as written over the patterns it visits:
   * substr_pos takes the first match and then keeps it (max_pos is its old
   * value), so the result is the last start of the first visited pattern
   * that occurs; the store to marker_pos is never read, since the function
   * returns as soon as substr_pos is set.
   */
  function FirstMatchIn(buf: string, pats: seq<string>): Option<nat>
    decreases |pats|
  {
    if |pats| == 0 then None
    else match FindLast(buf, pats[0])
      case Some(j) => Some(j)
      case None => FirstMatchIn(buf, pats[1..])
  }

  /**
   * The pattern loop as written, count being what get_array_len returns:
   * it runs i from 0 while i < count - 1, so it visits the first count - 1
   * patterns. The lists have no NULL entry, so with their true length the
   * last pattern is never tried.
   */
  function FirstListedStart(buf: string, pats: seq<string>, count: nat): Option<nat>
    requires count <= |pats|
  {
    FirstMatchIn(buf, if count == 0 then [] else pats[..count - 1])
  }

  /** Over the patterns it visits, the loop finds a start exactly when the intended search does, and never one closer to the marker. */
  lemma {:induction false} FirstMatchInFindsSome(buf: string, pats: seq<string>)
    ensures FirstMatchIn(buf, pats).Some? <==> LastStartOf(buf, pats).Some?
    ensures FirstMatchIn(buf, pats).Some? ==>
              StartAt(buf, pats, FirstMatchIn(buf, pats).value)
              && FirstMatchIn(buf, pats).value <= LastStartOf(buf, pats).value
    decreases |pats|
  {
    LastStartOfSpec(buf, pats);
    if |pats| > 0 {
      match FindLast(buf, pats[0]) {
        case Some(j) =>
          assert OccursAt(buf, pats[0], j);
          assert StartAt(buf, pats, j);
        case None =>
          var tl := pats[1..];
          FirstMatchInFindsSome(buf, tl);
          LastStartOfSpec(buf, tl);
          forall j | StartAt(buf, tl, j)
            ensures StartAt(buf, pats, j)
          {
            var k :| 0 <= k < |tl| && OccursAt(buf, tl[k], j);
            assert pats[k + 1] == tl[k];
          }
          forall j | StartAt(buf, pats, j)
            ensures StartAt(buf, tl, j)
          {
            var k :| 0 <= k < |pats| && OccursAt(buf, pats[k], j);
            assert k != 0;
            assert tl[k - 1] == pats[k];
          }
      }
    }
  }

  /**
   * As written the loop finds a start exactly when one of the first
   * count - 1 patterns occurs, and what it finds is a start of the whole
   * list no closer to the marker than the intended one.
   */
  lemma FirstListedStartFindsSome(buf: string, pats: seq<string>, count: nat)
    requires count <= |pats|
    ensures var vis := if count == 0 then [] else pats[..count - 1];
            FirstListedStart(buf, pats, count).Some? <==> LastStartOf(buf, vis).Some?
    ensures var r := FirstListedStart(buf, pats, count);
            r.Some? ==> StartAt(buf, pats, r.value) && LastStartOf(buf, pats).Some? && r.value <= LastStartOf(buf, pats).value
  {
    var vis := if count == 0 then [] else pats[..count - 1];
    FirstMatchInFindsSome(buf, vis);
    LastStartOfSpec(buf, pats);
    var r := FirstListedStart(buf, pats, count);
    if r.Some? {
      var k :| 0 <= k < |vis| && OccursAt(buf, vis[k], r.value);
      assert vis[k] == pats[k];
      assert StartAt(buf, pats, r.value);
    }
  }

  /**
   * With count the length of the response list, the loop tries only
   * "HTTP/1.1 ": a response line "HTTP/1.0 200 OK" before its marker has
   * its start at 0, but as written no start is found.
   */
  lemma LastResponsePatternSkipped()
    ensures FirstListedStart("HTTP/1.0 200 OK", RESPONSE_START_PATTERNS, |RESPONSE_START_PATTERNS|) == None
    ensures LastStartOf("HTTP/1.0 200 OK", RESPONSE_START_PATTERNS) == Some(0)
  {
    var buf := "HTTP/1.0 200 OK";
    var pats := RESPONSE_START_PATTERNS;
    assert pats[..|pats| - 1] == [pats[0]];
    forall j ensures !OccursAt(buf, pats[0], j) {
      if 0 < j && j + 9 <= |buf| {
        assert buf[j..j + 9][0] == buf[j] != 'H';
      } else if j == 0 {
        assert buf[..9][7] == '0' != pats[0][7];
      }
    }
    assert FindLast(buf, pats[0]) == None;
    assert [pats[0]][1..] == [];
    assert FirstMatchIn(buf, [pats[0]]) == FirstMatchIn(buf, []) == None;
    LastStartOfSpec(buf, pats);
    assert OccursAt(buf, pats[1], 0);
    assert StartAt(buf, pats, 0);
    forall j | 0 < j ensures !StartAt(buf, pats, j) {
      forall k | 0 <= k < |pats| ensures !OccursAt(buf, pats[k], j) {
        if j + 9 <= |buf| {
          assert buf[j..j + 9][0] == buf[j] != 'H';
        }
      }
    }
  }

  /**
   * Before the marker of "GET PUT ", the start closest to the marker is
   * the "PUT " at 4, but as written "GET " wins because GET comes first in
   * the request pattern list.
   */
  lemma EarlierListedMethodWins()
    ensures FirstListedStart("GET PUT ", REQUEST_START_PATTERNS, |REQUEST_START_PATTERNS|) == Some(0)
    ensures LastStartOf("GET PUT ", REQUEST_START_PATTERNS) == Some(4)
  {
    var buf := "GET PUT ";
    var pats := REQUEST_START_PATTERNS;
    assert OccursAt(buf, pats[0], 0);
    assert buf[1] == 'E' && buf[2] == 'T' && buf[3] == ' ' && buf[4] == 'P';
    forall j | 0 < j ensures !OccursAt(buf, pats[0], j) {
      if j + 4 <= |buf| {
        assert buf[j..j + 4][0] == buf[j] != 'G';
      }
    }
    LastStartOfSpec(buf, pats);
    assert OccursAt(buf, pats[3], 4);
    assert StartAt(buf, pats, 4);
    forall j | 4 < j ensures !StartAt(buf, pats, j) {
      forall k | 0 <= k < |pats| ensures !OccursAt(buf, pats[k], j) {
        assert |pats[k]| >= 4;
      }
    }
  }
}
