/**
 * The response framer of the tunnel worker (`recv_full_http_response`):
 * it reads an HTTP response from the tunnel connection until the header block
 * has ended (the blank line of section 2.1 of RFC 9112) and, when the first
 * header line mentioning `Content-Length:` (section 8.6 of RFC 9110) carries
 * an integer, until the body is at least that long.
 *
 * The connection is a sequence of chunks, one per `recv` call; `Recv` past
 * the last chunk, or an empty chunk, is the end of the stream.
 */
module HttpFraming {
  import opened Options
  import opened ByteStrings

  const CRLF: Bytes := [13, 10]
  const Separator: Bytes := [13, 10, 13, 10]
  const Colon: Bytes := [58]
  const ContentLengthName: Bytes := Ascii("Content-Length:")

  // ---------------------------------------------------------------------------
  // Header parsing
  // ---------------------------------------------------------------------------

  /** A line that mentions the field name holds a colon, so it splits into at least two fields. */
  lemma NamedLineHasColon(line: Bytes)
    requires Contains(line, ContentLengthName)
    ensures |Split(line, Colon)| >= 2
  {
    var j := IndexOf(line, ContentLengthName).value;
    assert line[j..j + 15] == ContentLengthName;
    assert ContentLengthName[14] == 58;
    assert line[j + 14] == 58;
    assert line[j + 14..j + 15] == Colon;
    assert MatchAt(line, Colon, j + 14);
  }

  /** `int(line.split(b':')[1].strip())`: the text between the first and the second colon. */
  function FieldValue(line: Bytes): Option<int>
    requires Contains(line, ContentLengthName)
  {
    NamedLineHasColon(line);
    ParseInt(Strip(Split(line, Colon)[1]))
  }

  /** A mentioning line declares a length exactly when the text after its first colon, once stripped, is an integer literal. */
  lemma FieldValueDefined(line: Bytes)
    requires Contains(line, ContentLengthName)
    ensures |Split(line, Colon)| >= 2
    ensures FieldValue(line).Some? <==> IsIntegerLiteral(Strip(Split(line, Colon)[1]))
  {
    NamedLineHasColon(line);
  }

  /** The declared length: that of the first line mentioning `Content-Length:`, and no other. */
  function LengthField(lines: seq<Bytes>): Option<int>
  {
    if lines == [] then None
    else if Contains(lines[0], ContentLengthName) then FieldValue(lines[0])
    else LengthField(lines[1..])
  }

  /** The length declared by a header block, its lines separated by CRLF. */
  function ContentLength(headers: Bytes): Option<int>
  {
    LengthField(Split(headers, CRLF))
  }

  /** Where a declared length comes from: a line that mentions the field. */
  lemma {:induction false} DeclaringIndex(lines: seq<Bytes>) returns (i: nat)
    requires LengthField(lines).Some?
    ensures i < |lines| && Contains(lines[i], ContentLengthName) && FieldValue(lines[i]) == LengthField(lines)
  {
    if Contains(lines[0], ContentLengthName) {
      i := 0;
    } else {
      var i' := DeclaringIndex(lines[1..]);
      i := i' + 1;
    }
  }

  /** A declared length comes from a line of the block, so the block itself mentions the field. */
  lemma DeclaredNameOccurs(headers: Bytes)
    ensures ContentLength(headers).Some? ==> Contains(headers, ContentLengthName)
  {
    if ContentLength(headers).Some? {
      var i := DeclaringIndex(Split(headers, CRLF));
      PartContains(headers, CRLF, i, ContentLengthName);
    }
  }

  /** Only the first matching line is consulted; the lines after it are never looked at. */
  lemma {:induction false} FirstFieldDecides(lines: seq<Bytes>, i: nat)
    requires i < |lines| && Contains(lines[i], ContentLengthName)
    requires forall j :: 0 <= j < i ==> !Contains(lines[j], ContentLengthName)
    ensures LengthField(lines) == FieldValue(lines[i])
  {
    if i > 0 {
      FirstFieldDecides(lines[1..], i - 1);
    }
  }

  /** Without a matching line there is no declared length. */
  lemma {:induction false} NoFieldNoLength(lines: seq<Bytes>)
    requires forall j :: 0 <= j < |lines| ==> !Contains(lines[j], ContentLengthName)
    ensures LengthField(lines) == None
  {
    if lines != [] {
      NoFieldNoLength(lines[1..]);
    }
  }

  /** The `for line in headers.split(b'\r\n')` loop with its `break`. */
  method ScanContentLength(headers: Bytes) returns (contentLength: Option<int>)
    ensures contentLength == ContentLength(headers)
  {
    var lines := Split(headers, CRLF);
    contentLength := None;
    for k := 0 to |lines|
      invariant LengthField(lines[k..]) == LengthField(lines)
    {
      assert lines[k..][1..] == lines[k + 1..];
      if Contains(lines[k], ContentLengthName) {
        contentLength := FieldValue(lines[k]);
        break;
      }
    }
  }

  // ---------------------------------------------------------------------------
  // Buffers
  // ---------------------------------------------------------------------------

  /** `b'\r\n\r\n' in buffer`. */
  predicate HeaderComplete(buf: Bytes)
  {
    Contains(buf, Separator)
  }

  function SeparatorAt(buf: Bytes): (j: nat)
    requires HeaderComplete(buf)
    ensures j + 4 <= |buf|
  {
    IndexOf(buf, Separator).value
  }

  /** The first half of `buffer.split(b'\r\n\r\n', 1)`. */
  function Headers(buf: Bytes): Bytes
    requires HeaderComplete(buf)
  {
    buf[..SeparatorAt(buf)]
  }

  /** The second half of `buffer.split(b'\r\n\r\n', 1)`. */
  function Body(buf: Bytes): Bytes
    requires HeaderComplete(buf)
  {
    buf[SeparatorAt(buf) + 4..]
  }

  /** Splitting at the first separator and joining again gives back the buffer. */
  lemma SplitRejoin(buf: Bytes)
    requires HeaderComplete(buf)
    ensures Headers(buf) + Separator + Body(buf) == buf
    ensures !Contains(Headers(buf), Separator)
  {
    var j := SeparatorAt(buf);
    assert buf[j..j + 4] == Separator;
    assert buf == buf[..j] + buf[j..j + 4] + buf[j + 4..];
    NoMatchInPrefix(buf, Separator, j);
  }

  /** The framer stops reading on this buffer: headers ended and the declared length, if any, is reached. */
  predicate MessageComplete(buf: Bytes)
  {
    && HeaderComplete(buf)
    && match ContentLength(Headers(buf))
       case None => true
       case Some(n) => |Body(buf)| >= n
  }

  // ---------------------------------------------------------------------------
  // The connection as a chunk sequence
  // ---------------------------------------------------------------------------

  /** What the `i`-th `conn.recv(4096)` returns; `[]` is the end of the stream. */
  function Recv(chunks: seq<Bytes>, i: nat): Bytes
  {
    if i < |chunks| then chunks[i] else []
  }

  /** Everything the first `k` reads returned. */
  function Received(chunks: seq<Bytes>, k: nat): Bytes
    requires k <= |chunks|
  {
    Concat(chunks[..k])
  }

  lemma ReceivedNext(chunks: seq<Bytes>, k: nat)
    requires k < |chunks|
    ensures Received(chunks, k + 1) == Received(chunks, k) + chunks[k]
  {
    assert chunks[..k + 1] == chunks[..k] + [chunks[k]];
    ConcatSnoc(chunks[..k], chunks[k]);
  }

  lemma {:induction false} ReceivedPrefix(chunks: seq<Bytes>, k: nat, m: nat)
    requires k <= m <= |chunks|
    ensures Received(chunks, m) == Received(chunks, k) + Concat(chunks[k..m])
    decreases m - k
  {
    if k < m {
      ReceivedPrefix(chunks, k, m - 1);
      ReceivedNext(chunks, m - 1);
      assert chunks[k..m] == chunks[k..m - 1] + [chunks[m - 1]];
      ConcatSnoc(chunks[k..m - 1], chunks[m - 1]);
    } else {
      assert chunks[k..m] == [];
    }
  }

  /**
   * `response` and `used` are what the framer produces on `chunks`: the
   * response is exactly the bytes of the first `used` reads, each of which
   * returned data; no shorter prefix of the stream was a complete message;
   * and reading stopped because the message was complete or the stream ended.
   */
  predicate Framed(chunks: seq<Bytes>, response: Bytes, used: nat)
  {
    && ReadIncomplete(chunks, used)
    && response == Received(chunks, used)
    && (MessageComplete(response) || Recv(chunks, used) == [])
  }

  /** The first `used` reads all returned data, and none of the shorter prefixes was a complete message. */
  predicate ReadIncomplete(chunks: seq<Bytes>, used: nat)
  {
    && used <= |chunks|
    && (forall j :: 0 <= j < used ==> chunks[j] != [])
    && IncompleteBefore(chunks, used)
  }

  /** No prefix of the stream shorter than `used` reads is a complete message. */
  predicate IncompleteBefore(chunks: seq<Bytes>, used: nat)
    requires used <= |chunks|
  {
    forall k :: 0 <= k < used ==> !MessageComplete(Received(chunks, k))
  }

  lemma IncompleteBeforeNext(chunks: seq<Bytes>, used: nat)
    requires used < |chunks|
    requires IncompleteBefore(chunks, used) && !MessageComplete(Received(chunks, used))
    ensures IncompleteBefore(chunks, used + 1)
  {
  }

  /** One more read of data past an incomplete prefix. */
  lemma ReadNext(chunks: seq<Bytes>, used: nat)
    requires ReadIncomplete(chunks, used) && Recv(chunks, used) != []
    requires !MessageComplete(Received(chunks, used))
    ensures ReadIncomplete(chunks, used + 1)
    ensures Received(chunks, used + 1) == Received(chunks, used) + chunks[used]
  {
    IncompleteBeforeNext(chunks, used);
    ReceivedNext(chunks, used);
  }

  /** Reading more after the header block has ended keeps the headers and extends the body. */
  lemma BodyGrows(chunks: seq<Bytes>, k: nat)
    requires k < |chunks| && HeaderComplete(Received(chunks, k))
    ensures HeaderComplete(Received(chunks, k + 1))
    ensures Headers(Received(chunks, k + 1)) == Headers(Received(chunks, k))
    ensures Body(Received(chunks, k + 1)) == Body(Received(chunks, k)) + chunks[k]
  {
    ReceivedNext(chunks, k);
    IndexOfExtend(Received(chunks, k), chunks[k], Separator);
  }

  /** A body shorter than the declared length is not yet a complete message. */
  lemma ShortBodyIncomplete(buf: Bytes, n: int)
    requires HeaderComplete(buf) && ContentLength(Headers(buf)) == Some(n) && |Body(buf)| < n
    ensures !MessageComplete(buf)
  {
  }

  /** Stopping after `used` reads of non-empty chunks, none of which completed the message early. */
  lemma FramedAt(chunks: seq<Bytes>, used: nat)
    requires ReadIncomplete(chunks, used)
    requires MessageComplete(Received(chunks, used)) || Recv(chunks, used) == []
    ensures Framed(chunks, Received(chunks, used), used)
  {
  }

  /** `recv_full_http_response`; also returns how many reads it consumed. */
  method RecvFullHttpResponse(chunks: seq<Bytes>) returns (response: Bytes, used: nat)
    ensures Framed(chunks, response, used)
  {
    // Step 1: read until the header block has ended.
    var buffer;
    buffer, used := ReadHeaderBlock(chunks);
    if !HeaderComplete(buffer) {
      FramedAt(chunks, used);
      return buffer, used;
    }

    var headers := Headers(buffer);
    var body := Body(buffer);

    // Step 2: the declared length, if any.
    var contentLength := ScanContentLength(headers);

    // Step 3: read until the body is at least that long.
    body, used := ReadBody(chunks, used, contentLength);
    SplitRejoin(Received(chunks, used));
    response := headers + Separator + body;
    FramedAt(chunks, used);
  }

  /** No read before the `used`-th brought the header block to its end. */
  predicate HeadersOpenBefore(chunks: seq<Bytes>, used: nat)
    requires used <= |chunks|
  {
    forall k :: 0 <= k < used ==> !HeaderComplete(Received(chunks, k))
  }

  /** The first loop of `recv_full_http_response`: read until `\r\n\r\n` has arrived or the stream ends. */
  method ReadHeaderBlock(chunks: seq<Bytes>) returns (buffer: Bytes, used: nat)
    ensures ReadIncomplete(chunks, used) && buffer == Received(chunks, used)
    ensures HeaderComplete(buffer) || Recv(chunks, used) == []
    ensures HeadersOpenBefore(chunks, used)
  {
    buffer := [];
    used := 0;
    var headersDone := false;
    while !headersDone
      invariant ReadIncomplete(chunks, used)
      invariant buffer == Received(chunks, used)
      invariant headersDone == HeaderComplete(buffer)
      invariant HeadersOpenBefore(chunks, used)
      decreases |chunks| - used, !headersDone
    {
      var chunk := Recv(chunks, used);
      if chunk == [] {
        break;
      }
      ReadNext(chunks, used);
      buffer := buffer + chunk;
      used := used + 1;
      if HeaderComplete(buffer) {
        headersDone := true;
      }
    }
  }

  /**
   * The second loop of `recv_full_http_response`: starting after the read that
   * completed the header block, read until the body reaches the declared
   * length `contentLength` or the stream ends.
   */
  method ReadBody(chunks: seq<Bytes>, start: nat, contentLength: Option<int>) returns (body: Bytes, used: nat)
    requires ReadIncomplete(chunks, start) && HeaderComplete(Received(chunks, start))
    requires contentLength == ContentLength(Headers(Received(chunks, start)))
    ensures ReadIncomplete(chunks, used) && HeaderComplete(Received(chunks, used))
    ensures Headers(Received(chunks, used)) == Headers(Received(chunks, start))
    ensures Body(Received(chunks, used)) == body
    ensures MessageComplete(Received(chunks, used)) || Recv(chunks, used) == []
  {
    used := start;
    ghost var buffer := Received(chunks, start);
    body := Body(Received(chunks, start));
    while contentLength.Some? && |body| < contentLength.value
      invariant ReadIncomplete(chunks, used) && buffer == Received(chunks, used)
      invariant HeaderComplete(buffer) && contentLength == ContentLength(Headers(buffer))
      invariant Headers(buffer) == Headers(Received(chunks, start)) && Body(buffer) == body
      decreases |chunks| - used
    {
      var chunk := Recv(chunks, used);
      if chunk == [] {
        return;
      }
      BodyNext(chunks, used);
      body := body + chunk;
      used := used + 1;
      buffer := Received(chunks, used);
    }
    LongBodyComplete(buffer);
  }

  /** One more read of data while the body is shorter than declared. */
  lemma BodyNext(chunks: seq<Bytes>, used: nat)
    requires ReadIncomplete(chunks, used) && Recv(chunks, used) != []
    requires HeaderComplete(Received(chunks, used))
    requires ContentLength(Headers(Received(chunks, used))).Some?
    requires |Body(Received(chunks, used))| < ContentLength(Headers(Received(chunks, used))).value
    ensures ReadIncomplete(chunks, used + 1) && HeaderComplete(Received(chunks, used + 1))
    ensures Headers(Received(chunks, used + 1)) == Headers(Received(chunks, used))
    ensures Body(Received(chunks, used + 1)) == Body(Received(chunks, used)) + chunks[used]
  {
    ShortBodyIncomplete(Received(chunks, used), ContentLength(Headers(Received(chunks, used))).value);
    ReadNext(chunks, used);
    BodyGrows(chunks, used);
  }

  /** A complete header block whose body has reached the declared length, if any, ends the message. */
  lemma LongBodyComplete(buf: Bytes)
    requires HeaderComplete(buf)
    requires ContentLength(Headers(buf)).None? || |Body(buf)| >= ContentLength(Headers(buf)).value
    ensures MessageComplete(buf)
  {
  }

  // ---------------------------------------------------------------------------
  // What the framer's contract implies
  // ---------------------------------------------------------------------------

  /** The contract determines the framer's result: two framings of one stream agree. */
  lemma FramedUnique(chunks: seq<Bytes>, r1: Bytes, u1: nat, r2: Bytes, u2: nat)
    requires Framed(chunks, r1, u1) && Framed(chunks, r2, u2)
    ensures u1 == u2 && r1 == r2
  {
  }

  /** Once the header block has ended, later reads keep the headers and only extend the body. */
  lemma {:induction false} HeadersStable(chunks: seq<Bytes>, k: nat, m: nat)
    requires k <= m <= |chunks| && HeaderComplete(Received(chunks, k))
    ensures HeaderComplete(Received(chunks, m))
    ensures Headers(Received(chunks, m)) == Headers(Received(chunks, k))
    ensures Body(Received(chunks, m)) == Body(Received(chunks, k)) + Concat(chunks[k..m])
  {
    ReceivedPrefix(chunks, k, m);
    IndexOfExtend(Received(chunks, k), Concat(chunks[k..m]), Separator);
  }

  /**
   * A stream that ends before any `\r\n\r\n` is returned whole: the framer
   * consumes every chunk and never gets to the length-reading phase.
   */
  lemma NoSeparatorReturnsAll(chunks: seq<Bytes>, response: Bytes, used: nat)
    requires forall j :: 0 <= j < |chunks| ==> chunks[j] != []
    requires !HeaderComplete(Concat(chunks))
    requires Framed(chunks, response, used)
    ensures used == |chunks| && response == Concat(chunks)
  {
    assert chunks[..|chunks|] == chunks;
    if used < |chunks| {
      assert MessageComplete(response);
      HeadersStable(chunks, used, |chunks|);
      assert false;
    }
  }

  /**
   * Without a usable `Content-Length:` (no line mentions it, or the first one
   * that does fails to parse) the framer stops at the read that completed the
   * header block and reads nothing more.
   */
  lemma NoLengthStopsAtHeaders(chunks: seq<Bytes>, response: Bytes, used: nat)
    requires Framed(chunks, response, used)
    requires HeaderComplete(response) && ContentLength(Headers(response)).None?
    ensures forall k :: 0 <= k < used ==> !HeaderComplete(Received(chunks, k))
  {
    forall k | 0 <= k < used
      ensures !HeaderComplete(Received(chunks, k))
    {
      if HeaderComplete(Received(chunks, k)) {
        HeadersStable(chunks, k, used);
        assert false;
      }
    }
  }

  /**
   * With a declared length `n`, the framer reads on exactly while the body is
   * shorter than `n`, and stops once it is at least `n` long or the stream
   * ends. Nothing is trimmed: the response is the whole header block, the
   * separator and every body byte read, including any beyond `n`.
   */
  lemma DeclaredLengthStops(chunks: seq<Bytes>, response: Bytes, used: nat, n: int)
    requires Framed(chunks, response, used)
    requires HeaderComplete(response) && ContentLength(Headers(response)) == Some(n)
    ensures |Body(response)| >= n || Recv(chunks, used) == []
    ensures forall k :: 0 <= k < used && HeaderComplete(Received(chunks, k)) ==> |Body(Received(chunks, k))| < n
    ensures response == Headers(response) + Separator + Body(response)
  {
    forall k | 0 <= k < used && HeaderComplete(Received(chunks, k))
      ensures |Body(Received(chunks, k))| < n
    {
      HeadersStable(chunks, k, used);
      assert !MessageComplete(Received(chunks, k));
    }
    SplitRejoin(response);
  }

  // ---------------------------------------------------------------------------
  // Messages built from header lines
  // ---------------------------------------------------------------------------

  /** A header line without CR: the kind every well-formed response is made of. */
  predicate PlainLine(line: Bytes)
  {
    |line| > 0 && forall i :: 0 <= i < |line| ==> line[i] != 13
  }

  predicate PlainLines(lines: seq<Bytes>)
  {
    |lines| >= 1 && forall i :: 0 <= i < |lines| ==> PlainLine(lines[i])
  }

  /** The other half of the `split`/`join` round trip: splitting joined plain lines gives them back. */
  lemma {:induction false} SplitJoinPlain(lines: seq<Bytes>)
    requires PlainLines(lines)
    ensures Split(Join(lines, CRLF), CRLF) == lines
    decreases |lines|
  {
    var block := Join(lines, CRLF);
    if |lines| == 1 {
      FirstByteAbsent(block, CRLF);
    } else {
      var first, rest := lines[0], Join(lines[1..], CRLF);
      assert block == first + CRLF + rest;
      assert block[|first|..|first| + 2] == CRLF;
      FirstByteDecides(block, CRLF, |first|);
      assert block[..|first|] == first;
      assert block[|first| + 2..] == rest;
      SplitJoinPlain(lines[1..]);
    }
  }

  /** In plain lines followed by the separator, the first separator is the one after the last line. */
  lemma {:induction false} SeparatorAfterPlainLines(lines: seq<Bytes>, body: Bytes)
    requires PlainLines(lines)
    ensures IndexOf(Join(lines, CRLF) + Separator + body, Separator) == Some(|Join(lines, CRLF)|)
    decreases |lines|
  {
    var block := Join(lines, CRLF);
    var msg := block + Separator + body;
    if |lines| == 1 {
      assert msg[|block|..|block| + 4] == Separator;
      FirstByteDecides(msg, Separator, |block|);
    } else {
      var first, rest := lines[0], Join(lines[1..], CRLF);
      var tail := rest + Separator + body;
      SeparatorAfterPlainLines(lines[1..], body);
      assert PlainLine(lines[1..][0]);
      assert rest[0] == lines[1][0];
      SeparatorAfterLine(first, tail, |rest|);
      assert msg == first + CRLF + tail;
    }
  }

  /** A plain line and CRLF in front of a text move its first separator by their length. */
  lemma SeparatorAfterLine(first: Bytes, tail: Bytes, k: nat)
    requires PlainLine(first) && IndexOf(tail, Separator) == Some(k) && tail[0] != 13
    ensures IndexOf(first + CRLF + tail, Separator) == Some(|first| + 2 + k)
  {
    var msg := first + CRLF + tail;
    assert msg == (first + CRLF) + tail;
    MatchAtShift(first + CRLF, tail, Separator, k);
    forall i | 0 <= i < |first| + 2 + k
      ensures !MatchAt(msg, Separator, i)
    {
      if i < |first| + 2 {
        NoSeparatorAcrossLineEnd(first, tail, i);
      } else {
        MatchAtShift(first + CRLF, tail, Separator, i - |first| - 2);
      }
    }
    IndexOfIsFirstMatch(msg, Separator, |first| + 2 + k);
  }

  /** No separator starts inside a plain line or its CRLF when the next byte is not CR. */
  lemma NoSeparatorAcrossLineEnd(first: Bytes, tail: Bytes, i: nat)
    requires PlainLine(first) && |tail| > 0 && tail[0] != 13 && i < |first| + 2
    ensures !MatchAt(first + CRLF + tail, Separator, i)
  {
    var msg := first + CRLF + tail;
    if i + 4 <= |msg| {
      if i < |first| {
        assert msg[i] == first[i] != 13;
      } else if i == |first| {
        assert msg[i + 2] == tail[0] != 13;
      } else {
        assert msg[i] == 10;
      }
      assert msg[i..i + 4] != Separator;
    }
  }

  /** A response made of plain header lines, the separator and a body splits back into those parts. */
  lemma MessageParts(lines: seq<Bytes>, body: Bytes)
    requires PlainLines(lines)
    ensures HeaderComplete(Join(lines, CRLF) + Separator + body)
    ensures Headers(Join(lines, CRLF) + Separator + body) == Join(lines, CRLF)
    ensures Body(Join(lines, CRLF) + Separator + body) == body
    ensures ContentLength(Headers(Join(lines, CRLF) + Separator + body)) == LengthField(lines)
  {
    SeparatorAfterPlainLines(lines, body);
    SplitJoinPlain(lines);
    var block := Join(lines, CRLF);
    assert (block + Separator + body)[..|block|] == block;
    assert (block + Separator + body)[|block| + 4..] == body;
  }

  /** Such a response is complete exactly when its body has reached the declared length, if any. */
  lemma CompleteIffLongEnough(lines: seq<Bytes>, body: Bytes)
    requires PlainLines(lines)
    ensures MessageComplete(Join(lines, CRLF) + Separator + body)
      <==> LengthField(lines).None? || |body| >= LengthField(lines).value
  {
    MessageParts(lines, body);
  }

  /** A line whose only colons come before position 14 cannot mention `Content-Length:`. */
  lemma NoLateColonNoName(line: Bytes)
    requires forall i :: 14 <= i < |line| ==> line[i] != 58
    ensures !Contains(line, ContentLengthName)
  {
    forall j | 0 <= j
      ensures !MatchAt(line, ContentLengthName, j)
    {
      if j + 15 <= |line| {
        assert line[j..j + 15][14] == line[j + 14] != ContentLengthName[14];
      }
    }
  }

  /** `Content-Length:` followed by a value without colons declares `int(value.strip())`. */
  lemma FieldValueAfterName(value: Bytes)
    requires forall i :: 0 <= i < |value| ==> value[i] != 58
    ensures Contains(ContentLengthName + value, ContentLengthName)
    ensures FieldValue(ContentLengthName + value) == ParseInt(Strip(value))
  {
    var line := ContentLengthName + value;
    assert line[..15] == ContentLengthName;
    IndexOfIsFirstMatch(line, ContentLengthName, 0);
    assert line[14..15] == Colon;
    FirstByteDecides(line, Colon, 14);
    assert line[15..] == value;
    FirstByteAbsent(value, Colon);
    assert Split(line, Colon) == [line[..14], value];
  }

  lemma NameIsPlain()
    ensures forall i :: 0 <= i < |ContentLengthName| ==> ContentLengthName[i] != 13
  {
  }

  /** A header line without CR whose colons all come before position 14 is plain and declares nothing. */
  lemma PlainLineWithoutName(line: Bytes)
    requires |line| > 0 && (forall i :: 0 <= i < |line| ==> line[i] != 13)
    requires forall i :: 14 <= i < |line| ==> line[i] != 58
    ensures PlainLine(line) && !Contains(line, ContentLengthName)
  {
    NoLateColonNoName(line);
  }

  /** `Content-Length:` and a value free of CR and colons form a plain line declaring `int(value.strip())`. */
  lemma DeclaringLine(value: Bytes)
    requires forall i :: 0 <= i < |value| ==> value[i] != 58 && value[i] != 13
    ensures PlainLine(ContentLengthName + value) && Contains(ContentLengthName + value, ContentLengthName)
    ensures FieldValue(ContentLengthName + value) == ParseInt(Strip(value))
  {
    FieldValueAfterName(value);
    NameIsPlain();
    var line := ContentLengthName + value;
    forall i | 0 <= i < |line|
      ensures line[i] != 13
    {
      if i < |ContentLengthName| {
        assert line[i] == ContentLengthName[i];
      } else {
        assert line[i] == value[i - |ContentLengthName|];
      }
    }
  }

  // ---------------------------------------------------------------------------
  // Worked examples
  // ---------------------------------------------------------------------------

  const ExampleStatus: Bytes := Ascii("HTTP/1.1 200 OK")
  const ExampleLines: seq<Bytes> := [ExampleStatus, ContentLengthName + Ascii("2")]
  const ExampleHead: Bytes := Join(ExampleLines, CRLF) + Separator

  lemma ExampleStatusPlain()
    ensures PlainLine(ExampleStatus) && !Contains(ExampleStatus, ContentLengthName)
  {
    assert forall i :: 0 <= i < |ExampleStatus| ==> ExampleStatus[i] != 13;
    assert forall i :: 14 <= i < |ExampleStatus| ==> ExampleStatus[i] != 58;
    PlainLineWithoutName(ExampleStatus);
  }

  /** The line `Content-Length:` followed by one decimal digit declares that digit's value. */
  lemma DigitDeclares(d: byte)
    requires IsDigit(d)
    ensures PlainLine(ContentLengthName + [d]) && Contains(ContentLengthName + [d], ContentLengthName)
    ensures FieldValue(ContentLengthName + [d]) == Some(d as int - 48)
  {
    DeclaringLine([d]);
    ParseDigit(d);
  }

  /** `Content-Length:2` after a status line: the declared length is 2. */
  lemma ExampleLinesDeclareTwo()
    ensures PlainLines(ExampleLines) && LengthField(ExampleLines) == Some(2)
  {
    ExampleStatusPlain();
    AsciiTwo();
    DigitDeclares(50);
    SecondOfTwoDeclares(ExampleStatus, ContentLengthName + [50]);
  }

  lemma AsciiTwo()
    ensures Ascii("2") == [50]
  {
  }

  /** Of two plain lines, only the second naming the field: that line declares the length. */
  lemma SecondOfTwoDeclares(a: Bytes, b: Bytes)
    requires PlainLine(a) && !Contains(a, ContentLengthName)
    requires PlainLine(b) && Contains(b, ContentLengthName)
    ensures PlainLines([a, b]) && LengthField([a, b]) == FieldValue(b)
  {
    FirstFieldDecides([a, b], 1);
  }

  /**
   * `Content-Length:2` with the body in a later chunk: the framer reads exactly
   * up to the chunk that completes the body and leaves what follows unread,
   * without waiting for the connection to close.
   */
  lemma ExampleStopsAtDeclaredLength()
    ensures Framed([ExampleHead, Ascii("ok"), Ascii("HTTP")], ExampleHead + Ascii("ok"), 2)
  {
    assert PlainLines(ExampleLines) && LengthField(ExampleLines) == Some(2) by {
      ExampleLinesDeclareTwo();
    }
    BodyInLaterRead(ExampleLines, 2, Ascii("ok"), Ascii("HTTP"));
  }

  /** Bytes beyond the declared length that arrive in the same read are kept, not trimmed. */
  lemma ExampleKeepsSurplus()
    ensures Framed([ExampleHead + Ascii("okHTTP")], ExampleHead + Ascii("okHTTP"), 1)
  {
    assert PlainLines(ExampleLines) && LengthField(ExampleLines) == Some(2) by {
      ExampleLinesDeclareTwo();
    }
    SurplusKept(ExampleLines, 2, Ascii("okHTTP"));
  }

  /**
   * A header block declaring `n > 0` bytes, read on its own, followed by a read
   * that brings at least `n` bytes: the framer stops after the second read,
   * whatever the stream holds after it.
   */
  lemma BodyInLaterRead(lines: seq<Bytes>, n: int, body: Bytes, rest: Bytes)
    requires PlainLines(lines) && LengthField(lines) == Some(n) && 0 < n <= |body|
    ensures var head := Join(lines, CRLF) + Separator;
      Framed([head, body, rest], head + body, 2)
  {
    var head := Join(lines, CRLF) + Separator;
    var chunks := [head, body, rest];
    assert !MessageComplete(head) by {
      assert head == head + [];
      CompleteIffLongEnough(lines, []);
    }
    assert MessageComplete(head + body) by {
      CompleteIffLongEnough(lines, body);
    }
    ReadStart(chunks);
    ReadNext(chunks, 0);
    assert Received(chunks, 1) == head;
    ReadNext(chunks, 1);
    FramedAt(chunks, 2);
  }

  /** A single read holding the header block and more than the declared body: all of it is returned. */
  lemma SurplusKept(lines: seq<Bytes>, n: int, body: Bytes)
    requires PlainLines(lines) && LengthField(lines) == Some(n) && n <= |body|
    ensures var msg := Join(lines, CRLF) + Separator + body;
      Framed([msg], msg, 1)
  {
    var msg := Join(lines, CRLF) + Separator + body;
    var chunks := [msg];
    CompleteIffLongEnough(lines, body);
    ReadStart(chunks);
    ReadNext(chunks, 0);
    FramedAt(chunks, 1);
  }

  /** Before the first read nothing has arrived. */
  lemma ReadStart(chunks: seq<Bytes>)
    ensures ReadIncomplete(chunks, 0) && Received(chunks, 0) == [] && !MessageComplete([])
  {
    assert chunks[..0] == [];
  }
}
