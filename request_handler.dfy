/** handle_request, handle_get_request and handle_post_request as imperative
    code over the connection's header buffer, each stage proved to compute
    what module RequestSpec says it does. The socket is the value `input`
    (what successive reads deliver); responses are returned as values. */
module RequestHandler {
  import opened CStrings
  import opened IoModel
  import opened RequestSpec
  import opened Server

  /** read(fd, dst + off, max): the bytes land in dst[off..off + n]; n == 0
      stands for a result <= 0. */
  method ReadInto(dst: array<char>, off: nat, max: nat, input: Input) returns (n: nat, rest: Input)
    requires off + max <= dst.Length
    modifies dst
    ensures n == |Receive(input, max).0| && rest == Receive(input, max).1
    ensures off + n <= dst.Length && dst[..off + n] == old(dst[..off]) + Receive(input, max).0
  {
    var (bytes, r) := Receive(input, max);
    n, rest := |bytes|, r;
    forall i | off <= i < off + n {
      dst[i] := bytes[i - off];
    }
    assert dst[..off + n] == old(dst[..off]) + bytes;
  }

  /** Stage 1 (request_handler.c, the first while loop): read until the header
      block is complete, the 32768-byte limit is reached, or the peer stops. */
  method ReadHeaderBlock(buffer: array<char>, input: Input) returns (stage: HeaderStage)
    requires buffer.Length == BUFFER_SIZE
    modifies buffer
    ensures stage == ReadHeaders([], input)
    ensures stage.HeadersFound? ==> |stage.data| < BUFFER_SIZE && buffer[..|stage.data|] == stage.data
  {
    var totalRead := 0;
    var rest := input;
    while true
      invariant totalRead < MAX_HEADER_SIZE
      invariant ReadHeaders(buffer[..totalRead], rest) == ReadHeaders([], input)
      decreases MAX_HEADER_SIZE - totalRead
    {
      ghost var before, pending := buffer[..totalRead], rest;
      var bytesRead, r := ReadInto(buffer, totalRead, BUFFER_SIZE - totalRead - 1, rest);
      ReadHeadersStep(before, pending);
      if bytesRead == 0 {
        return NoTerminator;
      }
      totalRead, rest := totalRead + bytesRead, r;
      ghost var filled := buffer[..totalRead];
      buffer[totalRead] := NUL;
      assert buffer[..totalRead] == filled;
      var data := buffer[..totalRead];
      var headerEnd := HeaderEnd(data);
      if headerEnd.Some? {
        return HeadersFound(data, headerEnd.value, rest);
      }
      if totalRead >= MAX_HEADER_SIZE {
        return TooLarge;
      }
    }
  }

  /** The loop that steps past the spaces and tabs after a header name; the
      line ends in a NUL, so the loop stops at its end at the latest. */
  method SkipBlanks(line: seq<char>, from: nat) returns (i: nat)
    requires from <= |line|
    ensures i == Span(line, from, IsBlank)
  {
    i := from;
    while i < |line| && IsBlank(line[i])
      invariant from <= i <= |line|
      invariant Span(line, i, IsBlank) == Span(line, from, IsBlank)
    {
      i := i + 1;
    }
  }

  /** The end of the line at `currentLine`: the first "\r\n" before the
      header end, else the first "\n" before it (strstr on the rest of the
      buffer, which ends with the NUL written after the last read). */
  method FindLineEnd(data: seq<char>, headerEnd: nat, currentLine: nat) returns (end: Option<(nat, nat)>)
    requires currentLine <= |data|
    ensures end == LineEnd(data, headerEnd, currentLine)
  {
    CrlfFromIsStrStr(data, currentLine);
    LfFromIsStrStr(data, currentLine);
    var crlf := StrStr(data[currentLine..], "\r\n");
    if crlf.Some? && currentLine + crlf.value < headerEnd {
      return Some((crlf.value, 2));
    }
    var lf := StrStr(data[currentLine..], "\n");
    if lf.Some? && currentLine + lf.value < headerEnd {
      return Some((lf.value, 1));
    }
    return None;
  }

  /** The two header tests applied to one line (strncasecmp on the name, then
      atoi or strncpy on what follows the blanks). */
  method ParseHeaderLine(line: seq<char>, contentLength: int, secret: seq<char>)
    returns (contentLength': int, secret': seq<char>)
    ensures Fields(contentLength', secret') == ApplyLine(Fields(contentLength, secret), line)
  {
    contentLength', secret' := contentLength, secret;
    if StrNCaseEq(line, CONTENT_LENGTH) {
      var cl := SkipBlanks(line, |CONTENT_LENGTH|);
      contentLength' := Atoi(line[cl..]);
    }
    if StrNCaseEq(line, X_SECRET) {
      var s := SkipBlanks(line, |X_SECRET|);
      secret' := StrNCopy(line[s..], SECRET_WIDTH);
    }
  }

  /** Stage 2 (the header-line loop): walk the lines of the header block from
      the first byte, keeping the last Content-Length and X-Secret values.
      The buffer is only read here, so the loop works on its first
      `totalRead` bytes as a sequence. */
  method ScanHeaderLines(buffer: array<char>, totalRead: nat, headerEnd: nat) returns (scan: LineScan)
    requires headerEnd <= totalRead <= buffer.Length
    ensures scan == ScanHeaders(buffer[..totalRead], headerEnd)
  {
    var data := buffer[..totalRead];
    var contentLength := 0;
    var secret: seq<char> := [];
    var currentLine := 0;
    ghost var done: seq<seq<char>> := [];
    ghost var whole := ScanFrom(data, headerEnd, 0, []);
    ScanFromSplits(data, headerEnd, 0, []);
    assert [] + SplitLines(data, headerEnd, 0).lines == SplitLines(data, headerEnd, 0).lines;
    while currentLine < headerEnd
      invariant ScanFrom(data, headerEnd, currentLine, done) == whole
      invariant Fields(contentLength, secret) == ApplyLines(NoFields, done)
      decreases headerEnd - currentLine
    {
      var end := FindLineEnd(data, headerEnd, currentLine);
      if end.None? {
        break;
      }
      var (lineLength, lineEndingLength) := end.value;
      if lineLength >= MAX_LINE_SIZE {
        return LineTooLong;
      }
      ScanFromStep(data, headerEnd, currentLine, done, lineLength, lineEndingLength);
      var line := data[currentLine..currentLine + lineLength];
      contentLength, secret := ParseHeaderLine(line, contentLength, secret);
      ApplyLinesSnoc(NoFields, done, line);
      done := done + [line];
      currentLine := currentLine + lineLength + lineEndingLength;
    }
    return Scanned(Fields(contentLength, secret));
  }

  /** Stage 3, a Content-Length above BUFFER_SIZE: a separate buffer of
      exactly `contentLength` bytes takes the bytes already past the header
      end, then reads of the bytes still missing. */
  method SpillIntoNew(got: seq<char>, contentLength: nat, input: Input) returns (stage: BodyStage)
    requires |got| <= contentLength
    ensures stage == SpillBody(got, contentLength, input)
  {
    var body := new char[contentLength];
    forall i | 0 <= i < |got| {
      body[i] := got[i];
    }
    var bodyRead := |got|;
    var rest := input;
    assert body[..bodyRead] == got;
    while bodyRead < contentLength
      invariant |got| <= bodyRead <= contentLength
      invariant SpillBody(body[..bodyRead], contentLength, rest) == SpillBody(got, contentLength, input)
      decreases contentLength - bodyRead
    {
      ghost var before, pending := body[..bodyRead], rest;
      var bytesRead, r := ReadInto(body, bodyRead, contentLength - bodyRead, rest);
      if bytesRead == 0 {
        return ShortBody;
      }
      bodyRead, rest := bodyRead + bytesRead, r;
      assert body[..bodyRead] == before + Receive(pending, contentLength - |before|).0;
    }
    assert body[..bodyRead] == body[..];
    return BodyRead(body[..]);
  }

  /** Appending leaves a prefix of the first part as it was. */
  lemma PrefixOfAppend(a: seq<char>, b: seq<char>, n: nat)
    requires n <= |a|
    ensures (a + b)[..n] == a[..n]
  {
  }

  /** One read of the inline body loop: at most the room left before the
      buffer's last byte, stored after the `total` bytes already there and
      followed by a NUL when bytes arrive. */
  method ReadRound(buffer: array<char>, total: nat, input: Input) returns (n: nat, rest: Input)
    requires buffer.Length == BUFFER_SIZE && total < BUFFER_SIZE
    modifies buffer
    ensures n == |Receive(input, BUFFER_SIZE - total - 1).0| && rest == Receive(input, BUFFER_SIZE - total - 1).1
    ensures total + n < BUFFER_SIZE
    ensures buffer[..total + n] == old(buffer[..total]) + Receive(input, BUFFER_SIZE - total - 1).0
  {
    n, rest := ReadInto(buffer, total, BUFFER_SIZE - total - 1, input);
    if n > 0 {
      ghost var filled := buffer[..total + n];
      buffer[total + n] := NUL;
      assert buffer[..total + n] == filled;
    }
  }

  /** Stage 3, a Content-Length up to BUFFER_SIZE: the body is read into the
      header buffer after what is already there, each read bounded by the
      room left before its last byte. */
  method ReadInline(buffer: array<char>, totalRead: nat, headerEnd: nat, contentLength: nat, input: Input)
    returns (stage: BodyStage)
    requires buffer.Length == BUFFER_SIZE && headerEnd <= totalRead < BUFFER_SIZE
    modifies buffer
    ensures stage == InlineBody(old(buffer[..totalRead]), headerEnd, contentLength, input)
    ensures buffer[..totalRead] == old(buffer[..totalRead])
  {
    ghost var data := buffer[..totalRead];
    var total := totalRead;
    var bodyRead := totalRead - headerEnd;
    var rest := input;
    while bodyRead < contentLength
      invariant headerEnd <= total < BUFFER_SIZE && bodyRead == total - headerEnd
      invariant totalRead <= total && buffer[..total][..totalRead] == data
      invariant InlineBody(buffer[..total], headerEnd, contentLength, rest) == InlineBody(data, headerEnd, contentLength, input)
      decreases BUFFER_SIZE - total
    {
      ghost var before, pending := buffer[..total], rest;
      var bytesRead, r := ReadRound(buffer, total, rest);
      InlineBodyStep(before, headerEnd, contentLength, pending);
      PrefixOfAppend(before, Receive(pending, BUFFER_SIZE - total - 1).0, totalRead);
      if bytesRead == 0 {
        assert buffer[..total] == before;
        return ShortBody;
      }
      total, bodyRead, rest := total + bytesRead, bodyRead + bytesRead, r;
    }
    ghost var data' := buffer[..total];
    assert InlineBody(data', headerEnd, contentLength, rest) == BodyRead(data'[headerEnd..headerEnd + contentLength]);
    assert data'[headerEnd..headerEnd + contentLength] == buffer[headerEnd..headerEnd + contentLength];
    return BodyRead(buffer[headerEnd..headerEnd + contentLength]);
  }

  /** Stage 3 (the body): nothing to read for a Content-Length <= 0; a
      separate buffer, when malloc succeeds, for a Content-Length above
      BUFFER_SIZE; the header buffer otherwise. */
  method ReadBody(buffer: array<char>, totalRead: nat, headerEnd: nat, contentLength: int, input: Input, allocOk: bool)
    returns (stage: BodyStage)
    requires buffer.Length == BUFFER_SIZE && headerEnd <= totalRead < BUFFER_SIZE
    modifies buffer
    ensures stage == MaterializeBodyAsWritten(old(buffer[..totalRead]), headerEnd, contentLength, input, allocOk)
    ensures buffer[..totalRead] == old(buffer[..totalRead])
  {
    if contentLength <= 0 {
      return BodyRead([]);
    }
    if contentLength > BUFFER_SIZE {
      if !allocOk {
        return NoMemory;
      }
      assert buffer[headerEnd..totalRead] == buffer[..totalRead][headerEnd..];
      stage := SpillIntoNew(buffer[headerEnd..totalRead], contentLength, input);
    } else {
      stage := ReadInline(buffer, totalRead, headerEnd, contentLength, input);
    }
  }

  /** handle_request up to the dispatch: the header read, the request line,
      the header lines, the secret check and the body, in the order the code
      takes them, with the status it answers when one of them fails. */
  method ParseRequest(input: Input, allocOk: bool) returns (action: Action)
    ensures action == Parse(input, allocOk)
  {
    var buffer := new char[BUFFER_SIZE](_ => NUL);
    var stage := ReadHeaderBlock(buffer, input);
    if stage.TooLarge? {
      return Reply(413);
    }
    if stage.NoTerminator? {
      return Reply(400);
    }
    ReadHeadersBounds([], input);
    var totalRead, headerEnd, rest := |stage.data|, stage.headerEnd, stage.rest;
    assert Parse(input, allocOk) == CheckHeaders(stage.data, headerEnd, rest, allocOk);
    var requestLine := ScanRequestLine(buffer[..totalRead]);
    var scan := ScanHeaderLines(buffer, totalRead, headerEnd);
    if scan.LineTooLong? {
      return Reply(400);
    }
    if scan.fields.secret != SECRET_KEY {
      return Reply(403);
    }
    var contentLength := scan.fields.contentLength;
    SecretFillsRequestLine(stage.data, headerEnd);
    var bodyStage := ReadBody(buffer, totalRead, headerEnd, contentLength, rest, allocOk);
    assert Parse(input, allocOk) == Dispatch(requestLine.value, contentLength, bodyStage);
    if bodyStage.NoMemory? {
      return Reply(500);
    }
    if bodyStage.ShortBody? {
      return Reply(400);
    }
    var body := bodyStage.body;
    var (verb, path) := requestLine.value;
    if verb == "GET" {
      return Get(path[1..]);
    } else if verb == "POST" {
      return Post(path[1..], body, contentLength);
    }
    return Reply(405);
  }

  /** The partial-write loop shared by both handlers: `delivered` is what the
      successful writes took, in order. */
  method WriteAll(data: seq<char>, length: int, writes: seq<int>)
    returns (count: nat, ok: bool, rest: seq<int>, delivered: seq<char>)
    requires |data| == if length > 0 then length else 0
    ensures Written(count, ok, rest) == WriteLoop(0, length, writes)
    ensures delivered == data[..count]
  {
    var total := 0;
    rest := writes;
    delivered := [];
    while total < length
      invariant total <= |data|
      invariant WriteLoop(total, length, rest) == WriteLoop(0, length, writes)
      invariant delivered == data[..total]
      decreases length - total
    {
      var (written, r) := Transmit(rest, length - total);
      if written <= 0 {
        return total, false, r, delivered;
      }
      delivered := delivered + data[total..total + written];
      total, rest := total + written, r;
    }
    return total, true, rest, delivered;
  }

  /** The GET streaming loop: BUFFER_SIZE-byte reads of the file into a local
      buffer, each piece sent with the partial-write loop. */
  method StreamToSocket(file: Input, writes: seq<int>) returns (sent: seq<char>, failures: nat, rest: seq<int>)
    ensures Streamed(sent, failures, rest) == StreamFile(file, writes)
  {
    var buffer := new char[BUFFER_SIZE];
    var fileRest := file;
    sent, failures, rest := [], 0, writes;
    while true
      invariant StreamFile(file, writes) ==
        Streamed(sent + StreamFile(fileRest, rest).sent, failures + StreamFile(fileRest, rest).failures,
                 StreamFile(fileRest, rest).rest)
      decreases Pending(fileRest)
    {
      ghost var pending, before := fileRest, rest;
      var bytes, fr := ReadInto(buffer, 0, BUFFER_SIZE, fileRest);
      if bytes == 0 {
        return;
      }
      assert buffer[..bytes] == Receive(pending, BUFFER_SIZE).0;
      var count, ok, r, delivered := WriteAll(buffer[..bytes], bytes, rest);
      StreamFileStep(pending, before, count, ok, r);
      assert (sent + delivered) + StreamFile(fr, r).sent == sent + (delivered + StreamFile(fr, r).sent);
      sent := sent + delivered;
      failures := failures + if ok then 0 else 1;
      fileRest, rest := fr, r;
    }
  }

  /** handle_get_request: open under the file semaphore; 404 when open fails,
      otherwise 200 and the file's bytes. */
  method HandleGet(filename: seq<char>, env: Env, gate: FileGate) returns (outcome: Outcome)
    requires gate.Valid() && gate.permits > 0
    modifies gate
    ensures outcome == GetOutcome(filename, env)
    ensures gate.Valid() && gate.permits == old(gate.permits)
    ensures gate.History == old(gate.History) + [Acquired, Released]
  {
    gate.Acquire();
    if !env.openOk {
      outcome := Outcome(404, Some(filename), [], []);
    } else {
      var sent, failures, rest := StreamToSocket(env.file, env.writes);
      outcome := Outcome(200, Some(filename), sent, []);
    }
    gate.Release();
  }

  /** handle_post_request: append the body to the file under the file
      semaphore; 500 when open or a write fails, 200 once all is written. */
  method HandlePost(filename: seq<char>, body: seq<char>, length: int, env: Env, gate: FileGate)
    returns (outcome: Outcome)
    requires |body| == if length > 0 then length else 0
    requires gate.Valid() && gate.permits > 0
    modifies gate
    ensures outcome == PostOutcome(filename, body, length, env)
    ensures gate.Valid() && gate.permits == old(gate.permits)
    ensures gate.History == old(gate.History) + [Acquired, Released]
  {
    gate.Acquire();
    if !env.openOk {
      outcome := Outcome(500, Some(filename), [], []);
    } else {
      var count, ok, rest, appended := WriteAll(body, length, env.writes);
      if !ok {
        outcome := Outcome(500, Some(filename), [], appended);
        gate.Release();
        return;
      }
      outcome := Outcome(200, Some(filename), [], appended);
    }
    gate.Release();
  }

  /** handle_request on one connection, followed by the handler it calls. The
      file semaphore is taken and given back exactly when a file is opened;
      only then must a permit be free, since only then does the code wait. */
  method HandleRequest(input: Input, env: Env, gate: FileGate) returns (outcome: Outcome)
    requires gate.Valid()
    requires Parse(input, env.allocOk).Get? || Parse(input, env.allocOk).Post? ==> gate.permits > 0
    modifies gate
    ensures outcome == Serve(input, env)
    ensures gate.Valid() && gate.permits == old(gate.permits)
    ensures gate.History == old(gate.History) + if outcome.openedFile.Some? then [Acquired, Released] else []
  {
    var action := ParseRequest(input, env.allocOk);
    match action {
      case Reply(status) =>
        outcome := Outcome(status, None, [], []);
      case Get(filename) =>
        outcome := HandleGet(filename, env, gate);
      case Post(filename, body, length) =>
        ParseBodyLength(input, env.allocOk);
        outcome := HandlePost(filename, body, length, env, gate);
    }
  }
}
