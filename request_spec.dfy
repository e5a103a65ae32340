/** What handle_request and its two handlers compute, as functions of what the
    peer sends and of what the file system and the socket report. The
    imperative model in module RequestHandler is proved to compute exactly
    these; module RequestProperties proves what they promise. */
module RequestSpec {
  import opened CStrings
  import opened IoModel

  const BUFFER_SIZE: nat := 819200
  const MAX_HEADER_SIZE: nat := 32768
  const MAX_LINE_SIZE: nat := 4096
  const SECRET_KEY: seq<char> := "K5HS4KzQiL"
  /** The longest secret kept: the secret array has room for 255 characters
      and the terminating NUL. */
  const SECRET_WIDTH: nat := 255
  const CONTENT_LENGTH: seq<char> := "Content-Length:"
  const X_SECRET: seq<char> := "X-Secret:"

  // ---------------------------------------------------------------- headers

  /** Where the header block ends: just past the first "\r\n\r\n" of the C
      string in the buffer, or, when there is none, just past its first "\n\n". */
  function HeaderEnd(data: seq<char>): (r: Option<nat>)
    ensures r.Some? ==> 2 <= r.value <= CLen(data)
  {
    match StrStr(data, "\r\n\r\n")
    case Some(i) => Some(i + 4)
    case None =>
      match StrStr(data, "\n\n")
      case Some(i) => Some(i + 2)
      case None => None
  }

  datatype HeaderStage =
    | TooLarge
    | NoTerminator
    | HeadersFound(data: seq<char>, headerEnd: nat, rest: Input)

  /** The header read loop, continued from `data` already in the buffer: each
      read may fill the buffer up to BUFFER_SIZE - 1 bytes; after each read
      the terminator is looked for first, then the 32768-byte limit. */
  function ReadHeaders(data: seq<char>, input: Input): HeaderStage
    requires |data| < MAX_HEADER_SIZE
    decreases MAX_HEADER_SIZE - |data|
  {
    var (bytes, rest) := Receive(input, BUFFER_SIZE - |data| - 1);
    if bytes == [] then NoTerminator
    else
      var data' := data + bytes;
      match HeaderEnd(data')
      case Some(he) => HeadersFound(data', he, rest)
      case None =>
        if |data'| >= MAX_HEADER_SIZE then TooLarge else ReadHeaders(data', rest)
  }

  /** One turn of the header read loop. */
  lemma ReadHeadersStep(data: seq<char>, input: Input)
    requires |data| < MAX_HEADER_SIZE
    ensures var (bytes, rest) := Receive(input, BUFFER_SIZE - |data| - 1);
      var data' := data + bytes;
      ReadHeaders(data, input) ==
        if bytes == [] then NoTerminator
        else if HeaderEnd(data').Some? then HeadersFound(data', HeaderEnd(data').value, rest)
        else if |data'| >= MAX_HEADER_SIZE then TooLarge
        else ReadHeaders(data', rest)
  {
  }

  // ------------------------------------------------------------ header lines

  /** The end of the header line starting at `cur`: its length and the length
      of its line ending. The first "\r\n" that starts before the header end
      wins; otherwise the first "\n" that does; otherwise there is no line. */
  function LineEnd(data: seq<char>, he: nat, cur: nat): (r: Option<(nat, nat)>)
    requires cur <= |data|
    ensures r.Some? ==> cur + r.value.0 < he
    ensures r.Some? ==> r.value.1 == 1 || r.value.1 == 2
  {
    var crlf := CrlfFrom(data, cur);
    if crlf.Some? && crlf.value < he then Some((crlf.value - cur, 2))
    else
      var lf := LfFrom(data, cur);
      if lf.Some? && lf.value < he then Some((lf.value - cur, 1))
      else None
  }

  datatype LineSplit = LineSplit(lines: seq<seq<char>>, tooLong: bool)

  /** The header lines from `cur` up to the header end, in order, and whether
      the scan stopped at a line of MAX_LINE_SIZE bytes or more. This is the
      definition the properties are proved about; ScanFrom below is the same
      scan in the accumulating form of the C loop, and ScanFromSplits shows
      that the two agree. */
  function SplitLines(data: seq<char>, he: nat, cur: nat): (r: LineSplit)
    requires he <= |data|
    decreases he - cur
  {
    if cur >= he then LineSplit([], false)
    else match LineEnd(data, he, cur)
      case None => LineSplit([], false)
      case Some((len, ending)) =>
        if len >= MAX_LINE_SIZE then LineSplit([], true)
        else
          var tail := SplitLines(data, he, cur + len + ending);
          LineSplit([data[cur..cur + len]] + tail.lines, tail.tooLong)
  }

  datatype Fields = Fields(contentLength: int, secret: seq<char>)

  const NoFields := Fields(0, [])

  predicate IsContentLengthLine(line: seq<char>)
  {
    StrNCaseEq(line, CONTENT_LENGTH)
  }

  predicate IsSecretLine(line: seq<char>)
  {
    StrNCaseEq(line, X_SECRET)
  }

  /** The value of a Content-Length line: atoi after the spaces and tabs that
      follow the 15-byte name. */
  function ContentLengthOf(line: seq<char>): int
    requires IsContentLengthLine(line)
  {
    Atoi(line[Span(line, |CONTENT_LENGTH|, IsBlank)..])
  }

  /** The value of an X-Secret line: at most 255 bytes after the spaces and
      tabs that follow the 9-byte name. */
  function SecretOf(line: seq<char>): seq<char>
    requires IsSecretLine(line)
  {
    StrNCopy(line[Span(line, |X_SECRET|, IsBlank)..], SECRET_WIDTH)
  }

  function ApplyLine(f: Fields, line: seq<char>): Fields
  {
    var f' := if IsContentLengthLine(line) then f.(contentLength := ContentLengthOf(line)) else f;
    if IsSecretLine(line) then f'.(secret := SecretOf(line)) else f'
  }

  /** The fields after the lines have been applied in order. */
  function ApplyLines(f: Fields, lines: seq<seq<char>>): Fields
  {
    if lines == [] then f
    else ApplyLine(ApplyLines(f, lines[..|lines| - 1]), lines[|lines| - 1])
  }

  datatype LineScan = LineTooLong | Scanned(fields: Fields)

  /** The header-line loop of handle_request: it starts at the very first
      byte, so the request line is scanned as a header line too. */
  function ScanHeaders(data: seq<char>, he: nat): LineScan
    requires he <= |data|
  {
    var split := SplitLines(data, he, 0);
    if split.tooLong then LineTooLong else Scanned(ApplyLines(NoFields, split.lines))
  }

  // -------------------------------------------------------------------- body

  datatype BodyStage = BodyRead(body: seq<char>) | ShortBody | NoMemory

  /** The body read into the header buffer after the header: reads of at most
      BUFFER_SIZE - 1 - |data| bytes until `cl` bytes follow the header end. */
  function InlineBody(data: seq<char>, he: nat, cl: nat, input: Input): BodyStage
    requires he <= |data| < BUFFER_SIZE
    decreases BUFFER_SIZE - |data|
  {
    if |data| - he >= cl then BodyRead(data[he..he + cl])
    else
      var (bytes, rest) := Receive(input, BUFFER_SIZE - |data| - 1);
      if bytes == [] then ShortBody else InlineBody(data + bytes, he, cl, rest)
  }

  /** One read of the body into the header buffer, while bytes are missing. */
  lemma InlineBodyStep(data: seq<char>, he: nat, cl: nat, input: Input)
    requires he <= |data| < BUFFER_SIZE && |data| - he < cl
    ensures var r := Receive(input, BUFFER_SIZE - |data| - 1);
      InlineBody(data, he, cl, input) ==
        if r.0 == [] then ShortBody else InlineBody(data + r.0, he, cl, r.1)
  {
  }

  /** The body read into a separate buffer of exactly `cl` bytes that starts
      with the bytes `got` already past the header end. */
  function SpillBody(got: seq<char>, cl: nat, input: Input): BodyStage
    requires |got| <= cl
    decreases cl - |got|
  {
    if |got| == cl then BodyRead(got)
    else
      var (bytes, rest) := Receive(input, cl - |got|);
      if bytes == [] then ShortBody else SpillBody(got + bytes, cl, rest)
  }

  /** Body materialisation as request_handler.c:135-182 is written: nothing
      for a Content-Length <= 0, the separate buffer above BUFFER_SIZE (when
      the allocation succeeds), the header buffer otherwise. The header buffer
      holds BUFFER_SIZE - 1 bytes, headers included, so a body that does not
      fit after the header but is at most BUFFER_SIZE bytes is never read in
      full; see MaterializeBody for the threshold that avoids it. */
  function MaterializeBodyAsWritten(data: seq<char>, he: nat, cl: int, input: Input, allocOk: bool): BodyStage
    requires he <= |data| < BUFFER_SIZE
  {
    if cl <= 0 then BodyRead([])
    else if cl > BUFFER_SIZE then
      if allocOk then SpillBody(data[he..], cl, input) else NoMemory
    else InlineBody(data, he, cl, input)
  }

  /** Body materialisation as evidently intended: the separate buffer is used
      whenever the body does not fit in the header buffer after the header
      end. The request model itself follows MaterializeBodyAsWritten. */
  function MaterializeBody(data: seq<char>, he: nat, cl: int, input: Input, allocOk: bool): BodyStage
    requires he <= |data| < BUFFER_SIZE
  {
    if cl <= 0 then BodyRead([])
    else if cl > BUFFER_SIZE - 1 - he then
      if allocOk then SpillBody(data[he..], cl, input) else NoMemory
    else InlineBody(data, he, cl, input)
  }

  // --------------------------------------------------------------- dispatch

  /** What handle_request does once parsing is over: answer with a status, or
      call one of the two handlers. */
  datatype Action =
    | Reply(status: int)
    | Get(filename: seq<char>)
    | Post(filename: seq<char>, body: seq<char>, length: int)

  function Parse(input: Input, allocOk: bool): Action
  {
    match ReadHeaders([], input)
    case TooLarge => Reply(413)
    case NoTerminator => Reply(400)
    case HeadersFound(data, he, rest) =>
      ReadHeadersBounds([], input);
      CheckHeaders(data, he, rest, allocOk)
  }

  /** Once the header block is in: the header lines, the secret check, then
      the body. */
  function CheckHeaders(data: seq<char>, he: nat, rest: Input, allocOk: bool): Action
    requires he <= CLen(data) && |data| < BUFFER_SIZE
  {
    var scan := ScanHeaders(data, he);
    if scan.LineTooLong? then Reply(400)
    else if scan.fields.secret != SECRET_KEY then Reply(403)
    else
      var cl := scan.fields.contentLength;
      SecretFillsRequestLine(data, he);
      Dispatch(ScanRequestLine(data).value, cl, MaterializeBodyAsWritten(data, he, cl, rest, allocOk))
  }

  /** Once the body is read: the method of the request line decides; the file
      name is the path without its first byte. */
  function Dispatch(requestLine: (seq<char>, seq<char>), cl: int, body: BodyStage): Action
    requires |requestLine.1| > 0
  {
    match body
    case NoMemory => Reply(500)
    case ShortBody => Reply(400)
    case BodyRead(bytes) =>
      var (verb, path) := requestLine;
      if verb == "GET" then Get(path[1..])
      else if verb == "POST" then Post(path[1..], bytes, cl)
      else Reply(405)
  }

  // --------------------------------------------------------------- handlers

  datatype Written = Written(count: nat, ok: bool, rest: seq<int>)

  /** The partial-write loop: from `total` bytes written, write the rest of
      `length` bytes, retrying short writes, until all is written or a write
      reports <= 0. */
  function WriteLoop(total: nat, length: int, writes: seq<int>): (r: Written)
    decreases if total < length then length - total else 0
    ensures r.ok ==> r.count == if total < length then length else total
    ensures !r.ok ==> total <= r.count < length
  {
    if total >= length then Written(total, true, writes)
    else
      var (w, rest) := Transmit(writes, length - total);
      if w <= 0 then Written(total, false, rest) else WriteLoop(total + w, length, rest)
  }

  datatype Streamed = Streamed(sent: seq<char>, failures: nat, rest: seq<int>)

  /** The GET streaming loop: read the file BUFFER_SIZE bytes at a time and
      write each piece with the partial-write loop. A failed write drops the
      rest of that piece only; the loop goes on with the next read. */
  function StreamFile(file: Input, writes: seq<int>): Streamed
    decreases Pending(file)
  {
    var (piece, rest) := Receive(file, BUFFER_SIZE);
    if piece == [] then Streamed([], 0, writes)
    else
      var w := WriteLoop(0, |piece|, writes);
      var tail := StreamFile(rest, w.rest);
      Streamed(piece[..w.count] + tail.sent, (if w.ok then 0 else 1) + tail.failures, tail.rest)
  }

  /** One turn of the streaming loop: a piece is read, then written. */
  lemma StreamFileStep(file: Input, writes: seq<int>, count: nat, ok: bool, rest: seq<int>)
    requires Receive(file, BUFFER_SIZE).0 != []
    requires Written(count, ok, rest) == WriteLoop(0, |Receive(file, BUFFER_SIZE).0|, writes)
    ensures var tail := StreamFile(Receive(file, BUFFER_SIZE).1, rest);
      StreamFile(file, writes) ==
        Streamed(Receive(file, BUFFER_SIZE).0[..count] + tail.sent, (if ok then 0 else 1) + tail.failures, tail.rest)
  {
  }

  /** What the file system and the sockets report to one request: whether
      malloc succeeds, whether open succeeds, the file's bytes as read() sees
      them, and the results of successive write() calls. */
  datatype Env = Env(allocOk: bool, openOk: bool, file: Input, writes: seq<int>)

  /** The observable effect of one request: the status sent, the file name
      passed to open() if any, the file bytes sent after a 200 status line,
      and the bytes appended to the file. */
  datatype Outcome = Outcome(status: int, openedFile: Option<seq<char>>, sent: seq<char>, appended: seq<char>)

  function GetOutcome(filename: seq<char>, env: Env): Outcome
  {
    if !env.openOk then Outcome(404, Some(filename), [], [])
    else Outcome(200, Some(filename), StreamFile(env.file, env.writes).sent, [])
  }

  function PostOutcome(filename: seq<char>, body: seq<char>, length: int, env: Env): Outcome
    requires |body| == if length > 0 then length else 0
  {
    if !env.openOk then Outcome(500, Some(filename), [], [])
    else
      var w := WriteLoop(0, length, env.writes);
      Outcome(if w.ok then 200 else 500, Some(filename), [], body[..w.count])
  }

  /** handle_request followed by the handler it dispatches to. */
  function Serve(input: Input, env: Env): Outcome
  {
    match Parse(input, env.allocOk)
    case Reply(status) => Outcome(status, None, [], [])
    case Get(filename) => GetOutcome(filename, env)
    case Post(filename, body, length) =>
      ParseBodyLength(input, env.allocOk);
      PostOutcome(filename, body, length, env)
  }

  // ------------------------------------------------ lemmas the parser needs

  /** One step of the line scan: a line shorter than MAX_LINE_SIZE is kept
      and the scan goes on just past its line ending. */
  lemma SplitStep(data: seq<char>, he: nat, cur: nat, len: nat, ending: nat)
    requires he <= |data| && cur < he
    requires LineEnd(data, he, cur) == Some((len, ending)) && len < MAX_LINE_SIZE
    ensures cur + len < he
    ensures SplitLines(data, he, cur).lines == [data[cur..cur + len]] + SplitLines(data, he, cur + len + ending).lines
    ensures SplitLines(data, he, cur).tooLong == SplitLines(data, he, cur + len + ending).tooLong
  {
  }

  /** Every line the scan keeps is shorter than MAX_LINE_SIZE bytes. */
  lemma {:induction false} LinesAreShort(data: seq<char>, he: nat, cur: nat)
    requires he <= |data|
    ensures var lines := SplitLines(data, he, cur).lines;
      forall k :: 0 <= k < |lines| ==> |lines[k]| < MAX_LINE_SIZE
    decreases he - cur
  {
    if cur < he {
      var end := LineEnd(data, he, cur);
      if end.Some? && end.value.0 < MAX_LINE_SIZE {
        var (len, ending) := end.value;
        SplitStep(data, he, cur, len, ending);
        LinesAreShort(data, he, cur + len + ending);
      }
    }
  }

  /** A scan that stops at a long line stops at a line the scan reaches from
      `cur`, whose text before its line ending is MAX_LINE_SIZE bytes or more. */
  lemma {:induction false} TooLongMeaning(data: seq<char>, he: nat, cur: nat) returns (c: nat)
    requires he <= |data| && SplitLines(data, he, cur).tooLong
    ensures cur <= c < he && LineEnd(data, he, c).Some? && LineEnd(data, he, c).value.0 >= MAX_LINE_SIZE
    decreases he - cur
  {
    var (len, ending) := LineEnd(data, he, cur).value;
    if len >= MAX_LINE_SIZE {
      c := cur;
    } else {
      SplitStep(data, he, cur, len, ending);
      c := TooLongMeaning(data, he, cur + len + ending);
    }
  }

  /** The header-line loop as the code runs it: from `cur` on, with the lines
      `done` already scanned. */
  function ScanFrom(data: seq<char>, he: nat, cur: nat, done: seq<seq<char>>): LineSplit
    requires he <= |data|
    decreases he - cur
  {
    if cur >= he then LineSplit(done, false)
    else match LineEnd(data, he, cur)
      case None => LineSplit(done, false)
      case Some((len, ending)) =>
        if len >= MAX_LINE_SIZE then LineSplit(done, true)
        else ScanFrom(data, he, cur + len + ending, done + [data[cur..cur + len]])
  }

  /** One turn of the loop that finds a line short enough. */
  lemma ScanFromStep(data: seq<char>, he: nat, cur: nat, done: seq<seq<char>>, len: nat, ending: nat)
    requires he <= |data| && cur < he
    requires LineEnd(data, he, cur) == Some((len, ending)) && len < MAX_LINE_SIZE
    ensures cur + len < he
    ensures ScanFrom(data, he, cur, done) == ScanFrom(data, he, cur + len + ending, done + [data[cur..cur + len]])
  {
  }

  /** The loop keeps the lines already scanned and appends the lines of the
      rest of the block, so from the first byte it yields SplitLines. */
  lemma {:induction false} ScanFromSplits(data: seq<char>, he: nat, cur: nat, done: seq<seq<char>>)
    requires he <= |data|
    ensures ScanFrom(data, he, cur, done) ==
      LineSplit(done + SplitLines(data, he, cur).lines, SplitLines(data, he, cur).tooLong)
    decreases he - cur
  {
    if cur < he {
      var end := LineEnd(data, he, cur);
      if end.Some? && end.value.0 < MAX_LINE_SIZE {
        var (len, ending) := end.value;
        var line := data[cur..cur + len];
        var next := cur + len + ending;
        SplitStep(data, he, cur, len, ending);
        ScanFromStep(data, he, cur, done, len, ending);
        ScanFromSplits(data, he, next, done + [line]);
        assert (done + [line]) + SplitLines(data, he, next).lines == done + ([line] + SplitLines(data, he, next).lines);
      } else {
        assert done + [] == done;
      }
    } else {
      assert done + [] == done;
    }
  }

  /** Applying one more line to the fields. */
  lemma ApplyLinesSnoc(f: Fields, lines: seq<seq<char>>, line: seq<char>)
    ensures ApplyLines(f, lines + [line]) == ApplyLine(ApplyLines(f, lines), line)
  {
    assert (lines + [line])[..|lines|] == lines;
  }

  /** A found header block lies inside the C string in the buffer, and the
      buffer never holds more than BUFFER_SIZE - 1 bytes. */
  lemma {:induction false} ReadHeadersBounds(data: seq<char>, input: Input)
    requires |data| < MAX_HEADER_SIZE
    ensures ReadHeaders(data, input).HeadersFound? ==>
      var h := ReadHeaders(data, input);
      HeaderEnd(h.data) == Some(h.headerEnd) && h.headerEnd <= CLen(h.data) && |h.data| < BUFFER_SIZE
    decreases MAX_HEADER_SIZE - |data|
  {
    var (bytes, rest) := Receive(input, BUFFER_SIZE - |data| - 1);
    if bytes != [] && HeaderEnd(data + bytes).None? && |data + bytes| < MAX_HEADER_SIZE {
      ReadHeadersBounds(data + bytes, rest);
    }
  }

  /** Every header line is a slice of the header block; `c` is where it starts. */
  lemma {:induction false} LineInside(data: seq<char>, he: nat, cur: nat, k: nat) returns (c: nat)
    requires he <= |data|
    requires k < |SplitLines(data, he, cur).lines|
    ensures cur <= c && c + |SplitLines(data, he, cur).lines[k]| < he
    ensures SplitLines(data, he, cur).lines[k] == data[c..c + |SplitLines(data, he, cur).lines[k]|]
    decreases he - cur
  {
    assert cur < he;
    var end := LineEnd(data, he, cur);
    assert end.Some? && end.value.0 < MAX_LINE_SIZE;
    var (len, ending) := end.value;
    var tail := SplitLines(data, he, cur + len + ending);
    assert SplitLines(data, he, cur).lines == [data[cur..cur + len]] + tail.lines;
    if k > 0 {
      c := LineInside(data, he, cur + len + ending, k - 1);
    } else {
      c := cur;
    }
  }

  /** When the secret is not the default, the last X-Secret line gave it. */
  lemma {:induction false} SecretFromSomeLine(lines: seq<seq<char>>) returns (k: nat)
    requires ApplyLines(NoFields, lines).secret != []
    ensures k < |lines| && IsSecretLine(lines[k])
    ensures SecretOf(lines[k]) == ApplyLines(NoFields, lines).secret
    ensures forall j :: k < j < |lines| ==> !IsSecretLine(lines[j])
  {
    var last := |lines| - 1;
    if IsSecretLine(lines[last]) {
      k := last;
    } else {
      k := SecretFromSomeLine(lines[..last]);
      assert lines[k] == lines[..last][k];
      forall j | k < j < |lines|
        ensures !IsSecretLine(lines[j])
      {
        if j < last {
          assert lines[j] == lines[..last][j];
        }
      }
    }
  }

  /** A line that yields the shared key holds two non-space bytes 15 or more apart. */
  lemma KeyLineWords(line: seq<char>) returns (e: nat)
    requires IsSecretLine(line) && SecretOf(line) == SECRET_KEY
    ensures 15 <= e < |line| && !IsSpace(line[0]) && !IsSpace(line[e])
  {
    var b := Span(line, |X_SECRET|, IsBlank);
    var v := line[b..];
    assert ToLower(line[0]) == ToLower(X_SECRET[0]);
    assert CStr(v) == SECRET_KEY;
    assert v[9] == 'L';
    e := b + 9;
  }

  /** Whenever the secret check passes, sscanf has filled both the method and
      the path: the X-Secret line and the key are 19 non-space bytes of the
      header block, more than the first word can take. */
  lemma SecretFillsRequestLine(data: seq<char>, he: nat)
    requires he <= CLen(data)
    requires ScanHeaders(data, he).Scanned? && ScanHeaders(data, he).fields.secret == SECRET_KEY
    ensures ScanRequestLine(data).Some?
  {
    var lines := SplitLines(data, he, 0).lines;
    assert ApplyLines(NoFields, lines).secret == SECRET_KEY;
    var k := SecretFromSomeLine(lines);
    var line := lines[k];
    var c := LineInside(data, he, 0, k);
    var e := KeyLineWords(line);
    assert data[c] == line[0] && data[c + e] == line[e];
    RequestLineFilled(data, c, c + e);
  }

  /** A materialised body holds exactly max(0, Content-Length) bytes. */
  lemma BodyLength(data: seq<char>, he: nat, cl: int, input: Input, allocOk: bool)
    requires he <= |data| < BUFFER_SIZE
    requires MaterializeBodyAsWritten(data, he, cl, input, allocOk).BodyRead?
    ensures |MaterializeBodyAsWritten(data, he, cl, input, allocOk).body| == if cl > 0 then cl else 0
  {
    if 0 < cl <= BUFFER_SIZE {
      InlineBodyLength(data, he, cl, input);
    } else if cl > 0 {
      SpillBodyLength(data[he..], cl, input);
    }
  }

  lemma {:induction false} InlineBodyLength(data: seq<char>, he: nat, cl: nat, input: Input)
    requires he <= |data| < BUFFER_SIZE
    requires InlineBody(data, he, cl, input).BodyRead?
    ensures |InlineBody(data, he, cl, input).body| == cl
    decreases BUFFER_SIZE - |data|
  {
    if |data| - he < cl {
      var (bytes, rest) := Receive(input, BUFFER_SIZE - |data| - 1);
      InlineBodyLength(data + bytes, he, cl, rest);
    }
  }

  lemma {:induction false} SpillBodyLength(got: seq<char>, cl: nat, input: Input)
    requires |got| <= cl
    requires SpillBody(got, cl, input).BodyRead?
    ensures |SpillBody(got, cl, input).body| == cl
    decreases cl - |got|
  {
    if |got| < cl {
      var (bytes, rest) := Receive(input, cl - |got|);
      SpillBodyLength(got + bytes, cl, rest);
    }
  }

  /** A POST action carries a body of max(0, length) bytes. */
  lemma ParseBodyLength(input: Input, allocOk: bool)
    ensures Parse(input, allocOk).Post? ==>
      |Parse(input, allocOk).body| == if Parse(input, allocOk).length > 0 then Parse(input, allocOk).length else 0
  {
    if Parse(input, allocOk).Post? {
      ReadHeadersBounds([], input);
      var h := ReadHeaders([], input);
      assert Parse(input, allocOk) == CheckHeaders(h.data, h.headerEnd, h.rest, allocOk);
      var scan := ScanHeaders(h.data, h.headerEnd);
      assert scan.Scanned? && scan.fields.secret == SECRET_KEY;
      SecretFillsRequestLine(h.data, h.headerEnd);
      var cl := scan.fields.contentLength;
      var body := MaterializeBodyAsWritten(h.data, h.headerEnd, cl, h.rest, allocOk);
      assert Parse(input, allocOk) == Dispatch(ScanRequestLine(h.data).value, cl, body);
      BodyLength(h.data, h.headerEnd, cl, h.rest, allocOk);
    }
  }
}
