/** What handle_request and its handlers promise, proved about the functions
    of module RequestSpec that the imperative code is proved to compute. */
module RequestProperties {
  import opened CStrings
  import opened IoModel
  import opened RequestSpec

  // ------------------------------------------------------------ header end

  /** The header block ends just past the first "\r\n\r\n" of the C string
      read so far, whether or not a "\n\n" occurs before it. */
  lemma HeaderEndAtCrlf(data: seq<char>, i: nat)
    requires MatchAt(CStr(data), "\r\n\r\n", i)
    requires forall j :: 0 <= j < i ==> !MatchAt(CStr(data), "\r\n\r\n", j)
    ensures HeaderEnd(data) == Some(i + 4)
  {
    FindFromFirst(CStr(data), "\r\n\r\n", 0, i);
  }

  /** Without any "\r\n\r\n", the header block ends just past the first "\n\n". */
  lemma HeaderEndAtLf(data: seq<char>, i: nat)
    requires forall j: nat :: !MatchAt(CStr(data), "\r\n\r\n", j)
    requires MatchAt(CStr(data), "\n\n", i)
    requires forall j :: 0 <= j < i ==> !MatchAt(CStr(data), "\n\n", j)
    ensures HeaderEnd(data) == Some(i + 2)
  {
    FindFromFirst(CStr(data), "\n\n", 0, i);
  }

  /** No header end is found exactly when the C string holds neither terminator. */
  lemma HeaderEndNone(data: seq<char>)
    ensures HeaderEnd(data).None? <==>
      forall j: nat :: !MatchAt(CStr(data), "\r\n\r\n", j) && !MatchAt(CStr(data), "\n\n", j)
  {
  }

  // ------------------------------------------------------------ header read

  /** A found header block is the start of what the peer sent, and the rest of
      the stream is what is left unread: no byte is lost, reordered or made up. */
  lemma {:induction false} HeadersFoundIsPrefix(data: seq<char>, input: Input)
    requires |data| < MAX_HEADER_SIZE
    ensures ReadHeaders(data, input).HeadersFound? ==>
      ReadHeaders(data, input).data + Content(ReadHeaders(data, input).rest) == data + Content(input)
    decreases MAX_HEADER_SIZE - |data|
  {
    var (bytes, rest) := Receive(input, BUFFER_SIZE - |data| - 1);
    if bytes != [] {
      StreamAfterRead(data, input);
      if HeaderEnd(data + bytes).None? && |data + bytes| < MAX_HEADER_SIZE {
        HeadersFoundIsPrefix(data + bytes, rest);
      }
    }
  }

  /** 413 is sent only when the first n bytes of the stream, for some n of at
      least 32768 that the buffer can hold, contain no header terminator. */
  lemma {:induction false} TooLargeMeaning(data: seq<char>, input: Input) returns (n: nat)
    requires |data| < MAX_HEADER_SIZE
    requires ReadHeaders(data, input) == TooLarge
    ensures MAX_HEADER_SIZE <= n < BUFFER_SIZE && |data| < n <= |data + Content(input)|
    ensures HeaderEnd((data + Content(input))[..n]).None?
    decreases MAX_HEADER_SIZE - |data|
  {
    var (bytes, rest) := Receive(input, BUFFER_SIZE - |data| - 1);
    assert data + Content(input) == (data + bytes) + Content(rest);
    if |data + bytes| >= MAX_HEADER_SIZE {
      n := |data + bytes|;
      assert (data + Content(input))[..n] == data + bytes;
    } else {
      n := TooLargeMeaning(data + bytes, rest);
    }
  }

  /** After a read that delivers bytes, the buffer and what is still to come
      are the same stream as before. */
  lemma StreamAfterRead(data: seq<char>, input: Input)
    requires |data| < MAX_HEADER_SIZE
    ensures var (bytes, rest) := Receive(input, BUFFER_SIZE - |data| - 1);
      bytes != [] ==> data + Content(input) == (data + bytes) + Content(rest)
  {
    var (bytes, rest) := Receive(input, BUFFER_SIZE - |data| - 1);
    if bytes != [] {
      assert bytes + Content(rest) == Content(input);
    }
  }

  /** 400 for a missing terminator is sent only when the peer stopped after
      fewer than 32768 bytes, none of them ending the header block. */
  lemma {:induction false} NoTerminatorMeaning(data: seq<char>, input: Input)
    requires |data| < MAX_HEADER_SIZE && HeaderEnd(data).None?
    requires ReadHeaders(data, input) == NoTerminator
    ensures |data + Content(input)| < MAX_HEADER_SIZE && HeaderEnd(data + Content(input)).None?
    decreases MAX_HEADER_SIZE - |data|
  {
    var (bytes, rest) := Receive(input, BUFFER_SIZE - |data| - 1);
    ReadHeadersStep(data, input);
    if bytes == [] {
      assert data + Content(input) == data;
    } else {
      assert HeaderEnd(data + bytes).None? && |data + bytes| < MAX_HEADER_SIZE &&
        ReadHeaders(data + bytes, rest) == NoTerminator;
      StreamAfterRead(data, input);
      NoTerminatorMeaning(data + bytes, rest);
    }
  }

  /** A header end found in the buffer stays found when more bytes arrive. */
  lemma HeaderEndGrows(p: seq<char>, q: seq<char>)
    ensures HeaderEnd(p).Some? ==> HeaderEnd(p + q).Some?
  {
    StrStrGrows(p, q, "\r\n\r\n");
    StrStrGrows(p, q, "\n\n");
  }

  /** A peer that stops before 32768 bytes without ending the header block
      gets 400. */
  lemma {:induction false} ShortStreamGetsNoTerminator(data: seq<char>, input: Input)
    requires |data| < MAX_HEADER_SIZE
    requires |data + Content(input)| < MAX_HEADER_SIZE && HeaderEnd(data + Content(input)).None?
    ensures ReadHeaders(data, input) == NoTerminator
    decreases MAX_HEADER_SIZE - |data|
  {
    var (bytes, rest) := Receive(input, BUFFER_SIZE - |data| - 1);
    ReadHeadersStep(data, input);
    if bytes != [] {
      StreamAfterRead(data, input);
      var data' := data + bytes;
      assert data + Content(input) == data' + Content(rest);
      HeaderEndGrows(data', Content(rest));
      ShortStreamGetsNoTerminator(data', rest);
    }
  }

  /** For a whole request: the header read ends in 400 exactly when the peer
      stops before 32768 bytes without ending the header block. */
  lemma NoTerminatorExactly(input: Input)
    ensures ReadHeaders([], input) == NoTerminator <==>
      |Content(input)| < MAX_HEADER_SIZE && HeaderEnd(Content(input)).None?
  {
    assert [] + Content(input) == Content(input);
    assert HeaderEnd([]).None?;
    if ReadHeaders([], input) == NoTerminator {
      NoTerminatorMeaning([], input);
    }
    if |Content(input)| < MAX_HEADER_SIZE && HeaderEnd(Content(input)).None? {
      ShortStreamGetsNoTerminator([], input);
    }
  }

  /** A stream of 32768 bytes or more whose first BUFFER_SIZE - 1 bytes (all
      of it, if shorter) hold no header terminator gets 413. */
  lemma {:induction false} LongStreamGetsTooLarge(data: seq<char>, input: Input)
    requires |data| < MAX_HEADER_SIZE
    requires |data + Content(input)| >= MAX_HEADER_SIZE
    requires var s := data + Content(input);
      HeaderEnd(s[..if |s| < BUFFER_SIZE then |s| else BUFFER_SIZE - 1]).None?
    ensures ReadHeaders(data, input) == TooLarge
    decreases MAX_HEADER_SIZE - |data|
  {
    var s := data + Content(input);
    var m := if |s| < BUFFER_SIZE then |s| else BUFFER_SIZE - 1;
    var (bytes, rest) := Receive(input, BUFFER_SIZE - |data| - 1);
    ReadHeadersStep(data, input);
    assert Content(input) != [];
    assert bytes != [];
    StreamAfterRead(data, input);
    var data' := data + bytes;
    assert s == data' + Content(rest);
    assert s[..m] == data' + s[|data'|..m];
    HeaderEndGrows(data', s[|data'|..m]);
    if |data'| < MAX_HEADER_SIZE {
      LongStreamGetsTooLarge(data', rest);
    }
  }

  // ----------------------------------------------------------- header lines

  /** A header line ends at the first "\r\n" of the C string from `cur` when
      that one starts before the header end, else at the first "\n" when that
      one does; with neither, the line scan stops. */
  lemma LineEndMeaning(data: seq<char>, he: nat, cur: nat)
    requires cur <= |data|
    ensures var s, e := CStr(data[cur..]), LineEnd(data, he, cur);
      e.Some? && e.value.1 == 2 ==>
        MatchAt(s, "\r\n", e.value.0) && forall j :: 0 <= j < e.value.0 ==> !MatchAt(s, "\r\n", j)
    ensures var s, e := CStr(data[cur..]), LineEnd(data, he, cur);
      e.Some? && e.value.1 == 1 ==>
        (forall j: nat :: cur + j < he ==> !MatchAt(s, "\r\n", j)) &&
        MatchAt(s, "\n", e.value.0) && forall j :: 0 <= j < e.value.0 ==> !MatchAt(s, "\n", j)
    ensures var s, e := CStr(data[cur..]), LineEnd(data, he, cur);
      e.None? ==> forall j: nat :: cur + j < he ==> !MatchAt(s, "\n", j)
  {
    CrlfFromIsStrStr(data, cur);
    LfFromIsStrStr(data, cur);
  }

  /** Lines that are neither Content-Length nor X-Secret lines leave both
      fields as they are. */
  lemma {:induction false} OtherLinesKeepFields(f: Fields, lines: seq<seq<char>>)
    requires forall k :: 0 <= k < |lines| ==> !IsContentLengthLine(lines[k]) && !IsSecretLine(lines[k])
    ensures ApplyLines(f, lines) == f
  {
    if lines != [] {
      OtherLinesKeepFields(f, lines[..|lines| - 1]);
    }
  }

  /** Content-Length is 0 unless some header line sets it. */
  lemma {:induction false} ContentLengthDefault(f: Fields, lines: seq<seq<char>>)
    requires forall k :: 0 <= k < |lines| ==> !IsContentLengthLine(lines[k])
    ensures ApplyLines(f, lines).contentLength == f.contentLength
  {
    if lines != [] {
      ContentLengthDefault(f, lines[..|lines| - 1]);
    }
  }

  /** When several header lines give a Content-Length, the last one wins. */
  lemma {:induction false} ContentLengthLastWins(f: Fields, lines: seq<seq<char>>, k: nat)
    requires k < |lines| && IsContentLengthLine(lines[k])
    requires forall j :: k < j < |lines| ==> !IsContentLengthLine(lines[j])
    ensures ApplyLines(f, lines).contentLength == ContentLengthOf(lines[k])
  {
    if k < |lines| - 1 {
      ContentLengthLastWins(f, lines[..|lines| - 1], k);
    }
  }

  /** The secret is empty unless some header line sets it. */
  lemma {:induction false} SecretDefault(f: Fields, lines: seq<seq<char>>)
    requires forall k :: 0 <= k < |lines| ==> !IsSecretLine(lines[k])
    ensures ApplyLines(f, lines).secret == f.secret
  {
    if lines != [] {
      SecretDefault(f, lines[..|lines| - 1]);
    }
  }

  /** When several header lines give an X-Secret, the last one wins. */
  lemma {:induction false} SecretLastWins(f: Fields, lines: seq<seq<char>>, k: nat)
    requires k < |lines| && IsSecretLine(lines[k])
    requires forall j :: k < j < |lines| ==> !IsSecretLine(lines[j])
    ensures ApplyLines(f, lines).secret == SecretOf(lines[k])
  {
    if k < |lines| - 1 {
      SecretLastWins(f, lines[..|lines| - 1], k);
    }
  }

  /** A Content-Length line gives the decimal number after its name and any
      spaces and tabs, whatever the case of the name. */
  lemma ContentLengthValue(name: seq<char>, blanks: seq<char>, n: nat, rest: seq<char>)
    requires |name| == |CONTENT_LENGTH| && StrNCaseEq(name, CONTENT_LENGTH)
    requires forall k :: 0 <= k < |blanks| ==> IsBlank(blanks[k])
    requires rest == [] || !IsDigit(rest[0])
    ensures IsContentLengthLine(name + blanks + Decimal(n) + rest)
    ensures ContentLengthOf(name + blanks + Decimal(n) + rest) == n
  {
    var digits := Decimal(n);
    var line := name + blanks + digits + rest;
    var start := |name| + |blanks|;
    assert line[..start] == name + blanks;
    assert line[start..] == [] + digits + rest;
    assert forall k :: 0 <= k < |name| ==> line[k] == name[k];
    assert forall k :: |name| <= k < start ==> line[k] == blanks[k - |name|];
    assert IsDigit(line[start]);
    SpanIs(line, |CONTENT_LENGTH|, IsBlank, start);
    AtoiDecimal([], n, rest);
  }

  /** An X-Secret line gives what follows its name and any spaces and tabs,
      cut to 255 bytes, whatever the case of the name. */
  lemma SecretValue(name: seq<char>, blanks: seq<char>, v: seq<char>)
    requires |name| == |X_SECRET| && StrNCaseEq(name, X_SECRET)
    requires forall k :: 0 <= k < |blanks| ==> IsBlank(blanks[k])
    requires v == [] || !IsBlank(v[0])
    requires forall k :: 0 <= k < |v| ==> v[k] != NUL
    ensures IsSecretLine(name + blanks + v)
    ensures SecretOf(name + blanks + v) == if |v| <= SECRET_WIDTH then v else v[..SECRET_WIDTH]
  {
    var line := name + blanks + v;
    var start := |name| + |blanks|;
    SpanIs(line, |X_SECRET|, IsBlank, start);
    assert line[start..] == v;
    CStrNoNul(v);
  }

  // ------------------------------------------------------------------- body

  /** The separate buffer is filled exactly when the peer sends enough bytes,
      and then holds the first `cl` bytes after those already received. */
  lemma {:induction false} SpillBodyMeaning(got: seq<char>, cl: nat, input: Input)
    requires |got| <= cl
    ensures SpillBody(got, cl, input) ==
      if |got + Content(input)| >= cl then BodyRead((got + Content(input))[..cl]) else ShortBody
    decreases cl - |got|
  {
    if |got| < cl {
      var (bytes, rest) := Receive(input, cl - |got|);
      if bytes == [] {
        assert got + Content(input) == got;
      } else {
        assert got + Content(input) == (got + bytes) + Content(rest);
        SpillBodyMeaning(got + bytes, cl, rest);
      }
    } else {
      assert (got + Content(input))[..cl] == got;
    }
  }

  /** The body is completed in the header buffer exactly when it fits there
      after the header end (he + cl <= BUFFER_SIZE - 1) and the peer sends it;
      it is then the first `cl` bytes after the header end. */
  lemma {:induction false} InlineBodyMeaning(data: seq<char>, he: nat, cl: nat, input: Input)
    requires he <= |data| < BUFFER_SIZE
    ensures InlineBody(data, he, cl, input) ==
      if he + cl < BUFFER_SIZE && |data[he..] + Content(input)| >= cl
      then BodyRead((data[he..] + Content(input))[..cl])
      else ShortBody
    decreases BUFFER_SIZE - |data|
  {
    if |data| - he >= cl {
      assert (data[he..] + Content(input))[..cl] == data[he..he + cl];
    } else {
      var (bytes, rest) := Receive(input, BUFFER_SIZE - |data| - 1);
      if bytes == [] {
        if BUFFER_SIZE - |data| - 1 > 0 {
          assert data[he..] + Content(input) == data[he..];
        }
      } else {
        assert data[he..] + Content(input) == (data + bytes)[he..] + Content(rest);
        InlineBodyMeaning(data + bytes, he, cl, rest);
      }
    }
  }

  /** The body stage: nothing for a Content-Length <= 0; 500 when a body too
      large for the header buffer cannot be allocated; otherwise the body is
      read in full exactly when the peer sends it, and is then the first
      Content-Length bytes after the header end. */
  lemma MaterializeBodyMeaning(data: seq<char>, he: nat, cl: int, input: Input, allocOk: bool)
    requires he <= |data| < BUFFER_SIZE
    ensures MaterializeBody(data, he, cl, input, allocOk) ==
      if cl <= 0 then BodyRead([])
      else if cl > BUFFER_SIZE - 1 - he && !allocOk then NoMemory
      else if |data[he..] + Content(input)| >= cl then BodyRead((data[he..] + Content(input))[..cl])
      else ShortBody
  {
    if cl > 0 {
      if cl > BUFFER_SIZE - 1 - he {
        if allocOk {
          SpillBodyMeaning(data[he..], cl, input);
        }
      } else {
        InlineBodyMeaning(data, he, cl, input);
      }
    }
  }

  /** As written, a Content-Length that does not fit in the header buffer
      after the header end but is at most BUFFER_SIZE is read inline and never
      completes: the answer is 400 whatever the peer sends. */
  lemma AsWrittenRejectsFittingBody(data: seq<char>, he: nat, cl: int, input: Input, allocOk: bool)
    requires he <= |data| < BUFFER_SIZE
    requires BUFFER_SIZE - 1 - he < cl <= BUFFER_SIZE
    ensures MaterializeBodyAsWritten(data, he, cl, input, allocOk) == ShortBody
  {
    InlineBodyMeaning(data, he, cl, input);
  }

  /** A body of exactly BUFFER_SIZE bytes, all of them sent: the code as
      written answers 400, the corrected threshold reads it in full. */
  lemma FullBufferBody(data: seq<char>, he: nat, input: Input)
    requires he <= |data| < BUFFER_SIZE
    requires |data[he..] + Content(input)| >= BUFFER_SIZE
    ensures MaterializeBodyAsWritten(data, he, BUFFER_SIZE, input, true) == ShortBody
    ensures MaterializeBody(data, he, BUFFER_SIZE, input, true) ==
      BodyRead((data[he..] + Content(input))[..BUFFER_SIZE])
  {
    AsWrittenRejectsFittingBody(data, he, BUFFER_SIZE, input, true);
    MaterializeBodyMeaning(data, he, BUFFER_SIZE, input, true);
  }

  /** Outside that range the corrected threshold changes nothing. */
  lemma MaterializeBodyAgrees(data: seq<char>, he: nat, cl: int, input: Input, allocOk: bool)
    requires he <= |data| < BUFFER_SIZE
    requires cl <= BUFFER_SIZE - 1 - he || cl > BUFFER_SIZE
    ensures MaterializeBodyAsWritten(data, he, cl, input, allocOk) == MaterializeBody(data, he, cl, input, allocOk)
  {
  }

  /** As written, a body read in full is the one the corrected threshold
      reads: the two differ only where the code as written answers 400. */
  lemma AsWrittenReadAgrees(data: seq<char>, he: nat, cl: int, input: Input, allocOk: bool)
    requires he <= |data| < BUFFER_SIZE
    requires MaterializeBodyAsWritten(data, he, cl, input, allocOk).BodyRead?
    ensures MaterializeBodyAsWritten(data, he, cl, input, allocOk) == MaterializeBody(data, he, cl, input, allocOk)
  {
    if BUFFER_SIZE - 1 - he < cl <= BUFFER_SIZE {
      AsWrittenRejectsFittingBody(data, he, cl, input, allocOk);
      assert false;
    }
    MaterializeBodyAgrees(data, he, cl, input, allocOk);
  }

  /** A body read in full after a header block that starts the stream is the
      max(0, cl) bytes of the stream that follow the header end. */
  lemma BodyFromStream(data: seq<char>, he: nat, rest: Input, cl: int, allocOk: bool, stream: seq<char>)
    requires he <= |data| < BUFFER_SIZE && data + Content(rest) == stream
    requires MaterializeBodyAsWritten(data, he, cl, rest, allocOk).BodyRead?
    ensures var n := if cl > 0 then cl else 0;
      he + n <= |stream| && MaterializeBodyAsWritten(data, he, cl, rest, allocOk).body == stream[he..he + n]
  {
    var n := if cl > 0 then cl else 0;
    AsWrittenReadAgrees(data, he, cl, rest, allocOk);
    MaterializeBodyMeaning(data, he, cl, rest, allocOk);
    DropConcat(data, Content(rest), he);
    assert stream[he..][..n] == stream[he..he + n];
  }

  lemma DropConcat(a: seq<char>, b: seq<char>, i: nat)
    requires i <= |a|
    ensures (a + b)[i..] == a[i..] + b
  {
  }

  // --------------------------------------------------------------- dispatch

  /** A file is opened only for a request whose last X-Secret header line
      carries the key exactly. */
  lemma FileAccessNeedsKey(input: Input, env: Env) returns (k: nat)
    requires Serve(input, env).openedFile.Some?
    ensures ReadHeaders([], input).HeadersFound?
    ensures ReadHeaders([], input).headerEnd <= |ReadHeaders([], input).data|
    ensures var h := ReadHeaders([], input);
      var lines := SplitLines(h.data, h.headerEnd, 0).lines;
      k < |lines| && IsSecretLine(lines[k]) && SecretOf(lines[k]) == SECRET_KEY &&
      forall j :: k < j < |lines| ==> !IsSecretLine(lines[j])
  {
    ReadHeadersBounds([], input);
    var h := ReadHeaders([], input);
    var lines := SplitLines(h.data, h.headerEnd, 0).lines;
    assert ApplyLines(NoFields, lines).secret == SECRET_KEY;
    k := SecretFromSomeLine(lines);
  }

  /** The last step of the dispatch: a GET or POST action comes with a body
      read in full and carries the request line's path without its first byte. */
  lemma DispatchAccepted(requestLine: (seq<char>, seq<char>), cl: int, body: BodyStage)
    requires |requestLine.1| > 0
    requires Dispatch(requestLine, cl, body).Get? || Dispatch(requestLine, cl, body).Post?
    ensures body.BodyRead? && Dispatch(requestLine, cl, body).filename == requestLine.1[1..]
    ensures Dispatch(requestLine, cl, body).Get? <==> requestLine.0 == "GET"
    ensures Dispatch(requestLine, cl, body).Post? ==>
      requestLine.0 == "POST" && Dispatch(requestLine, cl, body).body == body.body &&
      Dispatch(requestLine, cl, body).length == cl
  {
  }

  /** What a GET or POST action is made of: a header block `h` found in the
      stream, the key as the secret, and the method and the path of the
      request line; the file name is the path without its first byte,
      whatever that byte is. */
  lemma ParseAccepted(input: Input, allocOk: bool) returns (h: HeaderStage, verb: seq<char>, path: seq<char>)
    requires Parse(input, allocOk).Get? || Parse(input, allocOk).Post?
    ensures h == ReadHeaders([], input) && h.HeadersFound?
    ensures h.headerEnd <= |h.data| < BUFFER_SIZE && ScanHeaders(h.data, h.headerEnd).Scanned?
    ensures ScanHeaders(h.data, h.headerEnd).fields.secret == SECRET_KEY
    ensures ScanRequestLine(h.data) == Some((verb, path)) && |path| > 0
    ensures Parse(input, allocOk).Get? ==> verb == "GET" && Parse(input, allocOk).filename == path[1..]
    ensures Parse(input, allocOk).Post? ==> verb == "POST" && Parse(input, allocOk).filename == path[1..]
    ensures Parse(input, allocOk).Post? ==>
      Parse(input, allocOk).length == ScanHeaders(h.data, h.headerEnd).fields.contentLength &&
      MaterializeBodyAsWritten(h.data, h.headerEnd, Parse(input, allocOk).length, h.rest, allocOk) ==
        BodyRead(Parse(input, allocOk).body)
  {
    ReadHeadersBounds([], input);
    h := ReadHeaders([], input);
    assert Parse(input, allocOk) == CheckHeaders(h.data, h.headerEnd, h.rest, allocOk);
    var scan := ScanHeaders(h.data, h.headerEnd);
    assert scan.Scanned? && scan.fields.secret == SECRET_KEY;
    SecretFillsRequestLine(h.data, h.headerEnd);
    verb, path := ScanRequestLine(h.data).value.0, ScanRequestLine(h.data).value.1;
    var cl := scan.fields.contentLength;
    var body := MaterializeBodyAsWritten(h.data, h.headerEnd, cl, h.rest, allocOk);
    assert Parse(input, allocOk) == Dispatch((verb, path), cl, body);
    DispatchAccepted((verb, path), cl, body);
  }

  /** The body handed to the POST handler is exactly the max(0, Content-Length)
      bytes that follow the header end in the stream. */
  lemma PostBodyIsStream(input: Input, allocOk: bool) returns (headerEnd: nat)
    requires Parse(input, allocOk).Post?
    ensures var a := Parse(input, allocOk);
      |a.body| == (if a.length > 0 then a.length else 0) && headerEnd + |a.body| <= |Content(input)|
    ensures var a := Parse(input, allocOk);
      ReadHeaders([], input).HeadersFound? && headerEnd == ReadHeaders([], input).headerEnd &&
      a.body == Content(input)[headerEnd..headerEnd + |a.body|]
  {
    var a := Parse(input, allocOk);
    var h, verb, path := ParseAccepted(input, allocOk);
    headerEnd := h.headerEnd;
    assert h.data + Content(h.rest) == Content(input) by {
      HeadersFoundIsPrefix([], input);
      assert [] + Content(input) == Content(input);
    }
    BodyFromStream(h.data, headerEnd, h.rest, a.length, allocOk, Content(input));
    var n := if a.length > 0 then a.length else 0;
    assert a.body == Content(input)[headerEnd..headerEnd + n];
  }

  /** 405 is the answer to a request that passed every other check, the body
      read included, but whose method is neither GET nor POST. */
  lemma MethodNotAllowedMeaning(input: Input, allocOk: bool)
    requires Parse(input, allocOk) == Reply(405)
    ensures ReadHeaders([], input).HeadersFound?
    ensures var h := ReadHeaders([], input);
      h.headerEnd <= |h.data| < BUFFER_SIZE && ScanHeaders(h.data, h.headerEnd).Scanned? &&
      ScanHeaders(h.data, h.headerEnd).fields.secret == SECRET_KEY &&
      ScanRequestLine(h.data).Some? &&
      ScanRequestLine(h.data).value.0 != "GET" && ScanRequestLine(h.data).value.0 != "POST"
    ensures var h := ReadHeaders([], input);
      h.headerEnd <= |h.data| < BUFFER_SIZE && ScanHeaders(h.data, h.headerEnd).Scanned? &&
      MaterializeBodyAsWritten(h.data, h.headerEnd, ScanHeaders(h.data, h.headerEnd).fields.contentLength, h.rest, allocOk).BodyRead?
  {
    ReadHeadersBounds([], input);
    var h := ReadHeaders([], input);
    assert h.HeadersFound?;
    assert Parse(input, allocOk) == CheckHeaders(h.data, h.headerEnd, h.rest, allocOk);
    var scan := ScanHeaders(h.data, h.headerEnd);
    assert scan.Scanned? && scan.fields.secret == SECRET_KEY;
    SecretFillsRequestLine(h.data, h.headerEnd);
    var requestLine := ScanRequestLine(h.data).value;
    var body := MaterializeBodyAsWritten(h.data, h.headerEnd, scan.fields.contentLength, h.rest, allocOk);
    assert Dispatch(requestLine, scan.fields.contentLength, body) == Reply(405);
  }

  /** Conversely, a request whose header block is found, whose lines are all
      short enough, whose secret is the key and whose body is read in full is
      answered 405 whenever its method is neither GET nor POST. */
  lemma OtherMethodGets405(input: Input, allocOk: bool)
    requires ReadHeaders([], input).HeadersFound?
    requires var h := ReadHeaders([], input);
      h.headerEnd <= |h.data| < BUFFER_SIZE && ScanHeaders(h.data, h.headerEnd).Scanned? &&
      ScanHeaders(h.data, h.headerEnd).fields.secret == SECRET_KEY &&
      MaterializeBodyAsWritten(h.data, h.headerEnd, ScanHeaders(h.data, h.headerEnd).fields.contentLength, h.rest, allocOk).BodyRead?
    requires var h := ReadHeaders([], input);
      ScanRequestLine(h.data).Some? &&
      ScanRequestLine(h.data).value.0 != "GET" && ScanRequestLine(h.data).value.0 != "POST"
    ensures Parse(input, allocOk) == Reply(405)
  {
    ReadHeadersBounds([], input);
    var h := ReadHeaders([], input);
    assert Parse(input, allocOk) == CheckHeaders(h.data, h.headerEnd, h.rest, allocOk);
    var scan := ScanHeaders(h.data, h.headerEnd);
    SecretFillsRequestLine(h.data, h.headerEnd);
    var cl := scan.fields.contentLength;
    var body := MaterializeBodyAsWritten(h.data, h.headerEnd, cl, h.rest, allocOk);
    assert CheckHeaders(h.data, h.headerEnd, h.rest, allocOk) == Dispatch(ScanRequestLine(h.data).value, cl, body);
  }

  /** A request whose header lines are all short enough but whose secret is
      not the key is answered 403, whatever its method and body. */
  lemma WrongSecretGets403(input: Input, allocOk: bool)
    requires ReadHeaders([], input).HeadersFound?
    requires var h := ReadHeaders([], input);
      h.headerEnd <= |h.data| && ScanHeaders(h.data, h.headerEnd).Scanned? &&
      ScanHeaders(h.data, h.headerEnd).fields.secret != SECRET_KEY
    ensures Parse(input, allocOk) == Reply(403)
  {
    ReadHeadersBounds([], input);
  }

  /** In particular a request without any X-Secret line is answered 403. */
  lemma NoSecretLineGets403(input: Input, allocOk: bool)
    requires ReadHeaders([], input).HeadersFound?
    requires var h := ReadHeaders([], input);
      h.headerEnd <= |h.data| && !SplitLines(h.data, h.headerEnd, 0).tooLong &&
      forall k :: 0 <= k < |SplitLines(h.data, h.headerEnd, 0).lines| ==> !IsSecretLine(SplitLines(h.data, h.headerEnd, 0).lines[k])
    ensures Parse(input, allocOk) == Reply(403)
  {
    ReadHeadersBounds([], input);
    var h := ReadHeaders([], input);
    SecretDefault(NoFields, SplitLines(h.data, h.headerEnd, 0).lines);
  }

  /** A header block in which the line scan meets a line of MAX_LINE_SIZE
      bytes or more is answered 400. */
  lemma LineTooLongGets400(input: Input, allocOk: bool) returns (c: nat)
    requires ReadHeaders([], input).HeadersFound?
    requires var h := ReadHeaders([], input);
      h.headerEnd <= |h.data| && SplitLines(h.data, h.headerEnd, 0).tooLong
    ensures Parse(input, allocOk) == Reply(400)
    ensures var h := ReadHeaders([], input);
      c < h.headerEnd && LineEnd(h.data, h.headerEnd, c).Some? && LineEnd(h.data, h.headerEnd, c).value.0 >= MAX_LINE_SIZE
  {
    ReadHeadersBounds([], input);
    var h := ReadHeaders([], input);
    c := TooLongMeaning(h.data, h.headerEnd, 0);
  }

  /** After the header block, only 400, 403, 405 and 500 are answered without
      a handler, and 403 only for a secret other than the key. */
  lemma CheckHeadersStatus(data: seq<char>, he: nat, rest: Input, allocOk: bool)
    requires he <= CLen(data) && |data| < BUFFER_SIZE
    ensures CheckHeaders(data, he, rest, allocOk).Reply? ==>
      CheckHeaders(data, he, rest, allocOk).status in {400, 403, 405, 500}
    ensures CheckHeaders(data, he, rest, allocOk) == Reply(403) ==>
      ScanHeaders(data, he).Scanned? && ScanHeaders(data, he).fields.secret != SECRET_KEY
  {
    var scan := ScanHeaders(data, he);
    if scan.LineTooLong? {
      assert CheckHeaders(data, he, rest, allocOk) == Reply(400);
    } else if scan.fields.secret != SECRET_KEY {
      assert CheckHeaders(data, he, rest, allocOk) == Reply(403);
    } else {
      SecretFillsRequestLine(data, he);
      var cl := scan.fields.contentLength;
      var body := MaterializeBodyAsWritten(data, he, cl, rest, allocOk);
      assert CheckHeaders(data, he, rest, allocOk) == Dispatch(ScanRequestLine(data).value, cl, body);
      DispatchStatus(ScanRequestLine(data).value, cl, body);
    }
  }

  lemma DispatchStatus(requestLine: (seq<char>, seq<char>), cl: int, body: BodyStage)
    requires |requestLine.1| > 0
    ensures Dispatch(requestLine, cl, body).Reply? ==> Dispatch(requestLine, cl, body).status in {400, 405, 500}
  {
  }

  /** The statuses handle_request answers without a handler, and the causes
      of two of them: 413 exactly for an oversized header block, 403 for a
      secret other than the key. */
  lemma ParseStatus(input: Input, allocOk: bool)
    ensures Parse(input, allocOk).Reply? ==> Parse(input, allocOk).status in {400, 403, 405, 413, 500}
    ensures Parse(input, allocOk) == Reply(413) <==> ReadHeaders([], input) == TooLarge
    ensures Parse(input, allocOk) == Reply(403) ==>
      var h := ReadHeaders([], input);
      h.HeadersFound? && h.headerEnd <= |h.data| && ScanHeaders(h.data, h.headerEnd).Scanned? &&
      ScanHeaders(h.data, h.headerEnd).fields.secret != SECRET_KEY
  {
    ReadHeadersBounds([], input);
    var h := ReadHeaders([], input);
    if h.HeadersFound? {
      assert Parse(input, allocOk) == CheckHeaders(h.data, h.headerEnd, h.rest, allocOk);
      CheckHeadersStatus(h.data, h.headerEnd, h.rest, allocOk);
    }
  }

  /** Every status the server answers a request with; a file is opened
      exactly for a GET or POST action. */
  lemma ServeStatus(input: Input, env: Env)
    ensures Serve(input, env).status in {200, 400, 403, 404, 405, 413, 500}
    ensures Serve(input, env).openedFile.Some? <==> !Parse(input, env.allocOk).Reply?
  {
    ParseStatus(input, env.allocOk);
    var a := Parse(input, env.allocOk);
    if a.Get? {
      GetMeaning(a.filename, env);
    } else if a.Post? {
      ParseBodyLength(input, env.allocOk);
      PostMeaning(a.filename, a.body, a.length, env);
    }
  }

  // --------------------------------------------------------------- handlers

  /** The write loop completes whenever every write call makes progress and
      there are enough of them. */
  lemma {:induction false} WriteLoopSucceeds(total: nat, length: int, writes: seq<int>)
    requires forall i :: 0 <= i < |writes| ==> writes[i] > 0
    requires total + |writes| >= length
    ensures WriteLoop(total, length, writes).ok
    decreases if total < length then length - total else 0
  {
    if total < length {
      var (w, rest) := Transmit(writes, length - total);
      WriteLoopSucceeds(total + w, length, rest);
    }
  }

  /** POST answers 200 or 500. A 200 means the whole body was appended to the
      file; a 500 after a successful open means a strict prefix of it was. A
      Content-Length <= 0 appends nothing and gets 200; writes that all make
      progress get 200. */
  lemma PostMeaning(filename: seq<char>, body: seq<char>, length: int, env: Env)
    requires |body| == if length > 0 then length else 0
    ensures var o := PostOutcome(filename, body, length, env);
      (o.status == 200 || o.status == 500) && o.openedFile == Some(filename) && o.sent == []
    ensures var o := PostOutcome(filename, body, length, env);
      o.status == 200 ==> o.appended == body
    ensures var o := PostOutcome(filename, body, length, env);
      o.status == 500 ==> o.appended <= body && (env.openOk ==> |o.appended| < |body|)
    ensures env.openOk && length <= 0 ==> PostOutcome(filename, body, length, env).status == 200
    ensures env.openOk && (forall i :: 0 <= i < |env.writes| ==> env.writes[i] > 0) && |env.writes| >= length ==>
      PostOutcome(filename, body, length, env).status == 200
  {
    if env.openOk && (forall i :: 0 <= i < |env.writes| ==> env.writes[i] > 0) && |env.writes| >= length {
      WriteLoopSucceeds(0, length, env.writes);
    }
  }

  /** The GET stream sends the file's bytes in order: all of them when no write
      fails, never more than the file holds. */
  lemma {:induction false} StreamMeaning(file: Input, writes: seq<int>)
    ensures StreamFile(file, writes).failures == 0 ==> StreamFile(file, writes).sent == Content(file)
    ensures |StreamFile(file, writes).sent| <= |Content(file)|
    decreases Pending(file)
  {
    var (piece, rest) := Receive(file, BUFFER_SIZE);
    if piece != [] {
      var w := WriteLoop(0, |piece|, writes);
      StreamMeaning(rest, w.rest);
    }
  }

  /** GET answers 404 exactly when open fails, and 200 with the file's bytes
      otherwise; it never appends to a file. */
  lemma GetMeaning(filename: seq<char>, env: Env)
    ensures var o := GetOutcome(filename, env);
      (o.status == 404 <==> !env.openOk) && (o.status == 200 <==> env.openOk) &&
      o.openedFile == Some(filename) && o.appended == []
    ensures var o := GetOutcome(filename, env);
      env.openOk && StreamFile(env.file, env.writes).failures == 0 ==> o.sent == Content(env.file)
  {
    StreamMeaning(env.file, env.writes);
  }

  /** A failed write drops only the rest of its piece: the stream goes on
      with the next read, so every later piece is still written, and all of
      it is sent when no later write fails. */
  lemma StreamGoesOnAfterFailure(file: Input, writes: seq<int>)
    requires Receive(file, BUFFER_SIZE).0 != []
    ensures var (piece, rest) := Receive(file, BUFFER_SIZE);
      var w := WriteLoop(0, |piece|, writes);
      var tail := StreamFile(rest, w.rest);
      StreamFile(file, writes).sent == piece[..w.count] + tail.sent &&
      StreamFile(file, writes).failures == (if w.ok then 0 else 1) + tail.failures
    ensures var (piece, rest) := Receive(file, BUFFER_SIZE);
      var w := WriteLoop(0, |piece|, writes);
      StreamFile(rest, w.rest).failures == 0 ==>
        StreamFile(file, writes).sent == piece[..w.count] + Content(rest)
  {
    var (piece, rest) := Receive(file, BUFFER_SIZE);
    var w := WriteLoop(0, |piece|, writes);
    StreamFileStep(file, writes, w.count, w.ok, w.rest);
    StreamMeaning(rest, w.rest);
  }

  /** With the file read as "ab" then "cd" and the first write failing, "cd"
      is still sent. */
  lemma StreamFailureExample()
    ensures StreamFile([['a', 'b'], ['c', 'd']], [0, 2]) == Streamed(['c', 'd'], 1, [])
  {
    var file: Input := [['a', 'b'], ['c', 'd']];
    assert Receive(file, BUFFER_SIZE) == (['a', 'b'], file[1..]);
    assert Receive(file[1..], BUFFER_SIZE) == (['c', 'd'], []);
    assert WriteLoop(0, 2, [0, 2]) == Written(0, false, [2]);
    assert WriteLoop(0, 2, [2]) == Written(2, true, []);
  }
}
