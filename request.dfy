/**
  The incremental HTTP/1.1 request parser of internal/request/request.go: a
  request line, a header section and a body framed by Content-Length, read
  from byte buffers that arrive in arbitrary pieces (section 2 of RFC 9112).

  The pure functions `Step` and `Feed` say what one call of `parseSingle` and
  of `parse` do to a request; the class `Request` does the same in place, and
  `RequestFromReader` drives it from a reader through a growing buffer.
*/
module Request {
  import opened Text
  import Headers

  datatype ParserState = ParserInitialized | ParserHeaders | ParserBody | ParserDone

  datatype RequestLine = RequestLine(httpVersion: Bytes, requestTarget: Bytes, httpMethod: Bytes)

  /** Every failure the parser and `RequestFromReader` report. */
  datatype Error =
    | PoorlyFormattedRequestLine  // the request line is not three space-separated parts
    | InvalidMethod               // the method holds a byte outside A-Z
    | MalformedStartLine          // the version part is not two '/'-separated parts
    | UnrecognizedHttpVersion     // the version is not HTTP/1.1
    | BadHeader(cause: Headers.HeaderError)
    | InvalidContentLength        // Content-Length is not a decimal int
    | BodyTooLarge                // more body bytes than Content-Length announces
    | ReadInDoneState             // `parseSingle` called on a finished request
    | IncompleteRequest           // end of stream before the request was complete
    | ReadFailed                  // the reader reported an error other than end of stream

  /** The errors that `parse` itself reports, as opposed to those of the reader. */
  predicate IsParseError(e: Error) {
    !e.IncompleteRequest? && !e.ReadFailed?
  }

  datatype Result<T> = Ok(value: T) | Err(error: Error)

  // ---------------------------------------------------------------------------
  // The request line

  /** Methods are made of the upper-case ASCII letters only (the empty method included). */
  predicate IsMethod(s: Bytes) {
    forall i :: 0 <= i < |s| ==> 'A' <= s[i] <= 'Z'
  }

  /** The request line of `rl` as it stands on the wire, CRLF excluded. */
  function RequestLineText(rl: RequestLine): Bytes {
    rl.httpMethod + " " + rl.requestTarget + " HTTP/" + rl.httpVersion
  }

  /** `requestLineFromString`: split on spaces, check the method, split the version on '/'. */
  function RequestLineFromString(s: Bytes): (r: Result<RequestLine>)
    ensures r.Ok? ==> s == RequestLineText(r.value)
    ensures r.Ok? ==> IsMethod(r.value.httpMethod) && ' ' !in r.value.requestTarget && r.value.httpVersion == "1.1"
  {
    var parts := Split(s, ' ');
    if |parts| != 3 then Err(PoorlyFormattedRequestLine)
    else if !IsMethod(parts[0]) then Err(InvalidMethod)
    else
      var versionParts := Split(parts[2], '/');
      if |versionParts| != 2 then Err(MalformedStartLine)
      else if versionParts[0] != "HTTP" then Err(UnrecognizedHttpVersion)
      else if versionParts[1] != "1.1" then Err(UnrecognizedHttpVersion)
      else
        SplitParts(s, parts, versionParts);
        Ok(RequestLine(versionParts[1], parts[1], parts[0]))
  }

  /** Glued back together, the parts of an accepted line give the line. */
  lemma SplitParts(s: Bytes, parts: seq<Bytes>, versionParts: seq<Bytes>)
    requires |parts| == 3 && Join(parts, ' ') == s
    requires |versionParts| == 2 && Join(versionParts, '/') == parts[2] && versionParts[0] == "HTTP"
    ensures s == RequestLineText(RequestLine(versionParts[1], parts[1], parts[0]))
  {
    JoinThree(parts, ' ');
    JoinTwo(versionParts, '/');
    assert parts[2] == "HTTP/" + versionParts[1];
  }

  lemma JoinTwo(parts: seq<Bytes>, sep: Byte)
    requires |parts| == 2
    ensures Join(parts, sep) == parts[0] + [sep] + parts[1]
  {
    assert parts[1..][0] == parts[1];
  }

  lemma JoinThree(parts: seq<Bytes>, sep: Byte)
    requires |parts| == 3
    ensures Join(parts, sep) == parts[0] + [sep] + parts[1] + [sep] + parts[2]
  {
    JoinTwo(parts[1..], sep);
    assert parts[1..][0] == parts[1] && parts[1..][1] == parts[2];
  }

  /** Method bytes are letters: no space, slash or carriage return among them. */
  lemma MethodBytes(m: Bytes)
    requires IsMethod(m)
    ensures ' ' !in m && '/' !in m && '\r' !in m
  {
    assert forall i :: 0 <= i < |m| ==> m[i] != ' ' && m[i] != '/' && m[i] != '\r';
  }

  /** Three space-free parts joined by single spaces split back into those parts. */
  lemma SplitThree(a: Bytes, b: Bytes, c: Bytes, s: Bytes)
    requires ' ' !in a && ' ' !in b && ' ' !in c
    requires s == a + " " + b + " " + c
    ensures Split(s, ' ') == [a, b, c]
  {
    var parts: seq<Bytes> := [a, b, c];
    JoinThree(parts, ' ');
    SplitJoin(parts, ' ');
  }

  /** "HTTP/" and a slash-free version split back into the two. */
  lemma SplitVersion(v: Bytes, s: Bytes)
    requires '/' !in v
    requires s == "HTTP/" + v
    ensures Split(s, '/') == ["HTTP", v]
  {
    var parts: seq<Bytes> := ["HTTP", v];
    JoinTwo(parts, '/');
    assert '/' !in parts[0];
    assert Join(parts, '/') == s;
    SplitJoin(parts, '/');
  }

  /** Any upper-case method and space-free target with version 1.1 is accepted and read back. */
  lemma RequestLineRoundTrip(m: Bytes, t: Bytes)
    requires IsMethod(m) && ' ' !in t
    ensures RequestLineFromString(RequestLineText(RequestLine("1.1", t, m))) == Ok(RequestLine("1.1", t, m))
  {
    var v: Bytes := "1.1";
    assert ' ' !in v && '/' !in v;
    LineParts(m, t, v, RequestLineText(RequestLine(v, t, m)));
  }

  /** A method holding anything but upper-case letters is refused. */
  lemma NonUpperMethodRejected(m: Bytes, t: Bytes, v: Bytes)
    requires ' ' !in m && ' ' !in t && ' ' !in v
    requires !IsMethod(m)
    ensures RequestLineFromString(m + " " + t + " " + v) == Err(InvalidMethod)
  {
    SplitThree(m, t, v, m + " " + t + " " + v);
  }

  /** Any version other than 1.1 after "HTTP/" is refused, HTTP/1.0 and HTTP/2 among them. */
  lemma OtherVersionRejected(m: Bytes, t: Bytes, v: Bytes)
    requires IsMethod(m) && ' ' !in t && ' ' !in v && '/' !in v
    requires v != "1.1"
    ensures RequestLineFromString(RequestLineText(RequestLine(v, t, m))) == Err(UnrecognizedHttpVersion)
  {
    LineParts(m, t, v, RequestLineText(RequestLine(v, t, m)));
  }

  /** The pieces `RequestLineFromString` splits the text of a request line into. */
  lemma LineParts(m: Bytes, t: Bytes, v: Bytes, s: Bytes)
    requires IsMethod(m) && ' ' !in t && ' ' !in v && '/' !in v
    requires s == RequestLineText(RequestLine(v, t, m))
    ensures Split(s, ' ') == [m, t, "HTTP/" + v] && Split("HTTP/" + v, '/') == ["HTTP", v]
  {
    var version := "HTTP/" + v;
    assert s == m + " " + t + " " + version;
    MethodBytes(m);
    assert ' ' !in version;
    SplitThree(m, t, version, s);
    SplitVersion(v, version);
  }

  /** A line that does not split on single spaces into exactly three parts is refused. */
  lemma PartCountRejected(parts: seq<Bytes>, s: Bytes)
    requires |parts| >= 1 && |parts| != 3
    requires forall i :: 0 <= i < |parts| ==> ' ' !in parts[i]
    requires s == Join(parts, ' ')
    ensures RequestLineFromString(s) == Err(PoorlyFormattedRequestLine)
  {
    SplitJoin(parts, ' ');
  }

  /** A version part without a slash is a malformed start line. */
  lemma VersionWithoutSlashRejected(m: Bytes, t: Bytes, v: Bytes)
    requires IsMethod(m) && ' ' !in t && ' ' !in v && '/' !in v
    ensures RequestLineFromString(m + " " + t + " " + v) == Err(MalformedStartLine)
  {
    MethodBytes(m);
    SplitThree(m, t, v, m + " " + t + " " + v);
    SplitJoin([v], '/');
  }

  /** What `parseRequestLine` finds in a buffer. */
  datatype LineScan =
    | LineIncomplete                          // no CRLF yet
    | LineParsed(n: nat, line: RequestLine)   // a valid request line of n bytes, CRLF included
    | LineFailed(error: Error)

  /** `parseRequestLine`: the text up to the first CRLF, checked by `RequestLineFromString`. */
  function ParseRequestLine(data: Bytes): (r: LineScan)
    ensures r.LineIncomplete? <==> NoCRLF(data)
    ensures r.LineParsed? ==> r.n <= |data| && data[..r.n] == RequestLineText(r.line) + CRLF
    ensures r.LineParsed? ==> r.n == Index(data, CRLF) + 2
    ensures r.LineFailed? ==> 0 <= Index(data, CRLF) && RequestLineFromString(data[..Index(data, CRLF)]) == Err(r.error)
  {
    var idx := Index(data, CRLF);
    IndexFirst(data, CRLF);
    if idx == -1 then LineIncomplete
    else
      match RequestLineFromString(data[..idx])
      case Err(e) => LineFailed(e)
      case Ok(rl) =>
        assert data[..idx + 2] == data[..idx] + CRLF;
        LineParsed(idx + 2, rl)
  }

  /** A CRLF-free line followed by CRLF is judged by `RequestLineFromString` alone, whatever follows. */
  lemma {:induction false} ParseRequestLineScan(line: Bytes, rest: Bytes)
    requires NoCRLF(line)
    ensures ParseRequestLine(line + CRLF + rest) ==
      match RequestLineFromString(line)
      case Ok(rl) => LineParsed(|line| + 2, rl)
      case Err(e) => LineFailed(e)
  {
    IndexCRLFAfter(line, rest);
    assert (line + CRLF + rest)[..|line|] == line;
  }

  /** A request line is found as soon as its CRLF has arrived, whatever follows. */
  lemma {:induction false} ParseRequestLineText(m: Bytes, t: Bytes, rest: Bytes)
    requires IsMethod(m) && ' ' !in t && NoCRLF(t)
    ensures ParseRequestLine(RequestLineText(RequestLine("1.1", t, m)) + CRLF + rest)
      == LineParsed(|m| + |t| + 12, RequestLine("1.1", t, m))
  {
    var line := RequestLineText(RequestLine("1.1", t, m));
    RequestLineNoCRLF(m, t, line);
    IndexCRLFAfter(line, rest);
    assert (line + CRLF + rest)[..|line|] == line;
    RequestLineRoundTrip(m, t);
  }

  lemma RequestLineNoCRLF(m: Bytes, t: Bytes, line: Bytes)
    requires IsMethod(m) && NoCRLF(t)
    requires line == RequestLineText(RequestLine("1.1", t, m))
    ensures NoCRLF(line)
  {
    MethodBytes(m);
    NoCRNoCRLF(m + " ");
    NoCRLFConcat(m + " ", t);
    NoCRNoCRLF(" HTTP/1.1");
    NoCRLFConcat(m + " " + t, " HTTP/1.1");
    assert line == m + " " + t + " HTTP/1.1";
  }

  // ---------------------------------------------------------------------------
  // One parsing step and a whole `parse` call, on values

  /** The contents of a `Request`: what `parseSingle` and `parse` read and change. */
  datatype RequestValue = RequestValue(
    requestLine: RequestLine, fields: Headers.Fields, body: Bytes, state: ParserState)

  /** A request as `RequestFromReader` creates it: nothing parsed yet. */
  function Initial(): RequestValue {
    RequestValue(RequestLine([], [], []), map[], [], ParserInitialized)
  }

  /** The request after a call, the bytes the call reports as consumed, and its error. */
  datatype Outcome = Outcome(request: RequestValue, n: nat, error: Option<Error>)

  /** The position of a state in the order the parser goes through them. */
  function Rank(s: ParserState): nat {
    match s
    case ParserInitialized => 0
    case ParserHeaders => 1
    case ParserBody => 2
    case ParserDone => 3
  }

  const ContentLength: Bytes := "content-length"

  /** The `ParserInitialized` arm of `parseSingle`. */
  function StepRequestLine(v: RequestValue, data: Bytes): (r: Outcome)
    ensures r.request.fields == v.fields && r.request.body == v.body
    ensures r.n == 0 ==> r.request == v
    ensures r.error.Some? ==> r.n == 0
    ensures r.n <= |data|
    ensures r.n > 0 ==> r.request.state == ParserHeaders && data[..r.n] == RequestLineText(r.request.requestLine) + CRLF
  {
    match ParseRequestLine(data)
    case LineIncomplete => Outcome(v, 0, None)
    case LineFailed(e) => Outcome(v, 0, Some(e))
    case LineParsed(n, rl) => Outcome(v.(requestLine := rl, state := ParserHeaders), n, None)
  }

  /** The `ParserHeaders` arm of `parseSingle`: one call of `Headers.Parse`. */
  function StepHeaders(v: RequestValue, data: Bytes): (r: Outcome)
    ensures r.request.requestLine == v.requestLine && r.request.body == v.body
    ensures r.error.Some? ==> r.n == 0 && r.request == v
    ensures r.n == 0 ==> r.request.fields == v.fields
    ensures r.error.None? ==> (r.request.state == ParserBody <==> OccursAt(data, CRLF, 0))
    ensures r.error.None? && r.request.state == ParserBody ==> r.n == 2 && r.request.fields == v.fields
  {
    Headers.ScanWaitsForCRLF(data);
    var p := Headers.ParseLine(v.fields, data);
    if p.error.Some? then Outcome(v, 0, Some(BadHeader(p.error.value)))
    else Outcome(v.(fields := p.fields, state := if p.done then ParserBody else ParserHeaders), p.n, None)
  }

  /**
    The `ParserBody` arm of `parseSingle`: without Content-Length the request
    is done; otherwise all of `data` joins the body before the length is
    parsed and compared.
  */
  function StepBody(v: RequestValue, data: Bytes): (r: Outcome)
    ensures r.request.requestLine == v.requestLine && r.request.fields == v.fields
    ensures r.request.body == v.body || r.request.body == v.body + data
    ensures r.request.state == v.state || r.request.state == ParserDone
    ensures r.error.None? ==> r.n == 0 || r.n == |data|
    ensures r.error.None? && v.state != ParserDone && r.request.state == ParserDone ==>
      var cl := Headers.Get(v.fields, ContentLength);
      cl.None? || Atoi(cl.value) == Some(|r.request.body|)
  {
    match Headers.Get(v.fields, ContentLength)
    case None => Outcome(v.(state := ParserDone), 0, None)
    case Some(lengthStr) =>
      var grown := v.(body := v.body + data);
      match Atoi(lengthStr)
      case None => Outcome(grown, 0, Some(InvalidContentLength))
      case Some(length) =>
        if |grown.body| > length then Outcome(grown, 0, Some(BodyTooLarge))
        else if |grown.body| == length then Outcome(grown.(state := ParserDone), |data|, None)
        else Outcome(grown, |data|, None)
  }

  /** `parseSingle`: one step of the parser in the current state. */
  function Step(v: RequestValue, data: Bytes): (r: Outcome)
    ensures r.n <= |data|
    ensures r.error.Some? ==> r.n == 0 && IsParseError(r.error.value)
    ensures Rank(v.state) <= Rank(r.request.state) <= Rank(v.state) + 1
  {
    match v.state
    case ParserInitialized => StepRequestLine(v, data)
    case ParserHeaders => StepHeaders(v, data)
    case ParserBody => StepBody(v, data)
    case ParserDone => Outcome(v, 0, Some(ReadInDoneState))
  }

  /**
    `parse`: steps until the request is done, a step fails, or a step
    consumes nothing. An error reports nothing consumed; what the failing
    step changed stays changed.
  */
  function Feed(v: RequestValue, data: Bytes): (r: Outcome)
    ensures r.n <= |data|
    ensures r.error.Some? ==> r.n == 0 && IsParseError(r.error.value)
    ensures Rank(v.state) <= Rank(r.request.state)
    decreases |data|
  {
    if v.state == ParserDone then Outcome(v, 0, None)
    else
      var s := Step(v, data);
      if s.error.Some? then Outcome(s.request, 0, s.error)
      else if s.n == 0 then Outcome(s.request, 0, None)
      else
        var r := Feed(s.request, data[s.n..]);
        if r.error.Some? then r else Outcome(r.request, s.n + r.n, None)
  }

  // ---------------------------------------------------------------------------
  // Properties of `Step` and `Feed`

  /** A step that consumes nothing and does not finish the request leaves it as it was. */
  lemma StepStall(v: RequestValue, data: Bytes)
    requires Step(v, data).error.None? && Step(v, data).n == 0
    requires Step(v, data).request.state != ParserDone
    ensures Step(v, data).request == v
  {
    if v.state == ParserBody {
      assert data == [] && v.body + data == v.body;
    }
  }

  /** Header and request-line steps that consume bytes do not look past them. */
  lemma StepExtend(v: RequestValue, a: Bytes, b: Bytes)
    requires v.state == ParserInitialized || v.state == ParserHeaders
    requires Step(v, a).error.None? && Step(v, a).n > 0
    ensures Step(v, a + b) == Step(v, a)
  {
    if v.state == ParserInitialized {
      var k := Index(a, CRLF);
      IndexExtend(a, b, CRLF);
      assert (a + b)[..k] == a[..k];
    } else {
      Headers.ScanExtend(a, b);
    }
  }

  /** What one call of `parse` does in the body state once the declared length is known. */
  function BodyOutcome(v: RequestValue, d: Bytes, length: Int64): (r: Outcome)
    ensures r.request.body == v.body + d && r.request.fields == v.fields
    ensures r.error.None? <==> |v.body + d| <= length
    ensures r.error.None? ==> r.n == |d| && (r.request.state == ParserDone <==> |v.body + d| == length)
    ensures r.error.Some? ==> r.error == Some(BodyTooLarge) && r.n == 0 && r.request.state == v.state
  {
    var body := v.body + d;
    if |body| > length then Outcome(v.(body := body), 0, Some(BodyTooLarge))
    else Outcome(v.(body := body, state := if |body| == length then ParserDone else ParserBody), |d|, None)
  }

  /**
    In the body state with a valid Content-Length, a whole `parse` call takes
    all of `data` into the body, and finishes exactly when the body reaches
    the announced length.
  */
  lemma FeedBody(v: RequestValue, d: Bytes, length: Int64)
    requires v.state == ParserBody
    requires Headers.Get(v.fields, ContentLength).Some?
    requires Atoi(Headers.Get(v.fields, ContentLength).value) == Some(length)
    ensures Feed(v, d) == BodyOutcome(v, d, length)
  {
    var s := Step(v, d);
    var body := v.body + d;
    if |body| <= length && |d| > 0 && |body| < length {
      assert d[|d|..] == [];
      assert s.request.body + [] == s.request.body;
    }
  }

  /** Without Content-Length the body state finishes at once, consuming nothing and keeping the body. */
  lemma BodyWithoutLength(v: RequestValue, data: Bytes)
    requires v.state == ParserBody && Headers.Get(v.fields, ContentLength).None?
    ensures Feed(v, data) == Outcome(v.(state := ParserDone), 0, None)
  {
  }

  /** A Content-Length that is no decimal int is an error, reported after the data joined the body. */
  lemma InvalidLengthRejected(v: RequestValue, data: Bytes)
    requires v.state == ParserBody && Headers.Get(v.fields, ContentLength).Some?
    requires Atoi(Headers.Get(v.fields, ContentLength).value).None?
    ensures Feed(v, data) == Outcome(v.(body := v.body + data), 0, Some(InvalidContentLength))
  {
  }

  /** A negative Content-Length can never be met: every body feed reports too large a body. */
  lemma NegativeLengthRejected(v: RequestValue, data: Bytes, length: Int64)
    requires v.state == ParserBody && Headers.Get(v.fields, ContentLength).Some?
    requires Atoi(Headers.Get(v.fields, ContentLength).value) == Some(length) && length < 0
    ensures Feed(v, data).error == Some(BodyTooLarge)
  {
    FeedBody(v, data, length);
  }

  /** `parse` on a finished request consumes nothing and reports no error; `parseSingle` fails. */
  lemma FinishedRequestUntouched(v: RequestValue, data: Bytes)
    requires v.state == ParserDone
    ensures Feed(v, data) == Outcome(v, 0, None)
    ensures Step(v, data) == Outcome(v, 0, Some(ReadInDoneState))
  {
  }

  /**
    How a request's body relates to its Content-Length while it is parsed:
    empty before the body state, shorter than the declared length while in
    it, and once done exactly the declared length, or empty without one.
  */
  predicate Framed(v: RequestValue) {
    var cl := Headers.Get(v.fields, ContentLength);
    (Rank(v.state) < 2 ==> v.body == [])
    && (v.state == ParserBody && v.body != [] ==>
          cl.Some? && Atoi(cl.value).Some? && |v.body| < Atoi(cl.value).value)
    && (v.state == ParserDone ==> if cl.None? then v.body == [] else Atoi(cl.value) == Some(|v.body|))
  }

  lemma StepFramed(v: RequestValue, data: Bytes)
    requires Framed(v) && Step(v, data).error.None?
    ensures Framed(Step(v, data).request)
  {
    if v.state == ParserBody && Headers.Get(v.fields, ContentLength).Some? {
      var length := Atoi(Headers.Get(v.fields, ContentLength).value).value;
      FeedBody(v, data, length);
    }
  }

  /** Every successful `parse` call keeps the body framed by Content-Length. */
  lemma {:induction false} FeedFramed(v: RequestValue, data: Bytes)
    requires Framed(v)
    ensures Feed(v, data).error.None? ==> Framed(Feed(v, data).request)
    decreases |data|
  {
    if v.state != ParserDone && Step(v, data).error.None? {
      var s := Step(v, data);
      StepFramed(v, data);
      if s.n > 0 {
        FeedFramed(s.request, data[s.n..]);
        FeedUnfold(v, data);
      }
    }
  }

  /**
    A request finished from any input has a body of exactly the announced
    Content-Length, and no body at all when it announces none.
  */
  lemma FinishedBodyLength(data: Bytes)
    requires Feed(Initial(), data).error.None? && Feed(Initial(), data).request.state == ParserDone
    ensures var r := Feed(Initial(), data).request; var cl := Headers.Get(r.fields, ContentLength);
      (cl.None? ==> r.body == []) && (cl.Some? ==> Atoi(cl.value) == Some(|r.body|))
  {
    FeedFramed(Initial(), data);
  }

  /** `parse` stops short of a finished request only where the next step has nothing to do. */
  lemma {:induction false} FeedMaximal(v: RequestValue, data: Bytes)
    ensures var r := Feed(v, data);
      r.error.None? && r.request.state != ParserDone ==>
        Step(r.request, data[r.n..]) == Outcome(r.request, 0, None)
    decreases |data|, 1
  {
    if v.state != ParserDone && Step(v, data).error.None? {
      if Step(v, data).n == 0 {
        FeedMaximalStall(v, data);
      } else {
        FeedMaximalStep(v, data);
      }
    }
  }

  lemma FeedMaximalStall(v: RequestValue, data: Bytes)
    requires v.state != ParserDone
    requires Step(v, data).error.None? && Step(v, data).n == 0
    ensures var r := Step(v, data).request;
      r.state != ParserDone ==> Step(r, data) == Outcome(r, 0, None)
  {
    if Step(v, data).request.state != ParserDone {
      StepStall(v, data);
    }
  }

  lemma {:induction false} FeedMaximalStep(v: RequestValue, data: Bytes)
    requires v.state != ParserDone && Step(v, data).error.None? && Step(v, data).n > 0
    ensures var r := Feed(v, data);
      r.error.None? && r.request.state != ParserDone ==>
        Step(r.request, data[r.n..]) == Outcome(r.request, 0, None)
    decreases |data|, 0
  {
    var s := Step(v, data);
    var tail := data[s.n..];
    var rest := Feed(s.request, tail);
    FeedUnfold(v, data);
    FeedMaximal(s.request, tail);
    if rest.error.None? {
      var r := Feed(v, data);
      assert r == Outcome(rest.request, s.n + rest.n, None);
      DropDrop(data, s.n, rest.n);
      StepCongruent(rest.request, tail[rest.n..], r.request, data[r.n..]);
    }
  }

  /**
    Splitting a stream anywhere gives the same result as parsing it whole:
    after `parse` has consumed what it could of `a`, parsing the leftover
    followed by `b` finishes the job exactly as parsing `a + b` at once
    would, provided the first call had not already finished the request.
  */
  lemma {:induction false} FeedSplit(v: RequestValue, a: Bytes, b: Bytes)
    requires Feed(v, a).error.None?
    requires Feed(v, a).request.state != ParserDone || b == []
    ensures var r1 := Feed(v, a); var r2 := Feed(r1.request, a[r1.n..] + b);
      Feed(v, a + b) == Outcome(r2.request, if r2.error.None? then r1.n + r2.n else 0, r2.error)
    decreases |a|, 2
  {
    if v.state == ParserDone {
      assert a[0..] == a;
    } else if Step(v, a).n == 0 {
      FeedSplitStall(v, a, b);
    } else if v.state == ParserBody {
      FeedSplitBody(v, a, b);
    } else {
      FeedSplitStep(v, a, b);
    }
  }

  lemma FeedSplitStall(v: RequestValue, a: Bytes, b: Bytes)
    requires v.state != ParserDone && Step(v, a).n == 0
    requires Feed(v, a).error.None?
    requires Feed(v, a).request.state != ParserDone || b == []
    ensures var r1 := Feed(v, a); var r2 := Feed(r1.request, a[r1.n..] + b);
      Feed(v, a + b) == Outcome(r2.request, if r2.error.None? then r1.n + r2.n else 0, r2.error)
  {
    var s := Step(v, a);
    assert Feed(v, a) == Outcome(s.request, 0, None);
    assert a[0..] == a;
    if s.request.state == ParserDone {
      assert a + b == a;
    } else {
      StepStall(v, a);
    }
  }

  lemma {:induction false} FeedSplitStep(v: RequestValue, a: Bytes, b: Bytes)
    requires v.state == ParserInitialized || v.state == ParserHeaders
    requires Step(v, a).error.None? && Step(v, a).n > 0
    requires Feed(v, a).error.None?
    requires Feed(v, a).request.state != ParserDone || b == []
    ensures var r1 := Feed(v, a); var r2 := Feed(r1.request, a[r1.n..] + b);
      Feed(v, a + b) == Outcome(r2.request, if r2.error.None? then r1.n + r2.n else 0, r2.error)
    decreases |a|, 1
  {
    var s := Step(v, a);
    FeedSplitRest(v, a, b);
    StepExtend(v, a, b);
    FeedUnfold(v, a + b);
  }

  /** The second half of `FeedSplitStep`: what follows the first step, over `a + b`. */
  lemma {:induction false} FeedSplitRest(v: RequestValue, a: Bytes, b: Bytes)
    requires v.state == ParserInitialized || v.state == ParserHeaders
    requires Step(v, a).error.None? && Step(v, a).n > 0
    requires Feed(v, a).error.None?
    requires Feed(v, a).request.state != ParserDone || b == []
    ensures var s := Step(v, a); var r1 := Feed(v, a); var r2 := Feed(r1.request, a[r1.n..] + b);
      s.n <= r1.n && s.n <= |a + b| &&
      Feed(s.request, (a + b)[s.n..]) == Outcome(r2.request, if r2.error.None? then r1.n - s.n + r2.n else 0, r2.error)
    decreases |a|, 0
  {
    var s := Step(v, a);
    var rest := Feed(s.request, a[s.n..]);
    var r1 := Feed(v, a);
    FeedUnfold(v, a);
    assert r1.request == rest.request && r1.n == s.n + rest.n;
    FeedSplit(s.request, a[s.n..], b);
    TailAppend(a, b, s.n, rest.n, r1.n);
    FeedCongruent(rest.request, a[s.n..][rest.n..] + b, r1.request, a[r1.n..] + b);
    DropAppend(a, b, s.n);
  }

  lemma FeedSplitBody(v: RequestValue, a: Bytes, b: Bytes)
    requires v.state == ParserBody
    requires Step(v, a).error.None? && Step(v, a).n > 0
    requires Feed(v, a).error.None?
    requires Feed(v, a).request.state != ParserDone || b == []
    ensures var r1 := Feed(v, a); var r2 := Feed(r1.request, a[r1.n..] + b);
      Feed(v, a + b) == Outcome(r2.request, if r2.error.None? then r1.n + r2.n else 0, r2.error)
  {
    var lengthStr := Headers.Get(v.fields, ContentLength).value;
    var length := Atoi(lengthStr).value;
    FeedBody(v, a, length);
    var r1 := Feed(v, a);
    var w := r1.request;
    assert r1.n == |a| && w.body == v.body + a && w.fields == v.fields;
    DropAppend(a, b, |a|);
    assert a[|a|..] == [];
    if w.state == ParserDone {
      assert a + b == a;
    } else {
      FeedCongruent(w, a[r1.n..] + b, w, b);
      FeedBody(w, b, length);
      FeedBody(v, a + b, length);
      FeedBodyAgain(v, w, a, b, length);
    }
  }

  /** Two body feeds in a row take the same bytes into the body as one. */
  lemma FeedBodyAgain(v: RequestValue, w: RequestValue, a: Bytes, b: Bytes, length: Int64)
    requires w == v.(body := v.body + a)
    ensures var r2 := BodyOutcome(w, b, length);
      BodyOutcome(v, a + b, length) == Outcome(r2.request, if r2.error.None? then |a| + r2.n else 0, r2.error)
  {
    AppendAssoc(v.body, a, b);
  }

  /** One round of the `parse` loop: a step that consumes bytes is followed by the rest of the call. */
  lemma FeedUnfold(v: RequestValue, data: Bytes)
    requires v.state != ParserDone && Step(v, data).error.None? && Step(v, data).n > 0
    ensures var s := Step(v, data); var rest := Feed(s.request, data[s.n..]);
      Feed(v, data) == if rest.error.Some? then rest else Outcome(rest.request, s.n + rest.n, None)
  {
  }

  // ---------------------------------------------------------------------------
  // Proof helpers: sequence algebra and congruence steps the solver does not
  // find by itself. They state nothing about the parser.

  lemma AppendAssoc(x: Bytes, y: Bytes, z: Bytes)
    ensures (x + y) + z == x + (y + z)
  {
  }

  lemma DropAppend(a: Bytes, b: Bytes, k: nat)
    requires k <= |a|
    ensures (a + b)[k..] == a[k..] + b
  {
  }

  lemma TailAppend(a: Bytes, b: Bytes, i: nat, j: nat, k: nat)
    requires i + j == k <= |a|
    ensures a[i..][j..] + b == a[k..] + b
  {
    DropDrop(a, i, j);
  }

  lemma FeedCongruent(v: RequestValue, d: Bytes, w: RequestValue, e: Bytes)
    requires v == w && d == e
    ensures Feed(v, d) == Feed(w, e)
  {
  }

  lemma StepCongruent(v: RequestValue, d: Bytes, w: RequestValue, e: Bytes)
    requires v == w && d == e
    ensures Step(v, d) == Step(w, e)
  {
  }

  lemma DropDrop(s: Bytes, i: nat, j: nat)
    requires i + j <= |s|
    ensures s[i..][j..] == s[i + j..]
  {
  }

  // ---------------------------------------------------------------------------
  // The request object

  /** What a whole `parse` call reports, once `total` bytes were consumed before it. */
  function Shift(o: Outcome, total: nat): (r: Outcome)
    ensures r.request == o.request && r.error == o.error
    ensures r.error.None? ==> r.n == o.n + total
  {
    if o.error.Some? then o else Outcome(o.request, o.n + total, None)
  }

  lemma ShiftZero(v: RequestValue, data: Bytes)
    ensures Shift(Feed(v, data[0..]), 0) == Feed(v, data)
  {
    assert data[0..] == data;
  }

  /** One round of the `parse` loop, in terms of what the step returned. */
  lemma ParseStep(v: RequestValue, rest: Bytes, s: Outcome, total: nat)
    requires v.state != ParserDone && s == Step(v, rest)
    ensures s.error.Some? ==> Shift(Feed(v, rest), total) == Outcome(s.request, 0, s.error)
    ensures s.error.None? && s.n == 0 ==> Shift(Feed(v, rest), total) == Outcome(s.request, total, None)
    ensures s.error.None? && s.n > 0 ==>
      Shift(Feed(v, rest), total) == Shift(Feed(s.request, rest[s.n..]), total + s.n)
  {
    if s.error.None? && s.n > 0 {
      FeedUnfold(v, rest);
    }
  }

  /** `Request`: a request being parsed, updated in place by `parseSingle` and `parse`. */
  class Request {
    var requestLine: RequestLine
    const headers: Headers.Headers
    var body: Bytes
    var state: ParserState

    /** The request's contents as a value. */
    function Value(): RequestValue
      reads this, headers
    {
      RequestValue(requestLine, headers.fields, body, state)
    }

    /** The request `RequestFromReader` starts from: empty headers and body, nothing parsed. */
    constructor ()
      ensures Value() == Initial()
      ensures fresh(headers)
    {
      requestLine := RequestLine([], [], []);
      headers := new Headers.Headers();
      body := [];
      state := ParserInitialized;
    }

    /** `parseSingle`: one step of the state machine on `data`. */
    method ParseSingle(data: Bytes) returns (n: nat, err: Option<Error>)
      modifies this, headers
      ensures Outcome(Value(), n, err) == Step(old(Value()), data)
    {
      match state
      case ParserInitialized =>
        match ParseRequestLine(data) {
          case LineIncomplete =>
            return 0, None;
          case LineFailed(e) =>
            return 0, Some(e);
          case LineParsed(k, line) =>
            requestLine := line;
            state := ParserHeaders;
            return k, None;
        }
      case ParserHeaders =>
        var k, done, e := headers.Parse(data);
        if e.Some? {
          return 0, Some(BadHeader(e.value));
        }
        if done {
          state := ParserBody;
        }
        return k, None;
      case ParserBody =>
        var lengthStr := Headers.Get(headers.fields, ContentLength);
        if lengthStr.None? {
          state := ParserDone;
          return 0, None;
        }
        body := body + data;
        var length := Atoi(lengthStr.value);
        if length.None? {
          return 0, Some(InvalidContentLength);
        }
        if |body| > length.value {
          return 0, Some(BodyTooLarge);
        }
        if |body| == length.value {
          state := ParserDone;
        }
        return |data|, None;
      case ParserDone =>
        return 0, Some(ReadInDoneState);
    }

    /**
      `parse`: step until the request is done, a step fails or a step
      consumes nothing; report the bytes consumed, or 0 with the error.
    */
    method Parse(data: Bytes) returns (n: nat, err: Option<Error>)
      modifies this, headers
      ensures Outcome(Value(), n, err) == Feed(old(Value()), data)
    {
      var total := 0;
      ShiftZero(Value(), data);
      while state != ParserDone
        invariant total <= |data|
        invariant Feed(old(Value()), data) == Shift(Feed(Value(), data[total..]), total)
        decreases |data| - total
      {
        ghost var before := Value();
        ghost var rest := data[total..];
        var k, e := ParseSingle(data[total..]);
        ghost var after := Value();
        ParseStep(before, rest, Outcome(after, k, e), total);
        if e.Some? {
          return 0, e;
        }
        if k == 0 {
          break;
        }
        var next := total + k;
        DropDrop(data, total, k);
        assert rest[k..] == data[next..];
        assert Feed(old(Value()), data) == Shift(Feed(after, data[next..]), next);
        total := next;
      }
      return total, None;
    }
  }

  // ---------------------------------------------------------------------------
  // Reading a request from a stream

  /** The size of the buffer `RequestFromReader` starts with. */
  const BufferSize: nat := 8

  /** The sizes the buffer can reach: `BufferSize` doubled any number of times. */
  predicate IsBufferSize(n: nat)
    decreases n
  {
    n == BufferSize || (n > BufferSize && n % 2 == 0 && IsBufferSize(n / 2))
  }

  /** What a read can report instead of bytes. */
  datatype ReadError = EndOfStream | ReadFailure

  /**
    A byte stream (`io.Reader` in the source). `pending` holds the bytes not
    yet delivered. A read either fails, or delivers between one byte and as
    many as fit in the space offered, or, once nothing is pending, reports the
    end of the stream. How many bytes a read delivers, and whether it fails,
    is up to the stream.
  */
  class Reader {
    var pending: Bytes

    method Read(buf: array<Byte>, from: nat) returns (n: nat, err: Option<ReadError>)
      requires from < buf.Length
      modifies this, buf
      ensures buf[..from] == old(buf[..from])
      ensures err.None? ==>
        && 1 <= n <= buf.Length - from && n <= |old(pending)|
        && buf[from..from + n] == old(pending)[..n]
        && pending == old(pending)[n..]
      ensures err.Some? ==> n == 0 && pending == old(pending)
      ensures err == Some(EndOfStream) <==> old(pending) == [] && err != Some(ReadFailure)
    {
      var fails: bool := *;
      if fails {
        return 0, Some(ReadFailure);
      }
      if pending == [] {
        return 0, Some(EndOfStream);
      }
      var size: nat :| 1 <= size <= |pending| && size <= buf.Length - from;
      forall i | 0 <= i < size {
        buf[from + i] := pending[i];
      }
      n, err := size, None;
      pending := pending[size..];
    }
  }

  /** Parsing the first `read` bytes of a stream, then `read2 - read` more through the same request. */
  lemma FeedMore(src: Bytes, pos: nat, read: nat, read2: nat, v: RequestValue, data: Bytes)
    requires pos <= read <= read2 <= |src| && data == src[pos..read2]
    requires Feed(Initial(), src[..read]) == Outcome(v, pos, None) && v.state != ParserDone
    ensures var r := Feed(v, data);
      Feed(Initial(), src[..read2]) == Outcome(r.request, if r.error.None? then pos + r.n else 0, r.error)
  {
    var a := src[..read];
    var b := src[read..read2];
    var r1 := Feed(Initial(), a);
    FeedSplit(Initial(), a, b);
    SliceAppend(src, pos, read, read2);
    var r2 := Feed(v, src[pos..read2]);
    FeedCongruent(r1.request, a[r1.n..] + b, v, src[pos..read2]);
    FeedCongruent(Initial(), a + b, Initial(), src[..read2]);
  }

  lemma SliceAppend(s: Bytes, i: nat, j: nat, k: nat)
    requires i <= j <= k <= |s|
    ensures s[..j][i..] + s[j..k] == s[i..k]
    ensures s[..j] + s[j..k] == s[..k]
  {
  }

  /** The buffer after a read holds the unconsumed bytes followed by the new ones. */
  lemma Filled(b: Bytes, src: Bytes, pos: nat, read: nat, k: nat)
    requires pos <= read && read + k <= |src| && read - pos + k <= |b|
    requires b[..read - pos] == src[pos..read]
    requires b[read - pos..read - pos + k] == src[read..][..k]
    ensures b[..read - pos + k] == src[pos..read + k]
  {
    assert b[..read - pos + k] == b[..read - pos] + b[read - pos..read - pos + k];
    assert src[pos..read + k] == src[pos..read] + src[read..][..k];
  }

  /** What the stream still holds tells how much of it was read. */
  lemma Consumed(src: Bytes, read: nat, pending: Bytes)
    requires read <= |src| && pending == src[read..]
    ensures src == src[..read] + pending
  {
  }

  /** A doubled buffer size is a buffer size. */
  lemma {:induction false} Doubled(n: nat)
    requires IsBufferSize(n)
    ensures IsBufferSize(n * 2)
  {
    assert (n * 2) / 2 == n;
  }

  /** `make` and `copy` when the buffer is full: a buffer twice as large that starts with the old one. */
  method Grow(buf: array<Byte>) returns (bigger: array<Byte>)
    ensures fresh(bigger) && bigger.Length == buf.Length * 2
    ensures bigger[..buf.Length] == buf[..]
  {
    bigger := new Byte[buf.Length * 2](i => '\0');
    forall i | 0 <= i < buf.Length {
      bigger[i] := buf[i];
    }
  }

  /** `copy(buf, buf[k:])`: move everything after the first `k` bytes to the front. */
  method ShiftDown(buf: array<Byte>, k: nat)
    requires k <= buf.Length
    modifies buf
    ensures buf[..buf.Length - k] == old(buf[k..])
    ensures buf[buf.Length - k..] == old(buf[buf.Length - k..])
  {
    forall i | 0 <= i < buf.Length - k {
      buf[i] := buf[i + k];
    }
  }

  /** After the shift, the bytes not yet consumed are at the front of the buffer. */
  lemma Compacted(b: Bytes, old_b: Bytes, src: Bytes, pos: nat, read: nat, parsed: nat)
    requires pos + parsed <= read <= |src| && read - pos <= |old_b| && |b| == |old_b|
    requires old_b[..read - pos] == src[pos..read]
    requires b[..|b| - parsed] == old_b[parsed..]
    ensures b[..read - pos - parsed] == src[pos + parsed..read]
  {
    assert b[..read - pos - parsed] == b[..|b| - parsed][..read - pos - parsed];
    assert old_b[parsed..][..read - pos - parsed] == old_b[..read - pos][parsed..];
  }

  /**
    One read of the `RequestFromReader` loop: the buffer is doubled first
    when it is full, then the stream fills part of the free space after the
    `readToIndex` bytes in use, and `filled` is the new end of the bytes in
    use. The contract follows the bytes through a ghost account of the
    stream: `src` is all of it, of which `read` bytes were read before the
    call (`read2` after it) and `pos` consumed by the parser.
  */
  method ReadMore(reader: Reader, buf: array<Byte>, readToIndex: nat,
                  ghost src: Bytes, ghost pos: nat, ghost read: nat)
    returns (next: array<Byte>, filled: nat, readErr: Option<ReadError>, ghost read2: nat)
    requires IsBufferSize(buf.Length) && readToIndex <= buf.Length
    requires pos <= read <= |src| && reader.pending == src[read..] && readToIndex == read - pos
    requires buf[..readToIndex] == src[pos..read]
    modifies reader, buf
    ensures IsBufferSize(next.Length) && (next == buf || fresh(next))
    ensures readErr.Some? ==> reader.pending == src[read..]
    ensures readErr == Some(EndOfStream) ==> reader.pending == []
    ensures readErr.None? ==>
      && read < read2 <= |src| && reader.pending == src[read2..]
      && readToIndex < filled == read2 - pos <= next.Length && next[..filled] == src[pos..read2]
  {
    next := buf;
    if readToIndex >= buf.Length {
      Doubled(buf.Length);
      next := Grow(buf);
    }
    var numBytesRead;
    numBytesRead, readErr := reader.Read(next, readToIndex);
    read2 := read + numBytesRead;
    filled := readToIndex + numBytesRead;
    if readErr.None? {
      Filled(next[..], src, pos, read, numBytesRead);
      DropDrop(src, read, numBytesRead);
    }
  }

  /**
    The shift after a parse: the `parsed` bytes consumed leave the buffer,
    the rest move to its front, and `left` is the new end of the bytes in use.
  */
  method Compact(buf: array<Byte>, readToIndex: nat, parsed: nat,
                 ghost src: Bytes, ghost pos: nat, ghost pos2: nat, ghost read: nat)
    returns (left: nat)
    requires pos2 == pos + parsed <= read <= |src| && readToIndex == read - pos <= buf.Length
    requires buf[..readToIndex] == src[pos..read]
    modifies buf
    ensures left == read - pos2 && buf[..left] == src[pos2..read]
  {
    ghost var before := buf[..];
    ShiftDown(buf, parsed);
    Compacted(buf[..], before, src, pos, read, parsed);
    left := readToIndex - parsed;
  }

  /**
    `RequestFromReader`: read the stream into a buffer that starts at
    `BufferSize` bytes and doubles whenever it is full, parse what the buffer
    holds after every read, and shift the unconsumed bytes to its front, until
    the request is done. `got` below is what was read from the stream.
  */
  method RequestFromReader(reader: Reader) returns (req: Request?, err: Option<Error>, ghost got: Bytes)
    modifies reader
    ensures old(reader.pending) == got + reader.pending
    ensures req != null <==> err.None?
    ensures req != null ==> fresh(req)
    ensures err.None? ==> Feed(Initial(), got).error.None? && req.Value() == Feed(Initial(), got).request
    ensures err.None? ==> req.state == ParserDone
    ensures Feed(Initial(), got).error.Some? ==> err == Feed(Initial(), got).error
    ensures err.Some? && Feed(Initial(), got).error.None? ==>
      Feed(Initial(), got).request.state != ParserDone && (err == Some(IncompleteRequest) || err == Some(ReadFailed))
    ensures err == Some(IncompleteRequest) ==> reader.pending == []
  {
    ghost var src := reader.pending;
    ghost var read: nat := 0;
    ghost var pos: nat := 0;
    var buf := new Byte[BufferSize](i => '\0');
    var readToIndex: nat := 0;
    var request := new Request();
    assert src[..0] == [];
    while request.state != ParserDone
      invariant fresh(request) && fresh(request.headers) && fresh(buf)
      invariant IsBufferSize(buf.Length) && readToIndex <= buf.Length
      invariant pos <= read <= |src| && reader.pending == src[read..]
      invariant readToIndex == read - pos
      invariant buf[..readToIndex] == src[pos..read]
      invariant Feed(Initial(), src[..read]) == Outcome(request.Value(), pos, None)
      decreases |reader.pending|
    {
      var filled, readErr;
      ghost var read2;
      buf, filled, readErr, read2 := ReadMore(reader, buf, readToIndex, src, pos, read);
      if readErr.Some? {
        Consumed(src, read, reader.pending);
        // The loop runs only while the request is not done.
        if readErr.value == EndOfStream {
          return null, Some(IncompleteRequest), src[..read];
        }
        return null, Some(ReadFailed), src[..read];
      }
      var data := buf[..filled];
      ghost var v := request.Value();
      FeedMore(src, pos, read, read2, v, data);
      var parsed, parseErr := request.Parse(data);
      if parseErr.Some? {
        Consumed(src, read2, reader.pending);
        return null, parseErr, src[..read2];
      }
      ghost var pos2 := pos + parsed;
      readToIndex := Compact(buf, filled, parsed, src, pos, pos2, read2);
      read, pos := read2, pos2;
    }
    Consumed(src, read, reader.pending);
    return request, None, src[..read];
  }
}
