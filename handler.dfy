/** `ClientHandler` (RunnerServer.java:75-188): one connection, from the
    request line to the log line. `run` reads the request line, answers 400
    to a line with fewer than three fields, folds the headers into a map,
    and dispatches on the method: `handleGet` serves files below `www`,
    `handlePost` answers with a page around the escaped body, anything else
    gets 405. The directory tree is a parameter (what `Files.exists`,
    `isDirectory`, `probeContentType` and `readAllBytes` see), and so are
    the two clock readings. */
module Handler {
  import opened Wrappers
  import opened Text
  import opened Utf8
  import opened JavaPaths
  import opened Html
  import opened Wire
  import opened Request

  // ---------------------------------------------------------------------
  // The world outside

  /** An entry of the directory tree: a regular file with its bytes and
      what `Files.probeContentType` says about it, or a directory. */
  datatype Node = Regular(data: seq<byte>, probedType: Option<string>) | Directory

  /** The tree, keyed by the normalized relative path (`www/...`). */
  type FileSystem = map<Path, Node>

  // ---------------------------------------------------------------------
  // Responses

  /** A response body as the handler has it: the bytes `readAllBytes`
      returned, or a page that is sent as its UTF-8 encoding. */
  datatype Payload = Raw(data: seq<byte>) | Page(text: string)

  function PayloadBytes(p: Payload): seq<byte>
  {
    match p
    case Raw(data) => data
    case Page(text) => Encode(text)
  }

  /** What the handler writes: `writeStatusOnly(code, phrase)`,
      `respondSimple(code, phrase, message)` or
      `writeResponse(code, phrase, contentType, body)`. */
  datatype Response =
    | StatusOnly(code: int, phrase: string)
    | Simple(code: int, phrase: string, message: string)
    | Full(code: int, phrase: string, contentType: string, body: Payload)

  /** The bytes on the socket; `date` is the `Date` header's text. */
  function Bytes(r: Response, date: string): seq<byte>
  {
    match r
    case StatusOnly(code, phrase) => WriteStatusOnly(code, phrase)
    case Simple(code, phrase, message) => RespondSimple(code, phrase, message, date)
    case Full(code, phrase, contentType, body) => WriteResponse(code, phrase, date, contentType, PayloadBytes(body))
  }

  /** The body bytes a response carries. */
  function SentBody(r: Response): seq<byte>
  {
    match r
    case StatusOnly(_, _) => []
    case Simple(code, phrase, message) => Encode(SimplePage(code, phrase, message))
    case Full(_, _, _, body) => PayloadBytes(body)
  }

  /** A response the writers can frame: the header fields hold no
      carriage return and the body fits an `int` length. */
  predicate Fits(r: Response)
  {
    && IntMin <= r.code <= IntMax && '\r' !in r.phrase && |SentBody(r)| <= IntMax
    && (r.Full? ==> '\r' !in r.contentType)
  }

  /** A client reading the bytes back gets the status code and exactly
      the body (nothing for a status-only response). */
  lemma ResponseFraming(r: Response, date: string)
    requires Fits(r) && '\r' !in date
    ensures ReceivedStatus(Bytes(r, date)) == Some(r.code)
    ensures ReceivedBody(Bytes(r, date)) == Some(SentBody(r))
  {
    match r
    case StatusOnly(code, phrase) =>
      StatusOnlyFraming(code, phrase);
    case Simple(code, phrase, message) =>
      SimpleFraming(code, phrase, message, date);
    case Full(code, phrase, contentType, body) =>
      WriteResponseFraming(code, phrase, date, contentType, PayloadBytes(body));
  }

  lemma SimpleFraming(code: int, phrase: string, message: string, date: string)
    requires IntMin <= code <= IntMax && '\r' !in phrase && '\r' !in date
    requires |Encode(SimplePage(code, phrase, message))| <= IntMax
    ensures ReceivedStatus(RespondSimple(code, phrase, message, date)) == Some(code)
    ensures ReceivedBody(RespondSimple(code, phrase, message, date)) == Some(Encode(SimplePage(code, phrase, message)))
  {
    WriteResponseFraming(code, phrase, date, HtmlType, Encode(SimplePage(code, phrase, message)));
  }

  /** The answer to a malformed request line. */
  const BadRequest: Response := Simple(400, "Bad Request", "Malformed request line")

  const NotFoundPage: string := "<html><body><h2>404 Not Found</h2><p>Resource not found.</p></body></html>"

  const NotFound: Response := Full(404, "Not Found", HtmlType, Page(NotFoundPage))

  // ---------------------------------------------------------------------
  // handleGet

  /** `guessContentType`: the probed type, or `application/octet-stream`
      when there is none. */
  function ContentTypeOf(probed: Option<string>): string
  {
    match probed
    case Some(t) => t
    case None => "application/octet-stream"
  }

  /** `handleGet`. None is a runtime exception escaping `run` (only
      IOException is caught there): the `split` that yields no element,
      `substring(1)` on an empty path, a NUL character in the path. */
  function HandleGet(rawPath: string, fs: FileSystem): Option<Response>
  {
    match StripQuery(rawPath)
    case None => None
    case Some(stripped) =>
      var path := DefaultDocument(stripped);
      if path == "" then None
      else match SandboxPath(path)
        case None => None
        case Some(Forbidden) => Some(StatusOnly(403, "Forbidden"))
        case Some(Inside(file)) =>
          if file in fs && fs[file].Regular? then
            Some(Full(200, "OK", ContentTypeOf(fs[file].probedType), Raw(fs[file].data)))
          else
            Some(NotFound)
  }

  /** The path handleGet looks at: the text before the first `?`,
      `/` standing for `/index.html`. */
  function RequestedPath(rawPath: string): string
  {
    DefaultDocument(TakeUntil(rawPath, '?'))
  }

  lemma StripQueryOf(rawPath: string)
    ensures StripQuery(rawPath).None? ==> TakeUntil(rawPath, '?') == ""
    ensures StripQuery(rawPath).Some? ==> DefaultDocument(StripQuery(rawPath).value) == RequestedPath(rawPath)
  {
    StripQueryPrefix(rawPath);
    JavaSplitFirst(rawPath, '?');
  }

  /** handleGet throws exactly when the requested path is empty or holds
      a NUL after its first character. */
  lemma GetCrashes(rawPath: string, fs: FileSystem)
    ensures var p := RequestedPath(rawPath);
      HandleGet(rawPath, fs).None? <==> p == "" || '\0' in p[1..]
  {
    StripQueryOf(rawPath);
  }

  /** handleGet sees the raw path only through RequestedPath. */
  lemma GetByRequestedPath(raw1: string, raw2: string, fs: FileSystem)
    requires RequestedPath(raw1) == RequestedPath(raw2)
    ensures HandleGet(raw1, fs) == HandleGet(raw2, fs)
  {
    StripQueryOf(raw1);
    StripQueryOf(raw2);
  }

  /** The query string plays no part: a path with `?...` behaves as the
      text before its `?`. */
  lemma GetIgnoresQuery(rawPath: string, fs: FileSystem)
    ensures HandleGet(rawPath, fs) == HandleGet(TakeUntil(rawPath, '?'), fs)
  {
    TakeUntilNone(TakeUntil(rawPath, '?'), '?');
    GetByRequestedPath(rawPath, TakeUntil(rawPath, '?'), fs);
  }

  /** The query is stripped before `/` becomes `/index.html`: `/?x`, `/`
      and `/index.html` are answered alike. */
  lemma GetRootIsIndex(fs: FileSystem)
    ensures HandleGet("/?x", fs) == HandleGet("/", fs)
    ensures HandleGet("/", fs) == HandleGet("/index.html", fs)
  {
    TakeUntilFirst("/", "x", '?');
    assert "/?x" == "/" + ['?'] + "x";
    TakeUntilNone("/", '?');
    TakeUntilNone("/index.html", '?');
    GetByRequestedPath("/?x", "/", fs);
    GetByRequestedPath("/", "/index.html", fs);
  }

  /** The file a well-formed request resolves to. */
  function TargetOf(path: string): Path
    requires path != "" && '\0' !in path[1..]
  {
    Target(ParsePath(path[1..]).value)
  }

  /** 403 is answered exactly when the resolved file is not Confined to
      `www`; otherwise the file is served when it is a regular file of the
      tree, and 404 is answered when it is missing or a directory. */
  lemma GetDecision(rawPath: string, fs: FileSystem)
    requires var p := RequestedPath(rawPath); p != "" && '\0' !in p[1..]
    ensures var f := TargetOf(RequestedPath(rawPath));
      HandleGet(rawPath, fs) == Some(
        if !Confined(f) then StatusOnly(403, "Forbidden")
        else if f in fs && fs[f].Regular? then Full(200, "OK", ContentTypeOf(fs[f].probedType), Raw(fs[f].data))
        else NotFound)
  {
    StripQueryOf(rawPath);
    SandboxConfined(RequestedPath(rawPath));
  }

  /** Only files Confined to `www` are ever sent, and they are sent whole. */
  lemma GetServesConfinedFiles(rawPath: string, fs: FileSystem)
    requires HandleGet(rawPath, fs).Some? && HandleGet(rawPath, fs).value.code == 200
    ensures exists f :: f in fs && Confined(f) && fs[f].Regular? && SentBody(HandleGet(rawPath, fs).value) == fs[f].data
  {
    GetCrashes(rawPath, fs);
    GetDecision(rawPath, fs);
  }

  /** Reading the answer to a GET of a regular file gives its bytes. */
  lemma GetRegularFileBody(rawPath: string, fs: FileSystem, date: string)
    requires var p := RequestedPath(rawPath); p != "" && '\0' !in p[1..]
    requires var f := TargetOf(RequestedPath(rawPath));
      Confined(f) && f in fs && fs[f].Regular?
    requires var f := TargetOf(RequestedPath(rawPath));
      |fs[f].data| <= IntMax && '\r' !in ContentTypeOf(fs[f].probedType)
    requires '\r' !in date
    ensures var f := TargetOf(RequestedPath(rawPath));
      && HandleGet(rawPath, fs).Some?
      && ReceivedStatus(Bytes(HandleGet(rawPath, fs).value, date)) == Some(200)
      && ReceivedBody(Bytes(HandleGet(rawPath, fs).value, date)) == Some(fs[f].data)
  {
    GetDecision(rawPath, fs);
    ResponseFraming(HandleGet(rawPath, fs).value, date);
  }

  /** The client of a GET for a regular file reads as its `Content-Type`
      what `guessContentType` chose: the probed type, or
      `application/octet-stream` when the probe has none. */
  lemma GetFileType(rawPath: string, fs: FileSystem, date: string)
    requires var p := RequestedPath(rawPath); p != "" && '\0' !in p[1..]
    requires var f := TargetOf(RequestedPath(rawPath));
      Confined(f) && f in fs && fs[f].Regular?
    requires var f := TargetOf(RequestedPath(rawPath));
      |fs[f].data| <= IntMax && '\r' !in ContentTypeOf(fs[f].probedType)
    requires '\r' !in date
    ensures var f := TargetOf(RequestedPath(rawPath));
      && HandleGet(rawPath, fs).Some?
      && ReceivedType(Bytes(HandleGet(rawPath, fs).value, date))
         == Some(Latin1(Encode(ContentTypeOf(fs[f].probedType))))
  {
    var f := TargetOf(RequestedPath(rawPath));
    GetDecision(rawPath, fs);
    WriteResponseType(200, "OK", date, ContentTypeOf(fs[f].probedType), fs[f].data);
  }

  /** An absolute override (a second `/` right after the first) is
      refused, wherever it points. */
  lemma GetAbsoluteForbidden(rawPath: string, fs: FileSystem)
    requires var p := RequestedPath(rawPath); |p| > 1 && p[1] == '/' && '\0' !in p[1..]
    ensures HandleGet(rawPath, fs) == Some(StatusOnly(403, "Forbidden"))
  {
    StripQueryOf(rawPath);
    SandboxAbsoluteForbidden(RequestedPath(rawPath));
  }

  lemma EtcPasswdPath()
    ensures RequestedPath("//etc/passwd") == "//etc/passwd"
  {
    TakeUntilNone("//etc/passwd", '?');
  }

  lemma EtcPasswdForbidden(fs: FileSystem)
    ensures HandleGet("//etc/passwd", fs) == Some(StatusOnly(403, "Forbidden"))
  {
    var p := "//etc/passwd";
    EtcPasswdPath();
    assert |p| > 1 && p[1] == '/' && '\0' !in p[1..];
    GetAbsoluteForbidden(p, fs);
  }

  /** A path that first climbs out of `www` with `..` and then never climbs
      again is refused unless what follows, without its `.` names, starts
      with `www` again. */
  lemma GetClimbOutForbidden(rawPath: string, fs: FileSystem, rest: seq<string>)
    requires var p := RequestedPath(rawPath); p != "" && '\0' !in p[1..]
    requires ParsePath(RequestedPath(rawPath)[1..]) == Some(Path(false, [".."] + rest))
    requires forall i :: 0 <= i < |rest| ==> rest[i] != ".."
    requires WithoutDots(rest) == [] || WithoutDots(rest)[0] != "www"
    ensures HandleGet(rawPath, fs) == Some(StatusOnly(403, "Forbidden"))
  {
    var p := RequestedPath(rawPath);
    assert ([".."] + rest)[1..] == rest;
    SandboxClimbOut(p);
    NormalizeFromNoClimb(false, [], rest);
    assert [] + WithoutDots(rest) == WithoutDots(rest);
    GetDecision(rawPath, fs);
  }

  /** `/..` names the parent of `www` and is refused. */
  lemma ParentForbidden(fs: FileSystem)
    ensures HandleGet("/..", fs) == Some(StatusOnly(403, "Forbidden"))
  {
    TakeUntilNone("/..", '?');
    assert "/.."[1..] == "..";
    ParseName("..");
    assert [".."] + [] == [".."];
    GetClimbOutForbidden("/..", fs, []);
  }

  lemma SiblingPath()
    ensures ParsePath("../wwwx/a") == Some(Path(false, [".."] + ["wwwx", "a"]))
  {
    assert "../wwwx/a" == ".." + "/" + "wwwx" + "/" + "a";
    ParseThreeNames("..", "wwwx", "a");
    assert [".."] + ["wwwx", "a"] == ["..", "wwwx", "a"];
  }

  lemma SiblingRest()
    ensures WithoutDots(["wwwx", "a"]) == ["wwwx", "a"]
    ensures forall i :: 0 <= i < 2 ==> ["wwwx", "a"][i] != ".."
  {
  }

  /** `/../wwwx/a` resolves to `wwwx/a`, a sibling whose name merely
      begins with `www`: `startsWith` compares names, not characters, so
      it is refused. */
  lemma SiblingForbidden(fs: FileSystem)
    ensures HandleGet("/../wwwx/a", fs) == Some(StatusOnly(403, "Forbidden"))
  {
    TakeUntilNone("/../wwwx/a", '?');
    assert "/../wwwx/a"[1..] == "../wwwx/a";
    SiblingPath();
    SiblingRest();
    GetClimbOutForbidden("/../wwwx/a", fs, ["wwwx", "a"]);
  }

  /** `/.` normalizes to `www` itself, which passes the check (`www`
      starts with `www`); it is a directory, so the answer is 404. */
  lemma DotIsRoot(fs: FileSystem)
    requires Www !in fs || fs[Www].Directory?
    ensures HandleGet("/.", fs) == Some(NotFound)
  {
    TakeUntilNone("/.", '?');
    assert "/."[1..] == ".";
    ParseName(".");
    SandboxNoClimb("/.");
    assert WithoutDots(["."]) == [];
    assert ["www"] + [] == ["www"];
    StripQueryOf("/.");
  }

  // ---------------------------------------------------------------------
  // handlePost

  const EchoOpen: string := "<html><body><h2>POST Echo</h2><pre>"
  const EchoClose: string := "</pre><p><a href=\"/\">Back</a></p></body></html>"
  const ReceivedOpen: string := "<html><body><h2>Received POST</h2><pre>"
  const ReceivedClose: string := "</pre></body></html>"

  /** Whether `rawPath` is the echo endpoint (`equalsIgnoreCase("/echo")`). */
  predicate IsEcho(rawPath: string)
  {
    EqualsIgnoreCase(rawPath, "/echo")
  }

  /** The page `handlePost` builds around the escaped body. */
  function PostPage(rawPath: string, body: string): string
  {
    if IsEcho(rawPath) then EchoOpen + EscapeHtml(body) + EchoClose
    else ReceivedOpen + EscapeHtml(body) + ReceivedClose
  }

  /** `handlePost`: always 200 with an HTML page. */
  function HandlePost(rawPath: string, body: string): (r: Response)
    ensures r.code == 200 && r.Full? && r.contentType == HtmlType
  {
    Full(200, "OK", HtmlType, Page(PostPage(rawPath, body)))
  }

  /** The part of a POST page between its fixed opening and closing. */
  function PostMiddle(rawPath: string, page: string): string
  {
    var open := if IsEcho(rawPath) then EchoOpen else ReceivedOpen;
    var close := if IsEcho(rawPath) then EchoClose else ReceivedClose;
    if |open| + |close| <= |page| then page[|open|..|page| - |close|] else ""
  }

  lemma MiddleOf(a: string, m: string, b: string)
    ensures (a + m + b)[|a|..|a + m + b| - |b|] == m
  {
  }

  /** The body embedded in the page is escaped text (no `<` or `>`, each
      `&` an entity) and unescaping it gives back the request body. */
  lemma PostPageRoundTrip(rawPath: string, body: string)
    ensures SafeText(PostMiddle(rawPath, PostPage(rawPath, body)))
    ensures UnescapeHtml(PostMiddle(rawPath, PostPage(rawPath, body))) == body
  {
    var open := if IsEcho(rawPath) then EchoOpen else ReceivedOpen;
    var close := if IsEcho(rawPath) then EchoClose else ReceivedClose;
    MiddleOf(open, EscapeHtml(body), close);
    EscapeHtmlSafe(body);
    UnescapeEscape(body);
  }

  /** Different bodies give different pages. */
  lemma PostPageInjective(rawPath: string, b1: string, b2: string)
    requires PostPage(rawPath, b1) == PostPage(rawPath, b2)
    ensures b1 == b2
  {
    PostPageRoundTrip(rawPath, b1);
    PostPageRoundTrip(rawPath, b2);
  }

  /** The echo page is chosen exactly for `/echo` in any case: the two
      pages already differ in their heading. */
  lemma EchoIff(rawPath: string, body: string)
    ensures PostPage(rawPath, body) == EchoOpen + EscapeHtml(body) + EchoClose <==> IsEcho(rawPath)
  {
    if !IsEcho(rawPath) {
      var page := ReceivedOpen + EscapeHtml(body) + ReceivedClose;
      var echo := EchoOpen + EscapeHtml(body) + EchoClose;
      assert page[16] == ReceivedOpen[16] == 'R';
      assert echo[16] == EchoOpen[16] == 'P';
    }
  }

  // ---------------------------------------------------------------------
  // run

  /** How a connection ends: closed without an answer, ended by an
      uncaught runtime exception (nothing written, nothing logged), or
      answered with `response` and logged with `log`. */
  datatype Outcome = Closed | Crashed | Served(response: Response, log: string)

  /** The dispatch on the method, given the request's remaining text after
      the headers: the response (None for an exception) and the text left
      unread. Only POST reads the body. */
  function Dispatch(verb: string, rawPath: string, headers: map<string, string>,
                    afterHeaders: string, fs: FileSystem): (Option<Response>, string)
  {
    if EqualsIgnoreCase("GET", verb) then (HandleGet(rawPath, fs), afterHeaders)
    else if EqualsIgnoreCase("POST", verb) then
      var n := ContentLength(headers);
      if n < 0 then (None, afterHeaders)
      else (Some(HandlePost(rawPath, BodyOf(afterHeaders, n))), afterHeaders[Consumed(afterHeaders, n)..])
    else (Some(StatusOnly(405, "Method Not Allowed")), afterHeaders)
  }

  /** One connection as a function of the text the client sends, its
      address, the tree and the log's timestamp: the outcome and the text
      left unread. */
  function Exchange(input: string, ip: string, fs: FileSystem, ts: string): (Outcome, string)
  {
    match NextLine(input)
    case None => (Closed, input)
    case Some((requestLine, afterLine)) =>
      if requestLine == "" then (Closed, afterLine)
      else
        var parts := JavaSplit(requestLine, ' ');
        if |parts| < 3 then (Served(BadRequest, LogLine(ts, ip, "-", "-", 400)), afterLine)
        else
          var block := HeaderLines(afterLine);
          var d := Dispatch(parts[0], parts[1], HeaderFold(block.0), block.1, fs);
          match d.0
          case None => (Crashed, d.1)
          case Some(r) => (Served(r, LogLine(ts, ip, parts[0], parts[1], r.code)), d.1)
  }

  /** `ClientHandler.run` on one connection. */
  method Serve(reader: Reader, ip: string, fs: FileSystem, ts: string) returns (outcome: Outcome)
    modifies reader
    ensures (outcome, reader.rest) == Exchange(old(reader.rest), ip, fs, ts)
  {
    var requestLine := reader.ReadLine();
    if requestLine.None? || requestLine.value == "" {
      return Closed;
    }
    var parts := JavaSplit(requestLine.value, ' ');
    if |parts| < 3 {
      return Served(BadRequest, LogLine(ts, ip, "-", "-", 400));
    }
    var verb, rawPath := parts[0], parts[1];
    var headers := ReadHeaders(reader);
    var response: Option<Response>;
    if EqualsIgnoreCase("GET", verb) {
      response := HandleGet(rawPath, fs);
    } else if EqualsIgnoreCase("POST", verb) {
      var contentLength := ContentLength(headers);
      if contentLength < 0 {
        return Crashed;
      }
      var body := ReadBody(reader, contentLength);
      response := Some(HandlePost(rawPath, body));
    } else {
      response := Some(StatusOnly(405, "Method Not Allowed"));
    }
    if response.None? {
      return Crashed;
    }
    outcome := Served(response.value, LogLine(ts, ip, verb, rawPath, response.value.code));
  }

  // ---------------------------------------------------------------------
  // What a connection does

  /** The connection is closed unanswered exactly when the first line is
      missing or empty. */
  lemma ClosedIff(input: string, ip: string, fs: FileSystem, ts: string)
    ensures Exchange(input, ip, fs, ts).0 == Closed
        <==> NextLine(input).None? || NextLine(input).value.0 == ""
  {
  }

  /** A request line with fewer than three fields gets the 400 page and
      is logged with `-` for method and path. */
  lemma MalformedIsBadRequest(input: string, ip: string, fs: FileSystem, ts: string)
    requires NextLine(input).Some? && NextLine(input).value.0 != ""
    requires |JavaSplit(NextLine(input).value.0, ' ')| < 3
    ensures Exchange(input, ip, fs, ts).0 == Served(BadRequest, LogLine(ts, ip, "-", "-", 400))
  {
  }

  /** The status of every answer is one of 200, 400, 403, 404, 405, and
      every answer can be framed when the files' types and sizes can. */
  lemma AnswerCodes(input: string, ip: string, fs: FileSystem, ts: string)
    requires Exchange(input, ip, fs, ts).0.Served?
    ensures Exchange(input, ip, fs, ts).0.response.code in {200, 400, 403, 404, 405}
  {
    var requestLine := NextLine(input).value.0;
    var parts := JavaSplit(requestLine, ' ');
    if |parts| >= 3 {
      var block := HeaderLines(NextLine(input).value.1);
      DispatchCodes(parts[0], parts[1], HeaderFold(block.0), block.1, fs);
    }
  }

  lemma GetCodes(rawPath: string, fs: FileSystem)
    ensures HandleGet(rawPath, fs).Some? ==> HandleGet(rawPath, fs).value.code in {200, 403, 404}
  {
  }

  lemma DispatchCodes(verb: string, rawPath: string, headers: map<string, string>,
                      afterHeaders: string, fs: FileSystem)
    ensures var d := Dispatch(verb, rawPath, headers, afterHeaders, fs);
      d.0.Some? ==> d.0.value.code in {200, 403, 404, 405}
  {
    GetCodes(rawPath, fs);
  }

  /** The log line records, as its last field, the status sent on the
      wire, and the request's method and path as one field each. */
  lemma LoggedStatusIsSent(input: string, ip: string, fs: FileSystem, ts: string, date: string)
    requires ' ' !in ip && '\r' !in date
    requires Exchange(input, ip, fs, ts).0.Served?
    requires Fits(Exchange(input, ip, fs, ts).0.response)
    ensures var o := Exchange(input, ip, fs, ts).0;
      var l := o.log;
      && |l| > 0 && l[|l| - 1] == '\n'
      && |Split(l[..|l| - 1], ' ')| == |Split(ts, ' ')| + 4
      && Split(l[..|l| - 1], ' ')[|Split(ts, ' ')| + 3] == IntToString(o.response.code)
      && ReceivedStatus(Bytes(o.response, date)) == Some(o.response.code)
  {
    var o := Exchange(input, ip, fs, ts).0;
    var parts := JavaSplit(NextLine(input).value.0, ' ');
    if |parts| < 3 {
      assert o == Served(BadRequest, LogLine(ts, ip, "-", "-", 400));
      LogAndWire(ts, ip, "-", "-", o.response, date);
    } else {
      LogRecordsRequest(input, ip, fs, ts);
      LogAndWire(ts, ip, parts[0], parts[1], o.response, date);
    }
  }

  /** The log line of a response and the bytes of that response agree on
      the status. */
  lemma LogAndWire(ts: string, ip: string, verb: string, path: string, r: Response, date: string)
    requires ' ' !in ip && ' ' !in verb && ' ' !in path
    requires Fits(r) && '\r' !in date
    ensures var l := LogLine(ts, ip, verb, path, r.code);
      && |l| > 0 && l[|l| - 1] == '\n'
      && |Split(l[..|l| - 1], ' ')| == |Split(ts, ' ')| + 4
      && Split(l[..|l| - 1], ' ')[|Split(ts, ' ')| + 3] == IntToString(r.code)
      && ReceivedStatus(Bytes(r, date)) == Some(r.code)
  {
    LogLineFields(ts, ip, verb, path, r.code);
    ResponseFraming(r, date);
  }

  /** With three or more fields, the log records the method and path
      exactly as sent. */
  lemma LogRecordsRequest(input: string, ip: string, fs: FileSystem, ts: string)
    requires NextLine(input).Some? && |JavaSplit(NextLine(input).value.0, ' ')| >= 3
    requires Exchange(input, ip, fs, ts).0.Served?
    ensures var parts := JavaSplit(NextLine(input).value.0, ' ');
      var o := Exchange(input, ip, fs, ts).0;
      o.log == LogLine(ts, ip, parts[0], parts[1], o.response.code)
  {
    assert NextLine(input).value.0 != "" by {
      JavaSplitFirst("", ' ');
      assert JavaSplit("", ' ') == [""];
    }
  }

  /** Only the first two fields matter: the version and any further
      fields are ignored. */
  lemma ExtraFieldsIgnored(line1: string, line2: string, rest: string, ip: string, fs: FileSystem, ts: string)
    requires line1 != "" && '\n' !in line1 && '\r' !in line1
    requires line2 != "" && '\n' !in line2 && '\r' !in line2
    requires var p1 := JavaSplit(line1, ' '); var p2 := JavaSplit(line2, ' ');
      |p1| >= 3 && |p2| >= 3 && p1[0] == p2[0] && p1[1] == p2[1]
    ensures Exchange(line1 + "\r\n" + rest, ip, fs, ts) == Exchange(line2 + "\r\n" + rest, ip, fs, ts)
  {
    LineThenRest(line1, rest);
    LineThenRest(line2, rest);
  }

  /** The method is matched without regard to case, and only POST takes
      anything from the stream past the headers: exactly the announced
      number of characters, or what there is. */
  lemma DispatchByMethod(verb: string, rawPath: string, headers: map<string, string>,
                         afterHeaders: string, fs: FileSystem)
    ensures var d := Dispatch(verb, rawPath, headers, afterHeaders, fs);
      && (ToLower(verb) == "get" ==> d == (HandleGet(rawPath, fs), afterHeaders))
      && (ToLower(verb) == "post" && ContentLength(headers) >= 0 ==>
            var n := ContentLength(headers);
            d == (Some(HandlePost(rawPath, BodyOf(afterHeaders, n))), afterHeaders[Consumed(afterHeaders, n)..]))
      && (ToLower(verb) != "get" && ToLower(verb) != "post" ==>
            d == (Some(StatusOnly(405, "Method Not Allowed")), afterHeaders))
  {
    EqualsIgnoreCaseLower("GET", verb);
    EqualsIgnoreCaseLower("POST", verb);
    assert ToLower("GET") == "get";
    assert ToLower("POST") == "post";
  }

  /** A POST whose announced length is negative ends in an exception
      (`new char[n]`), with nothing written and nothing logged. */
  lemma NegativeLengthCrashes(verb: string, rawPath: string, headers: map<string, string>,
                              afterHeaders: string, fs: FileSystem)
    requires ToLower(verb) == "post" && ContentLength(headers) < 0
    ensures Dispatch(verb, rawPath, headers, afterHeaders, fs).0.None?
  {
    EqualsIgnoreCaseLower("GET", verb);
    EqualsIgnoreCaseLower("POST", verb);
    assert ToLower("GET") == "get";
    assert ToLower("POST") == "post";
  }
}
