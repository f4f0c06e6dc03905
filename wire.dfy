/** What RunnerServer writes to a socket and to its log:
    `writeStatusOnly`, `respondSimple`, `writeResponse`
    (RunnerServer.java:204-221) and the line `logRequest` formats
    (RunnerServer.java:63-65). Beside them, a minimal client that reads a
    response back (status line, header lines up to the blank line, then
    `Content-Length` bytes) is the inverse the framing lemmas are stated
    against. The clock is a parameter: `date` is the RFC 1123 text of the
    `Date` header and `ts` the `yyyy-MM-dd HH:mm:ss` text of a log line. */
module Wire {
  import opened Wrappers
  import opened Text
  import opened Utf8

  const HtmlType: string := "text/html; charset=utf-8"

  /** The text that opens a status line and a `Content-Length` header. */
  const StatusPrefix: string := "HTTP/1.1 "
  const LengthName: string := "Content-Length: "
  const TypeName: string := "Content-Type: "

  /** The header block `writeResponse` formats: its six lines, each ended
      by CR LF, then the blank line. */
  function ResponseHead(code: int, phrase: string, date: string, contentType: string, length: int): string
  {
    CrlfText(ResponseLines(code, phrase, date, contentType, length)) + "\r\n"
  }

  /** The lines of `writeResponse`'s header block, in order. */
  function ResponseLines(code: int, phrase: string, date: string, contentType: string, length: int): seq<string>
  {
    [ StatusLine(code, phrase),
      "Date: " + date,
      "Server: RunnerServer/1.0",
      TypeName + contentType,
      LengthLine(length),
      "Connection: close" ]
  }

  function StatusLine(code: int, phrase: string): string
  {
    StatusPrefix + IntToString(code) + " " + phrase
  }

  function LengthLine(length: int): string
  {
    LengthName + IntToString(length)
  }

  /** `writeResponse`: the UTF-8 header block, then the body bytes. */
  function WriteResponse(code: int, phrase: string, date: string, contentType: string, body: seq<byte>): seq<byte>
  {
    Encode(ResponseHead(code, phrase, date, contentType, |body|)) + body
  }

  /** The text `writeStatusOnly` formats: status line, `Content-Length: 0`,
      `Connection: close`, each ended by CR LF, then the blank line. */
  function StatusOnlyText(code: int, phrase: string): string
  {
    CrlfText(StatusOnlyLines(code, phrase)) + "\r\n"
  }

  function StatusOnlyLines(code: int, phrase: string): seq<string>
  {
    [ StatusLine(code, phrase), "Content-Length: 0", "Connection: close" ]
  }

  /** `writeStatusOnly`. */
  function WriteStatusOnly(code: int, phrase: string): seq<byte>
  {
    Encode(StatusOnlyText(code, phrase))
  }

  /** The page `respondSimple` wraps around its message. */
  function SimplePage(code: int, phrase: string, message: string): string
  {
    "<html><body><h2>" + IntToString(code) + " " + phrase + "</h2><p>" + message + "</p></body></html>"
  }

  /** `respondSimple`. */
  function RespondSimple(code: int, phrase: string, message: string, date: string): seq<byte>
  {
    WriteResponse(code, phrase, date, HtmlType, Encode(SimplePage(code, phrase, message)))
  }

  /** The line `logRequest` appends (`%n` is a line feed). */
  function LogLine(ts: string, ip: string, verb: string, path: string, status: int): string
  {
    ts + " " + ip + " " + verb + " " + path + " " + IntToString(status) + "\n"
  }

  // ---------------------------------------------------------------------
  // Reading a response back

  /** The bytes before the first CR LF, and the bytes after it. */
  function ReadCrlfLine(w: seq<byte>): (r: Option<(seq<byte>, seq<byte>)>)
    ensures r.Some? ==> w == r.value.0 + [CR, LF] + r.value.1
  {
    if |w| < 2 then None
    else if w[0] == CR && w[1] == LF then Some(([], w[2..]))
    else match ReadCrlfLine(w[1..])
      case None => None
      case Some((l, rest)) => Some(([w[0]] + l, rest))
  }

  /** The header lines up to the blank line, and what follows it. */
  function ReadHead(w: seq<byte>): Option<(seq<seq<byte>>, seq<byte>)>
    decreases |w|
  {
    match ReadCrlfLine(w)
    case None => None
    case Some((l, rest)) =>
      if l == [] then Some(([], rest))
      else match ReadHead(rest)
        case None => None
        case Some((ls, body)) => Some(([l] + ls, body))
  }

  predicate HasPrefix(s: string, prefix: string)
  {
    |prefix| <= |s| && s[..|prefix|] == prefix
  }

  /** What follows `name` on the first header line that starts with it; the
      client reads header bytes one character per byte. */
  function HeaderValue(lines: seq<seq<byte>>, name: string): Option<string>
  {
    if lines == [] then None
    else if HasPrefix(Latin1(lines[0]), name) then Some(Latin1(lines[0])[|name|..])
    else HeaderValue(lines[1..], name)
  }

  /** The body a client takes from the wire: as many bytes after the blank
      line as the `Content-Length` header announces. */
  function ReceivedBody(w: seq<byte>): Option<seq<byte>>
  {
    match ReadHead(w)
    case None => None
    case Some((lines, rest)) => BodyAfter(lines, rest)
  }

  function BodyAfter(lines: seq<seq<byte>>, rest: seq<byte>): Option<seq<byte>>
  {
    if |lines| == 0 then None
    else match HeaderValue(lines[1..], LengthName)
      case None => None
      case Some(v) =>
        match ParseInt(v)
        case None => None
        case Some(n) => if 0 <= n <= |rest| then Some(rest[..n]) else None
  }

  /** The media type a client reads: what follows `Content-Type: ` on the
      first header line after the status line that starts with it. */
  function ReceivedType(w: seq<byte>): Option<string>
  {
    match ReadHead(w)
    case None => None
    case Some((lines, _)) => if |lines| == 0 then None else HeaderValue(lines[1..], TypeName)
  }

  /** The status code a client reads from the status line: the text
      between `HTTP/1.1 ` and the next space. */
  function ReceivedStatus(w: seq<byte>): Option<int>
  {
    match ReadHead(w)
    case None => None
    case Some((lines, _)) => StatusIn(lines)
  }

  function StatusIn(lines: seq<seq<byte>>): Option<int>
  {
    if |lines| == 0 then None
    else
      var t := Latin1(lines[0]);
      if !HasPrefix(t, StatusPrefix) then None
      else ParseInt(TakeUntil(t[|StatusPrefix|..], ' '))
  }

  // ---------------------------------------------------------------------
  // Framing lemmas

  /** Header lines, each followed by CR LF. */
  function CrlfLines(ls: seq<seq<byte>>): seq<byte>
  {
    if ls == [] then [] else ls[0] + [CR, LF] + CrlfLines(ls[1..])
  }

  function EncodeAll(ls: seq<string>): (r: seq<seq<byte>>)
    ensures |r| == |ls|
    ensures forall i :: 0 <= i < |ls| ==> r[i] == Encode(ls[i])
  {
    if ls == [] then [] else [Encode(ls[0])] + EncodeAll(ls[1..])
  }

  lemma {:induction false} EncodeCrlfText(ls: seq<string>)
    ensures Encode(CrlfText(ls)) == CrlfLines(EncodeAll(ls))
  {
    if ls != [] {
      EncodeCrlfText(ls[1..]);
      EncodeConcat(ls[0] + "\r\n", CrlfText(ls[1..]));
      EncodeConcat(ls[0], "\r\n");
      assert Encode("\r\n") == [CR, LF];
      assert EncodeAll(ls)[1..] == EncodeAll(ls[1..]);
    }
  }

  lemma {:induction false} ReadCrlfLineOf(l: seq<byte>, rest: seq<byte>)
    requires CR !in l
    ensures ReadCrlfLine(l + [CR, LF] + rest) == Some((l, rest))
  {
    var w := l + [CR, LF] + rest;
    if l == [] {
      assert w[2..] == rest;
    } else {
      assert w[1..] == l[1..] + [CR, LF] + rest;
      ReadCrlfLineOf(l[1..], rest);
      assert [w[0]] + l[1..] == l;
    }
  }

  /** Non-empty lines without CR, followed by a blank line, are read back
      as exactly those lines, and the rest is left untouched. */
  lemma {:induction false} ReadHeadOf(ls: seq<seq<byte>>, body: seq<byte>)
    requires forall i :: 0 <= i < |ls| ==> ls[i] != [] && CR !in ls[i]
    ensures ReadHead(CrlfLines(ls) + [CR, LF] + body) == Some((ls, body))
  {
    if ls == [] {
      assert CrlfLines(ls) + [CR, LF] + body == [] + [CR, LF] + body;
      ReadCrlfLineOf([], body);
    } else {
      var tail := CrlfLines(ls[1..]) + [CR, LF] + body;
      assert CrlfLines(ls) + [CR, LF] + body == ls[0] + [CR, LF] + tail;
      ReadCrlfLineOf(ls[0], tail);
      ReadHeadOf(ls[1..], body);
      assert [ls[0]] + ls[1..] == ls;
    }
  }

  /** Header lines whose encodings are fit for ReadHeadOf. */
  predicate PlainLines(ls: seq<string>)
  {
    forall i :: 0 <= i < |ls| ==> ls[i] != "" && '\r' !in ls[i]
  }

  lemma PlainLinesEncode(ls: seq<string>)
    requires PlainLines(ls)
    ensures forall i :: 0 <= i < |ls| ==> EncodeAll(ls)[i] != [] && CR !in EncodeAll(ls)[i]
  {
    forall i | 0 <= i < |ls| ensures EncodeAll(ls)[i] != [] && CR !in EncodeAll(ls)[i] {
      EncodeAsciiByte(ls[i], '\r');
    }
  }

  /** A header block made of plain lines is read back line by line. */
  lemma ReadHeadOfText(ls: seq<string>, body: seq<byte>)
    requires PlainLines(ls)
    ensures ReadHead(Encode(CrlfText(ls) + "\r\n") + body) == Some((EncodeAll(ls), body))
  {
    EncodeConcat(CrlfText(ls), "\r\n");
    EncodeCrlfText(ls);
    assert Encode("\r\n") == [CR, LF];
    PlainLinesEncode(ls);
    ReadHeadOf(EncodeAll(ls), body);
  }

  /** Text that differs from `prefix` at a position inside both does not
      start with it. */
  lemma DiffersAt(s: string, prefix: string, i: nat)
    requires i < |s| && i < |prefix| && s[i] != prefix[i]
    ensures !HasPrefix(s, prefix)
  {
    if |prefix| <= |s| {
      assert s[..|prefix|][i] == s[i];
    }
  }

  /** The client's reading of an encoded line, piece by piece. */
  lemma ReadAsText(a: string, b: string)
    ensures Latin1(Encode(a + b)) == Latin1(Encode(a)) + Latin1(Encode(b))
  {
    EncodeConcat(a, b);
    Latin1Concat(Encode(a), Encode(b));
  }

  lemma IntToStringAscii(n: int)
    ensures IsAscii(IntToString(n))
    ensures Latin1(Encode(IntToString(n))) == IntToString(n)
  {
    var s := IntToString(n);
    if n < 0 {
      assert forall i :: 1 <= i < |s| ==> s[i] == NatToString(-n)[i - 1];
    }
    Latin1Encode(s);
  }

  /** ASCII literals read back as themselves. */
  lemma LengthNameText()
    ensures Latin1(Encode(LengthName)) == LengthName
  {
    Latin1Encode(LengthName);
  }

  lemma StatusPrefixText()
    ensures Latin1(Encode(StatusPrefix)) == StatusPrefix
  {
    Latin1Encode(StatusPrefix);
  }

  lemma SpaceText()
    ensures Latin1(Encode(" ")) == " "
  {
    Latin1Encode(" ");
  }

  lemma LengthLineText(n: int)
    ensures Latin1(Encode(LengthLine(n))) == LengthName + IntToString(n)
  {
    ReadAsText(LengthName, IntToString(n));
    LengthNameText();
    IntToStringAscii(n);
  }

  lemma AfterPrefix(prefix: string, x: string)
    ensures HasPrefix(prefix + x, prefix) && (prefix + x)[|prefix|..] == x
  {
    assert (prefix + x)[..|prefix|] == prefix;
  }

  /** The client finds the announced length on the `Content-Length` line. */
  lemma ReadBackLength(n: int)
    requires IntMin <= n <= IntMax
    ensures var t := Latin1(Encode(LengthLine(n)));
      HasPrefix(t, LengthName) && ParseInt(t[|LengthName|..]) == Some(n)
  {
    LengthLineText(n);
    AfterPrefix(LengthName, IntToString(n));
    ParseIntToString(n);
  }

  /** The client reads an ASCII first character as itself. */
  lemma FirstCharText(s: string)
    requires |s| > 0 && s[0] as int < 0x80
    ensures |Latin1(Encode(s))| > 0 && Latin1(Encode(s))[0] == s[0]
  {
  }

  /** A header line `prefix + x` is not read as the header `name` when the
      ASCII `prefix` differs from that name at position `i`. */
  lemma NotNamedLine(prefix: string, x: string, name: string, i: nat)
    requires IsAscii(prefix) && i < |prefix| && i < |name| && prefix[i] != name[i]
    ensures !HasPrefix(Latin1(Encode(prefix + x)), name)
  {
    ReadAsText(prefix, x);
    Latin1Encode(prefix);
    DiffersAt(Latin1(Encode(prefix + x)), name, i);
  }

  /** The first line that starts with `name` supplies the value. */
  lemma {:induction false} HeaderValueAt(lines: seq<seq<byte>>, name: string, k: nat)
    requires k < |lines| && HasPrefix(Latin1(lines[k]), name)
    requires forall j :: 0 <= j < k ==> !HasPrefix(Latin1(lines[j]), name)
    ensures HeaderValue(lines, name) == Some(Latin1(lines[k])[|name|..])
  {
    if k > 0 {
      HeaderValueAt(lines[1..], name, k - 1);
    }
  }

  lemma Regroup(a: string, b: string, c: string, d: string)
    ensures a + b + c + d == a + (b + c + d)
  {
  }

  lemma StatusLineText(code: int, phrase: string)
    ensures Latin1(Encode(StatusLine(code, phrase)))
         == StatusPrefix + (IntToString(code) + [' '] + Latin1(Encode(phrase)))
  {
    var c := IntToString(code);
    var a := StatusPrefix + c;
    ReadAsText(a + " ", phrase);
    ReadAsText(a, " ");
    ReadAsText(StatusPrefix, c);
    SpaceText();
    StatusPrefixText();
    IntToStringAscii(code);
    Regroup(StatusPrefix, c, [' '], Latin1(Encode(phrase)));
  }

  /** The client reads the code from the status line. */
  lemma ReadBackStatus(code: int, phrase: string)
    requires IntMin <= code <= IntMax
    ensures StatusIn([Encode(StatusLine(code, phrase))]) == Some(code)
  {
    var c := IntToString(code);
    var rest := c + [' '] + Latin1(Encode(phrase));
    StatusLineText(code, phrase);
    AfterPrefix(StatusPrefix, rest);
    IntToStringPlain(code);
    TakeUntilFirst(c, Latin1(Encode(phrase)), ' ');
    ParseIntToString(code);
  }

  lemma LengthValueAt(lines: seq<seq<byte>>, n: int, k: nat)
    requires 0 < k < |lines| && IntMin <= n <= IntMax
    requires lines[k] == Encode(LengthLine(n))
    requires forall j :: 1 <= j < k ==> !HasPrefix(Latin1(lines[j]), LengthName)
    ensures match HeaderValue(lines[1..], LengthName)
      case Some(v) => ParseInt(v) == Some(n)
      case None => false
  {
    ReadBackLength(n);
    HeaderValueAt(lines[1..], LengthName, k - 1);
  }

  lemma ReceivedBodyOf(w: seq<byte>, lines: seq<seq<byte>>, body: seq<byte>, k: nat)
    requires ReadHead(w) == Some((lines, body)) && 0 < k < |lines| && |body| <= IntMax
    requires lines[k] == Encode(LengthLine(|body|))
    requires forall j :: 1 <= j < k ==> !HasPrefix(Latin1(lines[j]), LengthName)
    ensures ReceivedBody(w) == Some(body)
  {
    LengthValueAt(lines, |body|, k);
    assert body[..|body|] == body;
  }

  lemma ReceivedStatusOf(w: seq<byte>, lines: seq<seq<byte>>, rest: seq<byte>, code: int, phrase: string)
    requires ReadHead(w) == Some((lines, rest)) && 0 < |lines| && IntMin <= code <= IntMax
    requires lines[0] == Encode(StatusLine(code, phrase))
    ensures ReceivedStatus(w) == Some(code)
  {
    ReadBackStatus(code, phrase);
  }

  /** Any header block of plain lines that opens with the status line and
      whose first `Content-Length` line announces the body's length frames
      that body. */
  lemma Framed(ls: seq<string>, k: nat, code: int, phrase: string, body: seq<byte>)
    requires PlainLines(ls) && 0 < k < |ls|
    requires IntMin <= code <= IntMax && |body| <= IntMax
    requires ls[0] == StatusLine(code, phrase) && ls[k] == LengthLine(|body|)
    requires forall j :: 1 <= j < k ==> !HasPrefix(Latin1(Encode(ls[j])), LengthName)
    ensures ReadHead(Encode(CrlfText(ls) + "\r\n") + body) == Some((EncodeAll(ls), body))
    ensures ReceivedBody(Encode(CrlfText(ls) + "\r\n") + body) == Some(body)
    ensures ReceivedStatus(Encode(CrlfText(ls) + "\r\n") + body) == Some(code)
  {
    var w := Encode(CrlfText(ls) + "\r\n") + body;
    ReadHeadOfText(ls, body);
    ReceivedBodyOf(w, EncodeAll(ls), body, k);
    ReceivedStatusOf(w, EncodeAll(ls), body, code, phrase);
  }

  lemma StatusLinePlain(code: int, phrase: string)
    requires '\r' !in phrase
    ensures StatusLine(code, phrase) != "" && '\r' !in StatusLine(code, phrase)
  {
    IntToStringPlain(code);
  }

  lemma LengthLinePlain(n: int)
    ensures LengthLine(n) != "" && '\r' !in LengthLine(n)
  {
    IntToStringPlain(n);
  }

  lemma ServerLinePlain()
    ensures '\r' !in "Server: RunnerServer/1.0"
  {
  }

  lemma ConnectionLinePlain()
    ensures '\r' !in "Connection: close"
  {
  }

  lemma ResponseLinesPlain(code: int, phrase: string, date: string, contentType: string, n: int)
    requires '\r' !in phrase && '\r' !in date && '\r' !in contentType
    ensures PlainLines(ResponseLines(code, phrase, date, contentType, n))
  {
    var ls := ResponseLines(code, phrase, date, contentType, n);
    forall i | 0 <= i < |ls| ensures ls[i] != "" && '\r' !in ls[i] {
      if i == 0 {
        StatusLinePlain(code, phrase);
      } else if i == 2 {
        ServerLinePlain();
      } else if i == 4 {
        LengthLinePlain(n);
      } else if i == 5 {
        ConnectionLinePlain();
      }
    }
  }

  lemma DateNotLength(code: int, phrase: string, date: string, contentType: string, n: int)
    ensures !HasPrefix(Latin1(Encode(ResponseLines(code, phrase, date, contentType, n)[1])), LengthName)
  {
    NotNamedLine("Date: ", date, LengthName, 0);
  }

  lemma ServerNotLength(code: int, phrase: string, date: string, contentType: string, n: int)
    ensures !HasPrefix(Latin1(Encode(ResponseLines(code, phrase, date, contentType, n)[2])), LengthName)
  {
    var s := ResponseLines(code, phrase, date, contentType, n)[2];
    FirstCharText(s);
    DiffersAt(Latin1(Encode(s)), LengthName, 0);
  }

  lemma TypeNotLength(code: int, phrase: string, date: string, contentType: string, n: int)
    ensures !HasPrefix(Latin1(Encode(ResponseLines(code, phrase, date, contentType, n)[3])), LengthName)
  {
    NotNamedLine(TypeName, contentType, LengthName, 8);
  }

  /** Of the header lines before it, none is taken for `Content-Length`. */
  lemma OnlyOneLengthLine(code: int, phrase: string, date: string, contentType: string, n: int)
    ensures var ls := ResponseLines(code, phrase, date, contentType, n);
      forall j :: 1 <= j < 4 ==> !HasPrefix(Latin1(Encode(ls[j])), LengthName)
  {
    var ls := ResponseLines(code, phrase, date, contentType, n);
    forall j | 1 <= j < 4 ensures !HasPrefix(Latin1(Encode(ls[j])), LengthName) {
      if j == 1 {
        DateNotLength(code, phrase, date, contentType, n);
      } else if j == 2 {
        ServerNotLength(code, phrase, date, contentType, n);
      } else {
        TypeNotLength(code, phrase, date, contentType, n);
      }
    }
  }

  /** `writeResponse` frames its body exactly: a client reads back the six
      header lines in order (status, Date, Server, Content-Type,
      Content-Length, Connection), then precisely the body bytes, whose
      number the `Content-Length` header states; and it reads the status
      code that was passed in. */
  lemma WriteResponseFraming(code: int, phrase: string, date: string, contentType: string, body: seq<byte>)
    requires IntMin <= code <= IntMax && |body| <= IntMax
    requires '\r' !in phrase && '\r' !in date && '\r' !in contentType
    ensures ReadHead(WriteResponse(code, phrase, date, contentType, body))
         == Some((EncodeAll(ResponseLines(code, phrase, date, contentType, |body|)), body))
    ensures ReceivedBody(WriteResponse(code, phrase, date, contentType, body)) == Some(body)
    ensures ReceivedStatus(WriteResponse(code, phrase, date, contentType, body)) == Some(code)
  {
    var ls := ResponseLines(code, phrase, date, contentType, |body|);
    ResponseLinesPlain(code, phrase, date, contentType, |body|);
    OnlyOneLengthLine(code, phrase, date, contentType, |body|);
    Framed(ls, 4, code, phrase, body);
  }

  lemma TypeNameText()
    ensures Latin1(Encode(TypeName)) == TypeName
  {
    Latin1Encode(TypeName);
  }

  lemma TypeLineText(contentType: string)
    ensures var t := Latin1(Encode(TypeName + contentType));
      HasPrefix(t, TypeName) && t[|TypeName|..] == Latin1(Encode(contentType))
  {
    ReadAsText(TypeName, contentType);
    TypeNameText();
    AfterPrefix(TypeName, Latin1(Encode(contentType)));
  }

  /** A client reading a header block whose fourth line is `Content-Type`
      and whose second and third lines are not gets that line's type. */
  lemma ReceivedTypeOf(w: seq<byte>, ls: seq<string>, rest: seq<byte>, contentType: string)
    requires ReadHead(w) == Some((EncodeAll(ls), rest)) && 3 < |ls|
    requires ls[3] == TypeName + contentType
    requires !HasPrefix(Latin1(Encode(ls[1])), TypeName) && !HasPrefix(Latin1(Encode(ls[2])), TypeName)
    ensures ReceivedType(w) == Some(Latin1(Encode(contentType)))
  {
    var after := EncodeAll(ls)[1..];
    TypeLineText(contentType);
    assert after[2] == Encode(ls[3]);
    forall j | 0 <= j < 2 ensures !HasPrefix(Latin1(after[j]), TypeName) {
      assert after[j] == Encode(ls[j + 1]);
    }
    HeaderValueAt(after, TypeName, 2);
  }

  lemma DateNotType(code: int, phrase: string, date: string, contentType: string, n: int)
    ensures !HasPrefix(Latin1(Encode(ResponseLines(code, phrase, date, contentType, n)[1])), TypeName)
  {
    NotNamedLine("Date: ", date, TypeName, 0);
  }

  lemma ServerNotType(code: int, phrase: string, date: string, contentType: string, n: int)
    ensures !HasPrefix(Latin1(Encode(ResponseLines(code, phrase, date, contentType, n)[2])), TypeName)
  {
    var s := ResponseLines(code, phrase, date, contentType, n)[2];
    FirstCharText(s);
    DiffersAt(Latin1(Encode(s)), TypeName, 0);
  }

  /** The client reads the `Content-Type` line as the UTF-8 bytes of the
      type that was passed in, one character per byte. */
  lemma WriteResponseType(code: int, phrase: string, date: string, contentType: string, body: seq<byte>)
    requires IntMin <= code <= IntMax && |body| <= IntMax
    requires '\r' !in phrase && '\r' !in date && '\r' !in contentType
    ensures ReceivedType(WriteResponse(code, phrase, date, contentType, body)) == Some(Latin1(Encode(contentType)))
  {
    var ls := ResponseLines(code, phrase, date, contentType, |body|);
    WriteResponseFraming(code, phrase, date, contentType, body);
    DateNotType(code, phrase, date, contentType, |body|);
    ServerNotType(code, phrase, date, contentType, |body|);
    ReceivedTypeOf(WriteResponse(code, phrase, date, contentType, body), ls, body, contentType);
  }

  lemma ZeroLength()
    ensures "Content-Length: 0" == LengthLine(0)
  {
  }

  lemma StatusOnlyLinesPlain(code: int, phrase: string)
    requires '\r' !in phrase
    ensures PlainLines(StatusOnlyLines(code, phrase))
    ensures StatusOnlyLines(code, phrase)[1] == LengthLine(0)
  {
    var ls := StatusOnlyLines(code, phrase);
    ZeroLength();
    forall i | 0 <= i < |ls| ensures ls[i] != "" && '\r' !in ls[i] {
      if i == 0 {
        StatusLinePlain(code, phrase);
      } else if i == 1 {
        LengthLinePlain(0);
      } else {
        ConnectionLinePlain();
      }
    }
  }

  lemma StatusOnlyWire(code: int, phrase: string)
    ensures WriteStatusOnly(code, phrase) == Encode(CrlfText(StatusOnlyLines(code, phrase)) + "\r\n") + []
  {
    var x := Encode(CrlfText(StatusOnlyLines(code, phrase)) + "\r\n");
    assert x + [] == x;
  }

  /** `writeStatusOnly` is a well-framed response with an empty body. */
  lemma StatusOnlyFraming(code: int, phrase: string)
    requires IntMin <= code <= IntMax && '\r' !in phrase
    ensures ReadHead(WriteStatusOnly(code, phrase)) == Some((EncodeAll(StatusOnlyLines(code, phrase)), []))
    ensures ReceivedBody(WriteStatusOnly(code, phrase)) == Some([])
    ensures ReceivedStatus(WriteStatusOnly(code, phrase)) == Some(code)
  {
    var empty: seq<byte> := [];
    StatusOnlyWire(code, phrase);
    StatusOnlyLinesPlain(code, phrase);
    Framed(StatusOnlyLines(code, phrase), 1, code, phrase, empty);
  }

  // ---------------------------------------------------------------------
  // The log line

  /** Two more space-free fields after `a`. */
  lemma SplitTwoMore(a: string, x: string, y: string)
    requires ' ' !in x && ' ' !in y
    ensures Split(a + " " + x + " " + y, ' ') == Split(a, ' ') + [x, y]
  {
    SplitAppend(a, x, ' ');
    SplitAppend(a + " " + x, y, ' ');
  }

  /** A log line holds the timestamp's own space-separated fields, then the
      client address, method, path and status as one field each, and ends
      with a line feed; none of those four loses or gains a field as long
      as it has no space (method and path never do: they come from a
      split on spaces). */
  lemma LogLineFields(ts: string, ip: string, verb: string, path: string, status: int)
    requires ' ' !in ip && ' ' !in verb && ' ' !in path
    ensures var l := LogLine(ts, ip, verb, path, status);
      && |l| > 0 && l[|l| - 1] == '\n'
      && Split(l[..|l| - 1], ' ') == Split(ts, ' ') + [ip, verb, path, IntToString(status)]
  {
    var st := IntToString(status);
    IntToStringPlain(status);
    var x2 := ts + " " + ip + " " + verb;
    var x4 := x2 + " " + path + " " + st;
    assert LogLine(ts, ip, verb, path, status) == x4 + "\n";
    assert (x4 + "\n")[..|x4|] == x4;
    SplitTwoMore(ts, ip, verb);
    SplitTwoMore(x2, path, st);
    var p := Split(ts, ' ');
    assert (p + [ip, verb]) + [path, st] == p + [ip, verb, path, st];
  }
}
