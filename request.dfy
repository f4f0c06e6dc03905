/** Reading a request the way `ClientHandler.run` does
    (RunnerServer.java:90-136): `BufferedReader.readLine` and `read` over
    the characters still to come, the header loop that folds header lines
    into a HashMap, the `Content-Length` lookup, and the loop that fills the
    body array, which may be handed fewer characters per `read` than it
    asks for. */
module Request {
  import opened Wrappers
  import opened Text

  // ---------------------------------------------------------------------
  // Lines

  /** `readLine` on the text still to come: the characters up to the
      first line feed, carriage return, or carriage return plus line feed,
      and what follows that terminator; None at the end of the stream. A
      last line without terminator is returned as it is. */
  function NextLine(s: string): (r: Option<(string, string)>)
    ensures r.None? <==> s == []
    ensures r.Some? ==> |r.value.1| < |s|
    ensures r.Some? ==> '\n' !in r.value.0 && '\r' !in r.value.0
    decreases |s|
  {
    if s == [] then None
    else if s[0] == '\n' then Some(([], s[1..]))
    else if s[0] == '\r' then Some(([], if |s| > 1 && s[1] == '\n' then s[2..] else s[1..]))
    else match NextLine(s[1..])
      case None => Some((s, []))
      case Some((l, rest)) => Some(([s[0]] + l, rest))
  }

  /** `s` is the line `l`, one of the terminators, and `rest`; a lone
      carriage return is a terminator only when no line feed follows it. */
  predicate LineSplit(s: string, l: string, rest: string)
  {
    && '\n' !in l && '\r' !in l
    && (|| (s == l && rest == [])
        || s == l + "\n" + rest
        || s == l + "\r\n" + rest
        || (s == l + "\r" + rest && (rest == [] || rest[0] != '\n')))
  }

  lemma TerminatorShift(c: char, l: string, t: string, rest: string)
    ensures [c] + l + t + rest == [c] + (l + t + rest)
  {
  }

  /** The line readLine returns and the text it leaves behind are a
      LineSplit of the input. */
  lemma {:induction false} NextLineSplits(s: string)
    requires s != []
    ensures LineSplit(s, NextLine(s).value.0, NextLine(s).value.1)
    decreases |s|
  {
    if s[0] == '\n' {
      assert s == [] + "\n" + s[1..];
    } else if s[0] == '\r' {
      if |s| > 1 && s[1] == '\n' {
        assert s == [] + "\r\n" + s[2..];
      } else {
        assert s == [] + "\r" + s[1..];
      }
    } else if s[1..] == [] {
    } else {
      NextLineSplits(s[1..]);
      var l := NextLine(s[1..]).value.0;
      var rest := NextLine(s[1..]).value.1;
      assert s == [s[0]] + s[1..];
      TerminatorShift(s[0], l, "\n", rest);
      TerminatorShift(s[0], l, "\r\n", rest);
      TerminatorShift(s[0], l, "\r", rest);
    }
  }

  /** Conversely a LineSplit leaves readLine no choice. */
  lemma {:induction false} LineSplitUnique(s: string, l: string, rest: string)
    requires s != [] && LineSplit(s, l, rest)
    ensures NextLine(s) == Some((l, rest))
    decreases |l|
  {
    if l == [] {
      assert s == [] || s[0] == '\n' || s[0] == '\r' by {
        if s == l + "\n" + rest { assert s[0] == '\n'; }
        else if s == l + "\r\n" + rest { assert s[0] == '\r'; }
        else if s == l + "\r" + rest { assert s[0] == '\r'; }
      }
      if s == l + "\n" + rest {
        assert s[1..] == rest;
      } else if s == l + "\r\n" + rest {
        assert s[2..] == rest;
      } else if s == l + "\r" + rest {
        assert s[1..] == rest;
      }
    } else {
      assert s[0] == l[0];
      var t := s[1..];
      assert l == [l[0]] + l[1..];
      if s == l && rest == [] {
        if t != [] {
          LineSplitUnique(t, l[1..], rest);
        }
      } else {
        if s == l + "\n" + rest {
          assert t == l[1..] + "\n" + rest;
        } else if s == l + "\r\n" + rest {
          assert t == l[1..] + "\r\n" + rest;
        } else {
          assert t == l[1..] + "\r" + rest;
        }
        LineSplitUnique(t, l[1..], rest);
      }
    }
  }

  // ---------------------------------------------------------------------
  // The reader

  /** A `BufferedReader` over the request: the characters it has not yet
      handed out. */
  class Reader {
    var rest: string

    constructor(input: string)
      ensures rest == input
    {
      rest := input;
    }

    /** `readLine()`: None is the null returned at the end of the stream. */
    method ReadLine() returns (line: Option<string>)
      modifies this
      ensures line.None? <==> old(rest) == []
      ensures line.None? ==> rest == old(rest)
      ensures line.Some? ==> NextLine(old(rest)) == Some((line.value, rest))
    {
      var next := NextLine(rest);
      if next.None? {
        line := None;
      } else {
        line := Some(next.value.0);
        rest := next.value.1;
      }
    }

    /** `read(buf, off, len)`: copies between one and `len` of the
        characters still to come into `buf[off..]` and says how many, or
        returns -1 at the end of the stream. How many arrive at once is not
        up to the caller. */
    method Read(buf: array<char>, off: nat, len: nat) returns (n: int)
      requires off + len <= buf.Length
      modifies this, buf
      ensures len == 0 ==> n == 0
      ensures len > 0 && old(rest) == [] ==> n == -1
      ensures len > 0 && old(rest) != [] ==> n > 0
      ensures n <= 0 ==> rest == old(rest) && buf[..] == old(buf[..])
      ensures n > 0 ==> n <= len && n <= |old(rest)| && rest == old(rest)[n..]
      ensures n > 0 ==> forall i :: 0 <= i < buf.Length ==>
        buf[i] == if off <= i < off + n then old(rest)[i - off] else old(buf[i])
    {
      if len == 0 {
        return 0;
      }
      if rest == [] {
        return -1;
      }
      var most := if len < |rest| then len else |rest|;
      n :| 1 <= n <= most;
      forall i | off <= i < off + n {
        buf[i] := rest[i - off];
      }
      rest := rest[n..];
    }
  }

  // ---------------------------------------------------------------------
  // Headers

  /** The header lines: every line up to the first empty one or the end of
      the stream, and the text after them. */
  function HeaderLines(s: string): (r: (seq<string>, string))
    ensures |r.1| <= |s|
    ensures forall i :: 0 <= i < |r.0| ==> r.0[i] != "" && '\n' !in r.0[i] && '\r' !in r.0[i]
    decreases |s|
  {
    match NextLine(s)
    case None => ([], s)
    case Some((l, rest)) =>
      if l == [] then ([], rest)
      else
        var more := HeaderLines(rest);
        ([l] + more.0, more.1)
  }

  lemma LineThenRest(l: string, tail: string)
    requires l != "" && '\n' !in l && '\r' !in l
    ensures NextLine(l + "\r\n" + tail) == Some((l, tail))
  {
    LineSplitUnique(l + "\r\n" + tail, l, tail);
  }

  /** Header lines sent with CR LF endings and closed by a blank line are
      read back as they were sent, and the text after the blank line is
      left for the body. */
  lemma {:induction false} HeaderLinesOfText(ls: seq<string>, rest: string)
    requires forall i :: 0 <= i < |ls| ==> ls[i] != "" && '\n' !in ls[i] && '\r' !in ls[i]
    ensures HeaderLines(CrlfText(ls) + "\r\n" + rest) == (ls, rest)
    decreases |ls|
  {
    if ls == [] {
      assert CrlfText(ls) + "\r\n" + rest == "\r\n" + rest;
      assert ("\r\n" + rest)[2..] == rest;
    } else {
      var tail := CrlfText(ls[1..]) + "\r\n" + rest;
      assert CrlfText(ls) + "\r\n" + rest == ls[0] + "\r\n" + tail;
      LineThenRest(ls[0], tail);
      HeaderLinesOfText(ls[1..], rest);
      assert [ls[0]] + ls[1..] == ls;
    }
  }

  /** Without the blank line, the header block runs to the end of the
      stream. */
  lemma {:induction false} HeaderLinesToEnd(ls: seq<string>)
    requires forall i :: 0 <= i < |ls| ==> ls[i] != "" && '\n' !in ls[i] && '\r' !in ls[i]
    ensures HeaderLines(CrlfText(ls)) == (ls, "")
    decreases |ls|
  {
    if ls != [] {
      var tail := CrlfText(ls[1..]);
      LineThenRest(ls[0], tail);
      HeaderLinesToEnd(ls[1..]);
      assert [ls[0]] + ls[1..] == ls;
    }
  }

  /** Putting a line changes at most the entry of its own key. */
  lemma PutOthers(headers: map<string, string>, line: string, k: string)
    requires !HasKey(line, k)
    ensures k in Put(headers, line) <==> k in headers
    ensures k in headers ==> Put(headers, line)[k] == headers[k]
  {
  }

  /** What one header line contributes: when its first `:` is not at the
      very start, the trimmed name in lower case and the trimmed value. */
  function HeaderEntry(line: string): Option<(string, string)>
  {
    match IndexOf(line, ':')
    case None => None
    case Some(colon) =>
      if colon > 0 then Some((ToLower(Trim(line[..colon])), Trim(line[colon + 1..]))) else None
  }

  /** The map after `headers.put` for one line. */
  function Put(headers: map<string, string>, line: string): map<string, string>
  {
    match HeaderEntry(line)
    case None => headers
    case Some((name, value)) => headers[name := value]
  }

  /** The map after all the lines, first to last. */
  function HeaderFold(lines: seq<string>): map<string, string>
  {
    if lines == [] then map[] else Put(HeaderFold(lines[..|lines| - 1]), lines[|lines| - 1])
  }

  predicate HasKey(line: string, k: string)
  {
    HeaderEntry(line).Some? && HeaderEntry(line).value.0 == k
  }

  /** A later line with the same key overwrites an earlier one: the value
      stored for `k` is that of the last line with key `k`. */
  lemma {:induction false} LastWins(lines: seq<string>, j: nat, k: string, v: string)
    requires j < |lines| && HeaderEntry(lines[j]) == Some((k, v))
    requires forall i :: j < i < |lines| ==> !HasKey(lines[i], k)
    ensures k in HeaderFold(lines) && HeaderFold(lines)[k] == v
    decreases |lines|
  {
    var init := lines[..|lines| - 1];
    if j < |lines| - 1 {
      assert init[j] == lines[j];
      assert forall i :: j < i < |init| ==> init[i] == lines[i];
      LastWins(init, j, k, v);
    }
  }

  lemma PutKeys(headers: map<string, string>, line: string, k: string)
    ensures k in Put(headers, line) <==> k in headers || HasKey(line, k)
  {
  }

  /** A key is stored exactly when some line has it. */
  lemma {:induction false} StoredKeys(lines: seq<string>, k: string)
    ensures k in HeaderFold(lines) <==> exists j :: 0 <= j < |lines| && HasKey(lines[j], k)
    decreases |lines|
  {
    if lines != [] {
      var init := lines[..|lines| - 1];
      var last := lines[|lines| - 1];
      StoredKeys(init, k);
      PutKeys(HeaderFold(init), last, k);
      assert forall j :: 0 <= j < |init| ==> init[j] == lines[j];
      if k in HeaderFold(lines) && !HasKey(last, k) {
        var j :| 0 <= j < |init| && HasKey(init[j], k);
        assert HasKey(lines[j], k);
      }
      if k !in HeaderFold(lines) {
        forall j | 0 <= j < |lines| ensures !HasKey(lines[j], k) {
          if j < |init| {
            assert lines[j] == init[j];
          }
        }
      }
    }
  }

  /** Lower-casing keeps a trimmed string trimmed. */
  lemma ToLowerTrimmed(s: string)
    requires IsTrimmed(s)
    ensures IsTrimmed(ToLower(s))
  {
  }

  predicate KeyShape(k: string)
  {
    IsTrimmed(k) && forall i :: 0 <= i < |k| ==> !IsUpper(k[i])
  }

  /** One line's entry has a trimmed lower-case key and a trimmed value. */
  lemma EntryShape(line: string)
    requires HeaderEntry(line).Some?
    ensures KeyShape(HeaderEntry(line).value.0) && IsTrimmed(HeaderEntry(line).value.1)
  {
    var colon := IndexOf(line, ':').value;
    TrimSlice(line[..colon]);
    TrimSlice(line[colon + 1..]);
    ToLowerTrimmed(Trim(line[..colon]));
  }

  /** Every stored key is trimmed and has no upper-case letter; every
      stored value is trimmed. */
  lemma {:induction false} StoredShape(lines: seq<string>)
    ensures forall k :: k in HeaderFold(lines) ==> KeyShape(k) && IsTrimmed(HeaderFold(lines)[k])
    decreases |lines|
  {
    if lines != [] {
      StoredShape(lines[..|lines| - 1]);
      var line := lines[|lines| - 1];
      if HeaderEntry(line).Some? {
        EntryShape(line);
      }
    }
  }

  /** `headers.get("content-length")`, trimmed and parsed, with 0 when the
      header is absent or does not parse. */
  function ContentLength(headers: map<string, string>): (n: int)
    ensures IntMin <= n <= IntMax
  {
    if "content-length" in headers then
      match ParseInt(Trim(headers["content-length"]))
      case Some(v) => v
      case None => 0
    else 0
  }

  /** The announced length comes from the last header line whose name is
      `content-length` in any case. */
  lemma ContentLengthLast(lines: seq<string>, j: nat, v: string)
    requires j < |lines| && HeaderEntry(lines[j]) == Some(("content-length", v))
    requires forall i :: j < i < |lines| ==> !HasKey(lines[i], "content-length")
    ensures ContentLength(HeaderFold(lines))
         == match ParseInt(Trim(v)) case Some(n) => n case None => 0
  {
    LastWins(lines, j, "content-length", v);
  }

  /** A header line is cut at its first colon. */
  lemma HeaderEntryOf(name: string, value: string)
    requires name != "" && ':' !in name
    ensures HeaderEntry(name + [':'] + value) == Some((ToLower(Trim(name)), Trim(value)))
  {
    var line := name + [':'] + value;
    IndexOfFirst(name, value, ':');
    assert line[..|name|] == name && line[|name| + 1..] == value;
  }

  /** A `Content-Length` line as a client may write it: the name in any
      case with blanks around it, the colon, then a number with blanks
      around it. When no later line names the header again, the body length
      is that number. */
  lemma ContentLengthOfLine(lines: seq<string>, j: nat, name: string, before: string, n: int, after: string)
    requires j < |lines| && lines[j] == name + ":" + (before + IntToString(n) + after)
    requires name != "" && ':' !in name && ToLower(Trim(name)) == "content-length"
    requires AllTrimmable(before) && AllTrimmable(after) && IntMin <= n <= IntMax
    requires forall i :: j < i < |lines| ==> !HasKey(lines[i], "content-length")
    ensures ContentLength(HeaderFold(lines)) == n
  {
    var digits := IntToString(n);
    var value := before + digits + after;
    assert lines[j] == name + [':'] + value;
    HeaderEntryOf(name, value);
    IntToStringTrimmed(n);
    TrimPadded(before, digits, after);
    ContentLengthLast(lines, j, digits);
    TrimPadded([], digits, []);
    assert [] + digits + [] == digits;
    ParseIntToString(n);
  }

  lemma NoContentLength(lines: seq<string>)
    requires forall i :: 0 <= i < |lines| ==> !HasKey(lines[i], "content-length")
    ensures ContentLength(HeaderFold(lines)) == 0
  {
    StoredKeys(lines, "content-length");
  }

  lemma HeaderLinesStep(s: string, l: string, rest: string)
    requires NextLine(s) == Some((l, rest)) && l != ""
    ensures HeaderLines(s).0 == [l] + HeaderLines(rest).0
    ensures HeaderLines(s).1 == HeaderLines(rest).1
  {
  }

  lemma AppendAssoc(a: seq<string>, b: seq<string>, c: seq<string>)
    ensures a + (b + c) == (a + b) + c
  {
  }

  lemma FoldSnoc(seen: seq<string>, l: string)
    ensures HeaderFold(seen + [l]) == Put(HeaderFold(seen), l)
  {
    assert (seen + [l])[..|seen|] == seen;
  }

  /** The header loop of `run`: reads lines until an empty one or the end
      of the stream, and puts each line with a colon past its start. */
  method ReadHeaders(reader: Reader) returns (headers: map<string, string>)
    modifies reader
    ensures headers == HeaderFold(HeaderLines(old(reader.rest)).0)
    ensures reader.rest == HeaderLines(old(reader.rest)).1
  {
    headers := map[];
    ghost var start := reader.rest;
    ghost var seen: seq<string> := [];
    assert seen + HeaderLines(start).0 == HeaderLines(start).0;
    while true
      invariant headers == HeaderFold(seen)
      invariant HeaderLines(start).0 == seen + HeaderLines(reader.rest).0
      invariant HeaderLines(start).1 == HeaderLines(reader.rest).1
      decreases |reader.rest|
    {
      ghost var before := reader.rest;
      var line := reader.ReadLine();
      if line.None? || line.value == "" {
        assert HeaderLines(before) == ([], reader.rest);
        assert seen + [] == seen;
        break;
      }
      var l := line.value;
      var colon := IndexOf(l, ':');
      if colon.Some? && colon.value > 0 {
        var name := Trim(l[..colon.value]);
        var value := Trim(l[colon.value + 1..]);
        headers := headers[ToLower(name) := value];
      }
      assert headers == Put(HeaderFold(seen), l);
      FoldSnoc(seen, l);
      HeaderLinesStep(before, l, reader.rest);
      AppendAssoc(seen, [l], HeaderLines(reader.rest).0);
      seen := seen + [l];
    }
  }

  // ---------------------------------------------------------------------
  // The body

  function Zeros(m: nat): (r: string)
    ensures |r| == m && forall i :: 0 <= i < m ==> r[i] == '\0'
  {
    seq(m, _ => '\0')
  }

  /** How many characters the body loop takes from the stream. */
  function Consumed(input: string, n: int): (k: nat)
    ensures k <= |input|
    ensures n > 0 ==> k <= n
  {
    if n <= 0 then 0 else if n < |input| then n else |input|
  }

  /** `new String(bodyChars)` after the loop, or "" when the length is not
      positive. */
  function BodyOf(input: string, n: int): (body: string)
    ensures n <= 0 ==> body == ""
    ensures n > 0 ==> |body| == n
    ensures forall i :: 0 <= i < Consumed(input, n) ==> body[i] == input[i]
    ensures forall i :: Consumed(input, n) <= i < |body| ==> body[i] == '\0'
  {
    if n <= 0 then "" else input[..Consumed(input, n)] + Zeros(n - Consumed(input, n))
  }

  /** The body loop of `run`: a `char[n]` filled by `read` calls that may
      each deliver fewer characters than asked, until n characters have
      arrived or the stream ends. The counter never passes n; whatever was
      not delivered stays `'\0'`. */
  method ReadBody(reader: Reader, n: int) returns (body: string)
    requires n >= 0
    modifies reader
    ensures body == BodyOf(old(reader.rest), n)
    ensures reader.rest == old(reader.rest)[Consumed(old(reader.rest), n)..]
  {
    ghost var start := reader.rest;
    var bodyChars := new char[n](_ => '\0');
    if n > 0 {
      var read := 0;
      while read < n
        invariant 0 <= read <= n && read <= |start|
        invariant reader.rest == start[read..]
        invariant forall i :: 0 <= i < read ==> bodyChars[i] == start[i]
        invariant forall i :: read <= i < n ==> bodyChars[i] == '\0'
        decreases n - read
      {
        var r := reader.Read(bodyChars, read, n - read);
        if r == -1 {
          break;
        }
        read := read + r;
      }
      assert read == Consumed(start, n);
      body := bodyChars[..];
      assert forall i :: 0 <= i < n ==> body[i] == BodyOf(start, n)[i];
    } else {
      body := "";
    }
  }
}
