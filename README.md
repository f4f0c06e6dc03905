# RunnerServer request handling, modelled in Dafny

RunnerServer is a small HTTP/1.1 file server. Each accepted connection is
handled by `ClientHandler.run`, which does the following:

- reads the request line and splits it on single spaces;
- answers 400 to a line with fewer than three fields;
- folds the header lines into a `HashMap`, with keys lower-cased and
  trimmed and values trimmed;
- dispatches on the method, matching it without regard to case:
  - `GET` goes through a path sanitiser that confines requests to the
    `www` directory (403 outside it, 200 for a regular file, 404
    otherwise);
  - `POST` reads a body of `Content-Length` characters and answers with an
    HTML page that embeds the escaped body;
  - every other method gets 405;
- writes one log line per answered request.

This project models that handler and proves properties of it. The modules
follow the source's own parts:

| module | file | what it holds |
|---|---|---|
| `Wrappers` | wrappers.dfy | `Option` |
| `Text` | text.dfy | `indexOf`, `String.split` on one character (trailing empty pieces dropped), `trim`, ASCII `toLowerCase`/`equalsIgnoreCase`, `Integer.toString`/`parseInt` |
| `Utf8` | utf8.dfy | bytes, `getBytes("UTF-8")`, ISO-8859-1 read-back |
| `JavaPaths` | paths.dfy | `java.nio.file.Path` as an absolute flag plus name segments: parsing, `resolve`, `normalize`, element-wise `startsWith`, and the sanitiser of `handleGet` |
| `Html` | html.dfy | `escapeHtml` as three chained `String.replace` calls |
| `Wire` | wire.dfy | `writeStatusOnly`, `respondSimple`, `writeResponse`, the log line format, and a minimal client that reads a response back |
| `Request` | request.dfy | a `Reader` class over the unread input, with `readLine` and short-count `read`; the header loop and the body loop as methods with loop invariants |
| `Handler` | handler.dfy | `handleGet`, `handlePost`, the dispatch, and `run` as the method `Serve`, proved equal to the function `Exchange` |

The two loops in `run` are imperative, so `Request.ReadHeaders` and
`Request.ReadBody` are methods:

- `ReadHeaders` updates a `map`. Its loop invariant ties the map to the
  specification function `HeaderFold` of the lines read so far.
- `ReadBody` fills a `char` array. `Reader.Read` may deliver any positive
  number of characters up to the number asked for, so the loop is proved
  for every way the stream can split its data.
- `Handler.Serve` calls both. Its postcondition says that the outcome and
  the unread input equal `Exchange`, and the properties are proved about
  `Exchange` as lemmas.

The rest is pure: functions plus lemmas.

The code is followed wherever a plain description of the server differs
from it:

- **The body is padded, not shortened.** When the stream ends early, the
  body still holds exactly `Content-Length` characters. The ones that never
  arrived stay `'\0'` (RunnerServer.java:127-136). The body is not cut to
  the characters that arrived.
- **A negative `Content-Length` ends the connection.** `new char[n]` throws
  (RunnerServer.java:127). Only `IOException` is caught, so nothing is
  written and nothing is logged. The model records this as `Crashed`.
- **`/.` is let through.** It normalizes to `www` itself, which passes
  `startsWith(www)`. The handler then answers 404 because `www` is a
  directory (`Handler.DotIsRoot`). So `www` itself is not rejected with 403.
- **Some paths throw instead of getting an answer.**
  - A raw path made only of `?` makes `split("\\?")` return an empty array,
    and indexing it throws.
  - An empty path makes `substring(1)` throw.
  - A NUL character makes `Path.resolve` throw `InvalidPathException`.

  In every one of these cases the handler writes and logs nothing. These
  are `None` results of `HandleGet` and `Crashed` outcomes
  (`Handler.GetCrashes`).

## Model

| member | source | states |
|---|---|---|
| Text.IndexOf | RunnerServer.java:109 | `indexOf(':')`: None exactly when the character is absent; otherwise the index holds it and no earlier position does |
| Text.JavaSplit | RunnerServer.java:95 | `split(" ")`: the pieces of the full split with trailing empty pieces dropped, `[s]` when there is no separator, and no piece holds the separator |
| Text.JoinSplit | RunnerServer.java:95 | no text is lost in splitting: joining the pieces with the separator gives the input back |
| Text.JavaSplitFirst | RunnerServer.java:154 | the first piece of a split is the text before the first separator, and an empty array arises only when that text is empty |
| Text.TrimSlice | RunnerServer.java:111-112 | `trim` returns a slice of its input with no character at or below U+0020 at either end |
| Text.ToLower | RunnerServer.java:113 | lower-casing keeps the length, leaves no upper-case letter and changes nothing else |
| Text.EqualsIgnoreCaseLower | RunnerServer.java:118-120 | `equalsIgnoreCase` holds exactly when both strings lower-case to the same text |
| Text.ParseIntToString | RunnerServer.java:124 | `Integer.parseInt` reads back every `int` that `Integer.toString` writes |
| Text.IntToStringPlain | RunnerServer.java:63-65 | a formatted integer is non-empty and holds no space, CR or LF |
| Utf8.EncodeConcat | RunnerServer.java:206 | `getBytes("UTF-8")` of a concatenation is the concatenation of the encodings |
| Utf8.Latin1Encode | RunnerServer.java:218 | ASCII text encodes one byte per character, and those bytes read back as the same text |
| JavaPaths.ParsePath | RunnerServer.java:156 | getting a path from text fails exactly on a NUL; otherwise all names are non-empty and free of `/`, and a leading `/` makes the path absolute |
| JavaPaths.ParseRender | RunnerServer.java:156 | parsing is the inverse of writing a path out: every path of non-empty, slash-free, NUL-free names, written as an optional leading `/` and the names joined by `/`, parses back to exactly that path |
| JavaPaths.NormalizeIsNormal | RunnerServer.java:156 | `normalize` leaves no `.`, puts every `..` before all other names, and leaves no `..` under the root |
| JavaPaths.NormalizeIdempotent | RunnerServer.java:156 | normalizing twice is normalizing once |
| JavaPaths.NormalizeFromNoClimb | RunnerServer.java:156 | without `..`, normalizing only removes `.` names |
| JavaPaths.NormalizeFromConcat | RunnerServer.java:156 | normalizing a concatenation is normalizing the second part from the result of the first |
| JavaPaths.StripQueryPrefix | RunnerServer.java:154 | `split("\\?")[0]` keeps the text before the first `?`, and fails only when that text is empty |
| JavaPaths.SandboxPath | RunnerServer.java:156-157 | resolving the path after its first character fails exactly when that part holds a NUL |
| JavaPaths.SandboxConfined | RunnerServer.java:156-160 | a path is let through exactly when its normalized file is under `www` (relative, first name `www`) with no `.` or `..` left in it |
| JavaPaths.SandboxAbsoluteForbidden | RunnerServer.java:156-160 | an absolute override (a second `/` right after the first) is always refused |
| JavaPaths.SandboxNoClimb | RunnerServer.java:156-160 | a relative path with no `..` is let through and names the file under `www` with its `.` names removed |
| JavaPaths.SandboxClimbOut | RunnerServer.java:156-160 | a relative path starting with `..` cancels `www` itself: its target is the rest of the path normalized on its own, with no `www` in front |
| JavaPaths.ParseThreeNames | RunnerServer.java:156 | three plain names joined by `/` parse to a relative path of exactly those names |
| Html.EscapeHtmlCharwise | RunnerServer.java:190-193 | the three chained replacements, `&` first, are the same as replacing each special character by its entity |
| Html.UnescapeEscape | RunnerServer.java:190-193 | undoing the replacements in reverse order, `&amp;` last, recovers the input |
| Html.EscapeHtmlInjective | RunnerServer.java:190-193 | different inputs escape to different outputs |
| Html.EscapeHtmlSafe | RunnerServer.java:190-193 | the output has no `<` or `>`, and every `&` in it begins `&amp;`, `&lt;` or `&gt;` |
| Html.EscapeHtmlLength | RunnerServer.java:190-193 | the output is longer than the input by 4 per `&` and 3 per `<` or `>` |
| Wire.WriteResponseFraming | RunnerServer.java:215-221 | a client reads back the six header lines in order, the blank line, and exactly the body bytes, which `Content-Length` counts; it also reads back the status code sent |
| Wire.WriteResponseType | RunnerServer.java:215-221 | a client reading the `Content-Type` line gets the bytes of the type that was passed in |
| Wire.StatusOnlyFraming | RunnerServer.java:204-208 | the status-only response is a status line, `Content-Length: 0` and `Connection: close`, then a blank line; it reads back with an empty body and the code sent |
| Wire.LogLineFields | RunnerServer.java:63-65 | a log line ends with a line feed and holds the timestamp's fields, then the address, method, path and status as one field each |
| Request.NextLineSplits | RunnerServer.java:90 | `readLine` returns the text before the first LF, CR or CR LF and consumes that terminator |
| Request.LineSplitUnique | RunnerServer.java:90 | conversely, a line followed by its terminator is read as exactly that line |
| Request.Reader.ReadLine | RunnerServer.java:90 | returns null exactly at the end of the stream; otherwise returns NextLine of the unread text and leaves what follows it |
| Request.Reader.Read | RunnerServer.java:131 | returns -1 at the end of the stream; otherwise copies between 1 and `len` of the next characters into `buf[off..]`, changes nothing else in `buf`, and consumes them |
| Request.HeaderLinesOfText | RunnerServer.java:108 | header lines sent with CR LF endings and closed by a blank line are read back as sent, and the text after the blank line is left unread |
| Request.HeaderLinesToEnd | RunnerServer.java:108 | without a blank line, the header block runs to the end of the stream |
| Request.LastWins | RunnerServer.java:108-115 | the value stored for a key is the one from the last line with that key |
| Request.StoredKeys | RunnerServer.java:108-115 | a key is stored exactly when some line, with its first `:` past the line's start, has it |
| Request.PutOthers | RunnerServer.java:113 | storing one line leaves every entry of another key unchanged |
| Request.StoredShape | RunnerServer.java:111-113 | every stored key is trimmed with no upper-case letter, and every stored value is trimmed |
| Request.ReadHeaders | RunnerServer.java:106-115 | the header loop stops at the first empty line or at the end of the stream; the map it builds is HeaderFold of those lines, and the reader is left just after them |
| Request.ContentLengthOfLine | RunnerServer.java:108-125 | a line naming `Content-Length` in any case, with blanks around the name and around a printed `int`, announces that number when no later line names the header again |
| Request.ContentLengthLast | RunnerServer.java:121-125 | the length comes from the last `Content-Length` line, in any case |
| Request.NoContentLength | RunnerServer.java:121-125 | without such a line, the length is 0 |
| Request.BodyOf | RunnerServer.java:127-136 | for n > 0 the body has exactly n characters: the characters that arrived, in order, then `'\0'`; for n <= 0 it is empty |
| Request.ReadBody | RunnerServer.java:127-136 | the array loop yields BodyOf, never reads past n, and consumes exactly the characters it stores, however short each `read` is |
| Handler.ResponseFraming | RunnerServer.java:204-221 | every response the handler writes reads back with its status code and exactly its body |
| Handler.GetCrashes | RunnerServer.java:154-156 | handleGet throws exactly when the path before `?` is empty or holds a NUL after its first character |
| Handler.GetByRequestedPath | RunnerServer.java:154-155 | handleGet depends on the raw path only through the text before `?`, with `/` mapped to `/index.html` |
| Handler.GetIgnoresQuery | RunnerServer.java:154 | a query string changes nothing |
| Handler.GetRootIsIndex | RunnerServer.java:154-155 | `/?x`, `/` and `/index.html` are answered alike |
| Handler.GetDecision | RunnerServer.java:156-170 | 403 exactly when the resolved file is not confined to `www`; otherwise 200 with the probed type and the file's bytes when it is a regular file, else the fixed 404 page |
| Handler.GetServesConfinedFiles | RunnerServer.java:157-165 | every 200 answer to a GET carries the whole contents of a regular file confined to `www` |
| Handler.GetRegularFileBody | RunnerServer.java:161-165 | a client reads back exactly the file's bytes and status 200 |
| Handler.GetAbsoluteForbidden | RunnerServer.java:156-159 | absolute overrides are refused |
| Handler.EtcPasswdForbidden | RunnerServer.java:156-159 | `//etc/passwd` gets 403 |
| Handler.GetClimbOutForbidden | RunnerServer.java:156-159 | a `..` escape that does not walk back into `www` is refused |
| Handler.ParentForbidden | RunnerServer.java:156-159 | `/..` gets 403 |
| Handler.SiblingForbidden | RunnerServer.java:156-159 | `/../wwwx/a` gets 403: the prefix test compares names, not characters |
| Handler.DotIsRoot | RunnerServer.java:156-170 | `/.` passes the check as `www` itself and, `www` being a directory, gets 404 |
| Handler.GetFileType | RunnerServer.java:195-202 | the client of a GET for a regular file reads as its `Content-Type` the ISO-8859-1 reading of the UTF-8 bytes of the probed type, or of `application/octet-stream` when the probe gives none; for an ASCII type that is the type itself |
| Handler.HandlePost | RunnerServer.java:173-187 | POST always answers 200 with an HTML page |
| Handler.EchoIff | RunnerServer.java:175-186 | the echo page is chosen exactly when the raw path, query included, equals `/echo` ignoring case |
| Handler.PostPageRoundTrip | RunnerServer.java:176-184 | the body embedded in the page is safe escaped text, and unescaping it gives back the request body |
| Handler.PostPageInjective | RunnerServer.java:176-184 | different bodies give different pages |
| Handler.Serve | RunnerServer.java:83-143 | one connection, step by step, has the outcome and leaves the unread input that Exchange gives |
| Handler.ClosedIff | RunnerServer.java:90-94 | the connection is closed unanswered exactly when the first line is missing or empty |
| Handler.MalformedIsBadRequest | RunnerServer.java:95-100 | fewer than three fields get the 400 "Malformed request line" page, logged with `-` as method and path |
| Handler.LogRecordsRequest | RunnerServer.java:101-143 | with three or more fields, the log records the method and raw path exactly as sent |
| Handler.ExtraFieldsIgnored | RunnerServer.java:101-103 | the version and any further fields do not affect the outcome |
| Handler.AnswerCodes | RunnerServer.java:95-188 | every answer is 200, 400, 403, 404 or 405 |
| Handler.LoggedStatusIsSent | RunnerServer.java:117-143 | the status in the log line is the status a client reads from the response |
| Handler.DispatchByMethod | RunnerServer.java:117-141 | GET and POST are matched in any case; only POST reads past the headers, taking exactly the body's characters; any other method gets a 405 status-only answer |
| Handler.NegativeLengthCrashes | RunnerServer.java:127 | a POST with a negative `Content-Length` ends in an exception, with nothing written |

## Left out

- Sockets, streams, the accept loop, the thread pool and shutdown
  (RunnerServer.java:42-60, 83-87, 145-149) are networking and
  concurrency. The input is a string and the output is a value.
- The log file is left out: the `synchronized` append (RunnerServer.java:66-72)
  is mutual exclusion plus file I/O. Only the line's format is modelled.
- The filesystem queries are a parameter. `Files.exists`, `isDirectory`,
  `readAllBytes` and `probeContentType` become the map `FileSystem` from
  normalized paths to regular files (bytes plus probed type) or
  directories. Symbolic links and the `IOException`s of `readAllBytes` and
  `probeContentType` are not modelled.
- The clocks are parameters. `date` is the RFC 1123 text of the `Date`
  header and `ts` is the log timestamp.
- The request stream is taken as already decoded text. The charset
  decoding of `InputStreamReader` is not modelled. Responses are encoded
  as UTF-8 from Unicode scalar values. Unpaired UTF-16 surrogates
  (replaced by `?` in Java) are not modelled.
- `toLowerCase(Locale.ROOT)` and `equalsIgnoreCase` are modelled on ASCII
  letters only, and `parseInt` on ASCII digits only. Non-ASCII case
  mappings and non-ASCII digits are left out. `trim` is modelled in full:
  it removes every character at or below U+0020 from both ends.
- The platform is taken to be Unix, with a UTF-8 native path encoding
  (`sun.jnu.encoding`) and a default format locale whose digits are the
  ASCII ones. `%n` in the log format is a line feed. Paths follow the Unix
  file system's rules: `/` is the only separator, and NUL is the only
  character a path may not hold. Under a native encoding that cannot
  represent some character (ASCII under the C locale, say), `Path.resolve`
  also throws `InvalidPathException` for that character, so a request such
  as `GET /é` writes and logs nothing, where the model answers 404.
  Under a format locale with other digits (`fa-IR`, say), `%d` in the
  status line, the `Content-Length` line and the log line prints those
  digits, where the model prints ASCII ones.
- Request.BodyOf: lengths count Unicode scalar values, not the UTF-16 code
  units Java's `char` holds. `Content-Length` and `read` count code units,
  so a character outside the Basic Multilingual Plane counts 2 in Java and
  1 here. The two agree on text within the BMP. A lone surrogate read
  from half such a character, which `getBytes` turns into `?`, is not
  modelled.
- Handler.Serve: `new char[n]` for a large `n` throws `OutOfMemoryError`.
  HotSpot always refuses `n = Integer.MAX_VALUE`, and the limit below that
  depends on the heap. Like the negative case, the error escapes
  `catch (IOException)`, so nothing is written or logged, but the model
  answers 200. Java strings are also limited to an `int` length, which
  `escapeHtml` of a very large body can exceed (another
  `OutOfMemoryError`). Memory is not modelled, because its limit is a
  property of the running VM, not of the code.
- `escapeHtml(null)` is not modelled: Dafny strings are never null, and
  the handler always passes a non-null body.
- `BufferedReader`'s lazy skipping of the LF after a CR is modelled as
  consuming CR LF at once. Both give the same lines on a whole input.
- Handler.ResponseFraming: requires the response to fit. Bodies longer than
  `Integer.MAX_VALUE` bytes, which Java cannot allocate, are excluded, as
  are header fields holding a CR.
- Handler.LoggedStatusIsSent: requires a client address without spaces
  (true of textual IP addresses) and, like ResponseFraming, a response
  that fits.
- Request.Reader.Read: `len == 0` returns 0 and changes nothing, as in
  Java. The handler never asks for zero characters.
