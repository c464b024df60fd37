# HTTPParser, modelled in Dafny

This project models `HTTPParser`, the request and response engine of
TinyJavaServer. A `WebThread` gives it one request on a `BufferedReader`
and the socket's `OutputStream`. `parseRequest` then:

- skips empty lines and splits the request line into method, target and an
  optional version;
- reads the header lines up to the blank line into a table, refusing a field
  name that ends in a space;
- answers an unknown method or a malformed request line with 400, and a
  malformed header section with 400;
- answers a known method other than GET and HEAD with 501;
- for GET and HEAD, resolves an origin-form or absolute-form target below
  `res/` (section 5.3 of RFC 7230), checks the version and, for HTTP/1.1,
  the `Host` field against the configured host and port;
- checks that the file exists and that its canonical path starts with the
  server root's canonical path, and answers 404, or 200 with the file (its bytes copied through a 16 KiB buffer for GET) or a
  generated directory listing.

Error pages are the server's HTML templates, preceded by a status line and
the `Server`, `Date`, `Connection`, `Content-Type` and `Content-Length`
lines.

Modules, in the order they build on each other:

- `JavaLang`: the `java.lang.String` operations the source relies on
  (`split` with and without a limit, `trim`, `replace`, `startsWith`,
  `Integer.parseInt`, decimal `toString`, `length()` in UTF-16 units).
- `JavaIo`: `java.io.File` path normalisation and `getName`, an abstract
  file system, and three small classes. `LineReader` stands for the
  `BufferedReader`, `FileInput` for the `FileInputStream`, and `OutStream`
  for the socket stream, which records every piece written.
- `Request`: the request line, the header section and `supportedHttpVersion`,
  as functions over the list of lines and a cursor.
- `Target`: `parseTargetResource` and `isValid`.
- `Render`: the text `printResponse` and `sendFile` write, and lemmas that
  read a written response back (head lines, `Content-Length`, body).
- `Wire`: what it means to read a response back. The head is the text up to
  the first empty line, split at line feeds. A field is the first line
  `name: value`. The body is what follows the empty line.
- `Dispatch`: which status `parseRequest` chooses, and when an exception
  escapes.
- `Parser`: the class `HttpParser` with the source's methods, written
  imperatively and each proved against the function that specifies it.

A null dereference or a number format exception that escapes
`parseRequest` is an outcome: `ParseRequest` returns it, and nothing has
been written when it escapes.

## Model

| member | source | states |
|---|---|---|
| `Parser.HttpParser.constructor` | src/HTTPParser.java:39-42 | the parser keeps the configured host and port |
| `Parser.HttpParser.IsSupported` | src/HTTPParser.java:230-237 | the search of the supported methods answers true exactly for GET and HEAD |
| `Parser.HttpParser.IsHttpMethod` | src/HTTPParser.java:239-248 | true exactly for the six methods answered with 501 and for the supported ones |
| `Parser.HttpParser.ParseRequestLine` | src/HTTPParser.java:382-407 | the request-line result and the lines consumed are those of `RequestLineStep`: leading empty lines skipped, end of stream where `readLine` returns null, malformed unless the line splits into 2 or 3 parts |
| `Parser.HttpParser.ParseAttributes` | src/HTTPParser.java:421-447 | reads up to and including the blank line; the table, the refusal and the end-of-stream case are those of `HeaderStep` |
| `Parser.HttpParser.RecordField` | src/HTTPParser.java:427-440 | one header line stores its trimmed value under its name (overwriting an earlier one) and sets the flag when the name ends in a space |
| `Parser.HttpParser.GetDirListing` | src/HTTPParser.java:340-357 | the accumulated page is the listing head, one item per entry in `listFiles` order, and the foot |
| `Parser.HttpParser.SendFile` | src/HTTPParser.java:281-324 | appends exactly the pieces of `SendFilePieces` to the stream |
| `Parser.HttpParser.SendDirectory` | src/HTTPParser.java:286-295 | for a directory: the type and length lines and, only for GET, the listing and a line end |
| `Parser.HttpParser.SendRegular` | src/HTTPParser.java:296-323 | for a regular file: the type, length and modification lines, then for GET the file's chunks and a line end |
| `Parser.HttpParser.SendBytes` | src/HTTPParser.java:309-318 | the copy loop writes the file's consecutive chunks of at most 16 KiB, in order, and nothing else |
| `Parser.HttpParser.PrintResponse` | src/HTTPParser.java:250-279 | appends `ResponsePieces`: the error text in one write, or the status and server lines followed by what `sendFile` writes |
| `Parser.HttpParser.ParseRequest` | src/HTTPParser.java:52-114 | the lines consumed and the response written are those of `Handle`; an escaping exception is returned and leaves the stream untouched |
| `JavaIo.LineReader.ReadLine` | src/HTTPParser.java:385-393 | the next line with the cursor advanced, or null once the stream is exhausted |
| `JavaIo.FileInput.Read` | src/HTTPParser.java:310-314 | fills the buffer from the next bytes, as many as fit or remain, and returns -1 at end of file |
| `JavaIo.OutStream.Write` | src/HTTPParser.java:315 | a write appends one piece to what the socket has received |
| `JavaIo.CollapseNoDouble` | src/HTTPParser.java:160 | a path without doubled slashes is left unchanged by `File` normalisation |
| `JavaIo.ChildName` | src/HTTPParser.java:352 | `getName` of an entry listed in a directory is the name it was listed under |
| `JavaLang.SplitLimit2` | src/HTTPParser.java:428 | `split(":", 2)` gives the whole line when it holds no colon, else the text before the first colon and the rest |
| `JavaLang.SplitJoin` | src/HTTPParser.java:395 | `split` of tokens joined by the separator gives the tokens back when the last is not empty |
| `JavaLang.SplitFirstToken` | src/HTTPParser.java:122 | the first token of `split` is a prefix of the text, followed by the separator or the end |
| `JavaLang.TrimPadded` | src/HTTPParser.java:435 | `trim` drops exactly the leading and trailing characters up to U+0020 |
| `JavaLang.NatTextRoundTrip` | src/HTTPParser.java:289 | the decimal text of a length is a non-empty run of digits whose value is the length |
| `JavaLang.ParseIntToString` | src/HTTPParser.java:127 | `parseInt` of the decimal text of a 32-bit integer gives that integer |
| `JavaLang.ReplaceAbsent` | src/HTTPParser.java:263-264 | `replace` leaves a text without an occurrence of the pattern unchanged |
| `JavaLang.ReplaceAfterPrefix` | src/HTTPParser.java:335 | `replace` leaves untouched a prefix that holds no first character of the pattern |
| `JavaLang.Utf16Length` | src/HTTPParser.java:289 | `length()` counts one or two UTF-16 units per character |
| `Request.RequestLineStep` | src/HTTPParser.java:382-407 | `parseRequestLine` as a function of the lines and the cursor; its meaning is stated by `FirstNonBlank`, `RequestLineAt`, `RequestLineEnd` and the three `RequestLineOf…`/`RequestLineOtherCounts` lemmas |
| `Request.HeaderMap` | src/HTTPParser.java:426-442 | the table `parseAttributes` fills from the header lines read; stated by `HeaderMapKeys`, `HeaderMapLastWins` and `HeaderSplit` |
| `Request.SupportedHttpVersion` | src/HTTPParser.java:116-135 | `supportedHttpVersion`; stated by `VersionRejections`, `HostAloneAccepted`, `HostWithPort`, `HostWithBadPortThrows` and `HostFieldAccepted` |
| `Request.FirstNonBlank` | src/HTTPParser.java:392-394 | the first non-empty line at or after the cursor, every line before it empty; or none, every remaining line empty |
| `Request.RequestLineAt` | src/HTTPParser.java:395-406 | with only empty lines before line `i`, the request line is line `i` split at spaces (malformed unless 2 or 3 parts) and the cursor moves past it |
| `Request.RequestLineEnd` | src/HTTPParser.java:385-394 | a stream of empty lines ends in a null dereference with every line consumed |
| `Request.RequestLineOfThree` | src/HTTPParser.java:400-404 | `method target version` gives those three fields |
| `Request.RequestLineOfTwo` | src/HTTPParser.java:400-403 | `method target` gives those two fields and no version |
| `Request.RequestLineOtherCounts` | src/HTTPParser.java:397-398 | a line of one token, or of four or more, is malformed |
| `Request.HeaderSplit` | src/HTTPParser.java:428-437 | the name and value recorded are the first token of `split(":", 2)` and the trimmed second token, or the empty value |
| `Request.HeaderLineParts` | src/HTTPParser.java:434-435 | `name:value` with a colon-free name records `name` with the trimmed value |
| `Request.HeaderLineWithoutColon` | src/HTTPParser.java:436-437 | a line without a colon records the whole line with the empty value |
| `Request.HeaderMapLastWins` | src/HTTPParser.java:435 | a name maps to the value of its last line |
| `Request.HeaderMapKeys` | src/HTTPParser.java:426-442 | the table's keys are exactly the names of the lines read |
| `Request.HasBadNameIff` | src/HTTPParser.java:429-433 | the flag is set exactly when some line read has a name ending in a space |
| `Request.FirstBlank` | src/HTTPParser.java:426 | the first empty line at or after the cursor, every line before it non-empty; or none |
| `Request.HeaderStep` | src/HTTPParser.java:421-447 | end of stream exactly when no empty line follows; otherwise it reads through the first empty line and refuses exactly when a name ends in a space, else gives the table of the lines read |
| `Request.HeaderStepAt` | src/HTTPParser.java:444-447 | with the blank line at `j`, the result is refused or the table of the lines before it, and the cursor moves past it |
| `Request.HeaderStepEnd` | src/HTTPParser.java:423-426 | a stream without a blank line ends in a null dereference with every line consumed |
| `Request.VersionRejections` | src/HTTPParser.java:116-134 | HTTP/1.0 is accepted; HTTP/1.1 without `Host` and every other version are refused; a missing version dereferences null |
| `Request.HostAloneAccepted` | src/HTTPParser.java:124-125 | HTTP/1.1 with `Host` equal to the configured host is accepted |
| `Request.HostWithPort` | src/HTTPParser.java:126-129 | HTTP/1.1 with `Host: host:q` is accepted exactly when `q` is the configured port |
| `Request.HostWithBadPortThrows` | src/HTTPParser.java:127 | a port that is not a 32-bit decimal throws `NumberFormatException` |
| `Request.HostFieldAccepted` | src/HTTPParser.java:119-130 | with a `Host` field split at every colon, HTTP/1.1 is accepted exactly when the first part is the configured host and either every later part is empty (with a non-empty host when there is a colon) or the second part is the decimal text of the configured port and every part after it is empty |
| `Request.AcceptedHostIsConfigured` | src/HTTPParser.java:119-130 | an accepted HTTP/1.1 request names the configured host, alone or followed by a colon, and a non-empty text after the first colon is the configured port |
| `Target.ParseTargetResource` | src/HTTPParser.java:150-184 | `parseTargetResource`; stated by `TargetIsOriginForm`, `AbsoluteFormStripped`, `OriginTargetFile` and `TargetFileUnderRoot` |
| `Target.IsValidAsWritten` | src/HTTPParser.java:191-202 | `isValid` as written: the file exists and its canonical path starts with the root's; see `SiblingDirectoryAccepted` |
| `Target.IsValid` | src/HTTPParser.java:191-202 | `isValid` as intended, the file inside the root directory; stated by `InsideRootComponents` and `IsValidStricter` |
| `Target.PortTextOf` | src/HTTPParser.java:151-152 | the port's decimal text spliced into the pattern is non-empty and holds no slash |
| `Target.BareFormHasNoScheme` | src/HTTPParser.java:164-169 | a target matched without the scheme does not start with `http://` |
| `Target.SchemeFormCovered` | src/HTTPParser.java:161-166 | a matching target that starts with `http://` matched the form with the scheme |
| `Target.AfterHostOf` | src/HTTPParser.java:164-169 | after stripping the authority, what remains is the path, preceded by `:port` when one was given |
| `Target.DropPortOf` | src/HTTPParser.java:171-177 | stripping `:port` leaves the path from its first slash |
| `Target.AbsoluteFormStripped` | src/HTTPParser.java:161-178 | an absolute-form target resolves to its path after the authority |
| `Target.TargetIsOriginForm` | src/HTTPParser.java:150-184 | a target resolves exactly when it is in origin or absolute form, and what is resolved is an origin-form path |
| `Target.TargetFileUnderRoot` | src/HTTPParser.java:160 | every resolved file is spelled below `res/` |
| `Target.OriginTargetFile` | src/HTTPParser.java:159-160 | an origin-form path without doubled or trailing slashes resolves to `res` followed by the path |
| `Target.IsValidStricter` | src/HTTPParser.java:191-202 | every file the corrected check accepts is accepted by the check as written |
| `Target.InsideRootComponents` | src/HTTPParser.java:191-202 | the corrected check accepts exactly the paths whose leading components are those of the root |
| `Target.SiblingPathShape` | src/HTTPParser.java:159-160 | the target `/../res2/secret` is an origin-form path without spaces, doubled slashes or a trailing slash |
| `Target.SiblingTarget` | src/HTTPParser.java:159-160 | the target `/../res2/secret` names the file `res/../res2/secret` |
| `Target.SiblingDirectoryAccepted` | src/HTTPParser.java:197 | with the root at `/srv/res`, a file in `/srv/res2` passes the check as written and fails the corrected one |
| `Wire.ReadBack` | src/HTTPParser.java:365-368 | header lines joined by line feeds and followed by an empty line read back as those lines, and the rest as the body |
| `Wire.FieldAt` | src/HTTPParser.java:367 | a field is the value of the first line carrying its name |
| `Render.ServerInfo` | src/HTTPParser.java:220-228 | the `Server`, `Date` and `Connection` lines; read back by `ErrorPageRead`, `OkFileRead` and `OkDirRead` |
| `Render.FormatResponse` | src/HTTPParser.java:359-371 | `formatResponse`; read back by `ErrorPageRead` |
| `Render.ErrorText` | src/HTTPParser.java:250-271 | the one print of an error response; read back by `BadRequestRead`, `NotImplementedRead` and `NotFoundRead` |
| `Render.ResponsePieces` | src/HTTPParser.java:250-279 | everything `printResponse` writes; what `Parser.HttpParser.PrintResponse` is proved to write, read back by `DirPieces`, `OkDirRead` and `OkFileRead` |
| `Render.SendFilePieces` | src/HTTPParser.java:281-324 | everything `sendFile` writes; what `Parser.HttpParser.SendFile` is proved to write, read back by `OkDirRead` and `OkFileRead` |
| `Render.DirListing` | src/HTTPParser.java:340-357 | the page `getDirListing` builds; what `Parser.HttpParser.GetDirListing` is proved to build, described by `ChildEntry` and `ListingItemsEntry` |
| `Render.IsHtml` | src/HTTPParser.java:326-329 | `isHtml`; stated by `IsHtmlChild` and `ListFilesNames` |
| `Render.RelativePath` | src/HTTPParser.java:331-338 | `relativePath`; stated by `RootPathIsRes` and `RelativeUnderRoot` |
| `Render.ErrorPageRead` | src/HTTPParser.java:359-371 | a status line and `formatResponse` read back as six head lines, the template's length as `Content-Length`, and the template as body |
| `Render.BadRequestRead` | src/HTTPParser.java:254-258 | the 400 page reads back with its status line, the length of the template, and the template followed by the line end of `println` |
| `Render.NotFoundRead` | src/HTTPParser.java:267-271 | the 404 page reads back likewise |
| `Render.NotImplementedRead` | src/HTTPParser.java:259-266 | the 501 page echoes the method in its status line; the body is the template with every `method` replaced, but the announced length is that of the template before replacement |
| `Render.IsHtmlChild` | src/HTTPParser.java:326-329 | a listed entry is served as HTML exactly when its name ends in `.html` |
| `Render.RootPathIsRes` | src/HTTPParser.java:332-334 | the server root `res/` is the file `res` |
| `Render.RelativeUnderRoot` | src/HTTPParser.java:331-338 | a file under the root, whose rest does not repeat the root's path, is shown as that rest |
| `Render.ListFilesNames` | src/HTTPParser.java:342-352 | `listFiles` gives one entry per listed name, in order, whose `getName` is that name and which is shown as HTML exactly when the name ends in `.html` |
| `Render.ChildEntry` | src/HTTPParser.java:351-352 | an item links to the entry's path relative to the root and shows its name |
| `Render.ListingItemsEntry` | src/HTTPParser.java:350-353 | the `i`-th entry's item sits between the items before and after it |
| `Render.Chunks` | src/HTTPParser.java:311-316 | the copy loop's chunks are non-empty and at most 16 KiB |
| `Render.ChunksCount` | src/HTTPParser.java:314-316 | a file takes the ceiling of its length over 16 KiB reads |
| `Render.ChunksFlatten` | src/HTTPParser.java:314-316 | the chunks put together are the file |
| `Render.FileBodyBytes` | src/HTTPParser.java:314-319 | the bytes written after the head are the file's bytes |
| `Render.OkFileRead` | src/HTTPParser.java:296-321 | a 200 for a regular file reads back as seven head lines announcing its length and type; GET then writes the file's chunks and a line feed, so its raw bytes are exactly the file's, and HEAD writes nothing after the head |
| `Render.DirPieces` | src/HTTPParser.java:272-295 | a 200 for a directory is written in two pieces: the status and server lines, then the listing's head and, for GET, the listing |
| `Render.OkDirRead` | src/HTTPParser.java:286-295 | a 200 for a directory reads back with the listing's length and HTML type announced, and the listing as body exactly for GET |
| `Dispatch.Handle` | src/HTTPParser.java:52-114 | `parseRequest`'s outcome and the lines it consumes; stated by `EarlyBadRequest`, `HeadersReadThrough`, `EmptyStreamAborts`, `NullAbortCauses`, `SimpleRequest` and `SiblingServed` |
| `Dispatch.Decide` | src/HTTPParser.java:69-111 | the status chosen once the headers are read; stated by `NotImplementedUnchecked`, `BadRequestIff`, `NotFoundIff`, `OkIff`, `AbortIff` and `OkServesRootPrefix` |
| `Dispatch.DecideCorrected` | src/HTTPParser.java:93-98 | the same choice with the corrected file check; stated by `OkIffCorrected`, `NotFoundIffCorrected`, `CorrectionOnlyRefuses` and `OkServesInsideRoot` |
| `Dispatch.EarlyBadRequest` | src/HTTPParser.java:58-61 | a malformed request line or an unknown method gets 400 before any header line is read |
| `Dispatch.HeadersReadThrough` | src/HTTPParser.java:63-68 | otherwise the whole header section is read, and a refused one gets 400 |
| `Dispatch.NotImplementedUnchecked` | src/HTTPParser.java:107-111 | 501 exactly for a recognised method other than GET and HEAD, whatever the target, version and headers |
| `Dispatch.TargetBeforeVersion` | src/HTTPParser.java:78-84 | a malformed target gets 400 before the version is looked at |
| `Dispatch.BadRequestIff` | src/HTTPParser.java:78-91 | for GET and HEAD, 400 exactly when the target is malformed or the version check refuses |
| `Dispatch.NotFoundIff` | src/HTTPParser.java:93-98 | 404 exactly when everything but the file check as written passes |
| `Dispatch.OkIff` | src/HTTPParser.java:93-104 | 200 exactly when GET or HEAD names a well-formed target, the version passes and the file passes the check as written |
| `Dispatch.NotFoundIffCorrected` | src/HTTPParser.java:93-98 | with the corrected file check, 404 exactly when everything but that check passes |
| `Dispatch.OkIffCorrected` | src/HTTPParser.java:93-104 | with the corrected file check, 200 exactly when the file also lies inside the root directory |
| `Dispatch.CorrectionOnlyRefuses` | src/HTTPParser.java:93-98 | the corrected check changes an outcome only from 200 to 404 |
| `Dispatch.AbortIff` | src/HTTPParser.java:87 | the version check's exception escapes exactly for GET and HEAD with a well-formed target |
| `Dispatch.DecideNullCause` | src/HTTPParser.java:116-117 | after the headers, a null dereference means a GET or HEAD without a version |
| `Dispatch.OkServesRootPrefix` | src/HTTPParser.java:95-103 | what 200 serves, for GET or HEAD, is an existing file spelled below `res/` whose canonical path starts with the root's canonical path |
| `Dispatch.OkServesInsideRoot` | src/HTTPParser.java:95-103 | with the corrected check, what 200 serves is an existing file spelled below `res/` whose canonical path lies inside the root directory |
| `Dispatch.EmptyStreamAborts` | src/HTTPParser.java:385-394 | a stream of nothing but empty lines ends in a null dereference |
| `Dispatch.NullAbortCauses` | src/HTTPParser.java:52-114 | a null dereference escapes only at the end of the stream, before the request line or the blank line, or for a version-less GET or HEAD |
| `Dispatch.SimpleRequest` | src/HTTPParser.java:52-104 | an HTTP/1.0 GET or HEAD of a plain path with no header lines serves `res` followed by the path when that file passes the check as written, else 404 |
| `Dispatch.SiblingServed` | src/HTTPParser.java:52-104 | with the root at `/srv/res`, `GET /../res2/secret HTTP/1.0` is answered with 200 and the file `res/../res2/secret` of the sibling directory |
| `Dispatch.SiblingRefusedCorrected` | src/HTTPParser.java:93-98 | the corrected check answers the same request with 404 |

## Left out

- `WebServer.java` and `WebThread.java` are not part of this model: the accept loop, the threads and the handling of the exceptions `parseRequest` lets escape.
- The clock: `getTime` and `SimpleDateFormat` are not modelled. The date in the `Date` line is the parameter `date`, and the `Last-Modified` text is the file system's `lastModified` text.
- `readFile` of the HTML templates: their texts are the parameter `Templates`.
- `IOException` from the disk or the socket, `flush`, and the character encoding of `PrintWriter`: text is written as characters, and `println` ends a line with a line feed.
- `BufferedReader` line splitting: the request arrives already divided into lines, so `\r\n` handling is outside the model.
- `java.io.File` queries (`exists`, `isDirectory`, `getCanonicalPath`, `listFiles`, `lastModified`) are fields of an abstract file system; `length` is the number of bytes of the field `content`. Symbolic links, and the null `listFiles` returns for an unreadable directory, are not modelled.
- `JavaLang.ParseInt`: accepts ASCII digits only, whereas `Integer.parseInt` also accepts other Unicode decimal digits.
- `Target.ParseTargetResource`: requires the configured host to hold no regular-expression metacharacter, so that the pattern built from it matches the host literally, and no colon. With a host such as `http:`, the form without the scheme also matches `http://x`, and the `substring` that strips the authority then throws `StringIndexOutOfBoundsException`; that exception is not modelled.
- `Parser.HttpParser.ParseRequest`: requires the same of the configured host, for the same reasons.
- `Parser.HttpParser.constructor`: requires the port to be a 32-bit integer, Java's `int`.
- The test `method.equals("GET") || method.equals("HEAD")` inside the supported branch always holds there, so the model has no branch for its failing case.
- `Render.RelativeUnderRoot`: states the relative path only when the root's canonical path does not occur again in the rest. `String.replace` removes every occurrence, and `RelativePath` models that.
- `Render.NotImplementedRead`: stated only for a method and a date without the letter `m`, where `replace` cannot alter the status line or the header lines.
- `JavaIo.FileInput.Read`: fills as much of the buffer as the file has left, whereas `InputStream.read` may return fewer bytes. The chunks the model writes are one schedule the source allows; the bytes that reach the socket are the same for every schedule.
- `Render.ChunksCount`: the number of reads holds for that full-buffer schedule only.
- `Parser.HttpParser.SendBytes`: writes the chunks of the full-buffer schedule; a shorter read would split the same bytes into more writes. The file is read from a byte sequence that does not change during the copy, so a file that grows or shrinks while being sent is not modelled.
- `Parser.HttpParser.GetDirListing`: each item is computed by the function `ListingEntry`, not by statements in the loop.

## Findings

| source | as written | input that shows it | evidently intended | confidence | as-written member | corrected member |
|---|---|---|---|---|---|---|
| src/HTTPParser.java:197 | `isValid` accepts a file when its canonical path starts with the root's canonical path, compared character by character | root `/srv/res`; the target `/../res2/secret` resolves to `res/../res2/secret`, whose canonical path `/srv/res2/secret` starts with `/srv/res` | accept only the root itself and paths below `root/`, comparing whole path components | not executed | `Target.SiblingDirectoryAccepted` | `Target.InsideRootComponents` |

`Dispatch.Decide`, and so `Handle` and `ParseRequest`, follow the source and use the check as written, `Target.IsValidAsWritten`; `Dispatch.SiblingServed` shows the sibling file served. `Dispatch.DecideCorrected` is the choice with the corrected check, `Target.IsValid`, and `Dispatch.SiblingRefusedCorrected` shows it refusing that request.
