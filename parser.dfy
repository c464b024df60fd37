/**
 * `HTTPParser` itself: the object a `WebThread` creates with the server's
 * host and port, whose methods read the request from a `BufferedReader`
 * line by line and write the response to the socket piece by piece. Each
 * method is proved against the function of `Request`, `Render` or
 * `Dispatch` that says what it computes.
 */
module Parser {
  import opened JavaLang
  import opened JavaIo
  import opened Request
  import opened Target
  import opened Render
  import opened Dispatch

  class HttpParser {
    const supportedMethods: seq<string> := ["GET", "HEAD"]
    const notImplementedMethods: seq<string> := ["PUT", "POST", "DELETE", "CONNECT", "OPTIONS", "TRACE"]
    const host: string
    const port: int

    constructor (host: string, port: int)
      requires IsInt32(port)
      ensures this.host == host && this.port == port
    {
      this.host := host;
      this.port := port;
    }

    // -------------------------------------------------------- methods

    /** `isSupported`: a linear search of the supported methods. */
    method IsSupported(m: string) returns (r: bool)
      ensures r == Supported(m)
    {
      var i := 0;
      while i < |supportedMethods|
        invariant 0 <= i <= |supportedMethods|
        invariant forall k :: 0 <= k < i ==> supportedMethods[k] != m
      {
        if m == supportedMethods[i] {
          return true;
        }
        i := i + 1;
      }
      return false;
    }

    /** `isHTTPMethod`: one of the methods answered with 501, or a supported one. */
    method IsHttpMethod(m: string) returns (r: bool)
      ensures r == Recognized(m)
    {
      var i := 0;
      while i < |notImplementedMethods|
        invariant 0 <= i <= |notImplementedMethods|
        invariant forall k :: 0 <= k < i ==> notImplementedMethods[k] != m
      {
        if m == notImplementedMethods[i] {
          return true;
        }
        i := i + 1;
      }
      r := IsSupported(m);
    }

    // -------------------------------------------------------- reading

    /**
     * `parseRequestLine`: skip the empty lines, then split the first other
     * line at its spaces. Reads exactly the lines `RequestLineStep` says.
     */
    method ParseRequestLine(inp: LineReader) returns (r: Parsed<BasicRequest>)
      requires inp.Valid()
      modifies inp
      ensures inp.Valid()
      ensures (r, inp.pos) == RequestLineStep(inp.lines, old(inp.pos))
    {
      ghost var ls := inp.lines;
      ghost var start := inp.pos;
      var req := inp.ReadLine();
      while req.Some? && req.value == ""
        invariant inp.Valid() && inp.lines == ls && start <= inp.pos
        invariant req.Some? ==> start < inp.pos && ls[inp.pos - 1] == req.value && AllBlank(ls, start, inp.pos - 1)
        invariant req.None? ==> inp.pos == |ls| && AllBlank(ls, start, inp.pos)
        decreases |ls| - inp.pos, if req.Some? then 1 else 0
      {
        req := inp.ReadLine();
      }
      if req.None? {
        RequestLineEnd(ls, start);
        return EndOfStream;
      }
      RequestLineAt(ls, start, inp.pos - 1);
      var parts := Split(req.value, ' ');
      if |parts| != 2 && |parts| != 3 {
        return Malformed;
      }
      var version := if |parts| == 3 then Some(parts[2]) else None;
      r := Parsed(BasicRequest(parts[0], parts[1], version));
    }

    /**
     * `parseAttributes`: read up to the blank line, recording each field in
     * the table and noting a name that ends in a space. Reads exactly the
     * lines `HeaderStep` says, and answers what it says.
     */
    method ParseAttributes(inp: LineReader) returns (r: Parsed<map<string, string>>)
      requires inp.Valid()
      modifies inp
      ensures inp.Valid()
      ensures (r, inp.pos) == HeaderStep(inp.lines, old(inp.pos))
    {
      var result: map<string, string> := map[];
      ghost var ls := inp.lines;
      ghost var start := inp.pos;
      ghost var done := inp.pos;
      var line := inp.ReadLine();
      var invalid := false;
      while line.Some? && line.value != ""
        invariant inp.Valid() && inp.lines == ls
        invariant start <= done <= |ls|
        invariant NoBlank(ls, start, done)
        invariant result == HeaderMap(ls, start, done)
        invariant invalid == HasBadName(ls, start, done)
        invariant line.Some? ==> done < |ls| && inp.pos == done + 1 && ls[done] == line.value
        invariant line.None? ==> done == |ls| == inp.pos
        decreases |ls| - done
      {
        result, invalid := RecordField(result, invalid, line.value);
        done := done + 1;
        line := inp.ReadLine();
      }
      if line.None? {
        HeaderStepEnd(ls, start);
        return EndOfStream;
      }
      r := if invalid then Malformed else Parsed(result);
      HeaderStepAt(ls, start, done);
    }

    /**
     * The body of the loop of `parseAttributes`: split the line at its first
     * colon, note a name ending in a space, and record the trimmed value.
     */
    method RecordField(table: map<string, string>, invalid: bool, line: string)
      returns (table': map<string, string>, invalid': bool)
      ensures table' == table[HeaderName(line) := HeaderValue(line)]
      ensures invalid' == (invalid || BadName(line))
    {
      table', invalid' := table, invalid;
      var tokens := SplitLimit2(line, ':');
      HeaderSplit(line);
      if |tokens| >= 1 {
        if EndsWith(tokens[0], " ") {
          invalid' := true;
        }
        if |tokens| == 2 {
          table' := table'[tokens[0] := Trim(tokens[1])];
        } else if |tokens| == 1 {
          table' := table'[tokens[0] := ""];
        }
      } else {
        invalid' := true;
      }
    }

    // -------------------------------------------------------- writing

    /** `getDirListing`: the page head, one item per entry that `listFiles` returns, the foot. */
    method GetDirListing(fs: FileSystem, dir: string) returns (result: string)
      ensures result == DirListing(fs, dir)
    {
      var dirFiles := ListFiles(fs, dir);
      ghost var items := Entries(fs, dirFiles);
      result := ListingHead(RelativePath(fs, dir));
      ghost var head := result;
      for i := 0 to |dirFiles|
        invariant result == head + Concat(items[..i])
      {
        ConcatPrefix(items, i);
        AppendAssoc(head, Concat(items[..i]), items[i]);
        result := result + ListingEntry(fs, dirFiles[i]);
      }
      assert items[..|dirFiles|] == items;
      result := result + ListingFoot;
    }

    /**
     * `sendFile`: for a directory its listing, as a page; for a regular
     * file its header lines and then, for GET, its bytes copied through a
     * 16 KiB buffer, one `write` per `read`.
     */
    method SendFile(fs: FileSystem, f: string, verb: string, out: OutStream)
      modifies out
      ensures out.written == old(out.written) + SendFilePieces(fs, f, verb)
    {
      if fs.isDirectory(f) {
        SendDirectory(fs, f, verb, out);
      } else {
        SendRegular(fs, f, verb, out);
      }
    }

    /** The directory branch of `sendFile`: the listing's header lines and, for GET, the listing. */
    method SendDirectory(fs: FileSystem, f: string, verb: string, out: OutStream)
      requires fs.isDirectory(f)
      modifies out
      ensures out.written == old(out.written) + SendFilePieces(fs, f, verb)
    {
      var htmlBody := GetDirListing(fs, f);
      var result := ListingType + "\n";
      result := result + "Content-Length: " + IntToString(Utf16Length(htmlBody)) + "\n\n";
      if verb == "GET" {
        out.Write(Text(result + htmlBody + "\n"));
      } else {
        out.Write(Text(result));
      }
    }

    /** The regular-file branch of `sendFile`: the header lines and, for GET, the bytes and a line end. */
    method SendRegular(fs: FileSystem, f: string, verb: string, out: OutStream)
      requires !fs.isDirectory(f)
      modifies out
      ensures out.written == old(out.written) + SendFilePieces(fs, f, verb)
    {
      var size := |fs.content(f)|;
      var result := "Content-type: " + (if IsHtml(f) then HtmlMime else BinaryMime) + "\n";
      result := result + "Content-Length: " + IntToString(size) + "\n";
      result := result + "Last-Modified: " + fs.lastModified(f) + "\n\n";
      out.Write(Text(result));
      if verb == "GET" {
        ghost var head := out.written;
        SendBytes(fs.content(f), out);
        out.Write(Text("\n"));
        AppendAssoc(head, ChunkPieces(Chunks(fs.content(f))), [Text("\n")]);
        AppendAssoc(old(out.written), [Text(result)], ChunkPieces(Chunks(fs.content(f))) + [Text("\n")]);
      }
    }

    /** The copy loop of `sendFile`: the writes are the file's chunks, in order. */
    method SendBytes(data: seq<byte>, out: OutStream)
      modifies out
      ensures out.written == old(out.written) + ChunkPieces(Chunks(data))
    {
      var inp := new FileInput(data);
      var bytes := new byte[BufferSize];
      ghost var goal := out.written + ChunkPieces(Chunks(data));
      ghost var off := 0;
      var count := inp.Read(bytes);
      while count > 0
        invariant inp.Valid() && inp.data == data && bytes.Length == BufferSize
        invariant off <= |data|
        invariant out.written + ChunkPieces(Chunks(data[off..])) == goal
        invariant count > 0 ==>
                    off < |data| && inp.pos == off + count
                    && count == (if |data| - off < BufferSize then |data| - off else BufferSize)
                    && bytes[..count] == data[off..inp.pos]
        invariant count <= 0 ==> off == |data|
        decreases |data| - off
      {
        var chunk := bytes[..count];
        ChunkPiecesAt(data, off);
        AppendAssoc(out.written, [Bytes(chunk)], ChunkPieces(Chunks(data[off + count..])));
        out.Write(Bytes(chunk));
        off := off + count;
        count := inp.Read(bytes);
      }
      assert data[off..] == [];
    }

    /** `printResponse`: the status line, then the error page or the file. */
    method PrintResponse(resp: Response, out: OutStream, fs: FileSystem, t: Templates, date: string)
      modifies out
      ensures out.written == old(out.written) + ResponsePieces(resp, fs, t, date)
    {
      var result := "";
      match resp
      case BadRequest =>
        result := result + "HTTP/1.1 400 Bad Request\n";
        assert result == "HTTP/1.1 400 Bad Request\n";
        result := result + FormatResponse(t.badRequest, date);
        out.Write(Text(result + "\n"));
      case NotImplemented(m) =>
        result := result + "HTTP/1.1 501 Unsupported Method ('";
        result := result + m + "')\n";
        assert result == "HTTP/1.1 501 Unsupported Method ('" + m + "')\n";
        result := result + FormatResponse(t.unsupported, date);
        result := Replace(result, "method", "method '(" + m + ")'");
        out.Write(Text(result + "\n"));
      case NotFound =>
        result := result + "HTTP/1.1 404 File not found\n";
        assert result == "HTTP/1.1 404 File not found\n";
        result := result + FormatResponse(t.fileNotFound, date);
        out.Write(Text(result + "\n"));
      case Ok(verb, f) =>
        result := result + OkStatus + "\n";
        assert result == OkStatus + "\n";
        result := result + ServerInfo(date);
        out.Write(Text(result));
        AppendAssoc(old(out.written), [Text(result)], SendFilePieces(fs, f, verb));
        SendFile(fs, f, verb, out);
    }

    // -------------------------------------------------------- a request

    /**
     * `parseRequest`: read the request line and the header section, choose
     * the status and print the response. What it reads, what it writes and
     * the exception that escapes are those of `Handle`; an exception
     * escapes before anything is written.
     */
    method ParseRequest(inp: LineReader, out: OutStream, fs: FileSystem, t: Templates, date: string)
      returns (fault: Option<JavaException>)
      requires inp.Valid() && ValidHost(host)
      modifies inp, out
      ensures inp.Valid()
      ensures inp.pos == Handle(inp.lines, old(inp.pos), host, port, fs).1
      ensures match Handle(inp.lines, old(inp.pos), host, port, fs).0
              case Respond(resp) => fault == None && out.written == old(out.written) + ResponsePieces(resp, fs, t, date)
              case Abort(e) => fault == Some(e) && out.written == old(out.written)
    {
      var reqLine := ParseRequestLine(inp);
      if reqLine.EndOfStream? {
        return Some(NullPointerException);
      }
      var known := false;
      if reqLine.Parsed? {
        known := IsHttpMethod(reqLine.value.verb);
      }
      if !known {
        PrintResponse(BadRequest, out, fs, t, date);
        return None;
      }
      var attributes := ParseAttributes(inp);
      if attributes.EndOfStream? {
        return Some(NullPointerException);
      }
      if attributes.Malformed? {
        PrintResponse(BadRequest, out, fs, t, date);
        return None;
      }
      var verb := reqLine.value.verb;
      var supported := IsSupported(verb);
      if supported {
        var target := ParseTargetResource(reqLine.value.path, host, port);
        if target.None? {
          PrintResponse(BadRequest, out, fs, t, date);
          return None;
        }
        match SupportedHttpVersion(reqLine.value.httpVersion, attributes.value, host, port)
        case Throws(e) =>
          return Some(e);
        case Reject =>
          PrintResponse(BadRequest, out, fs, t, date);
          return None;
        case Accept =>
          if !IsValidAsWritten(fs, target.value) {
            PrintResponse(NotFound, out, fs, t, date);
          } else {
            PrintResponse(Ok(verb, target.value), out, fs, t, date);
          }
          return None;
      } else {
        PrintResponse(NotImplemented(verb), out, fs, t, date);
        return None;
      }
    }
  }
}
