/**
 * The status `parseRequest` chooses: the order in which it reads the
 * request line, the header section, the target, the version and the file,
 * and which of 400, 404, 501 or 200 (or an escaping exception) each check
 * leads to.
 */
module Dispatch {
  import opened JavaLang
  import opened JavaIo
  import opened Request
  import opened Target
  import opened Render

  /** What handling one request comes to: a response, or an exception escaping `parseRequest`. */
  datatype Outcome = Respond(resp: Response) | Abort(e: JavaException)

  /**
   * The choice made once a recognised request line and a valid header
   * section are in hand: a method other than GET and HEAD gets 501; for
   * GET and HEAD the target, then the version, then the file are checked.
   * The file check is `isValid` as written: a prefix test on canonical paths.
   */
  function Decide(req: BasicRequest, attrs: map<string, string>, host: string, port: int, fs: FileSystem): Outcome
    requires ValidHost(host)
  {
    if Supported(req.verb) then
      match ParseTargetResource(req.path, host, port)
      case None => Respond(BadRequest)
      case Some(target) =>
        match SupportedHttpVersion(req.httpVersion, attrs, host, port)
        case Throws(e) => Abort(e)
        case Reject => Respond(BadRequest)
        case Accept => if IsValidAsWritten(fs, target) then Respond(Ok(req.verb, target)) else Respond(NotFound)
    else Respond(NotImplemented(req.verb))
  }

  /**
   * The choice `parseRequest` evidently intends: a file the written check
   * lets through is served only when it lies inside the root directory.
   */
  function DecideCorrected(req: BasicRequest, attrs: map<string, string>, host: string, port: int, fs: FileSystem): Outcome
    requires ValidHost(host)
  {
    match Decide(req, attrs, host, port, fs)
    case Respond(Ok(v, f)) => if IsValid(fs, f) then Respond(Ok(v, f)) else Respond(NotFound)
    case o => o
  }

  /**
   * `parseRequest` on the lines from cursor `pos`: the outcome and the
   * cursor after the lines it read. A malformed request line or an
   * unrecognised method is answered before any header line is read.
   */
  function Handle(lines: seq<string>, pos: nat, host: string, port: int, fs: FileSystem): (Outcome, nat)
    requires pos <= |lines| && ValidHost(host)
  {
    var (rl, afterLine) := RequestLineStep(lines, pos);
    match rl
    case EndOfStream => (Abort(NullPointerException), afterLine)
    case Malformed => (Respond(BadRequest), afterLine)
    case Parsed(req) =>
      if !Recognized(req.verb) then (Respond(BadRequest), afterLine)
      else
        var (hs, afterHeaders) := HeaderStep(lines, afterLine);
        match hs
        case EndOfStream => (Abort(NullPointerException), afterHeaders)
        case Malformed => (Respond(BadRequest), afterHeaders)
        case Parsed(attrs) => (Decide(req, attrs, host, port, fs), afterHeaders)
  }

  // ------------------------------------------------------------ Decide

  /** 501 echoes the method and depends on neither the target, the version nor the headers. */
  lemma NotImplementedUnchecked(req: BasicRequest, attrs: map<string, string>, host: string, port: int, fs: FileSystem)
    requires ValidHost(host) && Recognized(req.verb)
    ensures Decide(req, attrs, host, port, fs) == Respond(NotImplemented(req.verb)) <==> !Supported(req.verb)
    ensures Decide(req, attrs, host, port, fs).Respond? && Decide(req, attrs, host, port, fs).resp.NotImplemented?
            ==> req.verb in NotImplementedMethods
  {
  }

  /** 200 exactly when GET or HEAD names a well-formed target, the version passes and the written file check passes. */
  lemma OkIff(req: BasicRequest, attrs: map<string, string>, host: string, port: int, fs: FileSystem, f: string)
    requires ValidHost(host)
    ensures Decide(req, attrs, host, port, fs) == Respond(Ok(req.verb, f))
        <==> Supported(req.verb) && ParseTargetResource(req.path, host, port) == Some(f)
             && SupportedHttpVersion(req.httpVersion, attrs, host, port) == Accept && IsValidAsWritten(fs, f)
  {
  }

  /** 404 exactly when everything but the written file check passes. */
  lemma NotFoundIff(req: BasicRequest, attrs: map<string, string>, host: string, port: int, fs: FileSystem)
    requires ValidHost(host)
    ensures Decide(req, attrs, host, port, fs) == Respond(NotFound)
        <==> Supported(req.verb) && ParseTargetResource(req.path, host, port).Some?
             && SupportedHttpVersion(req.httpVersion, attrs, host, port) == Accept
             && !IsValidAsWritten(fs, ParseTargetResource(req.path, host, port).value)
  {
  }

  /** With the corrected check, 200 exactly when the file also lies inside the root directory. */
  lemma OkIffCorrected(req: BasicRequest, attrs: map<string, string>, host: string, port: int, fs: FileSystem, f: string)
    requires ValidHost(host)
    ensures DecideCorrected(req, attrs, host, port, fs) == Respond(Ok(req.verb, f))
        <==> Supported(req.verb) && ParseTargetResource(req.path, host, port) == Some(f)
             && SupportedHttpVersion(req.httpVersion, attrs, host, port) == Accept && IsValid(fs, f)
  {
    OkIff(req, attrs, host, port, fs, f);
    IsValidStricter(fs, f);
  }

  /** With the corrected check, 404 exactly when everything but the corrected file check passes. */
  lemma NotFoundIffCorrected(req: BasicRequest, attrs: map<string, string>, host: string, port: int, fs: FileSystem)
    requires ValidHost(host)
    ensures DecideCorrected(req, attrs, host, port, fs) == Respond(NotFound)
        <==> Supported(req.verb) && ParseTargetResource(req.path, host, port).Some?
             && SupportedHttpVersion(req.httpVersion, attrs, host, port) == Accept
             && !IsValid(fs, ParseTargetResource(req.path, host, port).value)
  {
    NotFoundIff(req, attrs, host, port, fs);
    if ParseTargetResource(req.path, host, port).Some? {
      IsValidStricter(fs, ParseTargetResource(req.path, host, port).value);
    }
  }

  /** The correction only turns some 200s into 404s; every other outcome is unchanged. */
  lemma CorrectionOnlyRefuses(req: BasicRequest, attrs: map<string, string>, host: string, port: int, fs: FileSystem)
    requires ValidHost(host)
    ensures DecideCorrected(req, attrs, host, port, fs) != Decide(req, attrs, host, port, fs)
        ==> Decide(req, attrs, host, port, fs).Respond? && Decide(req, attrs, host, port, fs).resp.Ok?
            && DecideCorrected(req, attrs, host, port, fs) == Respond(NotFound)
  {
  }

  /**
   * For GET and HEAD, 400 exactly when the target is malformed or, the
   * target being well formed, the version check rejects.
   */
  lemma BadRequestIff(req: BasicRequest, attrs: map<string, string>, host: string, port: int, fs: FileSystem)
    requires ValidHost(host) && Supported(req.verb)
    ensures Decide(req, attrs, host, port, fs) == Respond(BadRequest)
        <==> ParseTargetResource(req.path, host, port).None?
             || SupportedHttpVersion(req.httpVersion, attrs, host, port) == Reject
  {
  }

  /** A malformed target is answered with 400 before the version is looked at, even a missing one. */
  lemma TargetBeforeVersion(req: BasicRequest, attrs: map<string, string>, host: string, port: int, fs: FileSystem)
    requires ValidHost(host) && Supported(req.verb)
    requires ParseTargetResource(req.path, host, port).None?
    ensures Decide(req, attrs, host, port, fs) == Respond(BadRequest)
  {
  }

  /** The exception of the version check escapes only for GET and HEAD with a well-formed target. */
  lemma AbortIff(req: BasicRequest, attrs: map<string, string>, host: string, port: int, fs: FileSystem, e: JavaException)
    requires ValidHost(host)
    ensures Decide(req, attrs, host, port, fs) == Abort(e)
        <==> Supported(req.verb) && ParseTargetResource(req.path, host, port).Some?
             && SupportedHttpVersion(req.httpVersion, attrs, host, port) == Throws(e)
  {
  }

  /** Once the request line and headers are read, a null dereference means a GET or HEAD without a version. */
  lemma DecideNullCause(req: BasicRequest, attrs: map<string, string>, host: string, port: int, fs: FileSystem)
    requires ValidHost(host) && Decide(req, attrs, host, port, fs) == Abort(NullPointerException)
    ensures Supported(req.verb) && req.httpVersion.None?
  {
    AbortIff(req, attrs, host, port, fs, NullPointerException);
  }

  /**
   * What is served with 200 is an existing file spelled below `res/` whose
   * canonical path starts with the root's, for GET or HEAD.
   */
  lemma OkServesRootPrefix(req: BasicRequest, attrs: map<string, string>, host: string, port: int, fs: FileSystem)
    requires ValidHost(host)
    requires Decide(req, attrs, host, port, fs).Respond? && Decide(req, attrs, host, port, fs).resp.Ok?
    ensures var r := Decide(req, attrs, host, port, fs).resp;
            (r.verb == "GET" || r.verb == "HEAD") && fs.fileExists(r.file) && StartsWith(r.file, "res/")
            && StartsWith(fs.canonicalPath(r.file), fs.canonicalPath("res"))
  {
    TargetFileUnderRoot(req.path, host, port);
  }

  /**
   * With the corrected check, what is served with 200 is an existing file
   * spelled below `res/` whose canonical path lies inside the root directory.
   */
  lemma OkServesInsideRoot(req: BasicRequest, attrs: map<string, string>, host: string, port: int, fs: FileSystem)
    requires ValidHost(host)
    requires DecideCorrected(req, attrs, host, port, fs).Respond? && DecideCorrected(req, attrs, host, port, fs).resp.Ok?
    ensures var r := DecideCorrected(req, attrs, host, port, fs).resp;
            (r.verb == "GET" || r.verb == "HEAD") && fs.fileExists(r.file) && StartsWith(r.file, "res/")
            && InsideRoot(fs.canonicalPath(r.file), fs.canonicalPath("res"))
  {
    OkServesRootPrefix(req, attrs, host, port, fs);
  }

  // ------------------------------------------------------------ Handle

  /** A malformed request line, or a method that is not an HTTP method, gets 400 with no header line read. */
  lemma EarlyBadRequest(lines: seq<string>, pos: nat, host: string, port: int, fs: FileSystem)
    requires pos <= |lines| && ValidHost(host)
    requires RequestLineStep(lines, pos).0.Malformed?
             || (RequestLineStep(lines, pos).0.Parsed? && !Recognized(RequestLineStep(lines, pos).0.value.verb))
    ensures Handle(lines, pos, host, port, fs) == (Respond(BadRequest), RequestLineStep(lines, pos).1)
  {
  }

  /**
   * Every response other than those early 400s reads the whole header
   * section, up to and including its blank line, whatever the lines hold.
   */
  lemma HeadersReadThrough(lines: seq<string>, pos: nat, host: string, port: int, fs: FileSystem)
    requires pos <= |lines| && ValidHost(host)
    requires RequestLineStep(lines, pos).0.Parsed? && Recognized(RequestLineStep(lines, pos).0.value.verb)
    ensures Handle(lines, pos, host, port, fs).1 == HeaderStep(lines, RequestLineStep(lines, pos).1).1
    ensures HeaderStep(lines, RequestLineStep(lines, pos).1).0.Malformed?
            ==> Handle(lines, pos, host, port, fs).0 == Respond(BadRequest)
  {
  }

  /** A stream holding nothing but empty lines aborts where `readLine` returns null. */
  lemma EmptyStreamAborts(lines: seq<string>, pos: nat, host: string, port: int, fs: FileSystem)
    requires pos <= |lines| && ValidHost(host)
    requires forall k :: pos <= k < |lines| ==> lines[k] == ""
    ensures Handle(lines, pos, host, port, fs) == (Abort(NullPointerException), |lines|)
  {
    assert FirstNonBlank(lines, pos).None?;
  }

  /**
   * The null dereferences that escape: the stream ends before a request
   * line or before the blank line closing the headers, or a GET or HEAD
   * request line has no version.
   */
  lemma NullAbortCauses(lines: seq<string>, pos: nat, host: string, port: int, fs: FileSystem)
    requires pos <= |lines| && ValidHost(host)
    requires Handle(lines, pos, host, port, fs).0 == Abort(NullPointerException)
    ensures RequestLineStep(lines, pos).0.EndOfStream?
            || HeaderStep(lines, RequestLineStep(lines, pos).1).0.EndOfStream?
            || (RequestLineStep(lines, pos).0.Parsed?
                && Supported(RequestLineStep(lines, pos).0.value.verb)
                && RequestLineStep(lines, pos).0.value.httpVersion.None?)
  {
    var (rl, a) := RequestLineStep(lines, pos);
    if rl.Parsed? && Recognized(rl.value.verb) {
      var (hs, b) := HeaderStep(lines, a);
      if hs.Parsed? {
        DecideNullCause(rl.value, hs.value, host, port, fs);
      }
    }
  }

  /**
   * An HTTP/1.0 GET or HEAD of an origin-form path without doubled or
   * trailing slashes, with no header lines, serves `res` followed by the
   * path when that file passes the written check, and 404 otherwise.
   */
  lemma SimpleRequest(v: string, t: string, version: string, host: string, port: int, fs: FileSystem)
    requires Supported(v) && ValidHost(host) && version == "HTTP/1.0"
    requires OriginForm(t) && ' ' !in t && t[|t| - 1] != '/'
    requires forall k :: 0 <= k < |t| - 1 ==> t[k] != '/' || t[k + 1] != '/'
    ensures Handle([v + " " + t + " " + version, ""], 0, host, port, fs)
         == (Respond(if IsValidAsWritten(fs, "res" + t) then Ok(v, "res" + t) else NotFound), 2)
  {
    var lines := [v + " " + t + " " + version, ""];
    assert ' ' !in v;
    assert ' ' !in version && version != "";
    RequestLineOfThree(v, t, version);
    assert FirstNonBlank(lines, 0) == Some(0);
    assert FirstBlank(lines, 1) == Some(1);
    assert HeaderSection(lines, 1, 1) == Some(map[]);
    OriginTargetFile(t, host, port);
  }

  /**
   * With the root at `/srv/res`, `GET /../res2/secret HTTP/1.0` serves the
   * file `/srv/res2/secret` of the sibling directory.
   */
  lemma SiblingServed(host: string, port: int)
    requires ValidHost(host)
    ensures Handle(["GET /../res2/secret HTTP/1.0", ""], 0, host, port, SiblingDisk())
         == (Respond(Ok("GET", SiblingFile)), 2)
  {
    var t := SiblingPath;
    SiblingPathShape(t);
    assert "GET" + " " + t + " " + "HTTP/1.0" == "GET /../res2/secret HTTP/1.0";
    SimpleRequest("GET", t, "HTTP/1.0", host, port, SiblingDisk());
    SiblingDirectoryAccepted();
  }

  /** The corrected choice answers that request with 404. */
  lemma SiblingRefusedCorrected(host: string, port: int)
    requires ValidHost(host)
    ensures DecideCorrected(BasicRequest("GET", SiblingPath, Some("HTTP/1.0")), map[], host, port, SiblingDisk())
         == Respond(NotFound)
  {
    SiblingTarget(SiblingPath, host, port);
    SiblingDirectoryAccepted();
  }
}
