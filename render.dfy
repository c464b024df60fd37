/**
 * The response text: `getServerInfo`, `formatResponse`, the status lines of
 * `printResponse`, and what `sendFile`, `getDirListing`, `isHtml` and
 * `getRelativePath` produce. The date `getTime` formats and the three HTML
 * templates `readFile` loads are parameters. Each function here is the
 * specification of the imperative code in `Parser`, and the lemmas read the
 * resulting text back the way a client does (`Wire`).
 */
module Render {
  import opened JavaLang
  import opened JavaIo
  import opened Target
  import opened Wire

  /** What `printResponse` is asked to send (the fields of `RequestInfo` that are set). */
  datatype Response =
    | BadRequest
    | NotImplemented(verb: string)
    | NotFound
    | Ok(verb: string, file: string)

  /** The error pages `html/badrequest.html`, `html/unsupported.html` and `html/filenotfound.html`, decoded. */
  datatype Templates = Templates(badRequest: string, unsupported: string, fileNotFound: string)

  // ------------------------------------------------------------ header lines

  const OkStatus: string := "HTTP/1.1 200 OK"
  const ServerLine: string := "Server: TinyJavaServer Java8"
  const ConnectionLine: string := "Connection: close"
  /** The type line of `formatResponse`. */
  const TemplateType: string := "Content-Type: text/html; charset=UTF-8"
  /** The types `sendFile` announces, and its type line for a listing. */
  const HtmlMime: string := "text/html; charset=utf-8"
  const BinaryMime: string := "application/octet-stream"
  const ListingType: string := "Content-type: " + HtmlMime

  // ------------------------------------------------------------ error pages

  /** `getServerInfo`, given the current date as `getTime(null)` formats it. */
  function ServerInfo(date: string): string {
    ServerLine + "\n" + "Date: " + date + "\n" + ConnectionLine + "\n"
  }

  /** `formatResponse` on a template whose text is `content`. */
  function FormatResponse(content: string, date: string): string {
    ServerInfo(date) + TemplateType + "\n"
    + "Content-Length: " + IntToString(Utf16Length(content)) + "\n\n" + content
  }

  /** The text `printResponse` prints, with `println`, for one of the three error statuses. */
  function ErrorText(resp: Response, t: Templates, date: string): string
    requires !resp.Ok?
  {
    match resp
    case BadRequest => "HTTP/1.1 400 Bad Request\n" + FormatResponse(t.badRequest, date) + "\n"
    case NotImplemented(m) =>
      Replace("HTTP/1.1 501 Unsupported Method ('" + m + "')\n" + FormatResponse(t.unsupported, date),
              "method", "method '(" + m + ")'") + "\n"
    case NotFound => "HTTP/1.1 404 File not found\n" + FormatResponse(t.fileNotFound, date) + "\n"
  }

  /** The head of an error response: its status line, then the header lines of `formatResponse` (`n` the decimal length). */
  function ErrorHead(status: string, date: string, n: string): seq<string> {
    [status, ServerLine, "Date: " + date, ConnectionLine,
     TemplateType, "Content-Length: " + n]
  }

  lemma JoinSixLines(a: string, b: string, c: string, d: string, e: string, f: string)
    ensures Join([a, b, c, d, e, f], '\n') == a + "\n" + b + "\n" + c + "\n" + d + "\n" + e + "\n" + f
  {
    JoinSnoc([a], b, '\n');
    assert [a] + [b] == [a, b];
    JoinSnoc([a, b], c, '\n');
    assert [a, b] + [c] == [a, b, c];
    JoinSnoc([a, b, c], d, '\n');
    assert [a, b, c] + [d] == [a, b, c, d];
    JoinSnoc([a, b, c, d], e, '\n');
    assert [a, b, c, d] + [e] == [a, b, c, d, e];
    JoinSnoc([a, b, c, d, e], f, '\n');
    assert [a, b, c, d, e] + [f] == [a, b, c, d, e, f];
  }

  /** A status line followed by a `formatResponse` text is a head of six lines, an empty line and the template. */
  lemma FormatShape(status: string, date: string, n: string, content: string)
    ensures status + "\n" + (ServerInfo(date) + TemplateType + "\n"
                             + "Content-Length: " + n + "\n\n" + content)
         == Join(ErrorHead(status, date, n), '\n') + "\n\n" + content
  {
    var a := status + "\n";
    var si := ServerInfo(date);
    var b5 := si + TemplateType;
    var b4 := b5 + "\n";
    var b3 := b4 + "Content-Length: ";
    var b2 := b3 + n;
    var b1 := b2 + "\n\n";
    AppendAssoc(a, b1, content);
    AppendAssoc(a, b2, "\n\n");
    AppendAssoc(a, b3, n);
    AppendAssoc(a, b4, "Content-Length: ");
    AppendAssoc(a, b5, "\n");
    AppendAssoc(a, si, TemplateType);
    ServerInfoAfter(a, date);
    ErrorHeadJoin(status, date, n);
  }

  /** A server-information block after any text `a`, regrouped to the left. */
  lemma ServerInfoAfter(a: string, date: string)
    ensures a + ServerInfo(date) == a + ServerLine + "\n" + "Date: " + date + "\n" + ConnectionLine + "\n"
  {
    var s1 := ServerLine + "\n";
    var s2 := s1 + "Date: ";
    var s3 := s2 + date;
    var s4 := s3 + "\n";
    var s5 := s4 + ConnectionLine;
    AppendAssoc(a, ServerLine, "\n");
    AppendAssoc(a, s1, "Date: ");
    AppendAssoc(a, s2, date);
    AppendAssoc(a, s3, "\n");
    AppendAssoc(a, s4, ConnectionLine);
    AppendAssoc(a, s5, "\n");
  }

  lemma ErrorHeadJoin(status: string, date: string, n: string)
    ensures Join(ErrorHead(status, date, n), '\n')
         == status + "\n" + ServerLine + "\n" + "Date: " + date + "\n" + ConnectionLine + "\n"
            + TemplateType + "\n" + "Content-Length: " + n
  {
    var d := "Date: " + date;
    var l := "Content-Length: " + n;
    JoinSixLines(status, ServerLine, d, ConnectionLine, TemplateType, l);
    var p := status + "\n" + ServerLine + "\n";
    AppendAssoc(p, "Date: ", date);
    AppendAssoc(p + d + "\n" + ConnectionLine + "\n" + TemplateType + "\n", "Content-Length: ", n);
  }

  /** The fixed header lines are head lines. */
  lemma FixedLines()
    ensures HeadLine(OkStatus) && HeadLine(ServerLine) && HeadLine(ConnectionLine)
    ensures HeadLine(TemplateType) && HeadLine(ListingType)
    ensures '\n' !in HtmlMime && '\n' !in BinaryMime
  {
  }

  lemma NumberChars(n: int)
    ensures '\n' !in IntToString(n) && 'm' !in IntToString(n)
  {
    var s := IntToString(n);
    IntToStringChars(n);
    forall k | 0 <= k < |s| ensures s[k] != '\n' && s[k] != 'm' {
      assert IsDigit(s[k]) || s[k] == '-';
    }
  }

  /** A line whose first character differs from that of `name` is not a `name:` field. */
  lemma OtherField(l: string, name: string)
    requires |l| > 0 && |name| > 0 && l[0] != name[0]
    ensures !StartsWith(l, name + ": ")
  {
    DiffersAt(l, name + ": ", 0);
  }

  /** The `Content-Length` field of an error head is the decimal length it was built with. */
  lemma ErrorHeadLength(status: string, date: string, n: string)
    requires HeadLine(status) && status[0] == 'H'
    ensures Field(ErrorHead(status, date, n), "Content-Length") == Some(n)
  {
    var ls := ErrorHead(status, date, n);
    var l5 := "Content-Length: " + n;
    OtherField(status, "Content-Length");
    OtherField(ServerLine, "Content-Length");
    OtherField("Date: " + date, "Content-Length");
    DiffersAt(ConnectionLine, "Content-Length: ", 3);
    DiffersAt(TemplateType, "Content-Length: ", 8);
    assert l5[..16] == "Content-Length: ";
    assert l5[16..] == n;
    assert Field([l5], "Content-Length") == Some(n);
    assert Field([TemplateType, l5], "Content-Length") == Some(n);
    assert Field([ConnectionLine, TemplateType, l5], "Content-Length") == Some(n);
    assert Field(["Date: " + date, ConnectionLine, TemplateType, l5], "Content-Length") == Some(n);
    assert Field(ls[1..], "Content-Length") == Some(n);
  }

  /** Reading a status line and the `formatResponse` head back: the lines, the `Content-Length` field, the body. */
  lemma FormattedRead(status: string, date: string, n: string, tail: string)
    requires HeadLine(status) && status[0] == 'H'
    requires '\n' !in date && '\n' !in n
    ensures Head(Join(ErrorHead(status, date, n), '\n') + "\n\n" + tail) == Some(ErrorHead(status, date, n))
    ensures Field(ErrorHead(status, date, n), "Content-Length") == Some(n)
    ensures Body(Join(ErrorHead(status, date, n), '\n') + "\n\n" + tail) == Some(tail)
  {
    ErrorHeadLines(status, date, n);
    ReadBack(ErrorHead(status, date, n), tail);
    ErrorHeadLength(status, date, n);
  }

  lemma ErrorHeadLines(status: string, date: string, n: string)
    requires HeadLine(status) && '\n' !in date && '\n' !in n
    ensures forall k :: 0 <= k < 6 ==> HeadLine(ErrorHead(status, date, n)[k])
  {
    FixedLines();
    LabelledLine("Date: ", date);
    LabelledLine("Content-Length: ", n);
  }

  /** A non-empty label and a value, neither holding a line feed, make a head line. */
  lemma LabelledLine(tag: string, v: string)
    requires |tag| > 0 && '\n' !in tag && '\n' !in v
    ensures HeadLine(tag + v)
  {
  }

  /** An error page on a status line: its six header lines, the template's length announced, the template as body. */
  lemma ErrorPageRead(status: string, c: string, date: string)
    requires HeadLine(status) && status[0] == 'H'
    requires '\n' !in date
    ensures Head(status + "\n" + FormatResponse(c, date) + "\n")
         == Some(ErrorHead(status, date, IntToString(Utf16Length(c))))
    ensures ContentLength(Head(status + "\n" + FormatResponse(c, date) + "\n").value) == Some(Utf16Length(c))
    ensures Body(status + "\n" + FormatResponse(c, date) + "\n") == Some(c + "\n")
  {
    var n := IntToString(Utf16Length(c));
    var hd := ServerInfo(date) + TemplateType + "\n" + "Content-Length: " + n + "\n\n";
    assert FormatResponse(c, date) == hd + c;
    AppendAssoc(status + "\n", hd + c, "\n");
    AppendAssoc(hd, c, "\n");
    FormatShape(status, date, n, c + "\n");
    NumberChars(Utf16Length(c));
    FormattedRead(status, date, n, c + "\n");
    NatTextRoundTrip(Utf16Length(c));
  }

  /** 400: the status line and the header lines, the template's length announced, the template as body. */
  lemma BadRequestRead(t: Templates, date: string)
    requires '\n' !in date
    ensures Head(ErrorText(BadRequest, t, date))
         == Some(ErrorHead("HTTP/1.1 400 Bad Request", date, IntToString(Utf16Length(t.badRequest))))
    ensures ContentLength(Head(ErrorText(BadRequest, t, date)).value) == Some(Utf16Length(t.badRequest))
    ensures Body(ErrorText(BadRequest, t, date)) == Some(t.badRequest + "\n")
  {
    var status := "HTTP/1.1 400 Bad Request";
    assert "HTTP/1.1 400 Bad Request\n" == status + "\n";
    ErrorPageRead(status, t.badRequest, date);
  }

  /** 404: the status line and the header lines, the template's length announced, the template as body. */
  lemma NotFoundRead(t: Templates, date: string)
    requires '\n' !in date
    ensures Head(ErrorText(NotFound, t, date))
         == Some(ErrorHead("HTTP/1.1 404 File not found", date, IntToString(Utf16Length(t.fileNotFound))))
    ensures ContentLength(Head(ErrorText(NotFound, t, date)).value) == Some(Utf16Length(t.fileNotFound))
    ensures Body(ErrorText(NotFound, t, date)) == Some(t.fileNotFound + "\n")
  {
    var status := "HTTP/1.1 404 File not found";
    assert "HTTP/1.1 404 File not found\n" == status + "\n";
    ErrorPageRead(status, t.fileNotFound, date);
  }

  /**
   * `replace` leaves alone a prefix in which the first character of `t`
   * occurs once and is not followed by the second.
   */
  lemma ReplaceSkips(a: string, b: string, c: string, t: string, r: string)
    requires |t| >= 2 && t[0] !in a && t[0] !in b && |b| > 0 && b[0] != t[1]
    ensures Replace(a + [t[0]] + b + c, t, r) == a + [t[0]] + b + Replace(c, t, r)
  {
    var s := [t[0]] + (b + c);
    ReplaceAfterPrefix(a, s, t, r);
    AppendAssoc(a + [t[0]], b, c);
    AppendAssoc(a, [t[0]], b + c);
    AppendAssoc(a + [t[0]], b, Replace(c, t, r));
    AppendAssoc(a, [t[0]], b + Replace(c, t, r));
    if |s| >= |t| {
      assert s[..|t|][1] == b[0];
    }
    assert s[1..] == b + c;
    ReplaceAfterPrefix(b, c, t, r);
  }

  lemma HeadRegroup(status: string, si: string, ct1: string, x: string, ct2: string, cl: string, n: string,
                    nl: string, content: string)
    ensures status + "\n" + (si + (ct1 + x + ct2) + cl + n + nl + content)
         == (status + "\n" + si + ct1) + x + (ct2 + cl + n + nl) + content
  {
  }

  /** `ReplaceSkips` on the shape of a status line followed by a `formatResponse` text. */
  lemma ReplaceSkipsHead(status: string, si: string, ct1: string, ct2: string, cl: string, n: string,
                         nl: string, content: string, t: string, r: string)
    requires |t| >= 2 && t[0] != '\n' && |ct2| > 0 && ct2[0] != t[1]
    requires t[0] !in status && t[0] !in si && t[0] !in ct1 && t[0] !in ct2
    requires t[0] !in cl && t[0] !in n && t[0] !in nl
    ensures Replace(status + "\n" + (si + (ct1 + [t[0]] + ct2) + cl + n + nl + content), t, r)
         == status + "\n" + (si + (ct1 + [t[0]] + ct2) + cl + n + nl + Replace(content, t, r))
  {
    var a := status + "\n" + si + ct1;
    var b := ct2 + cl + n + nl;
    assert t[0] !in a;
    assert t[0] !in b;
    HeadRegroup(status, si, ct1, [t[0]], ct2, cl, n, nl, content);
    ReplaceSkips(a, b, content, t, r);
    HeadRegroup(status, si, ct1, [t[0]], ct2, cl, n, nl, Replace(content, t, r));
  }

  /** The header lines of `formatResponse` hold no `m` except the one of `html`. */
  lemma FormatLinesSpareM(date: string)
    requires 'm' !in date
    ensures 'm' !in ServerInfo(date)
    ensures 'm' !in "Content-Type: text/ht" && 'm' !in "l; charset=UTF-8\n"
    ensures 'm' !in "Content-Length: " && 'm' !in "\n\n"
  {
    assert 'm' !in ServerLine && 'm' !in ConnectionLine;
  }

  lemma ContentTypeSplit(t: string)
    requires t == "method"
    ensures TemplateType + "\n" == "Content-Type: text/ht" + [t[0]] + "l; charset=UTF-8\n"
  {
  }

  /**
   * The `replace` of `printResponse` for 501 touches only the template: the
   * status line and the header lines hold no `method`.
   */
  lemma ReplaceSparesHead(status: string, date: string, n: string, content: string, t: string, r: string)
    requires 'm' !in status && 'm' !in date && 'm' !in n && t == "method"
    ensures Replace(status + "\n" + (ServerInfo(date) + TemplateType + "\n"
                                    + "Content-Length: " + n + "\n\n" + content), t, r)
         == Join(ErrorHead(status, date, n), '\n') + "\n\n" + Replace(content, t, r)
  {
    ContentTypeSplit(t);
    assert ServerInfo(date) + TemplateType + "\n"
        == ServerInfo(date) + ("Content-Type: text/ht" + [t[0]] + "l; charset=UTF-8\n");
    FormatLinesSpareM(date);
    ReplaceSkipsHead(status, ServerInfo(date), "Content-Type: text/ht", "l; charset=UTF-8\n",
                     "Content-Length: ", n, "\n\n", content, t, r);
    FormatShape(status, date, n, Replace(content, t, r));
  }

  /** The 501 status line is a head line with no `m`. */
  lemma StatusSparesM(m: string, status: string)
    requires 'm' !in m && '\n' !in m && status == "HTTP/1.1 501 Unsupported Method ('" + m + "')"
    ensures 'm' !in status && HeadLine(status) && status[0] == 'H'
  {
    assert 'm' !in "HTTP/1.1 501 Unsupported Method ('" && 'm' !in "')";
    assert '\n' !in "HTTP/1.1 501 Unsupported Method ('" && '\n' !in "')";
  }

  lemma NotImplementedUnfold(m: string, t: Templates, date: string, status: string, w: string, r: string)
    requires status == "HTTP/1.1 501 Unsupported Method ('" + m + "')"
    requires w == "method" && r == "method '(" + m + ")'"
    ensures ErrorText(NotImplemented(m), t, date)
         == Replace(status + "\n" + (ServerInfo(date) + TemplateType + "\n"
                    + "Content-Length: " + IntToString(Utf16Length(t.unsupported)) + "\n\n" + t.unsupported), w, r) + "\n"
  {
    assert "HTTP/1.1 501 Unsupported Method ('" + m + "')\n" == status + "\n";
  }

  /** The 501 text is the six-line head, an empty line and the replaced template. */
  lemma NotImplementedShape(m: string, t: Templates, date: string, status: string, n: string, w: string, r: string)
    requires 'm' !in m && '\n' !in m && 'm' !in date
    requires status == "HTTP/1.1 501 Unsupported Method ('" + m + "')"
    requires n == IntToString(Utf16Length(t.unsupported))
    requires w == "method" && r == "method '(" + m + ")'"
    ensures ErrorText(NotImplemented(m), t, date)
         == Join(ErrorHead(status, date, n), '\n') + "\n\n" + (Replace(t.unsupported, w, r) + "\n")
  {
    NotImplementedUnfold(m, t, date, status, w, r);
    StatusSparesM(m, status);
    NumberChars(Utf16Length(t.unsupported));
    ReplaceSparesHead(status, date, n, t.unsupported, w, r);
  }

  /**
   * 501: the status line echoes the method, the length announced is that of
   * the template before the replacement, and the body is the template with
   * every `method` turned into `method '(M)'`.
   */
  lemma NotImplementedRead(m: string, t: Templates, date: string)
    requires 'm' !in m && '\n' !in m && 'm' !in date && '\n' !in date
    ensures Head(ErrorText(NotImplemented(m), t, date))
         == Some(ErrorHead("HTTP/1.1 501 Unsupported Method ('" + m + "')", date, IntToString(Utf16Length(t.unsupported))))
    ensures ContentLength(Head(ErrorText(NotImplemented(m), t, date)).value) == Some(Utf16Length(t.unsupported))
    ensures Body(ErrorText(NotImplemented(m), t, date))
         == Some(Replace(t.unsupported, "method", "method '(" + m + ")'") + "\n")
  {
    var status := "HTTP/1.1 501 Unsupported Method ('" + m + "')";
    var n := IntToString(Utf16Length(t.unsupported));
    NotImplementedShape(m, t, date, status, n, "method", "method '(" + m + ")'");
    NumberChars(Utf16Length(t.unsupported));
    StatusSparesM(m, status);
    FormattedRead(status, date, n, Replace(t.unsupported, "method", "method '(" + m + ")'") + "\n");
    NatTextRoundTrip(Utf16Length(t.unsupported));
  }

  // --------------------------------------------------------- 200 responses

  /** `isHtml`: the file's name ends in `.html`. */
  predicate IsHtml(f: string) {
    EndsWith(GetName(f), ".html")
  }

  /** A listed entry is HTML exactly when the name it was listed under ends in `.html`. */
  lemma IsHtmlChild(dir: string, name: string)
    requires |name| > 0 && '/' !in name
    ensures IsHtml(Resolve(dir, name)) <==> EndsWith(name, ".html")
  {
    ChildName(dir, name);
  }

  /** `getRelativePath`: the canonical path with every occurrence of the root's canonical path removed. */
  function RelativePath(fs: FileSystem, f: string): string {
    Replace(fs.canonicalPath(f), fs.canonicalPath(Normalize(ServerRoot)), "")
  }

  lemma RootPathIsRes()
    ensures Normalize(ServerRoot) == "res"
  {
    assert CollapseSlashes("res/") == "res/";
  }

  lemma ReplaceLeading(t: string, rest: string, r: string)
    requires |t| > 0 && !Occurs(t, rest)
    ensures Replace(t + rest, t, r) == r + rest
  {
    var s := t + rest;
    assert s[..|t|] == t;
    assert s[|t|..] == rest;
    ReplaceAbsent(rest, t, r);
  }

  /**
   * A file whose canonical path is the root's followed by `rest`, where the
   * root's path does not occur again, has `rest` as its relative path.
   */
  lemma RelativeUnderRoot(fs: FileSystem, f: string, rest: string)
    requires |fs.canonicalPath("res")| > 0
    requires fs.canonicalPath(f) == fs.canonicalPath("res") + rest
    requires !Occurs(fs.canonicalPath("res"), rest)
    ensures RelativePath(fs, f) == rest
  {
    RootPathIsRes();
    ReplaceLeading(fs.canonicalPath("res"), rest, "");
  }

  /** What `listFiles` returns: the directory's path resolved against each entry name. */
  function ListFiles(fs: FileSystem, dir: string): (r: seq<string>)
    ensures |r| == |fs.list(dir)|
    ensures forall i :: 0 <= i < |r| ==> r[i] == Resolve(dir, fs.list(dir)[i])
  {
    seq(|fs.list(dir)|, i requires 0 <= i < |fs.list(dir)| => Resolve(dir, fs.list(dir)[i]))
  }

  /**
   * When the directory lists plain names (non-empty, without `/`), each
   * listed `File` has its entry's name, and is HTML exactly when that name
   * ends in `.html`.
   */
  lemma ListFilesNames(fs: FileSystem, dir: string)
    requires forall i :: 0 <= i < |fs.list(dir)| ==> |fs.list(dir)[i]| > 0 && '/' !in fs.list(dir)[i]
    ensures |ListFiles(fs, dir)| == |fs.list(dir)|
    ensures forall i :: 0 <= i < |ListFiles(fs, dir)| ==>
              GetName(ListFiles(fs, dir)[i]) == fs.list(dir)[i]
              && (IsHtml(ListFiles(fs, dir)[i]) <==> EndsWith(fs.list(dir)[i], ".html"))
  {
    forall i | 0 <= i < |ListFiles(fs, dir)|
      ensures GetName(ListFiles(fs, dir)[i]) == fs.list(dir)[i]
      ensures IsHtml(ListFiles(fs, dir)[i]) <==> EndsWith(fs.list(dir)[i], ".html")
    {
      ChildName(dir, fs.list(dir)[i]);
      IsHtmlChild(dir, fs.list(dir)[i]);
    }
  }

  /** The list item `getDirListing` writes for one entry. */
  function ListingEntry(fs: FileSystem, f: string): string {
    "<li><a href=\"" + RelativePath(fs, f) + "\">" + GetName(f) + "</a>\n"
  }

  /** The items for `files`, in order. */
  function Entries(fs: FileSystem, files: seq<string>): (r: seq<string>)
    ensures |r| == |files| && forall i :: 0 <= i < |r| ==> r[i] == ListingEntry(fs, files[i])
  {
    seq(|files|, i requires 0 <= i < |files| => ListingEntry(fs, files[i]))
  }

  /** Texts appended one after another, the last one appended last. */
  function Concat(ss: seq<string>): string
    decreases |ss|
  {
    if |ss| == 0 then "" else Concat(ss[..|ss| - 1]) + ss[|ss| - 1]
  }

  /** The page text before the items, `rel` being the directory's relative path. */
  function ListingHead(rel: string): string {
    "<!DOCTYPE html PUBLIC \"-//W3C//DTD HTML 3.2 Final//EN\"><html>\n"
    + "<title>Directory listing for " + rel + "/</title>\n"
    + "<body>\n"
    + "<h2>Directory listing for " + rel + "/</h2>\n"
    + "<hr>" + "<ul>"
  }

  const ListingFoot: string := "</ul>\n</hr>\n</body>\n</html>"

  /** The items of the directory's entries. */
  function ListingItems(fs: FileSystem, dir: string): string {
    Concat(Entries(fs, ListFiles(fs, dir)))
  }

  /** `getDirListing`. */
  function DirListing(fs: FileSystem, dir: string): string {
    ListingHead(RelativePath(fs, dir)) + ListingItems(fs, dir) + ListingFoot
  }

  /** One more text appended: the prefix of length `i + 1` is that of length `i` and then `ss[i]`. */
  lemma ConcatPrefix(ss: seq<string>, i: nat)
    requires i < |ss|
    ensures Concat(ss[..i + 1]) == Concat(ss[..i]) + ss[i]
  {
    assert ss[..i + 1][..i] == ss[..i];
  }

  lemma {:induction false} ConcatAppend(xs: seq<string>, ys: seq<string>)
    ensures Concat(xs + ys) == Concat(xs) + Concat(ys)
    decreases |ys|
  {
    if |ys| == 0 {
      assert xs + ys == xs;
    } else {
      var zs := xs + ys;
      assert zs[..|zs| - 1] == xs + ys[..|ys| - 1];
      assert zs[|zs| - 1] == ys[|ys| - 1];
      ConcatAppend(xs, ys[..|ys| - 1]);
      AppendAssoc(Concat(xs), Concat(ys[..|ys| - 1]), ys[|ys| - 1]);
    }
  }

  /** Item `i` stands between the items before it and those after it. */
  lemma ConcatAt(ss: seq<string>, i: nat)
    requires i < |ss|
    ensures Concat(ss) == Concat(ss[..i]) + ss[i] + Concat(ss[i + 1..])
  {
    assert ss[..i + 1] + ss[i + 1..] == ss;
    ConcatAppend(ss[..i + 1], ss[i + 1..]);
    ConcatPrefix(ss, i);
  }

  /** The item of a listed entry links to its path below the root and shows the name it was listed under. */
  lemma ChildEntry(fs: FileSystem, dir: string, name: string, rest: string)
    requires |name| > 0 && '/' !in name
    requires |fs.canonicalPath("res")| > 0
    requires fs.canonicalPath(Resolve(dir, name)) == fs.canonicalPath("res") + rest
    requires !Occurs(fs.canonicalPath("res"), rest)
    ensures ListingEntry(fs, Resolve(dir, name)) == "<li><a href=\"" + rest + "\">" + name + "</a>\n"
  {
    ChildName(dir, name);
    RelativeUnderRoot(fs, Resolve(dir, name), rest);
  }

  /** Entry `i` of the directory contributes its item, in the order `listFiles` gives the entries. */
  lemma ListingItemsEntry(fs: FileSystem, dir: string, i: nat)
    requires i < |fs.list(dir)|
    ensures ListingItems(fs, dir)
         == Concat(Entries(fs, ListFiles(fs, dir))[..i]) + ListingEntry(fs, Resolve(dir, fs.list(dir)[i]))
            + Concat(Entries(fs, ListFiles(fs, dir))[i + 1..])
  {
    ConcatAt(Entries(fs, ListFiles(fs, dir)), i);
  }

  // --------------------------------------------------------------- sendFile

  /** The size of the buffer `sendFile` copies through. */
  const BufferSize: nat := 16 * 1024

  /** The successive reads a `FileInputStream` delivers into the buffer: full buffers, then the rest. */
  function Chunks(data: seq<byte>): (r: seq<seq<byte>>)
    ensures forall k :: 0 <= k < |r| ==> 0 < |r[k]| <= BufferSize
    decreases |data|
  {
    if |data| == 0 then []
    else if |data| <= BufferSize then [data]
    else [data[..BufferSize]] + Chunks(data[BufferSize..])
  }

  /** As many reads as buffers the file fills, the last one possibly partly. */
  lemma {:induction false} ChunksCount(data: seq<byte>)
    ensures |Chunks(data)| == (|data| + BufferSize - 1) / BufferSize
    decreases |data|
  {
    if |data| > BufferSize {
      ChunksCount(data[BufferSize..]);
      assert |data| + BufferSize - 1 == (|data| - BufferSize + BufferSize - 1) + BufferSize;
    }
  }

  function Flatten(cs: seq<seq<byte>>): seq<byte>
    decreases |cs|
  {
    if |cs| == 0 then [] else cs[0] + Flatten(cs[1..])
  }

  /** The chunks, written one after another, are the file's bytes. */
  lemma {:induction false} ChunksFlatten(data: seq<byte>)
    ensures Flatten(Chunks(data)) == data
    decreases |data|
  {
    if |data| > BufferSize {
      var cs := Chunks(data);
      assert cs[1..] == Chunks(data[BufferSize..]);
      ChunksFlatten(data[BufferSize..]);
      assert data == data[..BufferSize] + data[BufferSize..];
    } else if |data| > 0 {
      assert Chunks(data)[1..] == [];
    }
  }

  /** The first read takes a full buffer, or the whole rest when less is left. */
  lemma ChunksStep(data: seq<byte>)
    requires |data| > 0
    ensures var n := if |data| < BufferSize then |data| else BufferSize;
            Chunks(data) == [data[..n]] + Chunks(data[n..])
  {
    if |data| <= BufferSize {
      assert data[..|data|] == data;
    }
  }

  /** Writing a chunk, then the rest. */
  lemma ChunkPiecesCons(c: seq<byte>, cs: seq<seq<byte>>)
    ensures ChunkPieces([c] + cs) == [Bytes(c)] + ChunkPieces(cs)
  {
  }

  /** The writes for the bytes from `off`: the next buffer's worth, then the rest. */
  lemma ChunkPiecesAt(data: seq<byte>, off: nat)
    requires off < |data|
    ensures var n := if |data| - off < BufferSize then |data| - off else BufferSize;
            ChunkPieces(Chunks(data[off..])) == [Bytes(data[off..off + n])] + ChunkPieces(Chunks(data[off + n..]))
  {
    var n := if |data| - off < BufferSize then |data| - off else BufferSize;
    ChunksStep(data[off..]);
    assert data[off..][..n] == data[off..off + n];
    assert data[off..][n..] == data[off + n..];
    ChunkPiecesCons(data[off..off + n], Chunks(data[off + n..]));
  }

  /** One `write` per chunk. */
  function ChunkPieces(cs: seq<seq<byte>>): (r: seq<Piece>)
    ensures |r| == |cs| && forall k :: 0 <= k < |r| ==> r[k] == Bytes(cs[k])
  {
    seq(|cs|, k requires 0 <= k < |cs| => Bytes(cs[k]))
  }

  /** The raw bytes among the pieces, in order. */
  function BodyBytes(ps: seq<Piece>): seq<byte>
    decreases |ps|
  {
    if |ps| == 0 then [] else (if ps[0].Bytes? then ps[0].data else []) + BodyBytes(ps[1..])
  }

  lemma {:induction false} BodyBytesConcat(xs: seq<Piece>, ys: seq<Piece>)
    ensures BodyBytes(xs + ys) == BodyBytes(xs) + BodyBytes(ys)
    decreases |xs|
  {
    if |xs| > 0 {
      assert (xs + ys)[1..] == xs[1..] + ys;
      BodyBytesConcat(xs[1..], ys);
    } else {
      assert xs + ys == ys;
    }
  }

  lemma {:induction false} BodyBytesOfChunks(cs: seq<seq<byte>>)
    ensures BodyBytes(ChunkPieces(cs)) == Flatten(cs)
    decreases |cs|
  {
    if |cs| > 0 {
      assert ChunkPieces(cs)[1..] == ChunkPieces(cs[1..]);
      BodyBytesOfChunks(cs[1..]);
    }
  }

  /** The header lines `sendFile` writes for a directory whose listing is `body`. */
  function DirHeader(body: string): string {
    ListingType + "\n" + "Content-Length: " + IntToString(Utf16Length(body)) + "\n\n"
  }

  /** The header lines `sendFile` writes for a regular file. */
  function FileHeader(fs: FileSystem, f: string): string {
    "Content-type: " + ContentType(f) + "\n"
    + "Content-Length: " + IntToString(|fs.content(f)|) + "\n"
    + "Last-Modified: " + fs.lastModified(f) + "\n\n"
  }

  /** Everything `sendFile` writes, for the method `verb`. */
  function SendFilePieces(fs: FileSystem, f: string, verb: string): seq<Piece> {
    if fs.isDirectory(f) then
      var body := DirListing(fs, f);
      if verb == "GET" then [Text(DirHeader(body) + body + "\n")] else [Text(DirHeader(body))]
    else
      [Text(FileHeader(fs, f))]
      + (if verb == "GET" then ChunkPieces(Chunks(fs.content(f))) + [Text("\n")] else [])
  }

  /** Everything `printResponse` writes. */
  function ResponsePieces(resp: Response, fs: FileSystem, t: Templates, date: string): seq<Piece> {
    match resp
    case Ok(verb, f) => [Text(OkStatus + "\n" + ServerInfo(date))] + SendFilePieces(fs, f, verb)
    case _ => [Text(ErrorText(resp, t, date))]
  }

  // ------------------------------------------------------ reading a 200 back

  /** The type `sendFile` announces for a regular file. */
  function ContentType(f: string): string {
    if IsHtml(f) then HtmlMime else BinaryMime
  }

  /** The head of a 200 response for a directory listing of decimal length `n`. */
  function DirHead(date: string, n: string): seq<string> {
    [OkStatus, ServerLine, "Date: " + date, ConnectionLine,
     ListingType, "Content-Length: " + n]
  }

  /** The head of a 200 response for a regular file. */
  function FileHead(date: string, ct: string, n: string, lm: string): seq<string> {
    [OkStatus, ServerLine, "Date: " + date, ConnectionLine,
     "Content-type: " + ct, "Content-Length: " + n, "Last-Modified: " + lm]
  }

  lemma JoinSevenLines(a: string, b: string, c: string, d: string, e: string, f: string, g: string)
    ensures Join([a, b, c, d, e, f, g], '\n') == a + "\n" + b + "\n" + c + "\n" + d + "\n" + e + "\n" + f + "\n" + g
  {
    JoinSixLines(a, b, c, d, e, f);
    JoinSnoc([a, b, c, d, e, f], g, '\n');
    assert [a, b, c, d, e, f] + [g] == [a, b, c, d, e, f, g];
  }


  lemma DirHeadJoin(date: string, n: string)
    ensures Join(DirHead(date, n), '\n')
         == OkStatus + "\n" + ServerLine + "\n" + "Date: " + date + "\n"
            + ConnectionLine + "\n" + ListingType + "\n" + "Content-Length: " + n
  {
    var d := "Date: " + date;
    var l := "Content-Length: " + n;
    JoinSixLines(OkStatus, ServerLine, d, ConnectionLine, ListingType, l);
    var p := OkStatus + "\n" + ServerLine + "\n";
    AppendAssoc(p, "Date: ", date);
    AppendAssoc(p + d + "\n" + ConnectionLine + "\n" + ListingType + "\n", "Content-Length: ", n);
  }

  lemma DirShape(date: string, n: string, tail: string)
    ensures OkStatus + "\n" + ServerInfo(date)
            + (ListingType + "\n" + "Content-Length: " + n + "\n\n" + tail)
         == Join(DirHead(date, n), '\n') + "\n\n" + tail
  {
    var a := OkStatus + "\n" + ServerInfo(date);
    var b4 := ListingType + "\n";
    var b3 := b4 + "Content-Length: ";
    var b2 := b3 + n;
    var b1 := b2 + "\n\n";
    AppendAssoc(a, b1, tail);
    AppendAssoc(a, b2, "\n\n");
    AppendAssoc(a, b3, n);
    AppendAssoc(a, b4, "Content-Length: ");
    AppendAssoc(a, ListingType, "\n");
    ServerInfoAfter(OkStatus + "\n", date);
    DirHeadJoin(date, n);
  }

  lemma FileHeadJoin(date: string, ct: string, n: string, lm: string)
    ensures Join(FileHead(date, ct, n, lm), '\n')
         == OkStatus + "\n" + ServerLine + "\n" + "Date: " + date + "\n"
            + ConnectionLine + "\n" + "Content-type: " + ct + "\n" + "Content-Length: " + n + "\n"
            + "Last-Modified: " + lm
  {
    var d := "Date: " + date;
    var c := "Content-type: " + ct;
    var l := "Content-Length: " + n;
    var m := "Last-Modified: " + lm;
    JoinSevenLines(OkStatus, ServerLine, d, ConnectionLine, c, l, m);
    var p := OkStatus + "\n" + ServerLine + "\n";
    AppendAssoc(p, "Date: ", date);
    var q := p + d + "\n" + ConnectionLine + "\n";
    AppendAssoc(q, "Content-type: ", ct);
    var r := q + c + "\n";
    AppendAssoc(r, "Content-Length: ", n);
    AppendAssoc(r + l + "\n", "Last-Modified: ", lm);
  }

  lemma FileShape(date: string, ct: string, n: string, lm: string)
    ensures OkStatus + "\n" + ServerInfo(date)
            + ("Content-type: " + ct + "\n" + "Content-Length: " + n + "\n" + "Last-Modified: " + lm + "\n\n")
         == Join(FileHead(date, ct, n, lm), '\n') + "\n\n" + ""
  {
    var a := OkStatus + "\n" + ServerInfo(date);
    var b8 := "Content-type: " + ct;
    var b7 := b8 + "\n";
    var b6 := b7 + "Content-Length: ";
    var b5 := b6 + n;
    var b4 := b5 + "\n";
    var b3 := b4 + "Last-Modified: ";
    var b2 := b3 + lm;
    AppendAssoc(a, b2, "\n\n");
    AppendAssoc(a, b3, lm);
    AppendAssoc(a, b4, "Last-Modified: ");
    AppendAssoc(a, b5, "\n");
    AppendAssoc(a, b6, n);
    AppendAssoc(a, b7, "Content-Length: ");
    AppendAssoc(a, b8, "\n");
    AppendAssoc(a, "Content-type: ", ct);
    ServerInfoAfter(OkStatus + "\n", date);
    FileHeadJoin(date, ct, n, lm);
    var j := Join(FileHead(date, ct, n, lm), '\n') + "\n\n";
    assert j + "" == j;
  }

  /** The fields of a directory head. */
  lemma DirHeadFields(date: string, n: string)
    requires '\n' !in date && '\n' !in n
    ensures forall k :: 0 <= k < 6 ==> HeadLine(DirHead(date, n)[k])
    ensures Field(DirHead(date, n), "Content-Length") == Some(n)
    ensures Field(DirHead(date, n), "Content-type") == Some(HtmlMime)
  {
    FixedLines();
    DirHeadLengthField(date, n);
    DirHeadTypeField(date, n);
  }

  lemma DirHeadLengthField(date: string, n: string)
    ensures Field(DirHead(date, n), "Content-Length") == Some(n)
  {
    var ls := DirHead(date, n);
    CommonLinesOtherFields(date);
    DiffersAt(ListingType, "Content-Length: ", 8);
    FieldAt(ls, "Content-Length", 5);
    assert ls[5][16..] == n;
  }

  lemma DirHeadTypeField(date: string, n: string)
    ensures Field(DirHead(date, n), "Content-type") == Some(HtmlMime)
  {
    var ls := DirHead(date, n);
    CommonLinesOtherFields(date);
    TypeLineValue(HtmlMime);
    FieldAt(ls, "Content-type", 4);
  }

  /** The value a `Content-type: ` line carries. */
  lemma TypeLineValue(v: string)
    ensures StartsWith("Content-type: " + v, "Content-type: ") && ("Content-type: " + v)[14..] == v
  {
  }


  /** The four lines every 200 head starts with name neither content field. */
  lemma CommonLinesOtherFields(date: string)
    ensures !StartsWith(OkStatus, "Content-Length: ") && !StartsWith(OkStatus, "Content-type: ")
    ensures !StartsWith(ServerLine, "Content-Length: ")
    ensures !StartsWith(ServerLine, "Content-type: ")
    ensures !StartsWith("Date: " + date, "Content-Length: ") && !StartsWith("Date: " + date, "Content-type: ")
    ensures !StartsWith(ConnectionLine, "Content-Length: ") && !StartsWith(ConnectionLine, "Content-type: ")
  {
    DiffersAt(OkStatus, "Content-Length: ", 0);
    DiffersAt(OkStatus, "Content-type: ", 0);
    DiffersAt(ServerLine, "Content-Length: ", 0);
    DiffersAt(ServerLine, "Content-type: ", 0);
    DiffersAt("Date: " + date, "Content-Length: ", 0);
    DiffersAt("Date: " + date, "Content-type: ", 0);
    DiffersAt(ConnectionLine, "Content-Length: ", 3);
    DiffersAt(ConnectionLine, "Content-type: ", 3);
  }

  /** The fields of a regular file's head. */
  lemma FileHeadFields(date: string, ct: string, n: string, lm: string)
    requires '\n' !in date && '\n' !in ct && '\n' !in n && '\n' !in lm
    ensures forall k :: 0 <= k < 7 ==> HeadLine(FileHead(date, ct, n, lm)[k])
    ensures Field(FileHead(date, ct, n, lm), "Content-Length") == Some(n)
    ensures Field(FileHead(date, ct, n, lm), "Content-type") == Some(ct)
  {
    FixedLines();
    LabelledLine("Date: ", date);
    LabelledLine("Content-type: ", ct);
    LabelledLine("Content-Length: ", n);
    LabelledLine("Last-Modified: ", lm);
    FileHeadLengthField(date, ct, n, lm);
    FileHeadTypeField(date, ct, n, lm);
  }

  lemma FileHeadLengthField(date: string, ct: string, n: string, lm: string)
    ensures Field(FileHead(date, ct, n, lm), "Content-Length") == Some(n)
  {
    var ls := FileHead(date, ct, n, lm);
    CommonLinesOtherFields(date);
    DiffersAt("Content-type: " + ct, "Content-Length: ", 8);
    FieldAt(ls, "Content-Length", 5);
    assert ls[5][16..] == n;
  }

  lemma FileHeadTypeField(date: string, ct: string, n: string, lm: string)
    ensures Field(FileHead(date, ct, n, lm), "Content-type") == Some(ct)
  {
    var ls := FileHead(date, ct, n, lm);
    CommonLinesOtherFields(date);
    TypeLineValue(ct);
    FieldAt(ls, "Content-type", 4);
  }

  lemma BodyBytesOfTexts(a: string, b: string, rest: seq<Piece>)
    ensures BodyBytes([Text(a), Text(b)] + rest) == BodyBytes(rest)
  {
    BodyBytesConcat([Text(a), Text(b)], rest);
    assert [Text(a), Text(b)][1..] == [Text(b)];
  }

  /** The bytes a GET of a regular file carries are the file's bytes. */
  lemma FileBodyBytes(data: seq<byte>)
    ensures BodyBytes(ChunkPieces(Chunks(data)) + [Text("\n")]) == data
  {
    BodyBytesConcat(ChunkPieces(Chunks(data)), [Text("\n")]);
    BodyBytesOfChunks(Chunks(data));
    ChunksFlatten(data);
  }

  /**
   * 200 for a regular file: the head reads back as the status line, the
   * server lines, the type (HTML exactly when the name ends in `.html`), the
   * byte count and the modification date, followed by the empty line; a GET
   * then writes the file's chunks and the line feed of `println`, and a HEAD
   * writes nothing more.
   */
  lemma OkFileRead(fs: FileSystem, f: string, verb: string, t: Templates, date: string)
    requires !fs.isDirectory(f) && '\n' !in date && '\n' !in fs.lastModified(f)
    ensures var ps := ResponsePieces(Ok(verb, f), fs, t, date);
            |ps| >= 2 && ps[0].Text? && ps[1].Text?
            && Head(ps[0].chars + ps[1].chars)
               == Some(FileHead(date, ContentType(f), IntToString(|fs.content(f)|), fs.lastModified(f)))
            && Body(ps[0].chars + ps[1].chars) == Some("")
    ensures ContentLength(FileHead(date, ContentType(f), IntToString(|fs.content(f)|), fs.lastModified(f)))
         == Some(|fs.content(f)|)
    ensures Field(FileHead(date, ContentType(f), IntToString(|fs.content(f)|), fs.lastModified(f)), "Content-type")
         == Some(ContentType(f))
    ensures BodyBytes(ResponsePieces(Ok(verb, f), fs, t, date)) == (if verb == "GET" then fs.content(f) else [])
    ensures verb != "GET" ==> |ResponsePieces(Ok(verb, f), fs, t, date)| == 2
    ensures verb == "GET" ==> ResponsePieces(Ok(verb, f), fs, t, date)[2..]
                              == ChunkPieces(Chunks(fs.content(f))) + [Text("\n")]
  {
    var n := IntToString(|fs.content(f)|);
    var lm := fs.lastModified(f);
    var ct := ContentType(f);
    var rest := if verb == "GET" then ChunkPieces(Chunks(fs.content(f))) + [Text("\n")] else [];
    var a := OkStatus + "\n" + ServerInfo(date);
    assert ResponsePieces(Ok(verb, f), fs, t, date) == [Text(a), Text(FileHeader(fs, f))] + rest;
    FileShape(date, ct, n, lm);
    FixedLines();
    NumberChars(|fs.content(f)|);
    FileHeadFields(date, ct, n, lm);
    ReadBack(FileHead(date, ct, n, lm), "");
    NatTextRoundTrip(|fs.content(f)|);
    BodyBytesOfTexts(a, FileHeader(fs, f), rest);
    if verb == "GET" {
      FileBodyBytes(fs.content(f));
    }
  }

  lemma DirPieces(fs: FileSystem, f: string, verb: string, t: Templates, date: string)
    requires fs.isDirectory(f)
    ensures ResponsePieces(Ok(verb, f), fs, t, date)
         == [Text(OkStatus + "\n" + ServerInfo(date)),
             Text(DirHeader(DirListing(fs, f)) + (if verb == "GET" then DirListing(fs, f) + "\n" else ""))]
  {
    var body := DirListing(fs, f);
    if verb == "GET" {
      AppendAssoc(DirHeader(body), body, "\n");
    } else {
      assert DirHeader(body) == DirHeader(body) + "";
    }
  }

  /** Reading back the two texts of a 200 listing whose page is `body`. */
  lemma ListingTextRead(date: string, body: string, verb: string)
    requires '\n' !in date
    ensures var tail := if verb == "GET" then body + "\n" else "";
            var text := OkStatus + "\n" + ServerInfo(date)
                        + (ListingType + "\n" + "Content-Length: " + IntToString(Utf16Length(body)) + "\n\n" + tail);
            Head(text) == Some(DirHead(date, IntToString(Utf16Length(body)))) && Body(text) == Some(tail)
    ensures ContentLength(DirHead(date, IntToString(Utf16Length(body)))) == Some(Utf16Length(body))
    ensures Field(DirHead(date, IntToString(Utf16Length(body))), "Content-type") == Some(HtmlMime)
  {
    var n := IntToString(Utf16Length(body));
    var tail := if verb == "GET" then body + "\n" else "";
    DirShape(date, n, tail);
    NumberChars(Utf16Length(body));
    DirHeadFields(date, n);
    ReadBack(DirHead(date, n), tail);
    NatTextRoundTrip(Utf16Length(body));
  }

  /**
   * 200 for a directory: the head announces an HTML page of the listing's
   * length; a GET carries the listing and a line feed, a HEAD nothing.
   */
  lemma OkDirRead(fs: FileSystem, f: string, verb: string, t: Templates, date: string)
    requires fs.isDirectory(f) && '\n' !in date
    ensures var ps := ResponsePieces(Ok(verb, f), fs, t, date);
            |ps| == 2 && ps[0].Text? && ps[1].Text?
            && Head(ps[0].chars + ps[1].chars)
               == Some(DirHead(date, IntToString(Utf16Length(DirListing(fs, f)))))
            && Body(ps[0].chars + ps[1].chars) == Some(if verb == "GET" then DirListing(fs, f) + "\n" else "")
    ensures ContentLength(DirHead(date, IntToString(Utf16Length(DirListing(fs, f)))))
         == Some(Utf16Length(DirListing(fs, f)))
    ensures Field(DirHead(date, IntToString(Utf16Length(DirListing(fs, f)))), "Content-type") == Some(HtmlMime)
    ensures BodyBytes(ResponsePieces(Ok(verb, f), fs, t, date)) == []
  {
    var body := DirListing(fs, f);
    DirPieces(fs, f, verb, t, date);
    ListingTextRead(date, body, verb);
    var ps := ResponsePieces(Ok(verb, f), fs, t, date);
    BodyBytesOfTexts(ps[0].chars, ps[1].chars, []);
    assert ps == [Text(ps[0].chars), Text(ps[1].chars)] + [];
  }
}
