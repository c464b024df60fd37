/**
 * Request-target recognition (`parseTargetResource`) and the check that a
 * file lies inside the server root (`isValid`).
 *
 * The source matches the target against two regular expressions, `/.*` and
 * `(http://)?HOST(:PORT)?/.*`, with the host and port spliced in unescaped.
 * With a host free of regular-expression metacharacters both are plain string
 * patterns, written out here: `.` is any character but a line terminator,
 * and the optional groups give four literal prefixes.
 */
module Target {
  import opened JavaLang
  import opened JavaIo

  /** The `serverRoot` field. */
  const ServerRoot: string := "res/"

  /** The characters `.` does not match in a Java regular expression without flags. */
  predicate IsLineTerminator(c: char) {
    c == '\n' || c == '\r' || c == '\U{0085}' || c == '\U{2028}' || c == '\U{2029}'
  }

  /** `s` matches `.*`. */
  predicate AnyChars(s: string) {
    forall k :: 0 <= k < |s| ==> !IsLineTerminator(s[k])
  }

  /** Origin-form (section 5.3.1 of RFC 7230): `path` matches `/.*`. */
  predicate OriginForm(path: string) {
    |path| > 0 && path[0] == '/' && AnyChars(path[1..])
  }

  predicate RegexMeta(c: char) {
    c in "\\^$.|?*+()[]{}"
  }

  /**
   * A configured host the model can treat literally: no regular-expression
   * metacharacter and no `:` (a host name, not an authority).
   */
  predicate ValidHost(host: string) {
    forall k :: 0 <= k < |host| ==> !RegexMeta(host[k]) && host[k] != ':'
  }

  /** `path` is `prefix` followed by an origin-form rest. */
  predicate MatchesAfter(path: string, prefix: string) {
    StartsWith(path, prefix) && OriginForm(path[|prefix|..])
  }

  /** The decimal text of the port as it is spliced into the pattern: non-empty, no `/`. */
  predicate PortText(ps: string) {
    |ps| > 0 && '/' !in ps
  }

  lemma PortTextOf(port: int)
    ensures PortText(IntToString(port))
  {
    var ps := IntToString(port);
    IntToStringChars(port);
    forall k | 0 <= k < |ps| ensures ps[k] != '/' {
      assert IsDigit(ps[k]) || ps[k] == '-';
    }
  }

  /** The four prefixes the absolute-form pattern allows before the origin-form rest. */
  function AuthorityPrefixes(host: string, ps: string): seq<string> {
    [host, host + ":" + ps, "http://" + host, "http://" + host + ":" + ps]
  }

  /** Absolute-form (section 5.3.2 of RFC 7230): `path` matches `(http://)?host(:ps)?/.*`. */
  predicate AbsoluteForm(path: string, host: string, ps: string) {
    MatchesAfter(path, host) || MatchesAfter(path, host + ":" + ps)
    || MatchesAfter(path, "http://" + host) || MatchesAfter(path, "http://" + host + ":" + ps)
  }

  /** A string that differs from `t` at some index below `|t|` does not start with `t`. */
  lemma DiffersAt(s: string, t: string, k: nat)
    requires k < |t| && (k >= |s| || s[k] != t[k])
    ensures !StartsWith(s, t)
  {
    if |t| <= |s| {
      assert s[..|t|][k] == s[k];
    }
  }

  /** With no `:` in the host, a bare-host absolute form never begins with the scheme. */
  lemma BareFormHasNoScheme(path: string, host: string, ps: string)
    requires ValidHost(host) && PortText(ps)
    requires MatchesAfter(path, host) || MatchesAfter(path, host + ":" + ps)
    ensures !StartsWith(path, "http://")
  {
    var n := |host|;
    var withPort := !MatchesAfter(path, host);
    if withPort {
      assert path[..n + 1 + |ps|] == host + ":" + ps;
      assert path[n] == (host + ":" + ps)[n] == ':';
      assert path[n + 1] == (host + ":" + ps)[n + 1] == ps[0];
    } else {
      assert path[..n] == host;
      assert path[n] == path[n..][0] == '/';
    }
    if n >= 5 {
      assert path[4] == path[..n][4] == host[4];
      DiffersAt(path, "http://", 4);
    } else if n == 4 && withPort {
      DiffersAt(path, "http://", 5);
    } else {
      DiffersAt(path, "http://", n);
    }
  }

  /** A scheme-form absolute target starts with the scheme and the host. */
  lemma SchemeFormCovered(path: string, host: string, ps: string)
    requires ValidHost(host) && PortText(ps) && AbsoluteForm(path, host, ps) && StartsWith(path, "http://")
    ensures MatchesAfter(path, "http://" + host) || MatchesAfter(path, "http://" + host + ":" + ps)
  {
    if MatchesAfter(path, host) || MatchesAfter(path, host + ":" + ps) {
      BareFormHasNoScheme(path, host, ps);
    }
  }

  /** A target in either scheme form starts with the scheme. */
  lemma SchemeFormStartsWithScheme(path: string, host: string, ps: string)
    ensures MatchesAfter(path, "http://" + host) || MatchesAfter(path, "http://" + host + ":" + ps) ==>
      StartsWith(path, "http://")
  {
    if MatchesAfter(path, "http://" + host) || MatchesAfter(path, "http://" + host + ":" + ps) {
      var p := if MatchesAfter(path, "http://" + host) then "http://" + host else "http://" + host + ":" + ps;
      assert path[..|p|] == p;
      assert path[..7] == path[..|p|][..7] == p[..7];
    }
  }

  /** What follows the host in an absolute-form target: `:port/...` or `/...`. */
  function AfterHost(path: string, host: string, ps: string): string
    requires ValidHost(host) && PortText(ps) && AbsoluteForm(path, host, ps)
  {
    if StartsWith(path, "http://") then
      SchemeFormCovered(path, host, ps);
      path[|"http://" + host|..]
    else if MatchesAfter(path, "http://" + host) || MatchesAfter(path, "http://" + host + ":" + ps) then
      SchemeFormStartsWithScheme(path, host, ps);
      assert false;
      ""
    else path[|host|..]
  }

  /** A leading `:port` is replaced by the `/`-rooted rest of the path. */
  function DropPort(relativePath: string): string {
    if StartsWith(relativePath, ":") then
      var pathComponents := SplitLimit2(relativePath, '/');
      if |pathComponents| == 1 then "/" else "/" + pathComponents[1]
    else relativePath
  }

  /** The path relative to the server root that `parseTargetResource` computes, if any. */
  function TargetRelative(path: string, host: string, port: int): Option<string>
    requires ValidHost(host)
  {
    var ps := IntToString(port);
    PortTextOf(port);
    if OriginForm(path) then Some(path)
    else if AbsoluteForm(path, host, ps) then Some(DropPort(AfterHost(path, host, ps)))
    else None
  }

  /** `parseTargetResource`: the `File` for the target, or null for a malformed one. */
  function ParseTargetResource(path: string, host: string, port: int): Option<string>
    requires ValidHost(host)
  {
    match TargetRelative(path, host, port)
    case None => None
    case Some(rel) => Some(NewFile(ServerRoot, rel))
  }

  /** The text after the host is the rest after the matched prefix, with `:port` before it if the prefix has one. */
  lemma AfterHostOf(path: string, host: string, ps: string, p: string)
    requires ValidHost(host) && PortText(ps)
    requires p in AuthorityPrefixes(host, ps)
    requires MatchesAfter(path, p)
    ensures AbsoluteForm(path, host, ps)
    ensures p == host || p == "http://" + host ==> AfterHost(path, host, ps) == path[|p|..]
    ensures p == host + ":" + ps || p == "http://" + host + ":" + ps ==>
      AfterHost(path, host, ps) == ":" + ps + path[|p|..]
  {
    var bare := p == host || p == host + ":" + ps;
    var a := if bare then host else "http://" + host;
    SchemeFormStartsWithScheme(path, host, ps);
    if bare {
      BareFormHasNoScheme(path, host, ps);
    }
    var tail := path[|p|..];
    assert path == p + tail by {
      assert path[..|p|] == p;
    }
    if p != a {
      assert path == a + (":" + ps + tail);
    }
  }

  /** Dropping a port (or anything free of `/`) after the `:` leaves the `/`-rooted rest. */
  lemma DropPortOf(ps: string, tail: string)
    requires |tail| > 0 && tail[0] == '/' && '/' !in ps
    ensures DropPort(tail) == tail
    ensures DropPort(":" + ps + tail) == tail
  {
    assert tail == "/" + tail[1..];
    assert '/' !in ":" + ps;
    SplitLimit2Joined(":" + ps, tail[1..], '/');
    assert ":" + ps + tail == ":" + ps + "/" + tail[1..];
  }

  /**
   * Whichever of the four prefixes an absolute-form target carries, what
   * remains after it is the path the resource is looked up by.
   */
  lemma AbsoluteFormStripped(path: string, host: string, port: int, p: string)
    requires ValidHost(host) && !OriginForm(path)
    requires p in AuthorityPrefixes(host, IntToString(port))
    requires MatchesAfter(path, p)
    ensures TargetRelative(path, host, port) == Some(path[|p|..])
  {
    var ps := IntToString(port);
    PortTextOf(port);
    AfterHostOf(path, host, ps, p);
    DropPortOf(ps, path[|p|..]);
  }

  /** A target is accepted exactly in origin or absolute form, and always yields an origin-form path. */
  lemma TargetIsOriginForm(path: string, host: string, port: int)
    requires ValidHost(host)
    ensures TargetRelative(path, host, port).Some? <==> OriginForm(path) || AbsoluteForm(path, host, IntToString(port))
    ensures TargetRelative(path, host, port).Some? ==> OriginForm(TargetRelative(path, host, port).value)
  {
    var ps := IntToString(port);
    var pre := AuthorityPrefixes(host, ps);
    if !OriginForm(path) && AbsoluteForm(path, host, ps) {
      var p :=
        if MatchesAfter(path, pre[0]) then pre[0]
        else if MatchesAfter(path, pre[1]) then pre[1]
        else if MatchesAfter(path, pre[2]) then pre[2]
        else pre[3];
      AbsoluteFormStripped(path, host, port, p);
    }
  }

  lemma CollapseSlashesFirst(p: string)
    requires |p| > 0
    ensures |CollapseSlashes(p)| > 0 && CollapseSlashes(p)[0] == p[0]
  {
    if |p| > 1 && p[0] == '/' && p[1] == '/' {
      CollapseSlashesFirst(p[1..]);
    }
  }

  /** Every file the target names is spelled below the server root `res/`. */
  lemma TargetFileUnderRoot(path: string, host: string, port: int)
    requires ValidHost(host)
    ensures ParseTargetResource(path, host, port).Some? ==> StartsWith(ParseTargetResource(path, host, port).value, "res/")
  {
    TargetIsOriginForm(path, host, port);
    match TargetRelative(path, host, port)
    case None =>
    case Some(rel) =>
      CollapseSlashesFirst(rel);
      assert Normalize(ServerRoot) == "res";
      var n := Normalize(rel);
      assert n[0] == '/';
      assert NewFile(ServerRoot, rel) == "res" + n;
  }

  // ------------------------------------------------------------ isValid

  /** `isValid` as written: the file exists and its canonical path starts with that of `res`. */
  predicate IsValidAsWritten(fs: FileSystem, f: string) {
    fs.fileExists(f) && StartsWith(fs.canonicalPath(f), fs.canonicalPath("res"))
  }

  /** `p` is `root` itself or lies in the directory `root`, comparing whole path components. */
  predicate InsideRoot(p: string, root: string) {
    p == root || StartsWith(p, if EndsWith(root, "/") then root else root + "/")
  }

  /** `isValid` as intended: the file exists and lies inside the server root directory. */
  predicate IsValid(fs: FileSystem, f: string) {
    fs.fileExists(f) && InsideRoot(fs.canonicalPath(f), fs.canonicalPath("res"))
  }

  /** The intended check rejects everything the written one rejects. */
  lemma IsValidStricter(fs: FileSystem, f: string)
    ensures IsValid(fs, f) ==> IsValidAsWritten(fs, f)
  {
    var p := fs.canonicalPath(f);
    var root := fs.canonicalPath("res");
    if IsValid(fs, f) && p != root {
      var q := if EndsWith(root, "/") then root else root + "/";
      assert p[..|q|] == q;
      assert p[..|root|] == q[..|root|] == root;
    }
  }

  lemma {:induction false} JoinConcat(xs: seq<string>, ys: seq<string>, c: char)
    requires |xs| >= 1 && |ys| >= 1
    ensures Join(xs + ys, c) == Join(xs, c) + [c] + Join(ys, c)
    decreases |xs|
  {
    if |xs| > 1 {
      assert (xs + ys)[1..] == xs[1..] + ys;
      JoinConcat(xs[1..], ys, c);
    }
  }

  /**
   * For a root not ending in `/`, lying inside it means exactly that the
   * root's path components are the first components of the path.
   */
  lemma InsideRootComponents(p: string, root: string)
    requires !EndsWith(root, "/")
    ensures InsideRoot(p, root) <==> SplitAll(root, '/') <= SplitAll(p, '/')
  {
    if InsideRoot(p, root) {
      InsideRootLeads(p, root);
    }
    if SplitAll(root, '/') <= SplitAll(p, '/') {
      LeadingComponentsInside(p, root);
    }
  }

  /** A path inside the root starts with the root's components. */
  lemma InsideRootLeads(p: string, root: string)
    requires !EndsWith(root, "/") && InsideRoot(p, root)
    ensures SplitAll(root, '/') <= SplitAll(p, '/')
  {
    if p != root {
      var rest := p[|root| + 1..];
      assert p == root + "/" + rest by {
        assert p[..|root| + 1] == root + "/";
      }
      SplitAllConcat(root, rest, '/');
    }
  }

  /** A path whose leading components are the root's lies inside the root. */
  lemma LeadingComponentsInside(p: string, root: string)
    requires !EndsWith(root, "/") && SplitAll(root, '/') <= SplitAll(p, '/')
    ensures InsideRoot(p, root)
  {
    var rs := SplitAll(root, '/');
    var ps := SplitAll(p, '/');
    JoinSplitAll(root, '/');
    JoinSplitAll(p, '/');
    if |ps| > |rs| {
      var more := ps[|rs|..];
      assert ps == rs + more;
      JoinConcat(rs, more, '/');
      assert p == root + "/" + Join(more, '/');
      assert p[..|root + "/"|] == root + "/";
    } else {
      assert ps == rs;
    }
  }

  /** An origin-form target without doubled or trailing slashes names `res` followed by the target. */
  lemma OriginTargetFile(t: string, host: string, port: int)
    requires ValidHost(host) && OriginForm(t) && t[|t| - 1] != '/'
    requires forall k :: 0 <= k < |t| - 1 ==> t[k] != '/' || t[k + 1] != '/'
    ensures ParseTargetResource(t, host, port) == Some("res" + t)
  {
    CollapseNoDouble(t);
    assert Normalize(ServerRoot) == "res";
  }

  /** The file `GET /../res2/secret` names, on a disk where the server root is `/srv/res`. */
  const SiblingFile: string := "res" + SiblingPath

  /** A request target that climbs out of the root into a sibling directory. */
  const SiblingPath: string := "/../res2/secret"

  function SiblingDisk(): FileSystem {
    FileSystem(
      p => true,
      p => false,
      p => if p == "res" then "/srv/res" else "/srv/res2/secret",
      p => [],
      p => [],
      p => "")
  }

  /** `/../res2/secret` is an origin-form path without spaces, doubled slashes or a trailing slash. */
  lemma SiblingPathShape(target: string)
    requires target == SiblingPath
    ensures OriginForm(target) && ' ' !in target && target[|target| - 1] != '/'
    ensures forall k :: 0 <= k < |target| - 1 ==> target[k] != '/' || target[k + 1] != '/'
  {
    assert target[1..] == "../res2/secret";
    assert OriginForm(target);
    assert forall k :: 0 <= k < |target| - 1 ==> target[k] != '/' || target[k + 1] != '/' by {
      forall k | 0 <= k < |target| - 1
        ensures target[k] != '/' || target[k + 1] != '/'
      {
        if target[k] == '/' {
          assert k == 0 || k == 3 || k == 8;
        }
      }
    }
  }

  /** The target `/../res2/secret` names the file `res/../res2/secret`. */
  lemma SiblingTarget(target: string, host: string, port: int)
    requires ValidHost(host) && target == SiblingPath
    ensures ParseTargetResource(target, host, port) == Some(SiblingFile)
  {
    SiblingPathShape(target);
    OriginTargetFile(target, host, port);
  }

  /**
   * The written check serves that file from the sibling directory
   * `/srv/res2`, which the intended check refuses.
   */
  lemma SiblingDirectoryAccepted()
    ensures SiblingDisk().canonicalPath(SiblingFile) == "/srv/res2/secret"
    ensures IsValidAsWritten(SiblingDisk(), SiblingFile)
    ensures !IsValid(SiblingDisk(), SiblingFile)
  {
    var q: string := "/srv/res2/secret";
    assert q[..8] == "/srv/res";
    DiffersAt(q, "/srv/res/", 8);
  }
}
