/**
 * What `HTTPParser` reads from a request: the request line, the header
 * section, the method classification and the HTTP-version / Host check.
 * The stream-reading methods themselves are in module Parser; here are the
 * functions that say what they compute.
 */
module Request {
  import opened JavaLang

  /**
   * `BasicRequest`: the three parts of the request line (the method is
   * `verb`, `method` being a Dafny keyword); the version is null for a
   * 2-token line.
   */
  datatype BasicRequest = BasicRequest(verb: string, path: string, httpVersion: Option<string>)

  /**
   * What reading one part of the request yields: a value, the source's
   * `null` (malformed), or the end of the stream, where the source
   * dereferences the `null` that `readLine` returned.
   */
  datatype Parsed<T> = Parsed(value: T) | Malformed | EndOfStream

  // ------------------------------------------------------- request line

  /** The request line proper: 2 or 3 tokens separated by single spaces. */
  function RequestLineOf(line: string): Option<BasicRequest> {
    var parts := Split(line, ' ');
    if |parts| != 2 && |parts| != 3 then None
    else Some(BasicRequest(parts[0], parts[1], if |parts| == 3 then Some(parts[2]) else None))
  }

  /** The first non-empty line at or after `pos`. */
  function FirstNonBlank(lines: seq<string>, pos: nat): (r: Option<nat>)
    requires pos <= |lines|
    ensures r.Some? ==> pos <= r.value < |lines| && lines[r.value] != ""
    ensures r.Some? ==> forall k :: pos <= k < r.value ==> lines[k] == ""
    ensures r.None? ==> forall k :: pos <= k < |lines| ==> lines[k] == ""
    decreases |lines| - pos
  {
    if pos == |lines| then None
    else if lines[pos] != "" then Some(pos)
    else FirstNonBlank(lines, pos + 1)
  }

  /** Every line of `lines[from..stop]` is empty. */
  predicate AllBlank(lines: seq<string>, from: nat, stop: nat)
    requires from <= stop <= |lines|
    decreases stop
  {
    stop == from || (lines[stop - 1] == "" && AllBlank(lines, from, stop - 1))
  }

  lemma {:induction false} AllBlankAll(lines: seq<string>, from: nat, stop: nat)
    requires from <= stop <= |lines| && AllBlank(lines, from, stop)
    ensures forall k :: from <= k < stop ==> lines[k] == ""
    decreases stop
  {
    if stop > from {
      AllBlankAll(lines, from, stop - 1);
    }
  }

  /**
   * `parseRequestLine` from cursor `pos`: the outcome and the cursor after
   * it. Leading empty lines are skipped; a stream with nothing else ends in
   * EndOfStream.
   */
  function RequestLineStep(lines: seq<string>, pos: nat): (Parsed<BasicRequest>, nat)
    requires pos <= |lines|
  {
    match FirstNonBlank(lines, pos)
    case None => (EndOfStream, |lines|)
    case Some(i) =>
      match RequestLineOf(lines[i])
      case None => (Malformed, i + 1)
      case Some(r) => (Parsed(r), i + 1)
  }

  /** The request line is the line `i`, after empty lines only. */
  lemma RequestLineAt(lines: seq<string>, pos: nat, i: nat)
    requires pos <= i < |lines| && lines[i] != "" && AllBlank(lines, pos, i)
    ensures RequestLineStep(lines, pos)
         == (match RequestLineOf(lines[i]) case None => Malformed case Some(r) => Parsed(r), i + 1)
  {
    AllBlankAll(lines, pos, i);
    assert FirstNonBlank(lines, pos) == Some(i);
  }

  /** A stream with nothing but empty lines from `pos`. */
  lemma RequestLineEnd(lines: seq<string>, pos: nat)
    requires pos <= |lines| && AllBlank(lines, pos, |lines|)
    ensures RequestLineStep(lines, pos) == (EndOfStream, |lines|)
  {
    AllBlankAll(lines, pos, |lines|);
    assert FirstNonBlank(lines, pos).None?;
  }

  /** A request line assembled from 3 space-free tokens reads back as those tokens. */
  lemma RequestLineOfThree(m: string, p: string, v: string)
    requires ' ' !in m && ' ' !in p && ' ' !in v && v != ""
    ensures RequestLineOf(m + " " + p + " " + v) == Some(BasicRequest(m, p, Some(v)))
  {
    var ts := [m, p, v];
    assert Join(ts, ' ') == m + " " + p + " " + v by {
      assert Join(ts[1..], ' ') == p + " " + v by {
        assert ts[1..][1..] == [v];
      }
    }
    SplitJoin(ts, ' ');
  }

  /** A 2-token request line reads back with no version. */
  lemma RequestLineOfTwo(m: string, p: string)
    requires ' ' !in m && ' ' !in p && p != ""
    ensures RequestLineOf(m + " " + p) == Some(BasicRequest(m, p, None))
  {
    var ts := [m, p];
    assert Join(ts, ' ') == m + " " + p by {
      assert ts[1..] == [p];
    }
    SplitJoin(ts, ' ');
  }

  /** Any other number of space-separated tokens is rejected. */
  lemma RequestLineOtherCounts(ts: seq<string>)
    requires |ts| >= 1 && (|ts| < 2 || |ts| > 3)
    requires forall k :: 0 <= k < |ts| ==> ' ' !in ts[k]
    requires ts[|ts| - 1] != ""
    ensures RequestLineOf(Join(ts, ' ')) == None
  {
    SplitJoin(ts, ' ');
  }

  // ------------------------------------------------------- methods

  const SupportedMethods: seq<string> := ["GET", "HEAD"]
  const NotImplementedMethods: seq<string> := ["PUT", "POST", "DELETE", "CONNECT", "OPTIONS", "TRACE"]

  predicate Supported(m: string) {
    m in SupportedMethods
  }

  predicate Recognized(m: string) {
    m in NotImplementedMethods || Supported(m)
  }

  // ------------------------------------------------------- headers

  /** The field name: everything before the first `:` (the whole line if there is none). */
  function HeaderName(line: string): string
    decreases |line|
  {
    if |line| == 0 || line[0] == ':' then "" else [line[0]] + HeaderName(line[1..])
  }

  /** The field value: what follows the first `:`, trimmed; `""` when there is no `:`. */
  function HeaderValue(line: string): string
    decreases |line|
  {
    if |line| == 0 then ""
    else if line[0] == ':' then Trim(line[1..])
    else HeaderValue(line[1..])
  }

  /**
   * The name and the value are what `split(":", 2)` cuts the line into:
   * the first token, and the trimmed second one when there is one.
   */
  lemma HeaderSplit(line: string)
    ensures var tokens := SplitLimit2(line, ':');
            HeaderName(line) == tokens[0]
            && HeaderValue(line) == (if |tokens| == 2 then Trim(tokens[1]) else "")
  {
    match IndexOf(line, ':')
    case None => NoColonSplit(line);
    case Some(i) => ColonSplit(line, i);
  }

  lemma {:induction false} NoColonSplit(line: string)
    requires ':' !in line
    ensures HeaderName(line) == line && HeaderValue(line) == ""
    decreases |line|
  {
    if |line| > 0 {
      NoColonSplit(line[1..]);
    }
  }

  lemma {:induction false} ColonSplit(line: string, i: nat)
    requires i < |line| && line[i] == ':' && ':' !in line[..i]
    ensures HeaderName(line) == line[..i] && HeaderValue(line) == Trim(line[i + 1..])
    decreases i
  {
    if i > 0 {
      assert line[0] == line[..i][0];
      assert line[1..][..i - 1] == line[1..i];
      ColonSplit(line[1..], i - 1);
      assert line[..i] == [line[0]] + line[1..i];
    }
  }

  /** A header line is cut at its first colon only; the value is trimmed. */
  lemma HeaderLineParts(name: string, value: string)
    requires ':' !in name
    ensures HeaderName(name + ":" + value) == name
    ensures HeaderValue(name + ":" + value) == Trim(value)
  {
    HeaderSplit(name + ":" + value);
    IndexOfJoined(name, value, ':');
    assert (name + ":" + value)[..|name|] == name;
    assert (name + ":" + value)[|name| + 1..] == value;
  }

  /** A line with no colon names a field with an empty value. */
  lemma HeaderLineWithoutColon(line: string)
    requires ':' !in line
    ensures HeaderName(line) == line && HeaderValue(line) == ""
  {
    NoColonSplit(line);
  }

  /**
   * The `Hashtable` after the header lines `lines[from..stop]`, in order; a
   * later line overwrites an earlier name.
   */
  function HeaderMap(lines: seq<string>, from: nat, stop: nat): map<string, string>
    requires from <= stop <= |lines|
    decreases stop
  {
    if stop == from then map[]
    else HeaderMap(lines, from, stop - 1)[HeaderName(lines[stop - 1]) := HeaderValue(lines[stop - 1])]
  }

  /** The field name ends with a space: whitespace before the colon (section 3.2.4 of RFC 7230). */
  predicate BadName(line: string) {
    EndsWith(HeaderName(line), " ")
  }

  /** Some line of `lines[from..stop]` has a bad name; the source's `invalid` flag. */
  predicate HasBadName(lines: seq<string>, from: nat, stop: nat)
    requires from <= stop <= |lines|
    decreases stop
  {
    stop > from && (HasBadName(lines, from, stop - 1) || BadName(lines[stop - 1]))
  }

  /** `parseAttributes` on the header lines `lines[from..stop]` (those before the blank line). */
  function HeaderSection(lines: seq<string>, from: nat, stop: nat): Option<map<string, string>>
    requires from <= stop <= |lines|
  {
    if HasBadName(lines, from, stop) then None else Some(HeaderMap(lines, from, stop))
  }

  /** A name is in the table with the value of the last line that carries it. */
  lemma {:induction false} HeaderMapLastWins(lines: seq<string>, from: nat, stop: nat, i: nat)
    requires from <= i < stop <= |lines|
    requires forall j :: i < j < stop ==> HeaderName(lines[j]) != HeaderName(lines[i])
    ensures HeaderName(lines[i]) in HeaderMap(lines, from, stop)
    ensures HeaderMap(lines, from, stop)[HeaderName(lines[i])] == HeaderValue(lines[i])
    decreases stop
  {
    if i < stop - 1 {
      HeaderMapLastWins(lines, from, stop - 1, i);
    }
  }

  /** A name is in the table exactly when some line carries it. */
  lemma {:induction false} HeaderMapKeys(lines: seq<string>, from: nat, stop: nat, k: string)
    requires from <= stop <= |lines|
    ensures k in HeaderMap(lines, from, stop) <==> (exists j :: from <= j < stop && HeaderName(lines[j]) == k)
    decreases stop
  {
    if stop > from {
      HeaderMapKeys(lines, from, stop - 1, k);
    }
  }

  /** The section is rejected exactly when some line has whitespace before its colon. */
  lemma {:induction false} HasBadNameIff(lines: seq<string>, from: nat, stop: nat)
    requires from <= stop <= |lines|
    ensures HasBadName(lines, from, stop) <==> (exists j :: from <= j < stop && BadName(lines[j]))
    decreases stop
  {
    if stop > from {
      HasBadNameIff(lines, from, stop - 1);
    }
  }

  /** The first empty line at or after `pos`: the end of the header section. */
  function FirstBlank(lines: seq<string>, pos: nat): (r: Option<nat>)
    requires pos <= |lines|
    ensures r.Some? ==> pos <= r.value < |lines| && lines[r.value] == ""
    ensures r.Some? ==> forall k :: pos <= k < r.value ==> lines[k] != ""
    ensures r.None? ==> forall k :: pos <= k < |lines| ==> lines[k] != ""
    decreases |lines| - pos
  {
    if pos == |lines| then None
    else if lines[pos] == "" then Some(pos)
    else FirstBlank(lines, pos + 1)
  }

  /**
   * `parseAttributes` from cursor `pos`: the outcome and the cursor after
   * it. Reading always goes on to the blank line, valid or not.
   */
  function HeaderStep(lines: seq<string>, pos: nat): (r: (Parsed<map<string, string>>, nat))
    requires pos <= |lines|
    ensures pos <= r.1 <= |lines|
    ensures r.0.EndOfStream? <==> forall k :: pos <= k < |lines| ==> lines[k] != ""
    ensures !r.0.EndOfStream? ==>
              pos < r.1 && lines[r.1 - 1] == "" && forall k :: pos <= k < r.1 - 1 ==> lines[k] != ""
    ensures r.0.Malformed? ==> HasBadName(lines, pos, r.1 - 1)
    ensures r.0.Parsed? ==> !HasBadName(lines, pos, r.1 - 1) && r.0.value == HeaderMap(lines, pos, r.1 - 1)
  {
    match FirstBlank(lines, pos)
    case None => (EndOfStream, |lines|)
    case Some(j) =>
      match HeaderSection(lines, pos, j)
      case None => (Malformed, j + 1)
      case Some(m) => (Parsed(m), j + 1)
  }

  /** No line of `lines[from..stop]` is empty. */
  predicate NoBlank(lines: seq<string>, from: nat, stop: nat)
    requires from <= stop <= |lines|
    decreases stop
  {
    stop == from || (lines[stop - 1] != "" && NoBlank(lines, from, stop - 1))
  }

  lemma {:induction false} NoBlankAll(lines: seq<string>, from: nat, stop: nat)
    requires from <= stop <= |lines| && NoBlank(lines, from, stop)
    ensures forall k :: from <= k < stop ==> lines[k] != ""
    decreases stop
  {
    if stop > from {
      NoBlankAll(lines, from, stop - 1);
    }
  }

  /** The header section closed by the blank line `j`. */
  lemma HeaderStepAt(lines: seq<string>, pos: nat, j: nat)
    requires pos <= j < |lines| && lines[j] == "" && NoBlank(lines, pos, j)
    ensures HeaderStep(lines, pos)
         == (if HasBadName(lines, pos, j) then Malformed else Parsed(HeaderMap(lines, pos, j)), j + 1)
  {
    NoBlankAll(lines, pos, j);
    assert FirstBlank(lines, pos) == Some(j);
  }

  /** A stream that ends inside the header section. */
  lemma HeaderStepEnd(lines: seq<string>, pos: nat)
    requires pos <= |lines| && NoBlank(lines, pos, |lines|)
    ensures HeaderStep(lines, pos) == (EndOfStream, |lines|)
  {
    NoBlankAll(lines, pos, |lines|);
    assert FirstBlank(lines, pos).None?;
  }

  // ------------------------------------------------------- version and Host

  /** What `supportedHttpVersion` does: answer, or throw. */
  datatype Verdict = Accept | Reject | Throws(e: JavaException)

  /**
   * HTTP/1.0 passes; HTTP/1.1 passes when the Host field, split at `:`,
   * is the configured host alone or with the configured port (section 5.4
   * of RFC 7230); a null version and a port that is not a number throw.
   */
  function SupportedHttpVersion(version: Option<string>, attrs: map<string, string>,
                                host: string, port: int): Verdict
  {
    match version
    case None => Throws(NullPointerException)
    case Some(v) =>
      if v == "HTTP/1.0" then Accept
      else if v == "HTTP/1.1" then
        if "Host" in attrs then
          var hostComponents := Split(attrs["Host"], ':');
          if |hostComponents| == 1 then
            if hostComponents[0] == host then Accept else Reject
          else if |hostComponents| == 2 then
            match ParseInt(hostComponents[1])
            case None => Throws(NumberFormatException)
            case Some(recvPort) =>
              if hostComponents[0] == host && recvPort == port then Accept else Reject
          else Reject
        else Reject
      else Reject
  }

  /** `Host: host` is accepted for HTTP/1.1. */
  lemma HostAloneAccepted(attrs: map<string, string>, host: string, port: int)
    requires ':' !in host
    requires "Host" in attrs && attrs["Host"] == host
    ensures SupportedHttpVersion(Some("HTTP/1.1"), attrs, host, port) == Accept
  {
  }

  /** `Host: host:q` is accepted for HTTP/1.1 exactly when `q` is the configured port. */
  lemma HostWithPort(attrs: map<string, string>, host: string, port: int, q: int)
    requires ':' !in host && IsInt32(q)
    requires "Host" in attrs && attrs["Host"] == host + ":" + IntToString(q)
    ensures SupportedHttpVersion(Some("HTTP/1.1"), attrs, host, port) == (if q == port then Accept else Reject)
  {
    var ps := IntToString(q);
    var ts := [host, ps];
    IntToStringChars(q);
    assert ':' !in ps by {
      forall k | 0 <= k < |ps| ensures ps[k] != ':' {
        assert IsDigit(ps[k]) || ps[k] == '-';
      }
    }
    assert Join(ts, ':') == host + ":" + ps by {
      assert ts[1..] == [ps];
    }
    SplitJoin(ts, ':');
    ParseIntToString(q);
  }

  /** A port part that `parseInt` rejects makes the check throw, whatever the host part. */
  lemma HostWithBadPortThrows(attrs: map<string, string>, h: string, s: string, host: string, port: int)
    requires ':' !in h && ':' !in s && s != ""
    requires ParseInt(s) == None
    requires "Host" in attrs && attrs["Host"] == h + ":" + s
    ensures SupportedHttpVersion(Some("HTTP/1.1"), attrs, host, port) == Throws(NumberFormatException)
  {
    var ts := [h, s];
    assert Join(ts, ':') == h + ":" + s by {
      assert ts[1..] == [s];
    }
    SplitJoin(ts, ':');
  }

  /**
   * An accepted HTTP/1.1 request names the configured host in its Host
   * field, and a non-empty field after its first colon reads as the
   * configured port.
   */
  lemma AcceptedHostIsConfigured(attrs: map<string, string>, host: string, port: int)
    requires SupportedHttpVersion(Some("HTTP/1.1"), attrs, host, port) == Accept
    ensures "Host" in attrs && StartsWith(attrs["Host"], host)
    ensures |attrs["Host"]| == |host| || attrs["Host"][|host|] == ':'
    ensures var ts := SplitAll(attrs["Host"], ':');
            |ts| >= 2 && ts[1] != "" ==> ParseInt(ts[1]) == Some(port)
  {
    SplitFirstToken(attrs["Host"], ':');
    HostFieldAccepted(attrs, host, port);
  }

  /**
   * HTTP/1.1 is accepted exactly when the Host value, cut at every colon,
   * is the configured host followed either only by empty fields (trailing
   * colons, which `split` drops) or by one field that `parseInt` reads as
   * the configured port and then only empty fields. A port in any spelling
   * `parseInt` accepts (`+8080`, `08080`) is matched by value.
   */
  lemma HostFieldAccepted(attrs: map<string, string>, host: string, port: int)
    requires "Host" in attrs
    ensures var ts := SplitAll(attrs["Host"], ':');
            SupportedHttpVersion(Some("HTTP/1.1"), attrs, host, port) == Accept
            <==> ts[0] == host
                 && (((|ts| == 1 || host != "") && forall k :: 1 <= k < |ts| ==> ts[k] == "")
                     || (|ts| >= 2 && ParseInt(ts[1]) == Some(port) && forall k :: 2 <= k < |ts| ==> ts[k] == ""))
  {
    var h := attrs["Host"];
    var ts := SplitAll(h, ':');
    assert ParseInt("") == None;
    if ':' in h {
      var i := IndexOf(h, ':').value;
      assert ts == [h[..i]] + SplitAll(h[i + 1..], ':');
      assert |ts| >= 2;
      var r := DropTrailingEmpty(ts);
      assert Split(h, ':') == r;
      if |r| >= 1 {
        assert r[0] == ts[0];
      }
      if |r| >= 2 {
        assert r[1] == ts[1];
      }
    } else {
      assert ts == [h];
    }
  }

  /** HTTP/1.1 without a Host field, or any version but the two, is rejected; no version throws. */
  lemma VersionRejections(v: string, attrs: map<string, string>, host: string, port: int)
    ensures "Host" !in attrs ==> SupportedHttpVersion(Some("HTTP/1.1"), attrs, host, port) == Reject
    ensures v != "HTTP/1.0" && v != "HTTP/1.1" ==> SupportedHttpVersion(Some(v), attrs, host, port) == Reject
    ensures SupportedHttpVersion(None, attrs, host, port) == Throws(NullPointerException)
    ensures SupportedHttpVersion(Some("HTTP/1.0"), attrs, host, port) == Accept
  {
  }
}
