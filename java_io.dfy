/**
 * The parts of java.io the request engine uses: how a `File` path is built
 * from a parent and a child, `getName`, an abstract file system standing for
 * every call that touches the disk, the request stream read line by line, and
 * the response stream.
 */
module JavaIo {
  import opened JavaLang

  newtype byte = x: int | 0 <= x < 256

  // ------------------------------------------------------------ File paths

  /** Runs of `/` become one `/`. */
  function CollapseSlashes(p: string): (r: string)
    ensures |r| <= |p|
    decreases |p|
  {
    if |p| <= 1 then p
    else if p[0] == '/' && p[1] == '/' then CollapseSlashes(p[1..])
    else [p[0]] + CollapseSlashes(p[1..])
  }

  /** A path without doubled slashes is left as it is. */
  lemma {:induction false} CollapseNoDouble(p: string)
    requires forall k :: 0 <= k < |p| - 1 ==> p[k] != '/' || p[k + 1] != '/'
    ensures CollapseSlashes(p) == p
    decreases |p|
  {
    if |p| > 1 {
      assert p[1..][0] == p[1];
      CollapseNoDouble(p[1..]);
      assert p == [p[0]] + p[1..];
    }
  }

  /** The path form `File` keeps: slashes collapsed, no trailing `/` except for `"/"` itself. */
  function Normalize(p: string): string {
    var c := CollapseSlashes(p);
    if |c| > 1 && c[|c| - 1] == '/' then c[..|c| - 1] else c
  }

  /** How a child path is appended to an already normalised parent. */
  function Resolve(parent: string, child: string): string {
    if |child| == 0 then parent
    else if child[0] == '/' then (if parent == "/" then child else parent + child)
    else if parent == "/" then parent + child
    else parent + "/" + child
  }

  /** The path of `new File(parent, child)`. */
  function NewFile(parent: string, child: string): string {
    Resolve(Normalize(parent), Normalize(child))
  }

  /** `f.getName()`: what follows the last `/`. */
  function GetName(path: string): (r: string)
    ensures '/' !in r
  {
    match LastIndexOf(path, '/')
    case None => path
    case Some(i) => path[i + 1..]
  }

  lemma {:induction false} LastSlash(a: string, name: string)
    requires '/' !in name
    ensures LastIndexOf(a + "/" + name, '/') == Some(|a|)
    decreases |name|
  {
    if |name| > 0 {
      var s := a + "/" + name;
      assert s[|s| - 1] == name[|name| - 1];
      assert s[..|s| - 1] == a + "/" + name[..|name| - 1];
      LastSlash(a, name[..|name| - 1]);
    }
  }

  /** Each entry that `listFiles` returns is named by the name it was listed under. */
  lemma ChildName(dir: string, name: string)
    requires |name| > 0 && '/' !in name
    ensures GetName(Resolve(dir, name)) == name
  {
    if dir == "/" {
      assert Resolve(dir, name) == "" + "/" + name;
      LastSlash("", name);
    } else {
      LastSlash(dir, name);
    }
  }

  // ------------------------------------------------------------ file system

  /**
   * Everything the engine asks the disk, keyed by `File` path: `exists`,
   * `isDirectory`, `getCanonicalPath` (symbolic links and `..` resolved),
   * `list` (entry names, in the order `listFiles` gives them), the bytes a
   * `FileInputStream` reads (whose count is also `length()`), and
   * `lastModified` already formatted as a date.
   */
  datatype FileSystem = FileSystem(
    fileExists: string -> bool,
    isDirectory: string -> bool,
    canonicalPath: string -> string,
    list: string -> seq<string>,
    content: string -> seq<byte>,
    lastModified: string -> string)

  // ---------------------------------------------------------------- streams

  /** The request as `BufferedReader.readLine` delivers it: a cursor over its lines. */
  class LineReader {
    const lines: seq<string>
    var pos: nat

    ghost predicate Valid()
      reads this
    {
      pos <= |lines|
    }

    constructor (lines: seq<string>)
      ensures Valid() && this.lines == lines && pos == 0
    {
      this.lines := lines;
      pos := 0;
    }

    /** The next line, or `None` (Java's null) once the stream is exhausted. */
    method ReadLine() returns (line: Option<string>)
      requires Valid()
      modifies this
      ensures Valid()
      ensures old(pos) < |lines| ==> line == Some(lines[old(pos)]) && pos == old(pos) + 1
      ensures old(pos) == |lines| ==> line == None && pos == old(pos)
    {
      if pos < |lines| {
        line := Some(lines[pos]);
        pos := pos + 1;
      } else {
        line := None;
      }
    }
  }

  /**
   * A `FileInputStream` over a file's bytes. `read` fills as much of the
   * buffer as the file still holds and answers -1 at the end of the file.
   */
  class FileInput {
    const data: seq<byte>
    var pos: nat

    ghost predicate Valid()
      reads this
    {
      pos <= |data|
    }

    constructor (data: seq<byte>)
      ensures Valid() && this.data == data && pos == 0
    {
      this.data := data;
      pos := 0;
    }

    method Read(b: array<byte>) returns (count: int)
      requires Valid()
      modifies this, b
      ensures Valid()
      ensures b.Length == 0 ==> count == 0 && pos == old(pos)
      ensures b.Length > 0 && old(pos) == |data| ==> count == -1 && pos == old(pos)
      ensures b.Length > 0 && old(pos) < |data| ==>
                count == (if |data| - old(pos) < b.Length then |data| - old(pos) else b.Length)
                && pos == old(pos) + count && b[..count] == data[old(pos)..pos]
    {
      if b.Length == 0 {
        return 0;
      }
      if pos == |data| {
        return -1;
      }
      var start := pos;
      count := if |data| - start < b.Length then |data| - start else b.Length;
      for j := 0 to count
        invariant forall k :: 0 <= k < j ==> b[k] == data[start + k]
      {
        b[j] := data[start + j];
      }
      pos := start + count;
    }
  }

  /** One write to the socket: characters through a `PrintWriter`, or raw bytes. */
  datatype Piece = Text(chars: string) | Bytes(data: seq<byte>)

  /** The response stream: everything written to it, in order. */
  class OutStream {
    var written: seq<Piece>

    constructor ()
      ensures written == []
    {
      written := [];
    }

    method Write(p: Piece)
      modifies this
      ensures written == old(written) + [p]
    {
      written := written + [p];
    }
  }
}
