/**
 * How a client reads a response off the wire: the head (the status line and
 * the header lines) up to the first empty line, the body after it, and the
 * value of a named header field. The response builders are checked against
 * this reading.
 */
module Wire {
  import opened JavaLang

  /** `s` holds no two consecutive line feeds. */
  predicate NoBlankLine(s: string) {
    forall j :: 0 <= j < |s| - 1 ==> s[j] != '\n' || s[j + 1] != '\n'
  }

  /** The first position of `"\n\n"` in `s`: where the head ends. */
  function BlankLineAt(s: string): (r: Option<nat>)
    ensures r.Some? ==> r.value + 2 <= |s| && s[r.value] == '\n' && s[r.value + 1] == '\n'
    decreases |s|
  {
    if |s| < 2 then None
    else if s[0] == '\n' && s[1] == '\n' then Some(0)
    else
      match BlankLineAt(s[1..])
      case None => None
      case Some(i) => Some(i + 1)
  }

  /** The lines of the head, if the text has one. */
  function Head(s: string): Option<seq<string>> {
    match BlankLineAt(s)
    case None => None
    case Some(i) => Some(Split(s[..i], '\n'))
  }

  /** What follows the empty line. */
  function Body(s: string): Option<string> {
    match BlankLineAt(s)
    case None => None
    case Some(i) => Some(s[i + 2..])
  }

  /** The value of the first header line `name: value`. */
  function Field(lines: seq<string>, name: string): Option<string>
    decreases |lines|
  {
    if |lines| == 0 then None
    else if StartsWith(lines[0], name + ": ") then Some(lines[0][|name| + 2..])
    else Field(lines[1..], name)
  }

  /** The field found is that of the first line naming it. */
  lemma {:induction false} FieldAt(lines: seq<string>, name: string, i: nat)
    requires i < |lines| && StartsWith(lines[i], name + ": ")
    requires forall j :: 0 <= j < i ==> !StartsWith(lines[j], name + ": ")
    ensures Field(lines, name) == Some(lines[i][|name| + 2..])
    decreases i
  {
    if i > 0 {
      assert !StartsWith(lines[0], name + ": ");
      FieldAt(lines[1..], name, i - 1);
    }
  }

  /** The number a `Content-Length` field announces: a non-empty run of decimal digits, of any size. */
  function ContentLength(lines: seq<string>): Option<nat> {
    match Field(lines, "Content-Length")
    case None => None
    case Some(v) => if |v| > 0 && AllDigits(v) then Some(DecimalValue(v)) else None
  }

  /** A line the builders may emit in a head: not empty, no line feed. */
  predicate HeadLine(l: string) {
    |l| > 0 && '\n' !in l
  }

  lemma ConcatNoBlank(a: string, b: string)
    requires NoBlankLine(a) && NoBlankLine(b)
    requires |a| == 0 || |b| == 0 || a[|a| - 1] != '\n' || b[0] != '\n'
    ensures NoBlankLine(a + b)
  {
    var s := a + b;
    forall j | 0 <= j < |s| - 1 ensures s[j] != '\n' || s[j + 1] != '\n' {
      if j + 1 < |a| {
        assert s[j] == a[j] && s[j + 1] == a[j + 1];
      } else if j >= |a| {
        assert s[j] == b[j - |a|] && s[j + 1] == b[j + 1 - |a|];
      } else {
        assert s[j] == a[|a| - 1] && s[j + 1] == b[0];
      }
    }
  }

  /** Head lines joined by line feeds hold no empty line and end in a character of the last line. */
  lemma {:induction false} JoinNoBlank(lines: seq<string>)
    requires |lines| >= 1
    requires forall k :: 0 <= k < |lines| ==> HeadLine(lines[k])
    ensures NoBlankLine(Join(lines, '\n'))
    ensures |Join(lines, '\n')| > 0 && Join(lines, '\n')[0] != '\n'
    ensures Join(lines, '\n')[|Join(lines, '\n')| - 1] != '\n'
    decreases |lines|
  {
    var l := lines[0];
    assert l[0] in l && l[|l| - 1] in l;
    if |lines| > 1 {
      var rest := Join(lines[1..], '\n');
      JoinNoBlank(lines[1..]);
      assert NoBlankLine(l) by {
        forall j | 0 <= j < |l| - 1 ensures l[j] != '\n' {
          assert l[j] in l;
        }
      }
      ConcatNoBlank("\n", rest);
      ConcatNoBlank(l, "\n" + rest);
      assert Join(lines, '\n') == l + ("\n" + rest);
    } else {
      forall j | 0 <= j < |l| - 1 ensures l[j] != '\n' {
        assert l[j] in l;
      }
    }
  }

  /** The first empty line of `h + "\n\n" + b` is the one right after `h`. */
  lemma {:induction false} BlankLineAfter(h: string, b: string)
    requires NoBlankLine(h) && (|h| == 0 || h[|h| - 1] != '\n')
    ensures BlankLineAt(h + "\n\n" + b) == Some(|h|)
    decreases |h|
  {
    var s := h + "\n\n" + b;
    if |h| > 0 {
      if |h| > 1 {
        assert s[0] == h[0] && s[1] == h[1];
      } else {
        assert s[0] == h[0];
      }
      assert s[1..] == h[1..] + "\n\n" + b;
      BlankLineAfter(h[1..], b);
    }
  }

  /** With the first empty line at `i`, the head is the text before it split at line feeds, and the body what follows. */
  lemma HeadBodyAt(s: string, i: nat)
    requires BlankLineAt(s) == Some(i)
    ensures i + 2 <= |s| && Head(s) == Some(Split(s[..i], '\n')) && Body(s) == Some(s[i + 2..])
  {
  }

  /** A response built as head lines, an empty line and a body reads back as exactly those. */
  lemma ReadBack(lines: seq<string>, body: string)
    requires |lines| >= 1
    requires forall k :: 0 <= k < |lines| ==> HeadLine(lines[k])
    ensures Head(Join(lines, '\n') + "\n\n" + body) == Some(lines)
    ensures Body(Join(lines, '\n') + "\n\n" + body) == Some(body)
  {
    JoinedHeadRead(lines, body);
    JoinedBodyRead(lines, body);
  }

  /** The first empty line of joined head lines followed by `"\n\n"` is right after them. */
  lemma JoinedBlankLine(lines: seq<string>, body: string)
    requires |lines| >= 1
    requires forall k :: 0 <= k < |lines| ==> HeadLine(lines[k])
    ensures BlankLineAt(Join(lines, '\n') + "\n\n" + body) == Some(|Join(lines, '\n')|)
  {
    JoinNoBlank(lines);
    BlankLineAfter(Join(lines, '\n'), body);
  }

  lemma JoinedHeadRead(lines: seq<string>, body: string)
    requires |lines| >= 1
    requires forall k :: 0 <= k < |lines| ==> HeadLine(lines[k])
    ensures Head(Join(lines, '\n') + "\n\n" + body) == Some(lines)
  {
    var h := Join(lines, '\n');
    var s := h + "\n\n" + body;
    assert BlankLineAt(s) == Some(|h|) by {
      JoinedBlankLine(lines, body);
    }
    JoinedSplit(lines);
    HeadOfText(s, h, lines);
  }

  /** Head lines joined by line feeds split back into those lines. */
  lemma JoinedSplit(lines: seq<string>)
    requires |lines| >= 1
    requires forall k :: 0 <= k < |lines| ==> HeadLine(lines[k])
    ensures Split(Join(lines, '\n'), '\n') == lines
  {
    assert forall k :: 0 <= k < |lines| ==> '\n' !in lines[k];
    assert lines[|lines| - 1] != "" by {
      assert HeadLine(lines[|lines| - 1]);
    }
    SplitJoin(lines, '\n');
  }

  /** A text whose first empty line follows the prefix `h` has as head the lines `h` splits into. */
  lemma HeadOfText(s: string, h: string, lines: seq<string>)
    requires |h| + 2 <= |s| && s[..|h|] == h
    requires BlankLineAt(s) == Some(|h|) && Split(h, '\n') == lines
    ensures Head(s) == Some(lines)
  {
    HeadBodyAt(s, |h|);
  }

  lemma JoinedBodyRead(lines: seq<string>, body: string)
    requires |lines| >= 1
    requires forall k :: 0 <= k < |lines| ==> HeadLine(lines[k])
    ensures Body(Join(lines, '\n') + "\n\n" + body) == Some(body)
  {
    var h := Join(lines, '\n');
    var s := h + "\n\n" + body;
    JoinedBlankLine(lines, body);
    HeadBodyAt(s, |h|);
    assert s[|h| + 2..] == body;
  }
}
