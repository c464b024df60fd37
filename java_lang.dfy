/**
 * The parts of java.lang.String and java.lang.Integer that the request engine
 * relies on, with Java's own edge cases: `split` dropping trailing empty
 * tokens, `split(.., 2)` keeping them, `trim` removing every character up to
 * U+0020, `replace` replacing every non-overlapping occurrence left to right,
 * `Integer.parseInt` rejecting what does not fit in 32 bits, and `length()`
 * counting UTF-16 code units.
 */
module JavaLang {

  datatype Option<+T> = None | Some(value: T)

  /** The exceptions the request engine can raise and does not catch. */
  datatype JavaException = NullPointerException | NumberFormatException

  /** Java's `int` range. */
  predicate IsInt32(n: int) {
    -0x8000_0000 <= n < 0x8000_0000
  }

  predicate StartsWith(s: string, prefix: string) {
    |prefix| <= |s| && s[..|prefix|] == prefix
  }

  predicate EndsWith(s: string, suffix: string) {
    |suffix| <= |s| && s[|s| - |suffix|..] == suffix
  }

  /** `t` occurs in `s` at some position (`s.contains(t)`). */
  ghost predicate Occurs(t: string, s: string) {
    exists i :: OccursAt(t, s, i)
  }

  /** `t` occurs in `s` starting at position `i`. */
  predicate OccursAt(t: string, s: string, i: int) {
    0 <= i && i + |t| <= |s| && s[i..i + |t|] == t
  }

  // ---------------------------------------------------------------- searching

  /** `s.indexOf(c)`: the first position of `c`, if there is one. */
  function IndexOf(s: string, c: char): (r: Option<nat>)
    ensures r.None? <==> c !in s
    ensures r.Some? ==> r.value < |s| && s[r.value] == c && c !in s[..r.value]
    decreases |s|
  {
    if |s| == 0 then None
    else if s[0] == c then Some(0)
    else
      match IndexOf(s[1..], c)
      case None => None
      case Some(i) =>
        assert s[..i + 1] == [s[0]] + s[1..][..i];
        Some(i + 1)
  }

  /** `s.lastIndexOf(c)`: the last position of `c`, if there is one. */
  function LastIndexOf(s: string, c: char): (r: Option<nat>)
    ensures r.None? <==> c !in s
    ensures r.Some? ==> r.value < |s| && s[r.value] == c && c !in s[r.value + 1..]
    decreases |s|
  {
    if |s| == 0 then None
    else if s[|s| - 1] == c then Some(|s| - 1)
    else
      assert s == s[..|s| - 1] + [s[|s| - 1]];
      LastIndexOf(s[..|s| - 1], c)
  }

  // ---------------------------------------------------------------- splitting

  /** Every field between occurrences of `c`, empty ones included. */
  function SplitAll(s: string, c: char): (r: seq<string>)
    ensures |r| >= 1
    ensures forall k :: 0 <= k < |r| ==> c !in r[k]
    decreases |s|
  {
    match IndexOf(s, c)
    case None => [s]
    case Some(i) => [s[..i]] + SplitAll(s[i + 1..], c)
  }

  /** `String.join(c, ts)`. */
  function Join(ts: seq<string>, c: char): string
    decreases |ts|
  {
    if |ts| == 0 then ""
    else if |ts| == 1 then ts[0]
    else ts[0] + [c] + Join(ts[1..], c)
  }

  /** One more token joined at the end. */
  lemma {:induction false} JoinSnoc(ts: seq<string>, x: string, c: char)
    requires |ts| >= 1
    ensures Join(ts + [x], c) == Join(ts, c) + [c] + x
    decreases |ts|
  {
    if |ts| == 1 {
      assert (ts + [x])[1..] == [x];
    } else {
      assert (ts + [x])[1..] == ts[1..] + [x];
      JoinSnoc(ts[1..], x, c);
      AppendAssoc(ts[0] + [c], Join(ts[1..], c) + [c], x);
      AppendAssoc(ts[0] + [c], Join(ts[1..], c), [c]);
    }
  }

  /** The trailing empty tokens that `split` with limit 0 removes. */
  function DropTrailingEmpty(ts: seq<string>): (r: seq<string>)
    ensures |r| <= |ts| && r == ts[..|r|]
    ensures |r| == 0 || r[|r| - 1] != ""
    ensures forall k :: |r| <= k < |ts| ==> ts[k] == ""
    decreases |ts|
  {
    if |ts| > 0 && ts[|ts| - 1] == "" then DropTrailingEmpty(ts[..|ts| - 1]) else ts
  }

  /**
   * `s.split(c)` for a one-character pattern that is not a regular-expression
   * metacharacter: with no occurrence the result is `[s]` (so `"".split(c)` is
   * `[""]`); otherwise all fields, leading empty ones kept, trailing empty ones
   * dropped.
   */
  function Split(s: string, c: char): (r: seq<string>)
    ensures forall k :: 0 <= k < |r| ==> c !in r[k]
  {
    if c !in s then [s] else DropTrailingEmpty(SplitAll(s, c))
  }

  /** `s.split(c, 2)`: cut at the first `c` only; trailing empty token kept. */
  function SplitLimit2(s: string, c: char): (r: seq<string>)
    ensures 1 <= |r| <= 2
    ensures |r| == 1 <==> c !in s
    ensures |r| == 1 ==> r[0] == s
    ensures |r| == 2 ==> s == r[0] + [c] + r[1] && c !in r[0]
  {
    match IndexOf(s, c)
    case None => [s]
    case Some(i) =>
      assert s == s[..i] + [c] + s[i + 1..];
      [s[..i], s[i + 1..]]
  }

  lemma {:induction false} JoinSplitAll(s: string, c: char)
    ensures Join(SplitAll(s, c), c) == s
    decreases |s|
  {
    match IndexOf(s, c)
    case None =>
    case Some(i) =>
      var rest := SplitAll(s[i + 1..], c);
      JoinSplitAll(s[i + 1..], c);
      assert SplitAll(s, c) == [s[..i]] + rest;
      assert ([s[..i]] + rest)[1..] == rest;
      assert s == s[..i] + [c] + s[i + 1..];
  }

  /** The first separator of `a + [c] + b` is the one after `a`, when `a` has none. */
  lemma {:induction false} IndexOfJoined(a: string, b: string, c: char)
    requires c !in a
    ensures IndexOf(a + [c] + b, c) == Some(|a|)
    decreases |a|
  {
    if |a| > 0 {
      assert (a + [c] + b)[0] == a[0];
      assert (a + [c] + b)[1..] == a[1..] + [c] + b;
      IndexOfJoined(a[1..], b, c);
    }
  }

  /** `split(c, 2)` cuts right after `a` when `a` holds no `c`. */
  lemma SplitLimit2Joined(a: string, b: string, c: char)
    requires c !in a
    ensures SplitLimit2(a + [c] + b, c) == [a, b]
  {
    var s := a + [c] + b;
    IndexOfJoined(a, b, c);
    assert s[..|a|] == a && s[|a| + 1..] == b;
  }

  /** Concatenation regrouped; stated once so that long concatenations need not be rebracketed by search. */
  lemma AppendAssoc<T>(a: seq<T>, b: seq<T>, c: seq<T>)
    ensures a + b + c == a + (b + c)
  {
  }

  /** The first field of `x + [c] + y` is `x` when `x` holds no `c`. */
  lemma SplitAllCons(x: string, y: string, c: char)
    requires c !in x
    ensures SplitAll(x + [c] + y, c) == [x] + SplitAll(y, c)
  {
    var s := x + [c] + y;
    IndexOfJoined(x, y, c);
    assert s[..|x|] == x && s[|x| + 1..] == y;
  }

  /** Splitting at one separator splits each side on its own. */
  lemma {:induction false} SplitAllConcat(a: string, b: string, c: char)
    ensures SplitAll(a + [c] + b, c) == SplitAll(a, c) + SplitAll(b, c)
    decreases |a|
  {
    match IndexOf(a, c)
    case None =>
      SplitAllCons(a, b, c);
    case Some(i) =>
      var x, y := a[..i], a[i + 1..];
      assert a == x + [c] + y;
      AppendAssoc(x + [c] + y, [c], b);
      AppendAssoc(x + [c], y, [c] + b);
      AppendAssoc(y, [c], b);
      SplitAllCons(x, y + [c] + b, c);
      SplitAllCons(x, y, c);
      SplitAllConcat(y, b, c);
      AppendAssoc([x], SplitAll(y, c), SplitAll(b, c));
  }

  lemma {:induction false} SplitAllJoin(ts: seq<string>, c: char)
    requires |ts| >= 1
    requires forall k :: 0 <= k < |ts| ==> c !in ts[k]
    ensures SplitAll(Join(ts, c), c) == ts
    decreases |ts|
  {
    if |ts| > 1 {
      SplitAllCons(ts[0], Join(ts[1..], c), c);
      SplitAllJoin(ts[1..], c);
      assert ts == [ts[0]] + ts[1..];
    }
  }

  /** `split` undoes `join` when no token holds the separator and the last one is not empty. */
  lemma SplitJoin(ts: seq<string>, c: char)
    requires |ts| >= 1
    requires forall k :: 0 <= k < |ts| ==> c !in ts[k]
    requires |ts| == 1 || ts[|ts| - 1] != ""
    ensures Split(Join(ts, c), c) == ts
  {
    SplitAllJoin(ts, c);
    if |ts| > 1 {
      assert Join(ts, c)[|ts[0]|] == c;
    }
  }

  /**
   * The first token of `split` is a prefix of the input that ends where the
   * input ends or at a separator.
   */
  lemma SplitFirstToken(s: string, c: char)
    requires |Split(s, c)| >= 1
    ensures StartsWith(s, Split(s, c)[0])
    ensures |Split(s, c)[0]| == |s| || s[|Split(s, c)[0]|] == c
  {
    if c in s {
      var i := IndexOf(s, c).value;
      assert SplitAll(s, c)[0] == s[..i];
    }
  }

  // ------------------------------------------------------------------ trimming

  /** The characters `String.trim` removes: every code up to U+0020. */
  predicate IsSpace(c: char) {
    c <= ' '
  }

  function LeadingSpaces(s: string): (n: nat)
    ensures n <= |s|
    ensures forall k :: 0 <= k < n ==> IsSpace(s[k])
    ensures n < |s| ==> !IsSpace(s[n])
    decreases |s|
  {
    if |s| > 0 && IsSpace(s[0]) then 1 + LeadingSpaces(s[1..]) else 0
  }

  function TrailingSpaces(s: string): (n: nat)
    ensures n <= |s|
    ensures forall k :: |s| - n <= k < |s| ==> IsSpace(s[k])
    ensures n < |s| ==> !IsSpace(s[|s| - n - 1])
    decreases |s|
  {
    if |s| > 0 && IsSpace(s[|s| - 1]) then 1 + TrailingSpaces(s[..|s| - 1]) else 0
  }

  /** `s.trim()`. */
  function Trim(s: string): (r: string)
    ensures |r| == 0 || (!IsSpace(r[0]) && !IsSpace(r[|r| - 1]))
  {
    var t := s[LeadingSpaces(s)..];
    t[..|t| - TrailingSpaces(t)]
  }

  lemma {:induction false} LeadingSpacesOfPadded(a: string, t: string)
    requires forall k :: 0 <= k < |a| ==> IsSpace(a[k])
    requires |t| > 0 && !IsSpace(t[0])
    ensures LeadingSpaces(a + t) == |a|
    decreases |a|
  {
    if |a| > 0 {
      assert (a + t)[1..] == a[1..] + t;
      LeadingSpacesOfPadded(a[1..], t);
    }
  }

  lemma {:induction false} TrailingSpacesOfPadded(t: string, b: string)
    requires forall k :: 0 <= k < |b| ==> IsSpace(b[k])
    requires |t| > 0 && !IsSpace(t[|t| - 1])
    ensures TrailingSpaces(t + b) == |b|
    decreases |b|
  {
    if |b| > 0 {
      assert (t + b)[..|t + b| - 1] == t + b[..|b| - 1];
      TrailingSpacesOfPadded(t, b[..|b| - 1]);
    }
  }

  /** `trim` removes exactly the white padding around a value. */
  lemma TrimPadded(a: string, t: string, b: string)
    requires forall k :: 0 <= k < |a| ==> IsSpace(a[k])
    requires forall k :: 0 <= k < |b| ==> IsSpace(b[k])
    requires |t| == 0 || (!IsSpace(t[0]) && !IsSpace(t[|t| - 1]))
    ensures Trim(a + t + b) == t
  {
    var s := a + t + b;
    if |t| == 0 {
      assert s == a + b;
      assert forall k :: 0 <= k < |s| ==> IsSpace(s[k]) by {
        forall k | 0 <= k < |s| ensures IsSpace(s[k]) {
          if k < |a| { assert s[k] == a[k]; } else { assert s[k] == b[k - |a|]; }
        }
      }
    } else {
      LeadingSpacesOfPadded(a, t + b);
      assert s == a + (t + b);
      assert s[|a|..] == t + b;
      TrailingSpacesOfPadded(t, b);
    }
  }

  // --------------------------------------------------------------- replacing

  /**
   * `s.replace(t, r)`: every non-overlapping occurrence of `t`, scanning left
   * to right, becomes `r`; an empty `t` inserts `r` around every character.
   */
  function Replace(s: string, t: string, r: string): string
    decreases |s|
  {
    if |t| == 0 then (if |s| == 0 then r else r + [s[0]] + Replace(s[1..], t, r))
    else if |s| < |t| then s
    else if s[..|t|] == t then r + Replace(s[|t|..], t, r)
    else [s[0]] + Replace(s[1..], t, r)
  }

  /** A prefix that cannot start an occurrence of `t` passes through unchanged. */
  lemma {:induction false} ReplaceAfterPrefix(a: string, b: string, t: string, r: string)
    requires |t| > 0 && t[0] !in a
    ensures Replace(a + b, t, r) == a + Replace(b, t, r)
    decreases |a|
  {
    if |a| > 0 {
      var s := a + b;
      assert s[0] == a[0];
      if |s| >= |t| {
        assert s[..|t|][0] == a[0];
      }
      assert s[1..] == a[1..] + b;
      ReplaceAfterPrefix(a[1..], b, t, r);
      assert a == [a[0]] + a[1..];
    } else {
      assert a + b == b;
    }
  }

  /** With no occurrence of `t`, `replace` changes nothing. */
  lemma {:induction false} ReplaceAbsent(s: string, t: string, r: string)
    requires |t| > 0 && !Occurs(t, s)
    ensures Replace(s, t, r) == s
    decreases |s|
  {
    if |s| >= |t| {
      assert s[0..0 + |t|] == s[..|t|];
      assert !OccursAt(t, s, 0);
      forall i ensures !OccursAt(t, s[1..], i) {
        assert !OccursAt(t, s, i + 1);
        if 0 <= i && i + |t| <= |s[1..]| {
          assert s[1..][i..i + |t|] == s[i + 1..i + 1 + |t|];
        }
      }
      ReplaceAbsent(s[1..], t, r);
      assert s == [s[0]] + s[1..];
    }
  }

  // ------------------------------------------------------------------ numbers

  predicate IsDigit(c: char) {
    '0' <= c <= '9'
  }

  predicate AllDigits(s: string) {
    forall k :: 0 <= k < |s| ==> IsDigit(s[k])
  }

  function DigitChar(d: nat): (c: char)
    requires d < 10
    ensures IsDigit(c) && c as int - '0' as int == d
  {
    (d + '0' as int) as char
  }

  /** The decimal digits of `n`, most significant first, no leading zero. */
  function NatToDecimal(n: nat): (r: string)
    ensures |r| >= 1 && AllDigits(r)
    decreases n
  {
    if n < 10 then [DigitChar(n)] else NatToDecimal(n / 10) + [DigitChar(n % 10)]
  }

  /** `Integer.toString(n)` / `"" + n`. */
  function IntToString(n: int): (r: string)
    ensures |r| >= 1
  {
    if n < 0 then "-" + NatToDecimal(-n) else NatToDecimal(n)
  }

  /** `toString` prints digits, after a minus sign for a negative number. */
  lemma IntToStringChars(n: int)
    ensures forall k :: 0 <= k < |IntToString(n)| ==>
      IsDigit(IntToString(n)[k]) || (k == 0 && n < 0 && IntToString(n)[k] == '-')
  {
    if n < 0 {
      var d := NatToDecimal(-n);
      assert forall k :: 1 <= k < |IntToString(n)| ==> IntToString(n)[k] == d[k - 1];
    }
  }

  function DecimalValue(s: string): nat
    requires AllDigits(s)
    decreases |s|
  {
    if |s| == 0 then 0 else DecimalValue(s[..|s| - 1]) * 10 + (s[|s| - 1] as int - '0' as int)
  }

  /**
   * `Integer.parseInt(s)`: an optional sign, then at least one digit, and a
   * value inside the `int` range; anything else raises NumberFormatException
   * (`None` here).
   */
  function ParseInt(s: string): (r: Option<int>)
    ensures r.Some? ==> IsInt32(r.value)
  {
    if |s| == 0 then None
    else
      var body := if s[0] == '-' || s[0] == '+' then s[1..] else s;
      if |body| == 0 || !AllDigits(body) then None
      else
        var v: int := if s[0] == '-' then -(DecimalValue(body) as int) else DecimalValue(body);
        if IsInt32(v) then Some(v) else None
  }

  lemma {:induction false} DecimalRoundTrip(n: nat)
    ensures DecimalValue(NatToDecimal(n)) == n
    decreases n
  {
    if n >= 10 {
      var s := NatToDecimal(n);
      assert s[..|s| - 1] == NatToDecimal(n / 10);
      DecimalRoundTrip(n / 10);
    }
  }

  /** The decimal text of a natural number is a run of digits whose value is that number. */
  lemma NatTextRoundTrip(n: nat)
    ensures |IntToString(n)| > 0 && AllDigits(IntToString(n)) && DecimalValue(IntToString(n)) == n
  {
    DecimalRoundTrip(n);
  }

  /** `parseInt` reads back what `toString` prints, over the whole `int` range. */
  lemma ParseIntToString(n: int)
    requires IsInt32(n)
    ensures ParseInt(IntToString(n)) == Some(n)
  {
    var s := IntToString(n);
    if n < 0 {
      assert s[1..] == NatToDecimal(-n);
      DecimalRoundTrip(-n);
    } else {
      DecimalRoundTrip(n);
    }
  }

  // ------------------------------------------------------------------- length

  /** `s.length()`: UTF-16 code units, two for a character above U+FFFF. */
  function Utf16Length(s: string): (n: nat)
    ensures |s| <= n <= 2 * |s|
    decreases |s|
  {
    if |s| == 0 then 0
    else Utf16Length(s[..|s| - 1]) + (if s[|s| - 1] as int > 0xFFFF then 2 else 1)
  }
}
