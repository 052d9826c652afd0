/**
 * The few Python string operations the sidebar builder relies on, with the
 * semantics of CPython's `str`: `isspace`, `strip`, `splitlines` and
 * `split` with a non-empty separator, plus `join` as the inverse of `split`.
 */
module Text {
  import opened Wrappers

  /** `c.isspace()`: the characters `strip()` removes and the regex class `\s` matches. */
  predicate IsSpace(c: char) {
    || c == ' '
    || ('\t' <= c <= '\r')
    || ('\U{1C}' <= c <= '\U{1F}')
    || c == '\U{85}' || c == '\U{A0}' || c == '\U{1680}'
    || ('\U{2000}' <= c <= '\U{200A}')
    || c == '\U{2028}' || c == '\U{2029}' || c == '\U{202F}' || c == '\U{205F}' || c == '\U{3000}'
  }

  /** The characters at which `splitlines()` ends a line (`\r\n` counts as one break). */
  predicate IsLineBreak(c: char) {
    || c == '\n' || c == '\r' || c == '\U{0B}' || c == '\U{0C}'
    || c == '\U{1C}' || c == '\U{1D}' || c == '\U{1E}'
    || c == '\U{85}' || c == '\U{2028}' || c == '\U{2029}'
  }

  predicate AllSpace(s: string) {
    forall i :: 0 <= i < |s| ==> IsSpace(s[i])
  }

  predicate NoLineBreak(s: string) {
    forall i :: 0 <= i < |s| ==> !IsLineBreak(s[i])
  }

  predicate StartsWith(s: string, prefix: string) {
    |prefix| <= |s| && s[..|prefix|] == prefix
  }

  /** Length of the whitespace run at the start of `s`. */
  function LeadingSpace(s: string): (k: nat)
    ensures k <= |s|
    ensures AllSpace(s[..k])
    ensures k < |s| ==> !IsSpace(s[k])
  {
    if s == [] || !IsSpace(s[0]) then 0
    else
      var k := 1 + LeadingSpace(s[1..]);
      assert s[..k] == [s[0]] + s[1..][..k - 1];
      k
  }

  /** Length of the whitespace run at the end of `s`. */
  function TrailingSpace(s: string): (k: nat)
    ensures k <= |s|
    ensures AllSpace(s[|s| - k..])
    ensures k < |s| ==> !IsSpace(s[|s| - k - 1])
  {
    if s == [] || !IsSpace(s[|s| - 1]) then 0
    else
      var init := s[..|s| - 1];
      var k' := TrailingSpace(init);
      var run, run' := s[|s| - k' - 1..], init[|init| - k'..];
      forall i | 0 <= i < |run|
        ensures IsSpace(run[i])
      {
        if i < k' {
          assert run[i] == run'[i];
        }
      }
      assert k' < |init| ==> s[|s| - k' - 2] == init[|init| - k' - 1];
      k' + 1
  }

  /** `r` sits inside `s` with only whitespace around it. */
  predicate Framed(s: string, r: string) {
    exists a :: 0 <= a <= |s| - |r| && s[a..a + |r|] == r && AllSpace(s[..a]) && AllSpace(s[a + |r|..])
  }

  /** Cutting whitespace runs off both ends leaves a framed middle. */
  lemma FramedBy(s: string, a: nat, b: nat)
    requires a + b <= |s| && AllSpace(s[..a]) && AllSpace(s[|s| - b..])
    ensures Framed(s, s[a..|s| - b])
  {
    var r := s[a..|s| - b];
    assert s[a..a + |r|] == r && s[a + |r|..] == s[|s| - b..];
  }

  /** Nothing is framed by whitespace alone. */
  lemma FramedEmpty(s: string)
    requires AllSpace(s)
    ensures Framed(s, [])
  {
    assert s[|s|..] == [] && s[..|s|] == s;
  }

  /** `s.strip()`: `s` without its leading and trailing whitespace. */
  function Strip(s: string): (r: string)
    ensures r == [] <==> AllSpace(s)
    ensures r != [] ==> !IsSpace(r[0]) && !IsSpace(r[|r| - 1])
    ensures Framed(s, r)
  {
    var a := LeadingSpace(s);
    if a == |s| then
      assert s[..a] == s;
      FramedEmpty(s);
      []
    else
      TrimEnd(s, a)
  }

  /** `s[a..]` without its trailing whitespace, where `s[a]` is the first non-space of `s`. */
  function TrimEnd(s: string, a: nat): (r: string)
    requires a < |s| && AllSpace(s[..a]) && !IsSpace(s[a])
    ensures !AllSpace(s)
    ensures r != [] && !IsSpace(r[0]) && !IsSpace(r[|r| - 1])
    ensures Framed(s, r)
  {
    var b := TrailingSpace(s);
    SpaceRunsApart(s, a);
    FramedBy(s, a, b);
    MiddleEnds(s, a, b);
    s[a..|s| - b]
  }

  /** The middle between two cuts that fall just outside non-space characters starts and ends with a non-space. */
  lemma MiddleEnds(s: string, a: nat, b: nat)
    requires a + b < |s| && !IsSpace(s[a]) && !IsSpace(s[|s| - b - 1])
    ensures var r := s[a..|s| - b]; r != [] && !IsSpace(r[0]) && !IsSpace(r[|r| - 1])
  {
    var r := s[a..|s| - b];
    assert r[0] == s[a] && r[|r| - 1] == s[|s| - b - 1];
  }

  /** A non-space at `a` keeps the trailing whitespace run clear of it. */
  lemma SpaceRunsApart(s: string, a: nat)
    requires a < |s| && !IsSpace(s[a])
    ensures a + TrailingSpace(s) < |s| && !AllSpace(s)
    ensures !IsSpace(s[|s| - TrailingSpace(s) - 1])
  {
  }

  /** Index of the first line break in `s`, or `|s|` when there is none. */
  function LineEnd(s: string): (k: nat)
    ensures k <= |s|
    ensures NoLineBreak(s[..k])
    ensures k < |s| ==> IsLineBreak(s[k])
  {
    if s == [] || IsLineBreak(s[0]) then 0
    else
      var k := 1 + LineEnd(s[1..]);
      assert s[..k] == [s[0]] + s[1..][..k - 1];
      k
  }

  /** `s.splitlines()`: the lines of `s` without their breaks; a final break opens no extra line. */
  function SplitLines(s: string): (lines: seq<string>)
    ensures forall i :: 0 <= i < |lines| ==> NoLineBreak(lines[i])
    ensures s == [] <==> lines == []
    ensures NoLineBreak(s) && s != [] ==> lines == [s]
    decreases |s|
  {
    if s == [] then []
    else
      var k := LineEnd(s);
      if k == |s| then
        assert s[..k] == s;
        [s]
      else
        var width := BreakWidth(s, k);
        assert !NoLineBreak(s) by { assert IsLineBreak(s[k]); }
        [s[..k]] + SplitLines(s[k + width..])
  }

  /** A break at `k` is two characters wide when it is `\r\n`, otherwise one. */
  function BreakWidth(s: string, k: nat): (w: nat)
    requires k < |s|
    ensures w == 1 || w == 2
    ensures k + w <= |s| && (w == 2 <==> k + 1 < |s| && s[k] == '\r' && s[k + 1] == '\n')
  {
    if s[k] == '\r' && k + 1 < |s| && s[k + 1] == '\n' then 2 else 1
  }

  /** A whole line break as `splitlines()` consumes it: `\r\n`, or one break character. */
  predicate IsBreak(b: string) {
    b == "\r\n" || (|b| == 1 && IsLineBreak(b[0]))
  }

  /** The break that ends each line of `SplitLines(s)`, `""` for a last line that has none. */
  function LineBreaks(s: string): (breaks: seq<string>)
    ensures forall i :: 0 <= i < |breaks| - 1 ==> IsBreak(breaks[i])
    ensures breaks != [] ==> IsBreak(breaks[|breaks| - 1]) || breaks[|breaks| - 1] == []
    decreases |s|
  {
    if s == [] then []
    else
      var k := LineEnd(s);
      if k == |s| then [""]
      else
        var width := BreakWidth(s, k);
        BreakAt(s, k);
        var tail := LineBreaks(s[k + width..]);
        var breaks := [s[k..k + width]] + tail;
        assert forall i :: 1 <= i < |breaks| ==> breaks[i] == tail[i - 1];
        breaks
  }

  lemma BreakAt(s: string, k: nat)
    requires k < |s| && IsLineBreak(s[k])
    ensures IsBreak(s[k..k + BreakWidth(s, k)])
  {
    if BreakWidth(s, k) == 1 {
      assert s[k..k + 1] == [s[k]];
    } else {
      assert s[k..k + 2] == ['\r', '\n'];
    }
  }

  /** How `splitlines()` takes apart a text that has a break: its first line, that line's break, the rest. */
  lemma {:induction false} LinesStep(s: string) returns (a: string, brk: string, rest: string)
    requires LineEnd(s) < |s|
    ensures s == a + brk + rest && NoLineBreak(a) && IsBreak(brk)
    ensures brk == "\r" && rest != [] ==> rest[0] != '\n'
    ensures SplitLines(s) == [a] + SplitLines(rest) && LineBreaks(s) == [brk] + LineBreaks(rest)
  {
    var k := LineEnd(s);
    var w := BreakWidth(s, k);
    a, brk, rest := s[..k], s[k..k + w], s[k + w..];
    assert s == a + brk + rest;
    BreakAt(s, k);
    if brk == "\r" && rest != [] {
      assert s[k + 1] == rest[0];
    }
    SplitLinesAt(a, brk, rest);
  }

  /**
   * Lines and breaks as `splitlines()` cuts them: only the last line may lack
   * a break, and then it is not empty; a `\r` break is never followed by an
   * empty line ended by `\n` (that pair is one `\r\n` break).
   */
  predicate Maximal(lines: seq<string>, breaks: seq<string>)
    requires |lines| == |breaks|
  {
    && (breaks != [] && breaks[|breaks| - 1] == [] ==> lines[|breaks| - 1] != [])
    && (forall i :: 0 <= i < |breaks| - 1 && breaks[i] == "\r" ==> !(lines[i + 1] == [] && breaks[i + 1] == "\n"))
  }

  lemma MaximalCons(a: string, brk: string, lines: seq<string>, breaks: seq<string>)
    requires |lines| == |breaks| && Maximal(lines, breaks) && brk != []
    requires brk == "\r" && lines != [] ==> !(lines[0] == [] && breaks[0] == "\n")
    ensures Maximal([a] + lines, [brk] + breaks)
  {
    var lines', breaks' := [a] + lines, [brk] + breaks;
    forall i | 1 <= i < |breaks'| - 1 && breaks'[i] == "\r"
      ensures !(lines'[i + 1] == [] && breaks'[i + 1] == "\n")
    {
      assert breaks'[i] == breaks[i - 1];
    }
  }

  /** `splitlines()` cuts every text into maximal lines and breaks. */
  lemma {:induction false} LineBreaksMaximal(s: string)
    ensures |LineBreaks(s)| == |SplitLines(s)|
    ensures Maximal(SplitLines(s), LineBreaks(s))
    decreases |s|
  {
    if s != [] {
      if LineEnd(s) == |s| {
        SplitLinesWhole(s);
      } else {
        var a, brk, rest := LinesStep(s);
        LineBreaksMaximal(rest);
        if brk == "\r" && rest != [] && SplitLines(rest)[0] == [] {
          EmptyFirstLine(rest);
          assert LineBreaks(rest)[0] != "\n";
        }
        MaximalCons(a, brk, SplitLines(rest), LineBreaks(rest));
      }
    }
  }

  /** A non-empty text without a break is one line with no break. */
  lemma SplitLinesWhole(s: string)
    requires s != [] && LineEnd(s) == |s|
    ensures SplitLines(s) == [s] && LineBreaks(s) == [""]
  {
    assert s[..|s|] == s;
  }

  /** A text whose first line is empty starts with that line's break. */
  lemma EmptyFirstLine(t: string)
    requires t != [] && SplitLines(t)[0] == []
    ensures |LineBreaks(t)| == |SplitLines(t)| && StartsWith(t, LineBreaks(t)[0])
  {
    SplitLinesRoundTrip(t);
  }

  /** The lines of `s` with their breaks put back. */
  function Unlines(lines: seq<string>, breaks: seq<string>): (s: string)
    requires |lines| == |breaks|
    ensures |lines| > 0 ==> StartsWith(s, lines[0] + breaks[0])
  {
    if lines == [] then [] else
      var s := lines[0] + breaks[0] + Unlines(lines[1..], breaks[1..]);
      assert s[..|lines[0] + breaks[0]|] == lines[0] + breaks[0];
      s
  }

  /** `splitlines()` loses nothing: the lines with their breaks put back are the text. */
  lemma {:induction false} SplitLinesRoundTrip(s: string)
    ensures |LineBreaks(s)| == |SplitLines(s)|
    ensures Unlines(SplitLines(s), LineBreaks(s)) == s
    decreases |s|
  {
    if s != [] {
      if LineEnd(s) == |s| {
        SplitLinesWhole(s);
      } else {
        var a, brk, rest := LinesStep(s);
        SplitLinesRoundTrip(rest);
      }
    }
  }

  /** `sep` occurs in `s` at position `j`. */
  predicate OccursAt(s: string, j: nat, sep: string) {
    j + |sep| <= |s| && s[j..j + |sep|] == sep
  }

  /** Position of the leftmost occurrence of `sep` in `s`. */
  function Find(s: string, sep: string): (r: Option<nat>)
    ensures r.Some? ==> OccursAt(s, r.value, sep)
    ensures r.Some? ==> forall j: nat :: j < r.value ==> !OccursAt(s, j, sep)
    ensures r.None? ==> forall j: nat :: !OccursAt(s, j, sep)
    decreases |s|
  {
    if StartsWith(s, sep) then Some(0)
    else if s == [] then None
    else
      var r := Find(s[1..], sep);
      OccursAfterFirst(s, sep);
      match r
      case Some(k) => Some(k + 1)
      case None => None
  }

  /** Past the first character, `sep` occurs in `s` exactly where it occurs in `s[1..]`, one place later. */
  lemma OccursAfterFirst(s: string, sep: string)
    requires s != []
    ensures forall j: nat :: 1 <= j ==> (OccursAt(s, j, sep) <==> OccursAt(s[1..], j - 1, sep))
  {
    forall j: nat | 1 <= j
      ensures OccursAt(s, j, sep) <==> OccursAt(s[1..], j - 1, sep)
    {
      if j + |sep| <= |s| {
        var here, there := s[j..j + |sep|], s[1..][j - 1..j - 1 + |sep|];
        forall t | 0 <= t < |sep|
          ensures here[t] == there[t]
        {
        }
        assert here == there;
      }
    }
  }

  /** `s.split(sep)` for a non-empty `sep`: the pieces between the leftmost non-overlapping occurrences. */
  function Split(s: string, sep: string): (pieces: seq<string>)
    requires sep != []
    ensures |pieces| >= 1
    ensures Find(s, sep).None? ==> pieces == [s]
    ensures Find(s, sep).Some? ==> |pieces| >= 2
    decreases |s|
  {
    match Find(s, sep)
    case None => [s]
    case Some(k) => [s[..k]] + Split(s[k + |sep|..], sep)
  }

  /** `sep.join(pieces)`. */
  function Join(pieces: seq<string>, sep: string): string {
    if pieces == [] then []
    else if |pieces| == 1 then pieces[0]
    else pieces[0] + sep + Join(pieces[1..], sep)
  }

  /** The number of leftmost non-overlapping occurrences of `sep` in `s`, as `s.count(sep)` counts them. */
  function Count(s: string, sep: string): nat
    requires sep != []
    decreases |s|
  {
    match Find(s, sep)
    case None => 0
    case Some(k) => 1 + Count(s[k + |sep|..], sep)
  }

  /** Joining the pieces of a split with the same separator gives back the text. */
  lemma {:induction false} JoinSplit(s: string, sep: string)
    requires sep != []
    ensures Join(Split(s, sep), sep) == s
    decreases |s|
  {
    match Find(s, sep)
    case None =>
    case Some(k) =>
      var head, rest := s[..k], s[k + |sep|..];
      JoinSplit(rest, sep);
      SplitAt(s, sep, k);
      JoinCons(head, Split(rest, sep), sep);
  }

  /** At the leftmost occurrence, `s` is the head, the separator and the rest, and the split continues in the rest. */
  lemma SplitAt(s: string, sep: string, k: nat)
    requires sep != [] && Find(s, sep) == Some(k)
    ensures k + |sep| <= |s| && s == s[..k] + sep + s[k + |sep|..]
    ensures Split(s, sep) == [s[..k]] + Split(s[k + |sep|..], sep)
  {
    assert s == s[..k] + s[k..k + |sep|] + s[k + |sep|..];
  }

  /** A text in which the separator never occurs is split into itself alone. */
  lemma SplitWhole(s: string, sep: string)
    requires sep != [] && forall j: nat :: !OccursAt(s, j, sep)
    ensures Split(s, sep) == [s]
  {
  }

  /** A single piece is joined to itself. */
  lemma JoinOne(piece: string, sep: string)
    ensures Join([piece], sep) == piece
  {
  }

  /** A piece in front of pieces that join to `tail` joins, with the separator between, to `whole`. */
  lemma JoinStep(whole: string, head: string, sep: string, tail: string, pieces: seq<string>, rest: seq<string>)
    requires pieces == [head] + rest && rest != []
    requires Join(rest, sep) == tail && whole == head + sep + tail
    ensures Join(pieces, sep) == whole
  {
    JoinCons(head, rest, sep);
  }

  /** Joining a piece in front of at least one more puts the separator between them. */
  lemma JoinCons(head: string, tail: seq<string>, sep: string)
    requires tail != []
    ensures Join([head] + tail, sep) == head + sep + Join(tail, sep)
  {
    assert ([head] + tail)[1..] == tail;
  }

  /** A split yields one piece more than there are occurrences of the separator. */
  lemma {:induction false} SplitCount(s: string, sep: string)
    requires sep != []
    ensures |Split(s, sep)| == Count(s, sep) + 1
    decreases |s|
  {
    match Find(s, sep)
    case None =>
    case Some(k) =>
      SplitCount(s[k + |sep|..], sep);
      SplitAt(s, sep, k);
  }

  /** The text before the leftmost occurrence of `sep` does not contain `sep`. */
  lemma HeadFree(s: string, sep: string, k: nat)
    requires sep != [] && Find(s, sep) == Some(k)
    ensures Find(s[..k], sep).None?
  {
    var head := s[..k];
    if Find(head, sep).Some? {
      var j := Find(head, sep).value;
      assert OccursAt(head, j, sep);
      assert head[j..j + |sep|] == s[j..j + |sep|];
      assert j < k && OccursAt(s, j, sep);
    }
  }

  /** No piece of a split contains the separator. */
  lemma {:induction false} SplitPiecesFree(s: string, sep: string)
    requires sep != []
    ensures forall i :: 0 <= i < |Split(s, sep)| ==> Find(Split(s, sep)[i], sep).None?
    decreases |s|
  {
    match Find(s, sep)
    case None =>
    case Some(k) =>
      var rest := s[k + |sep|..];
      SplitPiecesFree(rest, sep);
      HeadFree(s, sep, k);
      SplitAt(s, sep, k);
      ConsPiecesFree(s[..k], Split(rest, sep), sep);
  }

  /** A piece free of `sep` in front of pieces free of `sep` gives pieces free of `sep`. */
  lemma ConsPiecesFree(head: string, tail: seq<string>, sep: string)
    requires Find(head, sep).None?
    requires forall i :: 0 <= i < |tail| ==> Find(tail[i], sep).None?
    ensures forall i :: 0 <= i < |[head] + tail| ==> Find(([head] + tail)[i], sep).None?
  {
    var pieces := [head] + tail;
    forall i | 0 <= i < |pieces|
      ensures Find(pieces[i], sep).None?
    {
      if i > 0 {
        assert pieces[i] == tail[i - 1];
      }
    }
  }

  /** The leftmost occurrence is the one with no occurrence before it. */
  lemma FindIs(s: string, sep: string, k: nat)
    requires OccursAt(s, k, sep)
    requires forall j: nat :: j < k ==> !OccursAt(s, j, sep)
    ensures Find(s, sep) == Some(k)
  {
  }

  /** Stripping text that neither starts nor ends with whitespace changes nothing. */
  lemma StripUnchanged(s: string)
    requires s != [] && !IsSpace(s[0]) && !IsSpace(s[|s| - 1])
    ensures Strip(s) == s
  {
    var r := Strip(s);
    assert !AllSpace(s) by { assert !IsSpace(s[0]); }
    var a :| 0 <= a <= |s| - |r| && s[a..a + |r|] == r && AllSpace(s[..a]) && AllSpace(s[a + |r|..]);
  }

  /** The first line break of `a + brk + rest` is the one right after a break-free `a`. */
  lemma {:induction false} LineEndAfter(a: string, brk: string, rest: string)
    requires NoLineBreak(a) && brk != [] && IsLineBreak(brk[0])
    ensures LineEnd(a + brk + rest) == |a|
    decreases |a|
  {
    var s := a + brk + rest;
    if a == [] {
      assert s[0] == brk[0];
    } else {
      assert s[0] == a[0];
      assert s[1..] == a[1..] + brk + rest;
      LineEndAfter(a[1..], brk, rest);
    }
  }

  /**
   * `splitlines` ends the first line at the whole break that follows it; a
   * lone `\r` is a whole break only when no `\n` comes next.
   */
  lemma SplitLinesAt(a: string, brk: string, rest: string)
    requires NoLineBreak(a) && IsBreak(brk)
    requires brk == "\r" && rest != [] ==> rest[0] != '\n'
    ensures SplitLines(a + brk + rest) == [a] + SplitLines(rest)
    ensures LineBreaks(a + brk + rest) == [brk] + LineBreaks(rest)
  {
    var s := a + brk + rest;
    LineEndAfter(a, brk, rest);
    assert s[..|a|] == a;
    assert s[|a|] == brk[0];
    if brk == "\r\n" {
      assert s[|a| + 1] == '\n';
    } else if rest != [] {
      assert s[|a| + 1] == rest[0];
    }
    assert BreakWidth(s, |a|) == |brk|;
    assert s[|a|..|a| + |brk|] == brk;
    assert s[|a| + |brk|..] == rest;
  }
}
