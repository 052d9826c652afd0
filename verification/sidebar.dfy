/**
 * The table of contents built at packaging time (`generate_sidebar`): the
 * markdown is cut into slides on the literal `"\n---\n"`, and each slide
 * contributes the first of its lines that the pattern `^(#{1,2})\s+(.*)`
 * accepts, as an entry `(index, level, title)`.
 */
module Sidebar {
  import opened Wrappers
  import opened Text

  /** The separator the sidebar splits on, as a Python string literal `'\n---\n'`. */
  const SlideSeparator: string := "\n---\n"

  datatype Heading = Heading(level: nat, title: string)

  /** One `<li>` of the sidebar: a link to slide `index` labelled `title`. */
  datatype Entry = Entry(index: nat, level: nat, title: string)

  function Hashes(level: nat): string {
    seq(level, _ => '#')
  }

  /** The marks of the two heading levels, written out. */
  lemma HashesWritten()
    ensures Hashes(1) == "#" && Hashes(2) == "##"
  {
    assert Hashes(2)[1] == '#';
  }

  /** The part of `s` that the regex `.*` matches: everything up to the first `\n`. */
  function UpToNewline(s: string): (r: string)
    ensures StartsWith(s, r) && '\n' !in r
    ensures |r| < |s| ==> s[|r|] == '\n'
  {
    if s == [] || s[0] == '\n' then []
    else
      var r := [s[0]] + UpToNewline(s[1..]);
      assert s[..|r|] == [s[0]] + s[1..][..|r| - 1];
      r
  }

  /**
   * `re.match(r'^(#{1,2})\s+(.*)', line)`: the level is the number of `#` the
   * match kept, the title is group 2. `#{1,2}` tries two marks first and falls
   * back to one, `\s+` is greedy, and `.` stops at `\n`.
   */
  function MatchHeading(line: string): (r: Option<Heading>)
    ensures r.Some? <==>
      |line| >= 2 && line[0] == '#' && (IsSpace(line[1]) || (|line| >= 3 && line[1] == '#' && IsSpace(line[2])))
    ensures r.Some? ==> r.value.level == (if line[1] == '#' then 2 else 1)
    ensures r.Some? ==> '\n' !in r.value.title && (r.value.title == [] || !IsSpace(r.value.title[0]))
  {
    var level := if |line| >= 2 && line[0] == '#' && line[1] == '#' then 2 else 1;
    if |line| > level && line[..level] == Hashes(level) && IsSpace(line[level]) then
      var rest := line[level..];
      var title := UpToNewline(rest[LeadingSpace(rest)..]);
      assert title != [] ==> title[0] == rest[LeadingSpace(rest)..][0];
      Some(Heading(level, title))
    else
      assert |line| >= 1 && line[0] == '#' ==> line[..1] == Hashes(1);
      assert |line| >= 2 && line[0] == '#' && line[1] == '#' ==> line[..2] == Hashes(2);
      None
  }

  /** The whitespace run at the start of `gap + tail` is exactly `gap` when `tail` does not start with whitespace. */
  lemma {:induction false} LeadingSpaceOfRun(gap: string, tail: string)
    requires AllSpace(gap) && (tail == [] || !IsSpace(tail[0]))
    ensures LeadingSpace(gap + tail) == |gap|
    decreases |gap|
  {
    if gap != [] {
      assert (gap + tail)[1..] == gap[1..] + tail;
      LeadingSpaceOfRun(gap[1..], tail);
    } else {
      assert gap + tail == tail;
    }
  }

  /** A line opening with three `#` is never a sidebar heading. */
  lemma DeeperHeadingsIgnored(line: string)
    requires |line| >= 3 && line[..3] == "###"
    ensures MatchHeading(line).None?
  {
    assert line[..3][2] == line[2];
  }

  /** A line built as marks, a whitespace run and a break-free title is recognised with that level and title. */
  lemma MatchHeadingComplete(level: nat, gap: string, title: string)
    requires level == 1 || level == 2
    requires gap != [] && AllSpace(gap)
    requires NoLineBreak(title) && (title == [] || !IsSpace(title[0]))
    ensures MatchHeading(Hashes(level) + gap + title) == Some(Heading(level, title))
  {
    var line := Hashes(level) + gap + title;
    MarkedLine(level, gap, title);
    LeadingSpaceOfRun(gap, title);
    assert (gap + title)[|gap|..] == title;
    assert UpToNewline(title) == title;
  }

  /** A line built as marks and a whitespace run opens with the marks, then whitespace, then the rest. */
  lemma MarkedLine(level: nat, gap: string, title: string)
    requires gap != [] && AllSpace(gap)
    ensures var line := Hashes(level) + gap + title;
      |line| > level && line[..level] == Hashes(level) && IsSpace(line[level]) && line[level..] == gap + title
  {
    var line := Hashes(level) + gap + title;
    assert line[..level] == Hashes(level);
    assert line[level] == gap[0];
    assert line[level..] == gap + title;
  }

  /** On a break-free line, the title is everything after the marks and the whitespace run. */
  lemma MatchHeadingTitle(line: string)
    requires NoLineBreak(line) && MatchHeading(line).Some?
    ensures var h := MatchHeading(line).value;
      h.level < |line| && line[..h.level] == Hashes(h.level) &&
      var rest := line[h.level..];
      var n := LeadingSpace(rest);
      n >= 1 && h.title == rest[n..]
  {
    var h := MatchHeading(line).value;
    var rest := line[h.level..];
    var tail := rest[LeadingSpace(rest)..];
    assert UpToNewline(tail) == tail;
  }

  /** On a break-free line, the title is exactly what follows the marks and the whitespace run. */
  lemma MatchHeadingSound(line: string)
    requires NoLineBreak(line) && MatchHeading(line).Some?
    ensures var h := MatchHeading(line).value;
      exists gap :: gap != [] && AllSpace(gap) && line == Hashes(h.level) + gap + h.title
  {
    MatchHeadingTitle(line);
    var h := MatchHeading(line).value;
    var rest := line[h.level..];
    var n := LeadingSpace(rest);
    var gap := rest[..n];
    ThreeParts(line, h.level, n);
    assert line == Hashes(h.level) + gap + h.title;
  }

  /** Cutting `s` at `k` and then `n` characters further gives three parts that join back to `s`. */
  lemma ThreeParts(s: string, k: nat, n: nat)
    requires k + n <= |s|
    ensures s == s[..k] + s[k..][..n] + s[k..][n..]
  {
    assert s[k..] == s[k..][..n] + s[k..][n..];
  }

  /** Index of the first line the heading pattern accepts. */
  function FirstMatch(lines: seq<string>): (r: Option<nat>)
    ensures r.Some? ==> r.value < |lines| && MatchHeading(lines[r.value]).Some?
    ensures r.Some? ==> forall j :: 0 <= j < r.value ==> MatchHeading(lines[j]).None?
    ensures r.None? <==> forall j :: 0 <= j < |lines| ==> MatchHeading(lines[j]).None?
  {
    FirstMatchFrom(lines, 0)
  }

  /** Index of the first line at or after `from` the heading pattern accepts. */
  function FirstMatchFrom(lines: seq<string>, from: nat): (r: Option<nat>)
    requires from <= |lines|
    ensures r.Some? ==> from <= r.value < |lines| && MatchHeading(lines[r.value]).Some?
    ensures r.Some? ==> forall j :: from <= j < r.value ==> MatchHeading(lines[j]).None?
    ensures r.None? <==> forall j :: from <= j < |lines| ==> MatchHeading(lines[j]).None?
    decreases |lines| - from
  {
    if from == |lines| then None
    else if MatchHeading(lines[from]).Some? then Some(from)
    else FirstMatchFrom(lines, from + 1)
  }

  /** The lines the builder scans for one slide: those of `slide.strip()`. */
  function SlideLines(slide: string): seq<string> {
    SplitLines(Strip(slide))
  }

  /** The heading a slide contributes to the sidebar, if any. */
  function SlideHeading(slide: string): (r: Option<Heading>)
    ensures r.None? <==> forall j :: 0 <= j < |SlideLines(slide)| ==> MatchHeading(SlideLines(slide)[j]).None?
    ensures r.Some? ==> exists j :: 0 <= j < |SlideLines(slide)| && r == MatchHeading(SlideLines(slide)[j]) &&
                                    forall i :: 0 <= i < j ==> MatchHeading(SlideLines(slide)[i]).None?
  {
    var lines := SlideLines(slide);
    match FirstMatch(lines)
    case Some(j) => MatchHeading(lines[j])
    case None => None
  }

  /** The sidebar entries for slides `from..` of a deck whose slide headings are `hs`. */
  function Entries(hs: seq<Option<Heading>>, from: nat): (r: seq<Entry>)
    requires from <= |hs|
    ensures forall k :: 0 <= k < |r| ==> from <= r[k].index < |hs|
    ensures forall k :: 0 <= k < |r| ==> hs[r[k].index] == Some(Heading(r[k].level, r[k].title))
    ensures forall k, l :: 0 <= k < l < |r| ==> r[k].index < r[l].index
    ensures forall i :: from <= i < |hs| && hs[i].Some? ==> exists k :: 0 <= k < |r| && r[k].index == i
    decreases |hs| - from
  {
    if from == |hs| then []
    else
      var rest := Entries(hs, from + 1);
      var head := if hs[from].Some? then [Entry(from, hs[from].value.level, hs[from].value.title)] else [];
      EntriesStep(hs, from, head, rest);
      head + rest
  }

  /** Prepending slide `from`'s own entry, if it has one, keeps the entry list's properties. */
  lemma EntriesStep(hs: seq<Option<Heading>>, from: nat, head: seq<Entry>, rest: seq<Entry>)
    requires from < |hs|
    requires head == if hs[from].Some? then [Entry(from, hs[from].value.level, hs[from].value.title)] else []
    requires forall k :: 0 <= k < |rest| ==> from + 1 <= rest[k].index < |hs|
    requires forall k, l :: 0 <= k < l < |rest| ==> rest[k].index < rest[l].index
    requires forall i :: from + 1 <= i < |hs| && hs[i].Some? ==> exists k :: 0 <= k < |rest| && rest[k].index == i
    ensures forall k, l :: 0 <= k < l < |head + rest| ==> (head + rest)[k].index < (head + rest)[l].index
    ensures forall i :: from <= i < |hs| && hs[i].Some? ==>
      exists k :: 0 <= k < |head + rest| && (head + rest)[k].index == i
  {
    var r := head + rest;
    var n := |head|;
    forall i | from <= i < |hs| && hs[i].Some?
      ensures exists k :: 0 <= k < |r| && r[k].index == i
    {
      if i == from {
        assert r[0].index == i;
      } else {
        var k :| 0 <= k < |rest| && rest[k].index == i;
        assert r[k + n] == rest[k];
      }
    }
  }

  /** The heading of each slide, in slide order. */
  function Headings(slides: seq<string>): (hs: seq<Option<Heading>>)
    ensures |hs| == |slides|
    ensures forall i :: 0 <= i < |slides| ==> hs[i] == SlideHeading(slides[i])
  {
    seq(|slides|, i requires 0 <= i < |slides| => SlideHeading(slides[i]))
  }

  /** The slides the sidebar numbers: `md_content.split('\n---\n')`. */
  function Slides(md: string): (slides: seq<string>)
    ensures |slides| >= 1 && Join(slides, SlideSeparator) == md
  {
    JoinSplit(md, SlideSeparator);
    Split(md, SlideSeparator)
  }

  /** `generate_sidebar`, reduced to its list of entries (one `<li>` per entry). */
  function GenerateSidebar(md: string): (r: seq<Entry>)
    ensures forall k :: 0 <= k < |r| ==> r[k].index < |Slides(md)|
    ensures forall k :: 0 <= k < |r| ==> r[k].level == 1 || r[k].level == 2
    ensures forall k, l :: 0 <= k < l < |r| ==> r[k].index < r[l].index
    ensures forall k :: 0 <= k < |r| ==> SlideHeading(Slides(md)[r[k].index]) == Some(Heading(r[k].level, r[k].title))
  {
    var slides := Slides(md);
    var hs := Headings(slides);
    var r := Entries(hs, 0);
    HeadingsOfEntries(slides, r);
    r
  }

  /** Entries taken from the headings of `slides` name the headings of those slides. */
  lemma HeadingsOfEntries(slides: seq<string>, r: seq<Entry>)
    requires forall k :: 0 <= k < |r| ==> r[k].index < |slides|
    requires forall k :: 0 <= k < |r| ==> Headings(slides)[r[k].index] == Some(Heading(r[k].level, r[k].title))
    ensures forall k :: 0 <= k < |r| ==> SlideHeading(slides[r[k].index]) == Some(Heading(r[k].level, r[k].title))
  {
    var hs := Headings(slides);
    forall k | 0 <= k < |r|
      ensures SlideHeading(slides[r[k].index]) == Some(Heading(r[k].level, r[k].title))
    {
      assert hs[r[k].index] == SlideHeading(slides[r[k].index]);
    }
  }

  /** Every slide that has a heading gets an entry; with the soundness of `GenerateSidebar`, exactly those do. */
  lemma SidebarCoversSlide(md: string, i: nat)
    requires i < |Slides(md)| && SlideHeading(Slides(md)[i]).Some?
    ensures exists k :: 0 <= k < |GenerateSidebar(md)| && GenerateSidebar(md)[k].index == i
  {
    var hs := Headings(Slides(md));
    assert hs[i].Some?;
    var r := Entries(hs, 0);
    assert GenerateSidebar(md) == r;
    assert exists k :: 0 <= k < |r| && r[k].index == i;
  }

  /** The slide count is one more than the number of separators in the text. */
  lemma SlideCount(md: string)
    ensures |Slides(md)| == Count(md, SlideSeparator) + 1
  {
    SplitCount(md, SlideSeparator);
  }

  /** The Tailwind margin class of an entry: `ml-0` for `#`, `ml-4` for `##`. */
  function Indent(e: Entry): (r: nat)
    requires e.level == 1 || e.level == 2
    ensures r == 0 <==> e.level == 1
    ensures r == 4 <==> e.level == 2
  {
    (e.level - 1) * 4
  }

  /** Text without a `-` holds no separator, so it is a single slide. */
  lemma DashFreeIsOneSlide(s: string)
    requires '-' !in s
    ensures Slides(s) == [s]
  {
    DashFreeHasNoSeparator(s);
    SplitWhole(s, SlideSeparator);
  }

  lemma DashFreeHasNoSeparator(s: string)
    requires '-' !in s
    ensures forall j: nat :: !OccursAt(s, j, SlideSeparator)
  {
    forall j: nat ensures !OccursAt(s, j, SlideSeparator) {
      if j + 5 <= |s| {
        assert s[j..j + 5][1] == s[j + 1];
      }
    }
  }

  /** A first slide without a `-` ends at the first separator. */
  lemma SlidesAfterDashFree(a: string, b: string)
    requires '-' !in a
    ensures Slides(a + SlideSeparator + b) == [a] + Slides(b)
  {
    var s := a + SlideSeparator + b;
    forall j: nat | j < |a| ensures !OccursAt(s, j, SlideSeparator) {
      assert s[j..j + 5][1] == s[j + 1];
      if j + 1 < |a| {
        assert s[j + 1] == a[j + 1];
      }
    }
    assert s[|a|..|a| + 5] == SlideSeparator;
    FindIs(s, SlideSeparator, |a|);
    assert s[..|a|] == a && s[|a| + 5..] == b;
  }

  /** A dash-free slide, the separator, and a text without the separator are two slides. */
  lemma SlidesOfTwo(a: string, b: string)
    requires '-' !in a && forall j: nat :: !OccursAt(b, j, SlideSeparator)
    ensures Slides(a + SlideSeparator + b) == [a, b]
  {
    SlidesAfterDashFree(a, b);
    SplitWhole(b, SlideSeparator);
  }

  /** Two break-free lines joined by `\n`, with no whitespace at the outer ends, are the slide's two lines. */
  lemma TwoLineSlide(first: string, second: string)
    requires NoLineBreak(first) && first != [] && !IsSpace(first[0])
    requires NoLineBreak(second) && second != [] && !IsSpace(second[|second| - 1])
    ensures SlideLines(first + "\n" + second) == [first, second]
  {
    var slide := first + "\n" + second;
    assert slide[0] == first[0] && slide[|slide| - 1] == second[|second| - 1];
    StripUnchanged(slide);
    SplitLinesAt(first, "\n", second);
  }

  /** A heading line written as marks, one space and a title is break-free and recognised. */
  lemma HeadingLine(level: nat, title: string)
    requires level == 1 || level == 2
    requires NoLineBreak(title) && (title == [] || !IsSpace(title[0]))
    ensures NoLineBreak(Hashes(level) + " " + title)
    ensures MatchHeading(Hashes(level) + " " + title) == Some(Heading(level, title))
  {
    var line := Hashes(level) + " " + title;
    forall i | 0 <= i < |line| ensures !IsLineBreak(line[i]) {
      if i > level { assert line[i] == title[i - level - 1]; }
    }
    MatchHeadingComplete(level, " ", title);
  }

  /** A slide's heading is its first matching line. */
  lemma SlideHeadingOf(slide: string, lines: seq<string>, j: nat)
    requires SlideLines(slide) == lines && FirstMatch(lines) == Some(j)
    ensures j < |lines| && SlideHeading(slide) == MatchHeading(lines[j])
  {
  }

  /** A slide whose first line matches takes its heading from that line. */
  lemma HeadingOfFirstLine(slide: string, line: string, rest: seq<string>)
    requires SlideLines(slide) == [line] + rest && MatchHeading(line).Some?
    ensures SlideHeading(slide) == MatchHeading(line)
  {
    var lines := [line] + rest;
    assert lines[0] == line;
    assert FirstMatch(lines) == Some(0);
    SlideHeadingOf(slide, lines, 0);
  }

  /** The heading of a slide made of a heading line and one body line. */
  lemma HeadingOfTwoLineSlide(slide: string, level: nat, title: string, body: string)
    requires level == 1 || level == 2
    requires NoLineBreak(title) && title != [] && !IsSpace(title[0])
    requires NoLineBreak(body) && body != [] && !IsSpace(body[|body| - 1])
    requires slide == Hashes(level) + " " + title + "\n" + body
    ensures SlideHeading(slide) == Some(Heading(level, title))
  {
    var line := Hashes(level) + " " + title;
    HeadingLine(level, title);
    assert line[0] == '#';
    TwoLineSlide(line, body);
    var lines := [line, body];
    assert FirstMatch(lines) == Some(0);
    SlideHeadingOf(slide, lines, 0);
  }

  // The worked examples below are proved in small steps. Their helper lemmas
  // take the example's strings as parameters fixed by a `requires` instead of
  // writing the literal inside: the solver then treats each string as one term
  // and looks at its characters only in the step that needs them, which keeps
  // every step well inside the resource limit.

  /** A two-slide deck: one `#` heading, one `##` heading, each followed by a body line. */
  lemma SidebarExample()
    ensures GenerateSidebar("# A\nbody\n---\n## B\ntext") == [Entry(0, 1, "A"), Entry(1, 2, "B")]
  {
    var md, a, b := "# A\nbody\n---\n## B\ntext", "# A\nbody", "## B\ntext";
    ExampleSlides(md, a, b);
    ExampleHeadingA(a);
    ExampleHeadingB(b);
    SidebarOfTwoSlides(md, a, b, Heading(1, "A"), Heading(2, "B"));
  }

  lemma ExampleSlides(md: string, a: string, b: string)
    requires md == "# A\nbody\n---\n## B\ntext" && a == "# A\nbody" && b == "## B\ntext"
    ensures Slides(md) == [a, b]
  {
    ExampleJoined(md, a, b);
    ExampleDashFree(a, b);
    SlidesAfterDashFree(a, b);
    DashFreeIsOneSlide(b);
  }

  lemma ExampleJoined(md: string, a: string, b: string)
    requires md == "# A\nbody\n---\n## B\ntext" && a == "# A\nbody" && b == "## B\ntext"
    ensures md == a + SlideSeparator + b
  {
  }

  lemma ExampleDashFree(a: string, b: string)
    requires a == "# A\nbody" && b == "## B\ntext"
    ensures '-' !in a && '-' !in b
  {
  }

  lemma ExampleHeadingA(a: string)
    requires a == "# A\nbody"
    ensures SlideHeading(a) == Some(Heading(1, "A"))
  {
    HashesWritten();
    assert a == Hashes(1) + " " + "A" + "\n" + "body";
    HeadingOfTwoLineSlide(a, 1, "A", "body");
  }

  lemma ExampleHeadingB(b: string)
    requires b == "## B\ntext"
    ensures SlideHeading(b) == Some(Heading(2, "B"))
  {
    HashesWritten();
    assert b == Hashes(2) + " " + "B" + "\n" + "text";
    HeadingOfTwoLineSlide(b, 2, "B", "text");
  }

  /** The entries for two slides that both have headings. */
  lemma EntriesOfTwo(hs: seq<Option<Heading>>)
    requires |hs| == 2 && hs[0].Some? && hs[1].Some?
    ensures Entries(hs, 0) == [Entry(0, hs[0].value.level, hs[0].value.title), Entry(1, hs[1].value.level, hs[1].value.title)]
  {
    assert Entries(hs, 2) == [];
    assert Entries(hs, 1) == [Entry(1, hs[1].value.level, hs[1].value.title)] + Entries(hs, 2);
  }

  /** The sidebar of a two-slide deck whose slides both have headings. */
  lemma SidebarOfTwoSlides(md: string, a: string, b: string, ha: Heading, hb: Heading)
    requires Slides(md) == [a, b]
    requires SlideHeading(a) == Some(ha) && SlideHeading(b) == Some(hb)
    ensures GenerateSidebar(md) == [Entry(0, ha.level, ha.title), Entry(1, hb.level, hb.title)]
  {
    var slides := Slides(md);
    var hs := Headings(slides);
    assert slides[0] == a && slides[1] == b;
    EntriesOfTwo(hs);
  }
}
