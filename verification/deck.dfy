/**
 * The deck as the browser builds it. The delivered page hands the markdown to
 * the Reveal.js markdown plugin with the separator `^---$` in multi-line mode,
 * and the editor preview splits with the same regex: a slide ends at every
 * line that is exactly `---`, where a line ends at `\n`, `\r`, U+2028 or
 * U+2029. The sidebar instead cuts on the literal `"\n---\n"`, so the two
 * numberings can disagree; the lemmas at the end exhibit inputs where they do.
 *
 * The deck is modelled on the markdown exactly as the request carried it.
 * The page writes it unescaped into a `<textarea>`, whose text the HTML
 * parser hands on only after decoding character references, cutting it at
 * the first `</textarea>` and turning each CRLF or lone CR into LF. The
 * Reveal.js 4.3.1 markdown plugin then rewrites that text before it splits:
 * `__SCRIPT_END__` becomes `</script>`, and when the text opens (after at most
 * one line break) with tabs, or with two or more whitespace characters, every
 * run of that many tabs or spaces becomes a line break. Markdown touched by
 * any of these reaches the split changed, and the lemmas here do not speak of
 * it. The indentation rewrite only adds line breaks and leaves every `---`
 * line whole, so it can only add separator lines.
 */
module Deck {
  import opened Wrappers
  import opened Text
  import opened Sidebar

  /** The separator line's text, which the split drops. */
  const Rule := "---"

  /** A JavaScript line terminator, where `^` and `$` match in multi-line mode. */
  predicate IsJsLineTerminator(c: char) {
    c == '\n' || c == '\r' || c == '\U{2028}' || c == '\U{2029}'
  }

  /** `^---$` matches at position `p` of `s`: three dashes that form a whole line. */
  predicate SeparatorLineAt(s: string, p: nat) {
    && p + 3 <= |s|
    && s[p] == '-' && s[p + 1] == '-' && s[p + 2] == '-'
    && (p == 0 || IsJsLineTerminator(s[p - 1]))
    && (p + 3 == |s| || IsJsLineTerminator(s[p + 3]))
  }

  /** The leftmost separator line at or after `from`. */
  function NextSeparator(s: string, from: nat): (r: Option<nat>)
    requires from <= |s|
    ensures r.Some? ==> from <= r.value && SeparatorLineAt(s, r.value)
    decreases |s| - from
  {
    if SeparatorLineAt(s, from) then Some(from)
    else if from == |s| then None
    else NextSeparator(s, from + 1)
  }

  /** The separator line found is the leftmost at or after `from`; when none is found there is none. */
  lemma {:induction false} NextSeparatorLeftmost(s: string, from: nat)
    requires from <= |s|
    ensures NextSeparator(s, from).Some? ==> forall p :: from <= p < NextSeparator(s, from).value ==> !SeparatorLineAt(s, p)
    ensures NextSeparator(s, from).None? ==> forall p :: from <= p ==> !SeparatorLineAt(s, p)
    decreases |s| - from
  {
    if !SeparatorLineAt(s, from) && from < |s| {
      NextSeparatorLeftmost(s, from + 1);
    }
  }

  /**
   * The pieces of `s[from..]` between separator lines, as `s.split(/^---$/gm)`
   * yields them: the dashes go, the line breaks around them stay in the pieces.
   */
  function RuntimeSplit(s: string, from: nat): (pieces: seq<string>)
    requires from <= |s|
    ensures |pieces| >= 1
    decreases |s| - from
  {
    match NextSeparator(s, from)
    case None => [s[from..]]
    case Some(p) => [s[from..p]] + RuntimeSplit(s, p + 3)
  }

  /** Putting the dashes back between the pieces gives back the text: the split loses nothing else. */
  lemma {:induction false} RuntimeSplitJoin(s: string, from: nat)
    requires from <= |s|
    ensures Join(RuntimeSplit(s, from), Rule) == s[from..]
    decreases |s| - from
  {
    var cut := RuntimeCut(s, from);
    if cut.Some? {
      var p := cut.value;
      RuntimeSplitJoin(s, p + 3);
      JoinStep(s[from..], s[from..p], Rule, s[p + 3..], RuntimeSplit(s, from), RuntimeSplit(s, p + 3));
    } else {
      JoinOne(s[from..], Rule);
    }
  }

  /**
   * Where the deck cuts `s[from..]` first: nowhere, and the rest is one piece;
   * or at a separator line `p`, and the piece before it is cut off.
   */
  lemma RuntimeCut(s: string, from: nat) returns (cut: Option<nat>)
    requires from <= |s|
    ensures cut == NextSeparator(s, from)
    ensures cut.None? ==> RuntimeSplit(s, from) == [s[from..]]
    ensures cut.Some? ==> from <= cut.value && cut.value + 3 <= |s|
    ensures cut.Some? ==> RuntimeSplit(s, from) == [s[from..cut.value]] + RuntimeSplit(s, cut.value + 3)
    ensures cut.Some? ==> s[from..] == s[from..cut.value] + Rule + s[cut.value + 3..]
  {
    cut := NextSeparator(s, from);
    if cut.Some? {
      SeparatorSplice(s, from, cut.value);
    }
  }

  /** The text around a separator line is the part before it, the dashes and the part after it. */
  lemma SeparatorSplice(s: string, from: nat, p: nat)
    requires from <= p && SeparatorLineAt(s, p)
    ensures s[from..] == s[from..p] + Rule + s[p + 3..]
  {
    assert s[p..p + 3] == "---";
    assert s[from..] == s[from..p] + s[p..p + 3] + s[p + 3..];
  }

  /** The slides of the running deck; its `Reveal.getTotalSlides()` is their number. */
  function RuntimeSlides(md: string): (slides: seq<string>)
    ensures |slides| >= 1 && Join(slides, Rule) == md
  {
    RuntimeSplitJoin(md, 0);
    assert md[0..] == md;
    RuntimeSplit(md, 0)
  }

  /** The number of separator lines at or after `from`. */
  function SeparatorLines(s: string, from: nat): nat
    requires from <= |s|
    decreases |s| - from
  {
    if from == |s| then 0
    else (if SeparatorLineAt(s, from) then 1 else 0) + SeparatorLines(s, from + 1)
  }

  /** Separator lines never overlap: the next one starts at least four characters later. */
  lemma SeparatorsApart(s: string, p: nat, q: nat)
    requires SeparatorLineAt(s, p) && p < q < p + 4
    ensures !SeparatorLineAt(s, q)
  {
    if q + 3 <= |s| && q == p + 3 {
      assert IsJsLineTerminator(s[q]);
    }
  }

  /** No separator line starts in `[lo, hi)`, so none is counted there. */
  lemma {:induction false} SeparatorLinesSkip(s: string, lo: nat, hi: nat)
    requires lo <= hi <= |s|
    requires forall p :: lo <= p < hi ==> !SeparatorLineAt(s, p)
    ensures SeparatorLines(s, lo) == SeparatorLines(s, hi)
    decreases hi - lo
  {
    if lo < hi {
      SeparatorLinesSkip(s, lo + 1, hi);
    }
  }

  /** The deck has one slide more than there are separator lines: every `---` line opens a new slide. */
  lemma {:induction false} RuntimeSlideCount(s: string, from: nat)
    requires from <= |s|
    ensures |RuntimeSplit(s, from)| == SeparatorLines(s, from) + 1
    decreases |s| - from
  {
    NextSeparatorLeftmost(s, from);
    match NextSeparator(s, from)
    case None =>
      SeparatorLinesSkip(s, from, |s|);
    case Some(p) =>
      RuntimeSlideCount(s, p + 3);
      assert |RuntimeSplit(s, from)| == 1 + |RuntimeSplit(s, p + 3)|;
      SeparatorLinesSkip(s, from, p);
      assert SeparatorLines(s, p) == 1 + SeparatorLines(s, p + 1);
      forall q | p < q < p + 3 ensures !SeparatorLineAt(s, q) {
        SeparatorsApart(s, p, q);
      }
      SeparatorLinesSkip(s, p + 1, p + 3);
  }

  /** Counting from further right finds no more separator lines. */
  lemma {:induction false} SeparatorLinesMonotone(s: string, lo: nat, hi: nat)
    requires lo <= hi <= |s|
    ensures SeparatorLines(s, lo) >= SeparatorLines(s, hi)
    decreases hi - lo
  {
    if lo < hi {
      SeparatorLinesMonotone(s, lo + 1, hi);
    }
  }

  /** A `"\n---\n"` at `from + k` frames a separator line at `from + k + 1`. */
  lemma OccurrenceFramesLine(s: string, from: nat, k: nat)
    requires from <= |s| && OccursAt(s[from..], k, SlideSeparator)
    ensures SeparatorLineAt(s, from + k + 1)
  {
    var p := from + k + 1;
    assert s[from..][k..k + 5] == s[from + k..from + k + 5];
    var window := s[from + k..from + k + 5];
    assert window == SlideSeparator;
    assert s[p] == window[1] == '-' && s[p + 1] == window[2] == '-' && s[p + 2] == window[3] == '-';
    assert s[p - 1] == window[0] == '\n';
    assert s[p + 3] == window[4] == '\n';
  }

  /** Each `"\n---\n"` the sidebar splits on frames a distinct `---` line of the running deck. */
  lemma {:induction false} SidebarSplitsAreDeckSplits(s: string, from: nat)
    requires from <= |s|
    ensures Count(s[from..], SlideSeparator) <= SeparatorLines(s, from)
    decreases |s| - from
  {
    match Find(s[from..], SlideSeparator)
    case None =>
    case Some(k) =>
      CountPastOccurrence(s, from, k);
      LinePastOccurrence(s, from, k);
      SidebarSplitsAreDeckSplits(s, from + k + 5);
  }

  /** The `---` line framed by the leftmost separator adds one to the deck's count. */
  lemma LinePastOccurrence(s: string, from: nat, k: nat)
    requires from <= |s| && Find(s[from..], SlideSeparator) == Some(k)
    ensures from + k + 5 <= |s|
    ensures SeparatorLines(s, from) >= 1 + SeparatorLines(s, from + k + 5)
  {
    var p := from + k + 1;
    OccurrenceFramesLine(s, from, k);
    SeparatorLinesMonotone(s, from, p);
    assert SeparatorLines(s, p) == 1 + SeparatorLines(s, p + 1);
    SeparatorLinesMonotone(s, p + 1, from + k + 5);
  }

  /** The sidebar's count from `from` is one more than its count past the leftmost separator. */
  lemma CountPastOccurrence(s: string, from: nat, k: nat)
    requires from <= |s| && Find(s[from..], SlideSeparator) == Some(k)
    ensures from + k + 5 <= |s|
    ensures Count(s[from..], SlideSeparator) == 1 + Count(s[from + k + 5..], SlideSeparator)
  {
    assert s[from..][k + 5..] == s[from + k + 5..];
  }

  /** The sidebar never numbers more slides than the deck built from the same text has, so every
      link it emits points at an existing slide, though not necessarily the one holding its
      heading. The text is the markdown as the plugin receives it: one the page's textarea
      would change (a `</textarea>`, a character reference) is outside this lemma. */
  lemma SidebarLinksExist(md: string)
    ensures |Slides(md)| <= |RuntimeSlides(md)|
    ensures forall e :: e in GenerateSidebar(md) ==> e.index < |RuntimeSlides(md)|
  {
    SlideCount(md);
    RuntimeSlideCount(md, 0);
    assert md[0..] == md;
    SidebarSplitsAreDeckSplits(md, 0);
  }

  // The worked examples below are proved in small steps. Their helper lemmas
  // take the example's strings as parameters fixed by a `requires` instead of
  // writing the literal inside: the solver then treats each string as one term
  // and looks at its characters only in the step that needs them, which keeps
  // every step well inside the resource limit.

  /** The sidebar of a deck the sidebar sees as one slide with a heading. */
  lemma SidebarOfOneSlide(md: string, h: Heading)
    requires Slides(md) == [md] && SlideHeading(md) == Some(h)
    ensures GenerateSidebar(md) == [Entry(0, h.level, h.title)]
  {
    var hs := Headings(Slides(md));
    assert hs[0] == Some(h);
    assert Entries(hs, 1) == [];
    assert Entries(hs, 0) == [Entry(0, hs[0].value.level, hs[0].value.title)] + Entries(hs, 1);
  }

  /** A slide that opens with a `---` line and then a `#` heading line. */
  lemma HeadingAfterRule(slide: string, title: string)
    requires title != [] && NoLineBreak(title) && !IsSpace(title[0]) && !IsSpace(title[|title| - 1])
    requires slide == "---\n# " + title
    ensures SlideHeading(slide) == Some(Heading(1, title))
  {
    var line := Hashes(1) + " " + title;
    HeadingLine(1, title);
    HashesWritten();
    assert slide == "---" + "\n" + line;
    assert line[|line| - 1] == title[|title| - 1];
    TwoLineSlide("---", line);
    var lines := ["---", line];
    SecondLineMatches(lines);
    SlideHeadingOf(slide, lines, 1);
  }

  /** When the first of two lines does not match and the second does, the second is the first match. */
  lemma SecondLineMatches(lines: seq<string>)
    requires |lines| == 2 && lines[0] == "---" && MatchHeading(lines[1]).Some?
    ensures FirstMatch(lines) == Some(1)
  {
    assert MatchHeading(lines[0]).None?;
    assert FirstMatchFrom(lines, 1) == Some(1);
  }

  /** `"---\n# " + title` holds no `"\n---\n"`: the sidebar sees one slide. */
  lemma RuleFirstIsOneSlide(md: string, title: string)
    requires NoLineBreak(title) && md == "---\n# " + title
    ensures Slides(md) == [md]
  {
    RuleFirstHasNoSeparator(md, title);
    SplitWhole(md, SlideSeparator);
  }

  lemma RuleFirstHasNoSeparator(md: string, title: string)
    requires NoLineBreak(title) && md == "---\n# " + title
    ensures forall j: nat :: !OccursAt(md, j, SlideSeparator)
  {
    forall j: nat ensures !OccursAt(md, j, SlideSeparator) {
      if j + 5 <= |md| {
        assert md[j..j + 5][0] == md[j];
        assert md[j..j + 5][1] == md[j + 1];
        if j >= 6 { assert md[j] == title[j - 6]; }
      }
    }
  }

  /** `---` on the very first line: the sidebar links the heading to slide 0, but in the running deck slide 0
      is empty and the heading is on slide 1. */
  lemma LeadingRuleDrift()
    ensures GenerateSidebar("---\n# A") == [Entry(0, 1, "A")]
    ensures RuntimeSlides("---\n# A") == ["", "\n# A"]
  {
    var md := "---\n# A";
    RuleFirstIsOneSlide(md, "A");
    HeadingAfterRule(md, "A");
    SidebarOfOneSlide(md, Heading(1, "A"));
    LeadingRuleRuntime(md);
  }

  lemma LeadingRuleRuntime(md: string)
    requires md == "---\n# A"
    ensures RuntimeSlides(md) == ["", "\n# A"]
  {
    assert SeparatorLineAt(md, 0);
    assert forall p: nat :: 3 <= p ==> !SeparatorLineAt(md, p);
    assert NextSeparator(md, 3).None?;
    assert RuntimeSplit(md, 3) == [md[3..]];
  }

  /** The heading of a one-line slide. */
  lemma HeadingOfOneLineSlide(slide: string, title: string)
    requires title != [] && NoLineBreak(title) && !IsSpace(title[0]) && !IsSpace(title[|title| - 1])
    requires slide == "# " + title
    ensures SlideHeading(slide) == Some(Heading(1, title))
  {
    HeadingLine(1, title);
    HashesWritten();
    assert slide == Hashes(1) + " " + title;
    StripUnchanged(slide);
    assert SlideLines(slide) == [slide];
    assert FirstMatch([slide]) == Some(0);
    SlideHeadingOf(slide, [slide], 0);
  }

  /** Two `---` lines in a row: the sidebar's literal split sees only the first, so it links the second
      heading to slide 1, while the running deck has an empty slide 1 and the heading on slide 2. */
  lemma DoubleRuleDrift()
    ensures GenerateSidebar("# A\n---\n---\n# B") == [Entry(0, 1, "A"), Entry(1, 1, "B")]
    ensures RuntimeSlides("# A\n---\n---\n# B") == ["# A\n", "\n", "\n# B"]
  {
    DoubleRuleSidebar("# A\n---\n---\n# B");
    DoubleRuleRuntime("# A\n---\n---\n# B");
  }

  lemma DoubleRuleSidebar(md: string)
    requires md == "# A\n---\n---\n# B"
    ensures GenerateSidebar(md) == [Entry(0, 1, "A"), Entry(1, 1, "B")]
  {
    var a, b := "# A", "---\n# B";
    DoubleRuleSlides(md, a, b);
    DoubleRuleHeadingA(a);
    DoubleRuleHeadingB(b);
    SidebarOfTwoSlides(md, a, b, Heading(1, "A"), Heading(1, "B"));
  }

  lemma DoubleRuleHeadingA(a: string)
    requires a == "# A"
    ensures SlideHeading(a) == Some(Heading(1, "A"))
  {
    HeadingOfOneLineSlide(a, "A");
  }

  lemma DoubleRuleHeadingB(b: string)
    requires b == "---\n# B"
    ensures SlideHeading(b) == Some(Heading(1, "B"))
  {
    HeadingAfterRule(b, "B");
  }

  lemma DoubleRuleSlides(md: string, a: string, b: string)
    requires md == "# A\n---\n---\n# B" && a == "# A" && b == "---\n# B"
    ensures Slides(md) == [a, b]
  {
    DoubleRuleParts(md, a, b);
    RuleFirstHasNoSeparator(b, "B");
    SlidesOfTwo(a, b);
  }

  lemma DoubleRuleParts(md: string, a: string, b: string)
    requires md == "# A\n---\n---\n# B" && a == "# A" && b == "---\n# B"
    ensures md == a + SlideSeparator + b && '-' !in a && NoLineBreak("B") && b == "---\n# " + "B"
  {
  }

  lemma DoubleRuleRuntime(md: string)
    requires md == "# A\n---\n---\n# B"
    ensures RuntimeSlides(md) == ["# A\n", "\n", "\n# B"]
  {
    assert forall p: nat :: SeparatorLineAt(md, p) <==> p == 4 || p == 8;
    assert SeparatorLineAt(md, 4) && SeparatorLineAt(md, 8);
    NextSeparatorLeftmost(md, 0);
    NextSeparatorLeftmost(md, 7);
    NextSeparatorLeftmost(md, 11);
    assert NextSeparator(md, 0) == Some(4);
    assert NextSeparator(md, 7) == Some(8);
    assert NextSeparator(md, 11).None?;
    assert RuntimeSplit(md, 11) == [md[11..]];
    assert RuntimeSplit(md, 7) == [md[7..8]] + RuntimeSplit(md, 11);
    assert RuntimeSplit(md, 0) == [md[0..4]] + RuntimeSplit(md, 7);
    assert md[0..4] == "# A\n" && md[7..8] == "\n" && md[11..] == "\n# B";
  }

  /** Windows line endings: `"\n---\n"` never occurs, so the sidebar sees one slide and lists only its first
      heading, while the running deck splits at the `---` line and shows the second heading on slide 1. */
  lemma CrlfDrift()
    ensures GenerateSidebar("# A\r\n---\r\n# B") == [Entry(0, 1, "A")]
    ensures RuntimeSlides("# A\r\n---\r\n# B") == ["# A\r\n", "\r\n# B"]
  {
    var md := "# A\r\n---\r\n# B";
    CrlfOneSlide(md);
    CrlfHeading(md);
    SidebarOfOneSlide(md, Heading(1, "A"));
    CrlfRuntime(md);
  }

  lemma CrlfOneSlide(md: string)
    requires md == "# A\r\n---\r\n# B"
    ensures Slides(md) == [md]
  {
    CrlfHasNoSeparator(md);
    SplitWhole(md, SlideSeparator);
  }

  lemma CrlfHasNoSeparator(md: string)
    requires md == "# A\r\n---\r\n# B"
    ensures forall j: nat :: !OccursAt(md, j, SlideSeparator)
  {
    forall j: nat ensures !OccursAt(md, j, SlideSeparator) {
      if j + 5 <= |md| {
        assert md[j..j + 5][0] == md[j];
        assert md[j..j + 5][4] == md[j + 4];
      }
    }
  }

  lemma CrlfLines(md: string)
    requires md == "# A\r\n---\r\n# B"
    ensures SlideLines(md) == ["# A"] + SplitLines("---\r\n# B")
  {
    var line, rest := "# A", "---\r\n# B";
    assert md == line + "\r\n" + rest;
    assert NoLineBreak(line) by {
      assert line[0] == '#' && line[1] == ' ' && line[2] == 'A';
    }
    StripUnchanged(md);
    SplitLinesAt(line, "\r\n", rest);
  }

  lemma CrlfHeading(md: string)
    requires md == "# A\r\n---\r\n# B"
    ensures SlideHeading(md) == Some(Heading(1, "A"))
  {
    CrlfLines(md);
    MatchesHeadingA("# A");
    HeadingOfFirstLine(md, "# A", SplitLines("---\r\n# B"));
  }

  lemma MatchesHeadingA(line: string)
    requires line == "# A"
    ensures MatchHeading(line) == Some(Heading(1, "A"))
  {
    HeadingLine(1, "A");
    HashesWritten();
    assert Hashes(1) + " " + "A" == line;
  }

  lemma CrlfRuntime(md: string)
    requires md == "# A\r\n---\r\n# B"
    ensures RuntimeSlides(md) == ["# A\r\n", "\r\n# B"]
  {
    assert forall p: nat :: SeparatorLineAt(md, p) <==> p == 5;
    assert SeparatorLineAt(md, 5);
    NextSeparatorLeftmost(md, 0);
    NextSeparatorLeftmost(md, 8);
    assert NextSeparator(md, 0) == Some(5);
    assert NextSeparator(md, 8).None?;
    assert RuntimeSplit(md, 8) == [md[8..]];
    assert RuntimeSplit(md, 0) == [md[0..5]] + RuntimeSplit(md, 8);
    assert md[0..5] == "# A\r\n" && md[8..] == "\r\n# B";
  }
}
