/** The solution file both programs write: the number of slides on the first
    line, then one line per slide with its photo ids separated by single
    spaces. The parser here is the reading side of that format, used to state
    that a written file gives back the slideshow it was written from. */
module Output {
  import opened Text
  import opened Slides

  /** `map(str, slide)`. */
  function IdStrings(ms: seq<nat>): seq<string>
  {
    seq(|ms|, k requires 0 <= k < |ms| => NatToString(ms[k]))
  }

  /** `' '.join(map(str, slide)) + "\n"`. */
  function SlideLine(s: Slide): string
  {
    Join(IdStrings(s.Members()), " ") + "\n"
  }

  function CountLine(n: nat): string
  {
    NatToString(n) + "\n"
  }

  /** One line per slide, in the slideshow's order. */
  function SlideLines(show: seq<Slide>): seq<string>
  {
    seq(|show|, k requires 0 <= k < |show| => SlideLine(show[k]))
  }

  /** The lines of the solution file for a slideshow, in order. */
  function FormatSolution(show: seq<Slide>): seq<string>
  {
    [CountLine(|show|)] + SlideLines(show)
  }

  /** slideshow.py:120-123 and Projet.py:76-80: the count line, then one
      `write` per slide, in the slideshow's order. */
  method WriteOutput(show: seq<Slide>) returns (lines: seq<string>)
    ensures lines == FormatSolution(show)
  {
    lines := [CountLine(|show|)];
    for k := 0 to |show|
      invariant |lines| == k + 1
      invariant lines[0] == CountLine(|show|)
      invariant forall m :: 0 <= m < k ==> lines[m + 1] == SlideLine(show[m])
    {
      lines := lines + [SlideLine(show[k])];
    }
  }

  /** A written file has one line more than the slideshow has slides. */
  lemma FormatSolutionShape(show: seq<Slide>)
    ensures |FormatSolution(show)| == 1 + |show|
    ensures ParseIntLine(FormatSolution(show)[0]) == Some(|show|)
    ensures forall k :: 0 <= k < |show| ==> FormatSolution(show)[k + 1] == SlideLine(show[k])
  {
    CountLineParses(|show|);
  }

  /** `int(t)` restricted to the ids a slide can hold. */
  function ParseId(t: string): Option<nat>
  {
    match ParseInt(t)
    case Some(v) => if v >= 0 then Some(v) else None
    case None => None
  }

  /** Reads one slide line: one id for a single, two for a pair. */
  function ParseSlideLine(line: string): (r: Option<Slide>)
    ensures r.Some? ==> |Split(line)| == |r.value.Members()|
  {
    var parts := Split(line);
    if |parts| == 1 then
      match ParseId(parts[0])
      case Some(a) => Some(Single(a))
      case None => None
    else if |parts| == 2 then
      match (ParseId(parts[0]), ParseId(parts[1]))
      case (Some(a), Some(b)) => Some(Pair(a, b))
      case _ => None
    else None
  }

  function ParseSlideLines(lines: seq<string>): Option<seq<Slide>>
  {
    if lines == [] then Some([])
    else
      match (ParseSlideLine(lines[0]), ParseSlideLines(lines[1..]))
      case (Some(s), Some(rest)) => Some([s] + rest)
      case _ => None
  }

  /** Reads a solution file: the count line must match the number of slide lines. */
  function ParseSolution(lines: seq<string>): (r: Option<seq<Slide>>)
    ensures r.Some? ==> |lines| == 1 + |r.value|
  {
    if lines == [] then None
    else
      match ParseIntLine(lines[0])
      case Some(n) =>
        if n == |lines| - 1 then
          match ParseSlideLines(lines[1..])
          case Some(show) => if |show| == n then Some(show) else None
          case None => None
        else None
      case None => None
  }

  lemma CountLineParses(n: nat)
    ensures ParseIntLine(CountLine(n)) == Some(n)
  {
    ParseIntNatToString(n);
    SplitJoin([NatToString(n)]);
    assert Join([NatToString(n)], " ") == NatToString(n);
  }

  /** Each id written by `str` reads back with `int`. */
  lemma IdStringsTokens(ms: seq<nat>)
    ensures forall k :: 0 <= k < |ms| ==> IsToken(IdStrings(ms)[k])
    ensures forall k :: 0 <= k < |ms| ==> ParseId(IdStrings(ms)[k]) == Some(ms[k])
  {
    forall k | 0 <= k < |ms|
      ensures IsToken(IdStrings(ms)[k]) && ParseId(IdStrings(ms)[k]) == Some(ms[k])
    {
      ParseIntNatToString(ms[k]);
    }
  }

  /** A slide line reads back as the slide it was written from. */
  lemma SlideLineRoundTrip(s: Slide)
    ensures ParseSlideLine(SlideLine(s)) == Some(s)
  {
    var ids := IdStrings(s.Members());
    IdStringsTokens(s.Members());
    SplitJoin(ids);
  }

  lemma {:induction false} SlideLinesRoundTrip(show: seq<Slide>)
    ensures ParseSlideLines(SlideLines(show)) == Some(show)
  {
    if show != [] {
      SlideLineRoundTrip(show[0]);
      SlideLinesRoundTrip(show[1..]);
      SlideLinesTail(show);
      assert [show[0]] + show[1..] == show;
    }
  }

  lemma SlideLinesTail(show: seq<Slide>)
    requires show != []
    ensures SlideLines(show) != [] && SlideLines(show)[0] == SlideLine(show[0])
    ensures SlideLines(show)[1..] == SlideLines(show[1..])
  {
  }

  /** Reading back a written solution file gives the slideshow that was written. */
  lemma FormatParseRoundTrip(show: seq<Slide>)
    ensures ParseSolution(FormatSolution(show)) == Some(show)
  {
    var lines := FormatSolution(show);
    CountLineParses(|show|);
    SlideLinesRoundTrip(show);
    assert lines[1..] == SlideLines(show);
  }

  /** Two slideshows that write the same file are the same slideshow. */
  lemma FormatInjective(a: seq<Slide>, b: seq<Slide>)
    requires FormatSolution(a) == FormatSolution(b)
    ensures a == b
  {
    FormatParseRoundTrip(a);
    FormatParseRoundTrip(b);
  }
}
