/** slideshow.py: reading photos, the transition score, candidate slides, the
    constraints of the selection-and-ordering model over a given assignment,
    and the extraction of the ordered show from that assignment. */
module Slideshow {
  import opened Text
  import opened Scoring
  import opened Slides

  /** `(orientation, tags, i - 1)` as `read_input` builds it: the tag list is
      kept as read, duplicates and order included. */
  datatype Photo = Photo(orientation: string, tags: seq<Tag>, index: nat)

  // ---------------------------------------------------------------------------
  // read_input

  /** Line `i` (1-based among the photo lines) as `read_input` reads it:
      orientation, tag count, then that many tags (Python slice semantics when
      the count is negative or exceeds the tokens present). */
  function PhotoLine(line: string, i: nat): (r: Result<Photo>)
    requires 1 <= i
    ensures r.Ok? ==> r.value.index == i - 1
    ensures r.Ok? <==> |Split(line)| >= 2 && ParseInt(Split(line)[1]).Some?
    ensures r.Err? ==> r.error == if |Split(line)| < 2 then IndexError(i) else ValueError(i)
  {
    var parts := Split(line);
    if |parts| < 2 then Err(IndexError(i))
    else match ParseInt(parts[1])
      case None => Err(ValueError(i))
      case Some(count) => Ok(Photo(parts[0], PySlice(parts, 2, 2 + count), i - 1))
  }

  /** The outcome of reading photo line `i`, `lines[i]` raising IndexError past the end. */
  function LineResult(lines: seq<string>, i: nat): Result<Photo>
    requires 1 <= i
  {
    if i < |lines| then PhotoLine(lines[i], i) else Err(IndexError(i))
  }

  /** The tags of a photo are the tokens that follow the count on its line: exactly
      `count` of them when the line holds that many, all remaining ones otherwise.
      A negative count is a negative slice stop: below -2 it drops that many
      tokens from the end, and -1 or -2 leave no tags. */
  lemma PhotoLineTags(line: string, i: nat, count: int)
    requires 1 <= i
    requires |Split(line)| >= 2 && ParseInt(Split(line)[1]) == Some(count)
    ensures PhotoLine(line, i).value.orientation == Split(line)[0]
    ensures var parts := Split(line);
      0 <= count ==> PhotoLine(line, i).value.tags == parts[2..if 2 + count <= |parts| then 2 + count else |parts|]
    ensures 0 <= count && 2 + count <= |Split(line)| ==> |PhotoLine(line, i).value.tags| == count
    ensures var parts := Split(line);
      count < 0 ==> PhotoLine(line, i).value.tags ==
                    (if 2 + count < 0 && 2 < |parts| + 2 + count then parts[2..|parts| + 2 + count] else [])
  {
    var parts := Split(line);
    var stop := if 2 + count <= |parts| then 2 + count else |parts|;
    if 0 <= count {
      PySliceInRange(parts, 2, stop);
    }
  }

  /** Photo k - 1 of `photos` is what reading line k gives, for every k. */
  predicate PhotosRead(lines: seq<string>, photos: seq<Photo>)
  {
    forall k :: 1 <= k <= |photos| ==> LineResult(lines, k) == Ok(photos[k - 1])
  }

  lemma PhotosReadAppend(lines: seq<string>, photos: seq<Photo>, p: Photo)
    requires PhotosRead(lines, photos) && LineResult(lines, |photos| + 1) == Ok(p)
    ensures PhotosRead(lines, photos + [p])
  {
    forall k | 1 <= k <= |photos| + 1
      ensures LineResult(lines, k) == Ok((photos + [p])[k - 1])
    {
      if k <= |photos| {
        assert (photos + [p])[k - 1] == photos[k - 1];
      }
    }
  }

  /** `read_input` over the lines of the file. */
  method ReadInput(lines: seq<string>) returns (r: Result<seq<Photo>>)
    ensures lines == [] ==> r == Err(IndexError(0))
    ensures lines != [] && ParseIntLine(lines[0]).None? ==> r == Err(ValueError(0))
    ensures r.Ok? ==>
      && lines != [] && ParseIntLine(lines[0]).Some?
      && var n := ParseIntLine(lines[0]).value;
      && |r.value| == (if n < 0 then 0 else n)
      && PhotosRead(lines, r.value)
    ensures r.Err? && lines != [] && ParseIntLine(lines[0]).Some? ==>
      exists i :: 1 <= i <= ParseIntLine(lines[0]).value
        && LineResult(lines, i) == Err(r.error)
        && (forall k :: 1 <= k < i ==> LineResult(lines, k).Ok?)
  {
    if |lines| == 0 {
      return Err(IndexError(0));
    }
    var header := ParseIntLine(lines[0]);
    if header.None? {
      return Err(ValueError(0));
    }
    var n := header.value;
    var photos: seq<Photo> := [];
    var i := 1;
    while i <= n
      invariant 1 <= i <= (if n < 1 then 1 else n + 1)
      invariant |photos| == i - 1
      invariant PhotosRead(lines, photos)
    {
      if i >= |lines| {
        assert LineResult(lines, i) == Err(IndexError(i));
        return Err(IndexError(i));
      }
      var line := PhotoLine(lines[i], i);
      if line.Err? {
        assert LineResult(lines, i) == Err(line.error);
        return Err(line.error);
      }
      PhotosReadAppend(lines, photos, line.value);
      photos := photos + [line.value];
      i := i + 1;
    }
    return Ok(photos);
  }

  /** Photos read successfully carry their position as index. */
  lemma ReadInputIndices(lines: seq<string>, photos: seq<Photo>)
    requires forall i :: 1 <= i <= |photos| ==> LineResult(lines, i) == Ok(photos[i - 1])
    ensures forall k :: 0 <= k < |photos| ==> photos[k].index == k
  {
    forall k | 0 <= k < |photos|
      ensures photos[k].index == k
    {
      assert LineResult(lines, k + 1) == Ok(photos[k]);
    }
  }

  // ---------------------------------------------------------------------------
  // transition_score

  /** `transition_score(tags1, tags2)`: both lists are turned into sets first. */
  function TransitionScore(tags1: seq<Tag>, tags2: seq<Tag>): nat
  {
    Interest(TagSet(tags1), TagSet(tags2))
  }

  lemma TransitionScoreSymmetric(tags1: seq<Tag>, tags2: seq<Tag>)
    ensures TransitionScore(tags1, tags2) == TransitionScore(tags2, tags1)
  {
    InterestSymmetric(TagSet(tags1), TagSet(tags2));
  }

  /** Zero when the lists share no tag or one's tags all occur in the other; a list
      scored against itself in particular. */
  lemma TransitionScoreZero(tags1: seq<Tag>, tags2: seq<Tag>)
    requires (forall t :: t in tags1 ==> t !in tags2)
          || (forall t :: t in tags1 ==> t in tags2)
          || (forall t :: t in tags2 ==> t in tags1)
    ensures TransitionScore(tags1, tags2) == 0
  {
    var a, b := TagSet(tags1), TagSet(tags2);
    if forall t :: t in tags1 ==> t !in tags2 {
      assert a * b == {};
      InterestDisjoint(a, b);
    } else {
      InterestNested(a, b);
    }
  }

  lemma TransitionScoreSelf(tags: seq<Tag>)
    ensures TransitionScore(tags, tags) == 0
  {
    TransitionScoreZero(tags, tags);
  }

  /** The score never exceeds the common count or either unique count, and a
      score of k needs 2k entries in each list. */
  lemma TransitionScoreBounds(tags1: seq<Tag>, tags2: seq<Tag>)
    ensures var a, b := TagSet(tags1), TagSet(tags2);
      TransitionScore(tags1, tags2) <= |a * b|
      && TransitionScore(tags1, tags2) <= |a - b|
      && TransitionScore(tags1, tags2) <= |b - a|
    ensures 2 * TransitionScore(tags1, tags2) <= |tags1|
    ensures 2 * TransitionScore(tags1, tags2) <= |tags2|
  {
    InterestBounds(TagSet(tags1), TagSet(tags2));
    InterestAtMostHalf(TagSet(tags1), TagSet(tags2));
    TagSetSize(tags1);
    TagSetSize(tags2);
  }

  /** Repeating a tag already in the list, or reordering the list, changes nothing. */
  lemma TransitionScoreIgnoresDuplicates(tags1: seq<Tag>, tags2: seq<Tag>, k: nat, other: seq<Tag>)
    requires k < |tags1|
    requires multiset(other) == multiset(tags1)
    ensures TransitionScore(tags1 + [tags1[k]], tags2) == TransitionScore(tags1, tags2)
    ensures TransitionScore(other, tags2) == TransitionScore(tags1, tags2)
  {
    TagSetConcat(tags1, [tags1[k]]);
    assert TagSet(tags1 + [tags1[k]]) == TagSet(tags1);
    assert forall t :: t in other <==> t in multiset(other);
    assert forall t :: t in tags1 <==> t in multiset(tags1);
    assert TagSet(other) == TagSet(tags1);
  }

  // ---------------------------------------------------------------------------
  // Candidate slides (solve_slideshow, lines 37-55)

  function PhotoOrientation(p: Photo): string
  {
    p.orientation
  }

  predicate NoDuplicates(ts: seq<Tag>)
  {
    forall k, l :: 0 <= k < l < |ts| ==> ts[k] != ts[l]
  }

  /** `list(set(ts))`: each tag once. Python's set iteration order is not
      specified; this keeps first occurrences in order. */
  function Dedup(ts: seq<Tag>): (r: seq<Tag>)
    ensures TagSet(r) == TagSet(ts)
    ensures NoDuplicates(r)
  {
    if ts == [] then []
    else
      var n := |ts| - 1;
      var rest := Dedup(ts[..n]);
      assert ts == ts[..n] + [ts[n]];
      TagSetConcat(ts[..n], [ts[n]]);
      if ts[n] in rest then rest
      else
        TagSetConcat(rest, [ts[n]]);
        rest + [ts[n]]
  }

  /** `slide_tags[t]` belongs to `slides[t]`, for every t. */
  predicate TagsMatch(photos: seq<Photo>, slides: seq<Slide>, slideTags: seq<seq<Tag>>)
  {
    && |slideTags| == |slides|
    && forall t :: 0 <= t < |slides| ==> InRange(|photos|, slides[t]) && slideTags[t] == SlideTags(photos, slides[t])
  }

  lemma TagsMatchAppend(photos: seq<Photo>, slides: seq<Slide>, slideTags: seq<seq<Tag>>, s: Slide)
    requires TagsMatch(photos, slides, slideTags) && InRange(|photos|, s)
    ensures TagsMatch(photos, slides + [s], slideTags + [SlideTags(photos, s)])
  {
  }

  /** `slide_tags[k]`: a horizontal photo's tag list as read, or the deduplicated
      concatenation of the two vertical photos' lists. */
  function SlideTags(photos: seq<Photo>, s: Slide): seq<Tag>
    requires InRange(|photos|, s)
  {
    match s
    case Single(p) => photos[p].tags
    case Pair(a, b) => Dedup(photos[a].tags + photos[b].tags)
  }

  /** A pair slide's tags are the union of its photos' tags, each once. */
  lemma PairTagsUnion(photos: seq<Photo>, a: nat, b: nat)
    requires a < |photos| && b < |photos|
    ensures TagSet(SlideTags(photos, Pair(a, b))) == TagSet(photos[a].tags) + TagSet(photos[b].tags)
    ensures NoDuplicates(SlideTags(photos, Pair(a, b)))
  {
    TagSetConcat(photos[a].tags, photos[b].tags);
  }

  /** The slide-building loops of `solve_slideshow` (lines 42-55). */
  method BuildSlides(photos: seq<Photo>) returns (slides: seq<Slide>, slideTags: seq<seq<Tag>>)
    ensures slides == Candidates(Orientations(photos, PhotoOrientation))
    ensures TagsMatch(photos, slides, slideTags)
  {
    var hs := IndicesOf(Orientations(photos, PhotoOrientation), "H");
    var vs := IndicesOf(Orientations(photos, PhotoOrientation), "V");
    slides, slideTags := [], [];
    for k := 0 to |hs|
      invariant slides == Singles(hs[..k])
      invariant TagsMatch(photos, slides, slideTags)
    {
      assert Singles(hs[..k + 1]) == Singles(hs[..k]) + [Single(hs[k])];
      TagsMatchAppend(photos, slides, slideTags, Single(hs[k]));
      slides := slides + [Single(hs[k])];
      slideTags := slideTags + [photos[hs[k]].tags];
    }
    assert hs[..|hs|] == hs;
    slides, slideTags := AppendPairSlides(photos, vs, slides, slideTags);
  }

  /** The nested loops over vertical photos (lines 51-55): append every pair
      `i < j` with its merged tags. */
  method AppendPairSlides(photos: seq<Photo>, vs: seq<nat>, slides0: seq<Slide>, slideTags0: seq<seq<Tag>>)
    returns (slides: seq<Slide>, slideTags: seq<seq<Tag>>)
    requires forall k :: 0 <= k < |vs| ==> vs[k] < |photos|
    requires TagsMatch(photos, slides0, slideTags0)
    ensures slides == slides0 + Pairs(vs)
    ensures TagsMatch(photos, slides, slideTags)
  {
    slides, slideTags := slides0, slideTags0;
    for i := 0 to |vs|
      invariant slides == slides0 + PairsUpTo(vs, i)
      invariant TagsMatch(photos, slides, slideTags)
    {
      ghost var before := slides;
      ghost var row := Row(vs, i);
      for j := i + 1 to |vs|
        invariant slides == before + row[..j - i - 1]
        invariant TagsMatch(photos, slides, slideTags)
      {
        assert row[..j - i] == row[..j - i - 1] + [Pair(vs[i], vs[j])];
        TagsMatchAppend(photos, slides, slideTags, Pair(vs[i], vs[j]));
        slides := slides + [Pair(vs[i], vs[j])];
        slideTags := slideTags + [Dedup(photos[vs[i]].tags + photos[vs[j]].tags)];
      }
      assert row[..|vs| - i - 1] == row;
      assert PairsUpTo(vs, i + 1) == PairsUpTo(vs, i) + row;
    }
  }

  // ---------------------------------------------------------------------------
  // The model's constraints (lines 58-85), stated over a given assignment

  /** A value for every variable of the model: `x[i]` (slide i is used),
      `y[i][j]` (slide i comes immediately before slide j) and `pos[i]`. Binary
      variables are booleans, the integer variables integers. */
  datatype Assignment = Assignment(x: seq<bool>, y: seq<seq<bool>>, pos: seq<int>)

  /** One variable per slide, an n × n matrix of transition variables. */
  predicate Shaped(a: Assignment, n: nat)
  {
    |a.x| == n && |a.y| == n && |a.pos| == n && forall i :: 0 <= i < n ==> |a.y[i]| == n
  }

  /** An integer variable's default domain in the solver: lower bound 0 (line 60). */
  predicate PositionsInDomain(a: Assignment)
  {
    forall i :: 0 <= i < |a.pos| ==> a.pos[i] >= 0
  }

  /** Which terms of the sum on line 65 are 1: slide s is used and contains p. */
  function UsesOf(slides: seq<Slide>, x: seq<bool>, p: nat): (u: seq<bool>)
    requires |x| == |slides|
    ensures |u| == |slides|
    ensures forall s :: 0 <= s < |slides| ==> u[s] == (x[s] && slides[s].Contains(p))
  {
    seq(|slides|, s requires 0 <= s < |slides| => x[s] && slides[s].Contains(p))
  }

  /** Lines 63-66: every photo `p < len(photos)` is in at most one used slide. */
  predicate PhotoUsedOnce(numPhotos: nat, slides: seq<Slide>, x: seq<bool>)
    requires |x| == |slides|
  {
    forall p :: 0 <= p < numPhotos ==> CountTrue(UsesOf(slides, x, p)) <= 1
  }

  /** Line 69: at least one slide is used. */
  predicate SomeSlideUsed(x: seq<bool>)
  {
    CountTrue(x) >= 1
  }

  /** Lines 76-77: a transition joins two used slides. */
  predicate EdgesJoinUsedSlides(a: Assignment, n: nat)
    requires Shaped(a, n)
  {
    forall i, j {:trigger a.y[i][j]} :: 0 <= i < n && 0 <= j < n && i != j && a.y[i][j] ==> a.x[i] && a.x[j]
  }

  /** Line 80, the big-M ordering constraint with M = len(slides). */
  predicate PositionsFollowEdges(a: Assignment, n: nat)
    requires Shaped(a, n)
  {
    forall i, j :: 0 <= i < n && 0 <= j < n && i != j ==> a.pos[j] >= a.pos[i] + 1 - n * (1 - Bit(a.y[i][j]))
  }

  /** The terms of the sum on line 84: transitions out of slide i. */
  function Successors(a: Assignment, n: nat, i: nat): (u: seq<bool>)
    requires Shaped(a, n) && i < n
    ensures |u| == n
    ensures forall j :: 0 <= j < n ==> u[j] == (j != i && a.y[i][j])
  {
    seq(n, j requires 0 <= j < n => j != i && a.y[i][j])
  }

  /** The terms of the sum on line 85: transitions into slide i. */
  function Predecessors(a: Assignment, n: nat, i: nat): (u: seq<bool>)
    requires Shaped(a, n) && i < n
    ensures |u| == n
    ensures forall j :: 0 <= j < n ==> u[j] == (j != i && a.y[j][i])
  {
    seq(n, j requires 0 <= j < n => j != i && a.y[j][i])
  }

  /** Lines 83-85: a slide has at most one successor and one predecessor, none if unused. */
  predicate DegreesBounded(a: Assignment, n: nat)
    requires Shaped(a, n)
  {
    forall i :: 0 <= i < n ==>
      CountTrue(Successors(a, n, i)) <= Bit(a.x[i]) && CountTrue(Predecessors(a, n, i)) <= Bit(a.x[i])
  }

  /** The assignment satisfies every constraint `solve_slideshow` adds. */
  predicate Feasible(numPhotos: nat, slides: seq<Slide>, a: Assignment)
  {
    && Shaped(a, |slides|)
    && PositionsInDomain(a)
    && PhotoUsedOnce(numPhotos, slides, a.x)
    && SomeSlideUsed(a.x)
    && EdgesJoinUsedSlides(a, |slides|)
    && PositionsFollowEdges(a, |slides|)
    && DegreesBounded(a, |slides|)
  }

  /** The per-photo constraint holds exactly when the used slides are photo-disjoint. */
  lemma PhotoUsedOnceIffDisjoint(numPhotos: nat, slides: seq<Slide>, x: seq<bool>)
    requires |x| == |slides|
    requires MembersBelow(numPhotos, slides)
    ensures PhotoUsedOnce(numPhotos, slides, x) <==> UsedSlidesDisjoint(slides, x)
  {
    if PhotoUsedOnce(numPhotos, slides, x) {
      forall i, j, p: nat | 0 <= i < j < |slides| && x[i] && x[j] && slides[i].Contains(p)
        ensures !slides[j].Contains(p)
      {
        if slides[j].Contains(p) {
          assert p < numPhotos;
          CountTrueTwo(UsesOf(slides, x, p), i, j);
          assert false;
        }
      }
    }
    if UsedSlidesDisjoint(slides, x) {
      forall p | 0 <= p < numPhotos
        ensures CountTrue(UsesOf(slides, x, p)) <= 1
      {
        if CountTrue(UsesOf(slides, x, p)) >= 2 {
          CountTrueTwoWitness(UsesOf(slides, x, p));
          assert false;
        }
      }
    }
  }

  /** In a feasible assignment a slide has at most one successor. */
  lemma AtMostOneSuccessor(numPhotos: nat, slides: seq<Slide>, a: Assignment, i: nat, j: nat, k: nat)
    requires Feasible(numPhotos, slides, a)
    requires i < |slides| && j < |slides| && k < |slides| && j != i && k != i
    requires a.y[i][j] && a.y[i][k]
    ensures j == k
  {
    if j != k {
      CountTrueTwo(Successors(a, |slides|, i), j, k);
    }
  }

  /** In a feasible assignment a slide has at most one predecessor. */
  lemma AtMostOnePredecessor(numPhotos: nat, slides: seq<Slide>, a: Assignment, i: nat, j: nat, k: nat)
    requires Feasible(numPhotos, slides, a)
    requires i < |slides| && j < |slides| && k < |slides| && j != i && k != i
    requires a.y[j][i] && a.y[k][i]
    ensures j == k
  {
    if j != k {
      CountTrueTwo(Predecessors(a, |slides|, i), j, k);
    }
  }

  /** An unused slide has no active transition in or out. */
  lemma UnusedSlideIsolated(numPhotos: nat, slides: seq<Slide>, a: Assignment, i: nat, j: nat)
    requires Feasible(numPhotos, slides, a)
    requires i < |slides| && j < |slides| && i != j && !a.x[i]
    ensures !a.y[i][j] && !a.y[j][i]
  {
  }

  /** A walk along active transitions between distinct consecutive slides. */
  predicate IsTransitionPath(a: Assignment, n: nat, path: seq<nat>)
    requires Shaped(a, n)
  {
    && (forall k :: 0 <= k < |path| ==> path[k] < n)
    && (forall k :: 0 <= k < |path| - 1 ==> path[k] != path[k + 1] && a.y[path[k]][path[k + 1]])
  }

  /** Each active transition raises the position by at least one. */
  lemma {:induction false} PathRaisesPosition(a: Assignment, n: nat, path: seq<nat>)
    requires Shaped(a, n) && PositionsFollowEdges(a, n)
    requires IsTransitionPath(a, n, path) && |path| >= 1
    ensures a.pos[path[|path| - 1]] >= a.pos[path[0]] + |path| - 1
  {
    if |path| > 1 {
      var init := path[..|path| - 1];
      assert IsTransitionPath(a, n, init);
      PathRaisesPosition(a, n, init);
      EdgeRaisesPosition(a, n, path[|path| - 2], path[|path| - 1]);
    }
  }

  /** Line 80 with `y[u][v] = 1`: the position of v exceeds that of u. */
  lemma EdgeRaisesPosition(a: Assignment, n: nat, u: nat, v: nat)
    requires Shaped(a, n) && PositionsFollowEdges(a, n)
    requires u < n && v < n && u != v && a.y[u][v]
    ensures a.pos[v] >= a.pos[u] + 1
  {
    assert Bit(a.y[u][v]) == 1;
  }

  /** Along a walk, a later slide has a strictly greater position. */
  lemma PositionRisesAlongPath(numPhotos: nat, slides: seq<Slide>, a: Assignment, path: seq<nat>, k: nat, l: nat)
    requires Feasible(numPhotos, slides, a)
    requires IsTransitionPath(a, |slides|, path)
    requires k < l < |path|
    ensures a.pos[path[k]] < a.pos[path[l]]
  {
    var sub := path[k..l + 1];
    assert IsTransitionPath(a, |slides|, sub) by {
      assert forall m :: 0 <= m < |sub| ==> sub[m] == path[k + m];
    }
    PathRaisesPosition(a, |slides|, sub);
  }

  /** Active transitions never close a cycle: along any walk the slides are
      pairwise distinct. */
  lemma PathIsSimple(numPhotos: nat, slides: seq<Slide>, a: Assignment, path: seq<nat>)
    requires Feasible(numPhotos, slides, a)
    requires IsTransitionPath(a, |slides|, path)
    ensures forall k, l :: 0 <= k < l < |path| ==> path[k] != path[l]
  {
    forall k, l | 0 <= k < l < |path|
      ensures path[k] != path[l]
    {
      PositionRisesAlongPath(numPhotos, slides, a, path, k, l);
    }
  }

  // ---------------------------------------------------------------------------
  // Extraction (lines 100-107)

  /** `(pos[i].x, slides[i])`, compared as Python compares tuples. */
  datatype Entry = Entry(pos: int, slide: Slide)

  predicate EntryLess(e: Entry, f: Entry)
  {
    e.pos < f.pos || (e.pos == f.pos && SlideLess(e.slide, f.slide))
  }

  predicate EntryLe(e: Entry, f: Entry)
  {
    e == f || EntryLess(e, f)
  }

  lemma EntryLessTotal(e: Entry, f: Entry)
    ensures EntryLess(e, f) || e == f || EntryLess(f, e)
  {
    SeqLessTotal(e.slide.Members(), f.slide.Members());
  }

  lemma EntryLeTransitive(e: Entry, f: Entry, g: Entry)
    requires EntryLe(e, f) && EntryLe(f, g)
    ensures EntryLe(e, g)
  {
    if e != f && f != g && e.pos == f.pos == g.pos {
      SeqLessTransitive(e.slide.Members(), f.slide.Members(), g.slide.Members());
    }
  }

  /** Each entry is at most the next one. */
  predicate Sorted(es: seq<Entry>)
  {
    forall k :: 0 <= k < |es| - 1 ==> EntryLe(es[k], es[k + 1])
  }

  /** Sorted neighbour by neighbour means sorted pair by pair. */
  lemma {:induction false} SortedPairwise(es: seq<Entry>)
    requires Sorted(es)
    ensures forall k, l :: 0 <= k < l < |es| ==> EntryLe(es[k], es[l])
  {
    if |es| > 1 {
      var init := es[..|es| - 1];
      assert Sorted(init);
      SortedPairwise(init);
      forall k | 0 <= k < |es| - 1
        ensures EntryLe(es[k], es[|es| - 1])
      {
        if k < |es| - 2 {
          assert EntryLe(init[k], init[|es| - 2]);
          EntryLeTransitive(es[k], es[|es| - 2], es[|es| - 1]);
        }
      }
    }
  }

  /** Entries each at most the other are the same entry. */
  lemma EntryLeAntisymmetric(e: Entry, f: Entry)
    requires EntryLe(e, f) && EntryLe(f, e)
    ensures e == f
  {
    if e != f && e.pos == f.pos {
      SeqLessTransitive(e.slide.Members(), f.slide.Members(), e.slide.Members());
      SeqLessIrreflexive(e.slide.Members());
    }
  }

  /** The first entry of a sorted sequence is at most every entry in it. */
  lemma SortedHeadLeast(a: seq<Entry>, e: Entry)
    requires Sorted(a) && e in multiset(a)
    ensures EntryLe(a[0], e)
  {
    SortedPairwise(a);
    var k :| 0 <= k < |a| && a[k] == e;
  }

  lemma SameHeadSameTail(a: seq<Entry>, b: seq<Entry>)
    requires a != [] && b != [] && a[0] == b[0] && multiset(a) == multiset(b)
    ensures multiset(a[1..]) == multiset(b[1..])
  {
    assert a == [a[0]] + a[1..] && b == [b[0]] + b[1..];
    assert multiset(a) == multiset([a[0]]) + multiset(a[1..]);
    assert multiset(b) == multiset([b[0]]) + multiset(b[1..]);
    assert multiset(a[1..]) == multiset(a) - multiset([a[0]]);
    assert multiset(b[1..]) == multiset(b) - multiset([b[0]]);
  }

  /** Two sorted arrangements of the same entries are the same sequence: any
      sort by (position, slide) yields the order the extraction yields. */
  lemma {:induction false} SortedUnique(a: seq<Entry>, b: seq<Entry>)
    requires Sorted(a) && Sorted(b) && multiset(a) == multiset(b)
    ensures a == b
    decreases |a|
  {
    assert |a| == |multiset(a)| == |multiset(b)| == |b|;
    if a != [] {
      SortedHeadLeast(b, a[0]);
      SortedHeadLeast(a, b[0]);
      EntryLeAntisymmetric(a[0], b[0]);
      SameHeadSameTail(a, b);
      assert Sorted(a[1..]) && Sorted(b[1..]);
      SortedUnique(a[1..], b[1..]);
      assert a == [a[0]] + a[1..] && b == [b[0]] + b[1..];
    }
  }

  /** Exchanges the entries at positions i < j. */
  method Swap(a: array<Entry>, i: nat, j: nat)
    requires i < j < a.Length
    modifies a
    ensures a[i] == old(a[j]) && a[j] == old(a[i])
    ensures forall k :: 0 <= k < a.Length && k != i && k != j ==> a[k] == old(a[k])
    ensures multiset(a[..]) == old(multiset(a[..]))
  {
    a[i], a[j] := a[j], a[i];
  }

  /** One step of insertion sort: moves `a[i]` down into the sorted prefix `a[..i]`. */
  method InsertAt(a: array<Entry>, i: nat)
    requires i < a.Length
    requires forall k :: 0 <= k < i - 1 ==> EntryLe(a[k], a[k + 1])
    modifies a
    ensures forall k :: 0 <= k < i ==> EntryLe(a[k], a[k + 1])
    ensures forall k :: i < k < a.Length ==> a[k] == old(a[k])
    ensures multiset(a[..]) == old(multiset(a[..]))
  {
    var j := i;
    while 0 < j && EntryLess(a[j], a[j - 1])
      invariant 0 <= j <= i
      invariant forall k :: 0 <= k < j - 1 ==> EntryLe(a[k], a[k + 1])
      invariant forall k :: j <= k < i ==> EntryLe(a[k], a[k + 1])
      invariant 0 < j < i ==> EntryLe(a[j - 1], a[j + 1])
      invariant forall k :: i < k < a.Length ==> a[k] == old(a[k])
      invariant multiset(a[..]) == old(multiset(a[..]))
    {
      Swap(a, j - 1, j);
      j := j - 1;
    }
    if 0 < j {
      EntryLessTotal(a[j], a[j - 1]);
    }
  }

  /** `selected_slides.sort()`: an insertion sort in place. */
  method SortEntries(a: array<Entry>)
    modifies a
    ensures Sorted(a[..])
    ensures multiset(a[..]) == old(multiset(a[..]))
  {
    var i := 0;
    while i < a.Length
      invariant 0 <= i <= a.Length
      invariant forall k :: 0 <= k < i - 1 ==> EntryLe(a[k], a[k + 1])
      invariant multiset(a[..]) == old(multiset(a[..]))
    {
      InsertAt(a, i);
      i := i + 1;
    }
  }

  /** `(pos[i], slides[i])` for every slide. */
  function EntriesOf(slides: seq<Slide>, pos: seq<int>): (es: seq<Entry>)
    requires |pos| == |slides|
    ensures |es| == |slides|
    ensures forall i :: 0 <= i < |slides| ==> es[i] == Entry(pos[i], slides[i])
  {
    seq(|slides|, i requires 0 <= i < |slides| => Entry(pos[i], slides[i]))
  }

  /** `[slide for _, slide in selected_slides]`. */
  function ShownSlides(es: seq<Entry>): (show: seq<Slide>)
    ensures |show| == |es|
    ensures forall k :: 0 <= k < |es| ==> show[k] == es[k].slide
  {
    seq(|es|, k requires 0 <= k < |es| => es[k].slide)
  }

  /** The extraction at the end of `solve_slideshow`: the used slides, ordered by
      position (ties by the slide lists). */
  method ExtractShow(slides: seq<Slide>, x: seq<bool>, pos: seq<int>) returns (show: seq<Slide>)
    requires |x| == |slides| && |pos| == |slides|
    ensures exists es :: Sorted(es) && multiset(es) == multiset(Select(EntriesOf(slides, pos), x)) && show == ShownSlides(es)
  {
    ghost var all := EntriesOf(slides, pos);
    var selected: seq<Entry> := [];
    for i := 0 to |slides|
      invariant selected == Select(all[..i], x[..i])
    {
      assert all[..i + 1] == all[..i] + [Entry(pos[i], slides[i])];
      assert x[..i + 1] == x[..i] + [x[i]];
      SelectAppend(all[..i], x[..i], Entry(pos[i], slides[i]), x[i]);
      if x[i] {
        selected := selected + [Entry(pos[i], slides[i])];
      }
    }
    assert all[..|slides|] == all && x[..|slides|] == x;
    var arr := new Entry[|selected|](k requires 0 <= k < |selected| => selected[k]);
    assert arr[..] == selected;
    SortEntries(arr);
    show := ShownSlides(arr[..]);
  }

  /** The show holds exactly the used slides. */
  lemma ShowHoldsUsedSlides(slides: seq<Slide>, x: seq<bool>, pos: seq<int>, es: seq<Entry>, s: Slide)
    requires |x| == |slides| && |pos| == |slides|
    requires multiset(es) == multiset(Select(EntriesOf(slides, pos), x))
    ensures s in ShownSlides(es) <==> exists i :: 0 <= i < |slides| && x[i] && slides[i] == s
  {
    var all := EntriesOf(slides, pos);
    if s in ShownSlides(es) {
      var k :| 0 <= k < |es| && ShownSlides(es)[k] == s;
      assert es[k] in multiset(es);
      SelectMembership(all, x, es[k]);
      var i :| 0 <= i < |all| && x[i] && all[i] == es[k];
      assert slides[i] == s;
    }
    if exists i :: 0 <= i < |slides| && x[i] && slides[i] == s {
      var i :| 0 <= i < |slides| && x[i] && slides[i] == s;
      SelectMembership(all, x, all[i]);
      assert all[i] in multiset(es);
      var k :| 0 <= k < |es| && es[k] == all[i];
      assert ShownSlides(es)[k] == s;
    }
  }

  /** No two entries of `es` show the same photo. */
  ghost predicate EntriesDisjoint(es: seq<Entry>)
  {
    forall k, l, p: nat :: 0 <= k < l < |es| && es[k].slide.Contains(p) ==> !es[l].slide.Contains(p)
  }

  /** `UsedSlidesDisjoint` read on the slides of the entries: no two flagged entries show the same photo. */
  ghost predicate UsedEntriesDisjoint(all: seq<Entry>, x: seq<bool>)
    requires |x| == |all|
  {
    UsedSlidesDisjoint(ShownSlides(all), x)
  }

  /** Keeping the flagged entries of a list whose flagged entries are photo-disjoint
      gives a photo-disjoint list. */
  lemma {:induction false} SelectKeepsDisjoint(all: seq<Entry>, x: seq<bool>)
    requires |x| == |all|
    requires UsedEntriesDisjoint(all, x)
    ensures EntriesDisjoint(Select(all, x))
  {
    if all != [] {
      UsedEntriesDisjointTail(all, x);
      SelectKeepsDisjoint(all[1..], x[1..]);
      if x[0] {
        SelectHeadDisjoint(all, x);
      }
    }
  }

  lemma UsedEntriesDisjointTail(all: seq<Entry>, x: seq<bool>)
    requires |x| == |all| && all != []
    requires UsedEntriesDisjoint(all, x)
    ensures UsedEntriesDisjoint(all[1..], x[1..])
  {
    forall i, j, p: nat | 0 <= i < j < |all| - 1 && x[1..][i] && x[1..][j] && all[1..][i].slide.Contains(p)
      ensures !all[1..][j].slide.Contains(p)
    {
      assert x[i + 1] && x[j + 1] && all[i + 1].slide.Contains(p);
    }
  }

  /** A flagged head prepended to a photo-disjoint selection of the rest. */
  lemma SelectHeadDisjoint(all: seq<Entry>, x: seq<bool>)
    requires |x| == |all| && all != [] && x[0]
    requires UsedEntriesDisjoint(all, x)
    requires EntriesDisjoint(Select(all[1..], x[1..]))
    ensures EntriesDisjoint(Select(all, x))
  {
    var rest := Select(all[1..], x[1..]);
    var r := Select(all, x);
    assert r == [all[0]] + rest;
    forall k, l, p: nat | 0 <= k < l < |r| && r[k].slide.Contains(p)
      ensures !r[l].slide.Contains(p)
    {
      assert r[l] == rest[l - 1];
      if k == 0 {
        HeadSharesNothing(all, x, rest[l - 1], p);
      } else {
        assert r[k] == rest[k - 1];
      }
    }
  }

  /** A flagged head shares no photo with any flagged entry after it. */
  lemma HeadSharesNothing(all: seq<Entry>, x: seq<bool>, e: Entry, p: nat)
    requires |x| == |all| && all != [] && x[0]
    requires UsedEntriesDisjoint(all, x)
    requires e in Select(all[1..], x[1..]) && all[0].slide.Contains(p)
    ensures !e.slide.Contains(p)
  {
    SelectMembership(all[1..], x[1..], e);
    var m :| 0 <= m < |all| - 1 && x[1..][m] && all[1..][m] == e;
    assert x[m + 1] && all[m + 1] == e;
  }

  /** Rearranging a photo-disjoint list keeps it photo-disjoint. */
  lemma PermutationKeepsDisjoint(fs: seq<Entry>, es: seq<Entry>)
    requires multiset(es) == multiset(fs)
    requires EntriesDisjoint(fs)
    ensures EntriesDisjoint(es)
  {
    forall k, l, p: nat | 0 <= k < l < |es| && es[k].slide.Contains(p)
      ensures !es[l].slide.Contains(p)
    {
      assert es[k] in multiset(fs) && es[l] in multiset(fs);
      if es[k] == es[l] {
        CopiesAt(es, k, l);
        TwoCopies(fs, es[k]);
        assert false;
      } else {
        var i :| 0 <= i < |fs| && fs[i] == es[k];
        var j :| 0 <= j < |fs| && fs[j] == es[l];
        if i < j {
          assert fs[i].slide.Contains(p);
        } else {
          assert fs[i].slide.Contains(p);
        }
      }
    }
  }

  /** In a feasible assignment, the tuples the extraction sorts never show a photo
      twice, so neither does the show built from them. */
  lemma ShowRepeatsNoPhoto(numPhotos: nat, slides: seq<Slide>, a: Assignment, es: seq<Entry>)
    requires Feasible(numPhotos, slides, a)
    requires MembersBelow(numPhotos, slides)
    requires multiset(es) == multiset(Select(EntriesOf(slides, a.pos), a.x))
    ensures forall k, l, p: nat :: 0 <= k < l < |es| && es[k].slide.Contains(p) ==> !es[l].slide.Contains(p)
    ensures forall k, l, p: nat :: 0 <= k < l < |es| && ShownSlides(es)[k].Contains(p) ==> !ShownSlides(es)[l].Contains(p)
  {
    var all := EntriesOf(slides, a.pos);
    PhotoUsedOnceIffDisjoint(numPhotos, slides, a.x);
    assert UsedEntriesDisjoint(all, a.x);
    SelectKeepsDisjoint(all, a.x);
    PermutationKeepsDisjoint(Select(all, a.x), es);
  }
}
