/** The second program, Projet.py: `load_data`, and inside `create_model` the
    slide list, the photo-to-slides index behind the per-photo constraints, the
    pairwise interest objective evaluated on a 0/1 selection, and the
    extraction of the selected slides. */
module Projet {
  import opened Text
  import opened Scoring
  import opened Slides

  /** A photo as `load_data` stores it: `(i, orientation, set(tags))`. */
  datatype Record = Record(id: nat, orientation: string, tags: set<Tag>)

  // ---------------------------------------------------------------------------
  // load_data (lines 4-13)

  /** What the k-th call of `f.readline()` returns: line k, or "" past the end. */
  function LineAt(lines: seq<string>, k: nat): string
  {
    if k < |lines| then lines[k] else ""
  }

  /** Lines 9-12 for photo i: the first token is the orientation, every token
      after the second is a tag; the count token is not read at all. A blank
      line (or the end of the file) has no `parts[0]`. */
  function RecordLine(line: string, i: nat): (r: Result<Record>)
    ensures r.Err? <==> Split(line) == []
    ensures r.Err? ==> r.error == IndexError(i + 1)
    ensures r.Ok? ==> r.value.id == i && r.value.orientation == Split(line)[0]
  {
    var parts := Split(line);
    if |parts| == 0 then Err(IndexError(i + 1)) else Ok(Record(i, parts[0], TagSet(PySlice(parts, 2, |parts|))))
  }

  /** The tags of a record are exactly the tokens after the second one. */
  lemma RecordTags(line: string, i: nat, t: Tag)
    requires Split(line) != []
    ensures t in RecordLine(line, i).value.tags <==> exists k :: 2 <= k < |Split(line)| && Split(line)[k] == t
  {
    var parts := Split(line);
    assert RecordLine(line, i).value.tags == TagSet(PySlice(parts, 2, |parts|));
    TagsAfterSecond(parts, t);
  }

  lemma TagsAfterSecond(parts: seq<string>, t: Tag)
    ensures t in TagSet(PySlice(parts, 2, |parts|)) <==> exists k :: 2 <= k < |parts| && parts[k] == t
  {
    if |parts| >= 2 {
      PySliceInRange(parts, 2, |parts|);
      assert forall k :: 2 <= k < |parts| ==> parts[k] == parts[2..][k - 2];
    }
  }

  /** The outcome of reading photo i, from the (i + 1)-th line. */
  function RecordAt(lines: seq<string>, i: nat): Result<Record>
  {
    RecordLine(LineAt(lines, i + 1), i)
  }

  /** Record k of `photos` is what reading photo k gives, for every k. */
  predicate RecordsRead(lines: seq<string>, photos: seq<Record>)
  {
    forall k :: 0 <= k < |photos| ==> RecordAt(lines, k) == Ok(photos[k])
  }

  lemma RecordsReadAppend(lines: seq<string>, photos: seq<Record>, rec: Record)
    requires RecordsRead(lines, photos) && RecordAt(lines, |photos|) == Ok(rec)
    ensures RecordsRead(lines, photos + [rec])
  {
    forall k | 0 <= k < |photos| + 1
      ensures RecordAt(lines, k) == Ok((photos + [rec])[k])
    {
      if k < |photos| {
        assert (photos + [rec])[k] == photos[k];
      }
    }
  }

  /** `load_data` over the lines of the file. */
  method LoadData(lines: seq<string>) returns (r: Result<seq<Record>>)
    ensures ParseIntLine(LineAt(lines, 0)).None? ==> r == Err(ValueError(0))
    ensures r.Ok? ==>
      && ParseIntLine(LineAt(lines, 0)).Some?
      && var n := ParseIntLine(LineAt(lines, 0)).value;
      && |r.value| == (if n < 0 then 0 else n)
      && RecordsRead(lines, r.value)
    ensures r.Err? && ParseIntLine(LineAt(lines, 0)).Some? ==>
      exists i :: 0 <= i < ParseIntLine(LineAt(lines, 0)).value
        && RecordAt(lines, i) == Err(r.error)
        && (forall k :: 0 <= k < i ==> RecordAt(lines, k).Ok?)
  {
    var header := ParseIntLine(LineAt(lines, 0));
    if header.None? {
      return Err(ValueError(0));
    }
    var n := header.value;
    var photos: seq<Record> := [];
    var i := 0;
    while i < n
      invariant 0 <= i <= (if n < 0 then 0 else n)
      invariant |photos| == i
      invariant RecordsRead(lines, photos)
    {
      var rec := RecordAt(lines, i);
      if rec.Err? {
        assert 0 <= i < n && RecordAt(lines, i) == Err(rec.error);
        return Err(rec.error);
      }
      RecordsReadAppend(lines, photos, rec.value);
      photos := photos + [rec.value];
      i := i + 1;
    }
    assert |photos| == (if n < 0 then 0 else n);
    return Ok(photos);
  }

  /** Photo i carries id i. */
  predicate IdsAreIndices(photos: seq<Record>)
  {
    forall i :: 0 <= i < |photos| ==> photos[i].id == i
  }

  /** The records `load_data` returns are numbered by their position. */
  lemma LoadDataIds(lines: seq<string>, photos: seq<Record>)
    requires forall i :: 0 <= i < |photos| ==> RecordAt(lines, i) == Ok(photos[i])
    ensures IdsAreIndices(photos)
  {
    forall i | 0 <= i < |photos|
      ensures photos[i].id == i
    {
      assert RecordAt(lines, i) == Ok(photos[i]);
    }
  }

  /** A line written as orientation, count and tags reads back as that orientation
      and the set of those tags, whatever the count says. */
  lemma RecordOfWrittenLine(o: string, count: string, tags: seq<string>, i: nat)
    requires IsToken(o) && IsToken(count)
    requires forall k :: 0 <= k < |tags| ==> IsToken(tags[k])
    ensures RecordLine(Join([o, count] + tags, " ") + "\n", i) == Ok(Record(i, o, TagSet(tags)))
  {
    var parts := [o, count] + tags;
    WrittenTokens(o, count, tags);
    SplitJoin(parts);
    RecordOfTokens(Join(parts, " ") + "\n", parts, i);
    assert parts[0] == o && parts[2..] == tags;
  }

  lemma WrittenTokens(o: string, count: string, tags: seq<string>)
    requires IsToken(o) && IsToken(count)
    requires forall k :: 0 <= k < |tags| ==> IsToken(tags[k])
    ensures forall k :: 0 <= k < |[o, count] + tags| ==> IsToken(([o, count] + tags)[k])
  {
    var parts := [o, count] + tags;
    forall k | 0 <= k < |parts|
      ensures IsToken(parts[k])
    {
      if k >= 2 {
        assert parts[k] == tags[k - 2];
      }
    }
  }

  lemma RecordOfTokens(line: string, parts: seq<string>, i: nat)
    requires Split(line) == parts && |parts| >= 2
    ensures RecordLine(line, i) == Ok(Record(i, parts[0], TagSet(parts[2..])))
  {
    PySliceInRange(parts, 2, |parts|);
    assert PySlice(parts, 2, |parts|) == parts[2..];
    assert RecordLine(line, i) == Ok(Record(i, parts[0], TagSet(PySlice(parts, 2, |parts|))));
  }

  // ---------------------------------------------------------------------------
  // The slide list (lines 25-36)

  function RecordOrientation(r: Record): string
  {
    r.orientation
  }

  /** The ids, in order, of the photos with orientation `o` (lines 26-27). */
  function IdsWith(photos: seq<Record>, o: string): (r: seq<nat>)
    ensures |r| <= |photos|
  {
    if photos == [] then []
    else
      var n := |photos| - 1;
      IdsWith(photos[..n], o) + (if photos[n].orientation == o then [photos[n].id] else [])
  }

  /** With ids equal to positions, filtering by orientation gives the positions
      of that orientation. */
  lemma {:induction false} IdsWithIndices(photos: seq<Record>, o: string)
    requires IdsAreIndices(photos)
    ensures IdsWith(photos, o) == IndicesOf(Orientations(photos, RecordOrientation), o)
  {
    if photos != [] {
      var n := |photos| - 1;
      assert IdsAreIndices(photos[..n]);
      IdsWithIndices(photos[..n], o);
      assert Orientations(photos, RecordOrientation)[..n] == Orientations(photos[..n], RecordOrientation);
    }
  }

  /** A pair slide that shows the same photo twice. */
  predicate SelfPair(s: Slide)
  {
    s.Pair? && s.first == s.second
  }

  /** The pairs kept by the test `v1[0] != v2[0]` (line 35). */
  function DropSelfPairs(ss: seq<Slide>): (r: seq<Slide>)
    ensures |r| <= |ss|
  {
    if ss == [] then []
    else
      var n := |ss| - 1;
      DropSelfPairs(ss[..n]) + (if SelfPair(ss[n]) then [] else [ss[n]])
  }

  /** The kept slides are exactly the slides of the input that are not self-pairs. */
  lemma {:induction false} DropSelfPairsMembership(ss: seq<Slide>, s: Slide)
    ensures s in DropSelfPairs(ss) <==> s in ss && !SelfPair(s)
  {
    if ss != [] {
      var n := |ss| - 1;
      DropSelfPairsMembership(ss[..n], s);
      assert ss == ss[..n] + [ss[n]];
    }
  }

  lemma DropSelfPairsAppend(ss: seq<Slide>, s: Slide)
    ensures DropSelfPairs(ss + [s]) == DropSelfPairs(ss) + (if SelfPair(s) then [] else [s])
  {
    assert (ss + [s])[..|ss|] == ss;
  }

  lemma {:induction false} DropSelfPairsConcat(a: seq<Slide>, b: seq<Slide>)
    ensures DropSelfPairs(a + b) == DropSelfPairs(a) + DropSelfPairs(b)
  {
    if b == [] {
      assert a + b == a;
    } else {
      var n := |b| - 1;
      var ab := a + b;
      var last := if SelfPair(b[n]) then [] else [b[n]];
      assert ab[..|ab| - 1] == a + b[..n] && ab[|ab| - 1] == b[n];
      DropSelfPairsConcat(a, b[..n]);
      calc {
        DropSelfPairs(ab);
        DropSelfPairs(a + b[..n]) + last;
        (DropSelfPairs(a) + DropSelfPairs(b[..n])) + last;
        DropSelfPairs(a) + (DropSelfPairs(b[..n]) + last);
        DropSelfPairs(a) + DropSelfPairs(b);
      }
    }
  }

  /** Nothing is dropped when no pair repeats a photo. */
  lemma {:induction false} DropSelfPairsNone(ss: seq<Slide>)
    requires forall k :: 0 <= k < |ss| ==> !SelfPair(ss[k])
    ensures DropSelfPairs(ss) == ss
  {
    if ss != [] {
      var n := |ss| - 1;
      DropSelfPairsNone(ss[..n]);
      assert ss[..n] + [ss[n]] == ss;
    }
  }

  /** The slides `create_model` builds: `(id,)` per horizontal photo, then
      `(v1, v2)` per pair of `combinations(vertical_photos, 2)` with distinct ids. */
  function SlideList(photos: seq<Record>): seq<Slide>
  {
    Singles(IdsWith(photos, "H")) + DropSelfPairs(Pairs(IdsWith(photos, "V")))
  }

  /** Lines 30-36: the list comprehension for the singles, then the loop over
      `combinations`. */
  method CreateSlides(photos: seq<Record>) returns (slides: seq<Slide>)
    ensures slides == SlideList(photos)
  {
    var vs := IdsWith(photos, "V");
    slides := Singles(IdsWith(photos, "H"));
    ghost var singles := slides;
    for i := 0 to |vs|
      invariant slides == singles + DropSelfPairs(PairsUpTo(vs, i))
    {
      DropSelfPairsConcat(PairsUpTo(vs, i), Row(vs, i));
      slides := AppendRow(vs, i, slides);
    }
  }

  /** The pairs of `combinations` whose first photo is `vs[i]`, kept when the
      test on line 35 passes. */
  method AppendRow(vs: seq<nat>, i: nat, slides0: seq<Slide>) returns (slides: seq<Slide>)
    requires i < |vs|
    ensures slides == slides0 + DropSelfPairs(Row(vs, i))
  {
    slides := slides0;
    for j := i + 1 to |vs|
      invariant slides == slides0 + DropSelfPairs(Row(vs, i)[..j - i - 1])
    {
      ghost var kept := DropSelfPairs(Row(vs, i)[..j - i - 1]);
      RowStep(vs, i, j);
      if vs[i] != vs[j] {
        assert (slides0 + kept) + [Pair(vs[i], vs[j])] == slides0 + (kept + [Pair(vs[i], vs[j])]);
        slides := slides + [Pair(vs[i], vs[j])];
      }
    }
    assert Row(vs, i)[..|vs| - i - 1] == Row(vs, i);
  }

  /** One more pair of row i passes through the test of line 35 or not. */
  lemma RowStep(vs: seq<nat>, i: nat, j: nat)
    requires i < j < |vs|
    ensures DropSelfPairs(Row(vs, i)[..j - i]) ==
      DropSelfPairs(Row(vs, i)[..j - i - 1]) + (if vs[i] == vs[j] then [] else [Pair(vs[i], vs[j])])
  {
    var row := Row(vs, i);
    assert row[..j - i] == row[..j - i - 1] + [Pair(vs[i], vs[j])];
    DropSelfPairsAppend(row[..j - i - 1], Pair(vs[i], vs[j]));
  }

  /** For the records `load_data` returns, no pair is dropped and the list is the
      one `slideshow.py` builds: singles of the horizontal photos, then every
      pair i < j of vertical photos. */
  lemma SlideListIsCandidates(photos: seq<Record>)
    requires IdsAreIndices(photos)
    ensures SlideList(photos) == Candidates(Orientations(photos, RecordOrientation))
  {
    var os := Orientations(photos, RecordOrientation);
    IdsWithIndices(photos, "H");
    IdsWithIndices(photos, "V");
    var vs := IndicesOf(os, "V");
    forall k | 0 <= k < |Pairs(vs)|
      ensures !SelfPair(Pairs(vs)[k])
    {
      PairsShape(vs, k);
    }
    DropSelfPairsNone(Pairs(vs));
  }

  // ---------------------------------------------------------------------------
  // photo_usage (lines 42-47)

  /** Slide index `i` once per member of `ms` equal to `p`. */
  function Hits(ms: seq<nat>, p: nat, i: nat): (r: seq<nat>)
    ensures |r| <= |ms|
  {
    if ms == [] then []
    else
      var n := |ms| - 1;
      Hits(ms[..n], p, i) + (if ms[n] == p then [i] else [])
  }

  /** Slide i is listed for p exactly when p is one of its photos. */
  lemma {:induction false} HitsMembership(ms: seq<nat>, p: nat, i: nat)
    ensures Hits(ms, p, i) != [] <==> p in ms
    ensures forall k :: 0 <= k < |Hits(ms, p, i)| ==> Hits(ms, p, i)[k] == i
  {
    if ms != [] {
      var n := |ms| - 1;
      HitsMembership(ms[..n], p, i);
      assert ms == ms[..n] + [ms[n]];
    }
  }

  /** The list `photo_usage[p]` holds after the loop ([] when p has no key). */
  function Usage(slides: seq<Slide>, p: nat): seq<nat>
  {
    if slides == [] then []
    else
      var n := |slides| - 1;
      Usage(slides[..n], p) + Hits(slides[n].Members(), p, n)
  }

  /** `photo_usage.get(p, [])`. */
  function Lookup(usage: map<nat, seq<nat>>, p: nat): seq<nat>
  {
    if p in usage then usage[p] else []
  }

  /** Lines 42-47: the dictionary filled slide by slide. */
  method PhotoUsage(slides: seq<Slide>) returns (usage: map<nat, seq<nat>>)
    ensures forall p :: p in usage <==> Usage(slides, p) != []
    ensures forall p :: Lookup(usage, p) == Usage(slides, p)
  {
    usage := map[];
    for i := 0 to |slides|
      invariant forall p :: p in usage <==> Lookup(usage, p) != []
      invariant forall p :: Lookup(usage, p) == Usage(slides[..i], p)
    {
      UsageStep(slides, i);
      usage := AddSlide(usage, slides[i].Members(), i);
    }
    assert slides[..|slides|] == slides;
  }

  /** The inner loop of lines 44-47, over the photos of slide i. */
  method AddSlide(usage0: map<nat, seq<nat>>, ms: seq<nat>, i: nat) returns (usage: map<nat, seq<nat>>)
    requires forall p :: p in usage0 <==> Lookup(usage0, p) != []
    ensures forall p :: p in usage <==> Lookup(usage, p) != []
    ensures forall p :: Lookup(usage, p) == Lookup(usage0, p) + Hits(ms, p, i)
  {
    usage := usage0;
    for k := 0 to |ms|
      invariant forall p :: p in usage <==> Lookup(usage, p) != []
      invariant forall p :: Lookup(usage, p) == Lookup(usage0, p) + Hits(ms[..k], p, i)
    {
      ghost var before := usage;
      usage := AppendIndex(usage, ms[k], i);
      AppendKeys(before, ms[k], i, usage);
      AppendValues(usage0, before, ms, k, i, usage);
    }
    assert ms[..|ms|] == ms;
  }

  /** Lines 45-47 for one photo: create the empty list if the photo has no key
      yet, then append slide i to it. */
  method AppendIndex(usage0: map<nat, seq<nat>>, photo: nat, i: nat) returns (usage: map<nat, seq<nat>>)
    ensures usage == usage0[photo := Lookup(usage0, photo) + [i]]
  {
    usage := usage0;
    if photo !in usage {
      usage := usage[photo := []];
    }
    usage := usage[photo := usage[photo] + [i]];
  }

  /** Every key of the index keeps a non-empty list. */
  lemma AppendKeys(before: map<nat, seq<nat>>, q: nat, i: nat, after: map<nat, seq<nat>>)
    requires forall p :: p in before <==> Lookup(before, p) != []
    requires after == before[q := Lookup(before, q) + [i]]
    ensures forall p :: p in after <==> Lookup(after, p) != []
  {
  }

  /** Appending slide i to the list of `ms[k]` extends the index by that one hit. */
  lemma AppendValues(usage0: map<nat, seq<nat>>, before: map<nat, seq<nat>>, ms: seq<nat>, k: nat, i: nat,
                     after: map<nat, seq<nat>>)
    requires k < |ms|
    requires forall p :: Lookup(before, p) == Lookup(usage0, p) + Hits(ms[..k], p, i)
    requires after == before[ms[k] := Lookup(before, ms[k]) + [i]]
    ensures forall p :: Lookup(after, p) == Lookup(usage0, p) + Hits(ms[..k + 1], p, i)
  {
    forall p
      ensures Lookup(after, p) == Lookup(usage0, p) + Hits(ms[..k + 1], p, i)
    {
      AppendValue(Lookup(usage0, p), Lookup(before, p), Lookup(after, p), ms, k, p, i);
    }
  }

  /** One photo's list after appending slide i for `ms[k]`. */
  lemma AppendValue(old0: seq<nat>, before: seq<nat>, after: seq<nat>, ms: seq<nat>, k: nat, p: nat, i: nat)
    requires k < |ms|
    requires before == old0 + Hits(ms[..k], p, i)
    requires after == if p == ms[k] then before + [i] else before
    ensures after == old0 + Hits(ms[..k + 1], p, i)
  {
    HitsAppend(ms, k, p, i);
    var h := Hits(ms[..k], p, i);
    if p == ms[k] {
      assert (old0 + h) + [i] == old0 + (h + [i]);
    } else {
      assert h + [] == h;
    }
  }

  lemma HitsAppend(ms: seq<nat>, k: nat, p: nat, i: nat)
    requires k < |ms|
    ensures Hits(ms[..k + 1], p, i) == Hits(ms[..k], p, i) + (if ms[k] == p then [i] else [])
  {
    assert ms[..k + 1][..k] == ms[..k];
  }

  lemma UsageStep(slides: seq<Slide>, i: nat)
    requires i < |slides|
    ensures forall p :: Usage(slides[..i + 1], p) == Usage(slides[..i], p) + Hits(slides[i].Members(), p, i)
  {
    assert slides[..i + 1][..i] == slides[..i];
  }

  /** Every listed index is a slide index. */
  lemma {:induction false} UsageBound(slides: seq<Slide>, p: nat)
    ensures forall k :: 0 <= k < |Usage(slides, p)| ==> Usage(slides, p)[k] < |slides|
  {
    if slides != [] {
      var n := |slides| - 1;
      UsageBound(slides[..n], p);
      HitsMembership(slides[n].Members(), p, n);
    }
  }

  /** `photo_usage[p]` holds slide i exactly when slide i shows p. */
  lemma {:induction false} UsageMembership(slides: seq<Slide>, p: nat, i: nat)
    ensures i in Usage(slides, p) <==> i < |slides| && slides[i].Contains(p)
  {
    if slides != [] {
      var n := |slides| - 1;
      UsageMembership(slides[..n], p, i);
      var u := Usage(slides[..n], p);
      var h := Hits(slides[n].Members(), p, n);
      assert Usage(slides, p) == u + h;
      HitsMembership(slides[n].Members(), p, n);
      if h != [] {
        assert h[0] == n;
      }
      assert i in h <==> i == n && slides[n].Contains(p);
      assert i < n ==> slides[..n][i] == slides[i];
    }
  }

  /** Without self-pairs every slide index appears at most once, in increasing order. */
  lemma {:induction false} UsageIncreasing(slides: seq<Slide>, p: nat)
    requires forall k :: 0 <= k < |slides| ==> !SelfPair(slides[k])
    ensures StrictlyIncreasing(Usage(slides, p))
  {
    if slides != [] {
      var n := |slides| - 1;
      assert forall k :: 0 <= k < n ==> !SelfPair(slides[..n][k]);
      UsageIncreasing(slides[..n], p);
      UsageBound(slides[..n], p);
      HitsMembership(slides[n].Members(), p, n);
      HitsAtMostOne(slides[n], p, n);
      IncreasingAppend(Usage(slides[..n], p), Hits(slides[n].Members(), p, n), n);
    }
  }

  /** Appending at most one index above every listed one keeps a list strictly increasing. */
  lemma IncreasingAppend(us: seq<nat>, hs: seq<nat>, n: nat)
    requires StrictlyIncreasing(us)
    requires forall k :: 0 <= k < |us| ==> us[k] < n
    requires |hs| <= 1 && forall k :: 0 <= k < |hs| ==> hs[k] == n
    ensures StrictlyIncreasing(us + hs)
  {
  }

  /** A slide that does not repeat a photo lists its index at most once for it. */
  lemma HitsAtMostOne(s: Slide, p: nat, i: nat)
    requires !SelfPair(s)
    ensures |Hits(s.Members(), p, i)| <= 1
  {
    match s
    case Single(a) =>
    case Pair(a, b) =>
      assert [a, b][..1] == [a];
      assert [a][..0] == [];
  }

  /** `quicksum(x[i] for i in slide_indices)` for a 0/1 selection. */
  function SumAt(x: seq<bool>, indices: seq<nat>): nat
    requires forall k :: 0 <= k < |indices| ==> indices[k] < |x|
  {
    if indices == [] then 0 else (if x[indices[0]] then 1 else 0) + SumAt(x, indices[1..])
  }

  /** The sum is at most one exactly when no two listed slides are both selected. */
  lemma {:induction false} SumAtAtMostOne(x: seq<bool>, indices: seq<nat>)
    requires forall k :: 0 <= k < |indices| ==> indices[k] < |x|
    ensures SumAt(x, indices) <= 1 <==>
      forall k, l :: 0 <= k < l < |indices| ==> !(x[indices[k]] && x[indices[l]])
  {
    if indices != [] {
      var rest := indices[1..];
      SumAtAtMostOne(x, rest);
      SumAtZero(x, rest);
      if SumAt(x, indices) <= 1 {
        forall k, l | 0 <= k < l < |indices|
          ensures !(x[indices[k]] && x[indices[l]])
        {
          if k > 0 {
            assert indices[k] == rest[k - 1] && indices[l] == rest[l - 1];
          } else {
            assert indices[l] == rest[l - 1];
          }
        }
      } else if x[indices[0]] {
        var l :| 0 <= l < |rest| && x[rest[l]];
        assert x[indices[0]] && x[indices[l + 1]];
      } else {
        var k, l :| 0 <= k < l < |rest| && x[rest[k]] && x[rest[l]];
        assert x[indices[k + 1]] && x[indices[l + 1]];
      }
    }
  }

  /** The sum is zero exactly when none of the listed slides is selected. */
  lemma {:induction false} SumAtZero(x: seq<bool>, indices: seq<nat>)
    requires forall k :: 0 <= k < |indices| ==> indices[k] < |x|
    ensures SumAt(x, indices) == 0 <==> forall k :: 0 <= k < |indices| ==> !x[indices[k]]
  {
    if indices != [] {
      SumAtZero(x, indices[1..]);
      assert forall k :: 1 <= k < |indices| ==> indices[k] == indices[1..][k - 1];
    }
  }

  /** Lines 49-50: for every photo with a key, at most one of its slides is selected. */
  predicate UsageConstraints(usage: map<nat, seq<nat>>, x: seq<bool>)
  {
    forall p :: p in usage ==>
      (forall k :: 0 <= k < |usage[p]| ==> usage[p][k] < |x|) && SumAt(x, usage[p]) <= 1
  }

  /** For one photo: its list names slides only, and its sum is at most one
      exactly when no two selected slides both show it. */
  lemma PhotoSumIffDisjoint(slides: seq<Slide>, x: seq<bool>, p: nat)
    requires |x| == |slides|
    requires forall k :: 0 <= k < |slides| ==> !SelfPair(slides[k])
    ensures forall k :: 0 <= k < |Usage(slides, p)| ==> Usage(slides, p)[k] < |x|
    ensures SumAt(x, Usage(slides, p)) <= 1 <==>
      forall i, j :: 0 <= i < j < |slides| && x[i] && x[j] && slides[i].Contains(p) ==> !slides[j].Contains(p)
  {
    var u := Usage(slides, p);
    UsageBound(slides, p);
    SumAtAtMostOne(x, u);
    if SumAt(x, u) <= 1 {
      forall i, j | 0 <= i < j < |slides| && x[i] && x[j] && slides[i].Contains(p)
        ensures !slides[j].Contains(p)
      {
        if slides[j].Contains(p) {
          UsageMembership(slides, p, i);
          UsageMembership(slides, p, j);
          assert false;
        }
      }
    } else {
      var k, l :| 0 <= k < l < |u| && x[u[k]] && x[u[l]];
      UsageIncreasing(slides, p);
      UsageMembership(slides, p, u[k]);
      UsageMembership(slides, p, u[l]);
      assert u[k] < u[l] && slides[u[k]].Contains(p) && slides[u[l]].Contains(p);
    }
  }

  /** With the index built from the slide list, the per-photo constraints hold
      exactly when no two selected slides share a photo. */
  lemma UsageConstraintsIffDisjoint(slides: seq<Slide>, x: seq<bool>, usage: map<nat, seq<nat>>)
    requires |x| == |slides|
    requires forall k :: 0 <= k < |slides| ==> !SelfPair(slides[k])
    requires forall p :: p in usage <==> Usage(slides, p) != []
    requires forall p :: Lookup(usage, p) == Usage(slides, p)
    ensures UsageConstraints(usage, x) <==> UsedSlidesDisjoint(slides, x)
  {
    if UsageConstraints(usage, x) {
      forall i, j, p: nat | 0 <= i < j < |slides| && x[i] && x[j] && slides[i].Contains(p)
        ensures !slides[j].Contains(p)
      {
        UsageMembership(slides, p, i);
        assert p in usage && usage[p] == Lookup(usage, p);
        PhotoSumIffDisjoint(slides, x, p);
      }
    }
    if UsedSlidesDisjoint(slides, x) {
      forall p | p in usage
        ensures (forall k :: 0 <= k < |usage[p]| ==> usage[p][k] < |x|) && SumAt(x, usage[p]) <= 1
      {
        assert usage[p] == Lookup(usage, p);
        PhotoSumIffDisjoint(slides, x, p);
      }
    }
  }

  // ---------------------------------------------------------------------------
  // The objective (lines 52-61)

  /** `set().union(*(photos[p][2] for p in slide))`: the tags of the slide's photos. */
  function SlideTagSet(photos: seq<Record>, s: Slide): (r: set<Tag>)
    requires InRange(|photos|, s)
  {
    match s
    case Single(p) => photos[p].tags
    case Pair(a, b) => photos[a].tags + photos[b].tags
  }

  /** A slide's tag set is the union of its photos' tag sets. */
  lemma SlideTagSetUnion(photos: seq<Record>, s: Slide, t: Tag)
    requires InRange(|photos|, s)
    ensures t in SlideTagSet(photos, s) <==> exists p: nat :: s.Contains(p) && p < |photos| && t in photos[p].tags
  {
  }

  /** The tag set of every slide, in slide order. */
  function SlideTagSets(photos: seq<Record>, slides: seq<Slide>): (ts: seq<set<Tag>>)
    requires forall k :: 0 <= k < |slides| ==> InRange(|photos|, slides[k])
    ensures |ts| == |slides|
    ensures forall k :: 0 <= k < |slides| ==> ts[k] == SlideTagSet(photos, slides[k])
  {
    seq(|slides|, k requires 0 <= k < |slides| => SlideTagSet(photos, slides[k]))
  }

  /** Σ_k score(t, us[k]) · b · xs[k]: one row of the double sum. */
  function Star(t: set<Tag>, b: bool, us: seq<set<Tag>>, xs: seq<bool>): nat
    requires |us| == |xs|
  {
    if us == [] then 0
    else (if b && xs[0] then Interest(t, us[0]) else 0) + Star(t, b, us[1..], xs[1..])
  }

  /** Σ_{i<j} score(ts[i], ts[j]) · x[i] · x[j]: the value of `total_interest`
      under the selection x. */
  function PairSum(ts: seq<set<Tag>>, x: seq<bool>): nat
    requires |ts| == |x|
  {
    if ts == [] then 0 else Star(ts[0], x[0], ts[1..], x[1..]) + PairSum(ts[1..], x[1..])
  }

  /** Σ_k score(t, us[k]). */
  function ScoreAgainst(t: set<Tag>, us: seq<set<Tag>>): nat
  {
    if us == [] then 0 else Interest(t, us[0]) + ScoreAgainst(t, us[1..])
  }

  /** The interest of a list of slides: every unordered pair scored once. */
  function AllPairs(ts: seq<set<Tag>>): nat
  {
    if ts == [] then 0 else ScoreAgainst(ts[0], ts[1..]) + AllPairs(ts[1..])
  }

  lemma PairSumStep(ts: seq<set<Tag>>, x: seq<bool>, i: nat)
    requires |ts| == |x| && i < |ts|
    ensures PairSum(ts[i..], x[i..]) == Star(ts[i], x[i], ts[i + 1..], x[i + 1..]) + PairSum(ts[i + 1..], x[i + 1..])
  {
    assert ts[i..][1..] == ts[i + 1..] && x[i..][1..] == x[i + 1..];
  }

  lemma StarStep(t: set<Tag>, b: bool, us: seq<set<Tag>>, xs: seq<bool>, j: nat)
    requires |us| == |xs| && j < |us|
    ensures Star(t, b, us[j..], xs[j..]) == (if b && xs[j] then Interest(t, us[j]) else 0) + Star(t, b, us[j + 1..], xs[j + 1..])
  {
    assert us[j..][1..] == us[j + 1..] && xs[j..][1..] == xs[j + 1..];
  }

  /** Lines 53-61: the nested loops over i < j, evaluated at the selection x. */
  method TotalInterest(photos: seq<Record>, slides: seq<Slide>, x: seq<bool>) returns (total: int)
    requires |x| == |slides|
    requires forall k :: 0 <= k < |slides| ==> InRange(|photos|, slides[k])
    ensures total == PairSum(SlideTagSets(photos, slides), x)
  {
    ghost var ts := SlideTagSets(photos, slides);
    total := 0;
    for i := 0 to |slides|
      invariant total + PairSum(ts[i..], x[i..]) == PairSum(ts, x)
    {
      PairSumStep(ts, x, i);
      var row := RowInterest(photos, slides, x, i);
      total := total + row;
    }
  }

  /** The inner loop of lines 56-60 for one i: slide i scored against every
      later slide, each term counted when both slides are selected. */
  method RowInterest(photos: seq<Record>, slides: seq<Slide>, x: seq<bool>, i: nat) returns (row: int)
    requires |x| == |slides| && i < |slides|
    requires forall k :: 0 <= k < |slides| ==> InRange(|photos|, slides[k])
    ensures var ts := SlideTagSets(photos, slides);
      row == Star(ts[i], x[i], ts[i + 1..], x[i + 1..])
  {
    ghost var ts := SlideTagSets(photos, slides);
    row := 0;
    for j := i + 1 to |slides|
      invariant row + Star(ts[i], x[i], ts[j..], x[j..]) == Star(ts[i], x[i], ts[i + 1..], x[i + 1..])
    {
      StarStep(ts[i], x[i], ts, x, j);
      var tags1 := SlideTagSet(photos, slides[i]);
      var tags2 := SlideTagSet(photos, slides[j]);
      var score := Interest(tags1, tags2);
      BothSelected(score, x[i], x[j]);
      row := row + score * Bit(x[i]) * Bit(x[j]);
    }
  }

  /** `score * x[i] * x[j]` on 0/1 values: the score when both slides are selected, else 0. */
  lemma BothSelected(score: nat, b1: bool, b2: bool)
    ensures score * Bit(b1) * Bit(b2) == if b1 && b2 then score else 0
  {
  }

  /** A row whose own slide is not selected contributes nothing. */
  lemma {:induction false} StarUnselected(t: set<Tag>, us: seq<set<Tag>>, xs: seq<bool>)
    requires |us| == |xs|
    ensures Star(t, false, us, xs) == 0
  {
    if us != [] {
      StarUnselected(t, us[1..], xs[1..]);
    }
  }

  /** A selected slide's row scores it against exactly the selected slides after it. */
  lemma {:induction false} StarSelected(t: set<Tag>, us: seq<set<Tag>>, xs: seq<bool>)
    requires |us| == |xs|
    ensures Star(t, true, us, xs) == ScoreAgainst(t, Select(us, xs))
  {
    if us != [] {
      StarSelected(t, us[1..], xs[1..]);
      if xs[0] {
        assert Select(us, xs) == [us[0]] + Select(us[1..], xs[1..]);
        assert Select(us, xs)[1..] == Select(us[1..], xs[1..]);
      } else {
        assert Select(us, xs) == Select(us[1..], xs[1..]);
      }
    }
  }

  /** The objective under x is the interest of the selected slides alone, each
      unordered pair of them counted once. */
  lemma {:induction false} PairSumSelected(ts: seq<set<Tag>>, x: seq<bool>)
    requires |ts| == |x|
    ensures PairSum(ts, x) == AllPairs(Select(ts, x))
  {
    if ts != [] {
      PairSumSelected(ts[1..], x[1..]);
      if x[0] {
        StarSelected(ts[0], ts[1..], x[1..]);
        assert Select(ts, x) == [ts[0]] + Select(ts[1..], x[1..]);
        assert Select(ts, x)[1..] == Select(ts[1..], x[1..]);
      } else {
        StarUnselected(ts[0], ts[1..], x[1..]);
        assert Select(ts, x) == Select(ts[1..], x[1..]);
      }
    }
  }

  /** The slide list of `load_data`'s records only names existing photos, so the
      lookups `photos[p]` on lines 57-58 are in range. */
  lemma SlideListInRange(photos: seq<Record>, k: nat)
    requires IdsAreIndices(photos)
    requires k < |SlideList(photos)|
    ensures InRange(|photos|, SlideList(photos)[k])
  {
    SlideListIsCandidates(photos);
    CandidatesShape(Orientations(photos, RecordOrientation), k);
  }
}
