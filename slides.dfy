/** Slides and the enumeration of candidate slides shared by both programs:
    one slide per horizontal photo, then one per unordered pair of vertical
    photos, pairs in `itertools.combinations` order (i < j, lexicographic). */
module Slides {

  /** A slide shows one horizontal photo or two vertical photos; the numbers are
      photo indices (slideshow.py) or photo ids (Projet.py). */
  datatype Slide = Single(photo: nat) | Pair(first: nat, second: nat)
  {
    /** The slide as the source stores it: `[p]` / `(p,)` or `[a, b]` / `(a, b)`. */
    function Members(): (ms: seq<nat>)
      ensures 1 <= |ms| <= 2
    {
      match this
      case Single(p) => [p]
      case Pair(a, b) => [a, b]
    }

    predicate Contains(p: nat)
    {
      p in Members()
    }
  }

  /** Every photo of the slide is below `n`, i.e. indexes a list of n photos. */
  predicate InRange(n: nat, s: Slide)
  {
    match s
    case Single(p) => p < n
    case Pair(a, b) => a < n && b < n
  }

  /** Python's `<` on lists of integers: lexicographic, a proper prefix first. */
  predicate SeqLess(a: seq<nat>, b: seq<nat>)
  {
    if a == [] then b != []
    else if b == [] then false
    else a[0] < b[0] || (a[0] == b[0] && SeqLess(a[1..], b[1..]))
  }

  predicate SlideLess(s: Slide, t: Slide)
  {
    SeqLess(s.Members(), t.Members())
  }

  lemma {:induction false} SeqLessIrreflexive(a: seq<nat>)
    ensures !SeqLess(a, a)
  {
    if a != [] {
      SeqLessIrreflexive(a[1..]);
    }
  }

  lemma {:induction false} SeqLessTransitive(a: seq<nat>, b: seq<nat>, c: seq<nat>)
    requires SeqLess(a, b) && SeqLess(b, c)
    ensures SeqLess(a, c)
  {
    if a != [] && b != [] && c != [] && a[0] == b[0] == c[0] {
      SeqLessTransitive(a[1..], b[1..], c[1..]);
    }
  }

  lemma {:induction false} SeqLessTotal(a: seq<nat>, b: seq<nat>)
    ensures SeqLess(a, b) || a == b || SeqLess(b, a)
  {
    if a != [] && b != [] && a[0] == b[0] {
      SeqLessTotal(a[1..], b[1..]);
      if a[1..] == b[1..] {
        assert a == [a[0]] + a[1..] && b == [b[0]] + b[1..];
      }
    }
  }

  /** Positions, in order, of the photos whose orientation is `o`: the list
      comprehension `[... for i, p in enumerate(photos) if p[0] == o]`. */
  function IndicesOf(orientations: seq<string>, o: string): (r: seq<nat>)
    ensures forall k :: 0 <= k < |r| ==> r[k] < |orientations| && orientations[r[k]] == o
    ensures forall k, l :: 0 <= k < l < |r| ==> r[k] < r[l]
    ensures forall i :: 0 <= i < |orientations| && orientations[i] == o ==> i in r
  {
    if orientations == [] then []
    else
      var n := |orientations| - 1;
      IndicesOf(orientations[..n], o) + (if orientations[n] == o then [n] else [])
  }

  /** One single-photo slide per entry, in order. */
  function Singles(hs: seq<nat>): (r: seq<Slide>)
    ensures |r| == |hs|
    ensures forall k :: 0 <= k < |r| ==> r[k] == Single(hs[k])
  {
    seq(|hs|, k requires 0 <= k < |hs| => Single(hs[k]))
  }

  /** The pairs `(vs[i], vs[j])` for `j` from `i + 1` up: one row of `combinations`. */
  function Row(vs: seq<nat>, i: nat): (r: seq<Slide>)
    requires i < |vs|
    ensures |r| == |vs| - i - 1
    ensures forall k :: 0 <= k < |r| ==> r[k] == Pair(vs[i], vs[i + 1 + k])
  {
    seq(|vs| - i - 1, k requires 0 <= k < |vs| - i - 1 => Pair(vs[i], vs[i + 1 + k]))
  }

  /** The first `i` rows of the pair enumeration. */
  function PairsUpTo(vs: seq<nat>, i: nat): seq<Slide>
    requires i <= |vs|
  {
    if i == 0 then [] else PairsUpTo(vs, i - 1) + Row(vs, i - 1)
  }

  /** `combinations(vs, 2)`, i.e. the nested loops `for i ...: for j in range(i + 1, n)`. */
  function Pairs(vs: seq<nat>): seq<Slide>
  {
    PairsUpTo(vs, |vs|)
  }

  /** The enumeration of the first `i` rows holds i(2n − 1 − i)/2 pairs. */
  lemma {:induction false} PairsUpToCount(vs: seq<nat>, i: nat)
    requires i <= |vs|
    ensures 2 * |PairsUpTo(vs, i)| == i * (2 * |vs| - 1 - i)
  {
    if i > 0 {
      PairsUpToCount(vs, i - 1);
    }
  }

  /** V vertical photos give V(V − 1)/2 pair slides. */
  lemma PairsCount(vs: seq<nat>)
    ensures 2 * |Pairs(vs)| == |vs| * (|vs| - 1)
  {
    PairsUpToCount(vs, |vs|);
  }

  /** Every pair of the first `i` rows is `(vs[a], vs[b])` with `a < b` and `a < i`. */
  lemma {:induction false} PairsUpToShape(vs: seq<nat>, i: nat, k: nat)
    requires i <= |vs|
    requires k < |PairsUpTo(vs, i)|
    ensures exists a, b :: 0 <= a < b < |vs| && a < i && PairsUpTo(vs, i)[k] == Pair(vs[a], vs[b])
  {
    var prefix := PairsUpTo(vs, i - 1);
    if k < |prefix| {
      PairsUpToShape(vs, i - 1, k);
      var a, b :| 0 <= a < b < |vs| && a < i - 1 && prefix[k] == Pair(vs[a], vs[b]);
      assert PairsUpTo(vs, i)[k] == Pair(vs[a], vs[b]);
    } else {
      var j := k - |prefix|;
      assert PairsUpTo(vs, i)[k] == Row(vs, i - 1)[j] == Pair(vs[i - 1], vs[i + j]);
    }
  }

  /** Every candidate pair is `(vs[a], vs[b])` for positions `a < b`. */
  lemma PairsShape(vs: seq<nat>, k: nat)
    requires k < |Pairs(vs)|
    ensures exists a, b :: 0 <= a < b < |vs| && Pairs(vs)[k] == Pair(vs[a], vs[b])
  {
    PairsUpToShape(vs, |vs|, k);
  }

  /** Every unordered pair of positions `a < b` is enumerated. */
  lemma {:induction false} PairsUpToComplete(vs: seq<nat>, i: nat, a: nat, b: nat)
    requires i <= |vs|
    requires a < b < |vs| && a < i
    ensures Pair(vs[a], vs[b]) in PairsUpTo(vs, i)
  {
    if a < i - 1 {
      PairsUpToComplete(vs, i - 1, a, b);
    } else {
      assert Row(vs, a)[b - a - 1] == Pair(vs[a], vs[b]);
    }
  }

  lemma PairsComplete(vs: seq<nat>, a: nat, b: nat)
    requires a < b < |vs|
    ensures Pair(vs[a], vs[b]) in Pairs(vs)
  {
    PairsUpToComplete(vs, |vs|, a, b);
  }

  predicate StrictlyIncreasing(vs: seq<nat>)
  {
    forall k, l :: 0 <= k < l < |vs| ==> vs[k] < vs[l]
  }

  /** Over increasing photo numbers the enumeration is strictly increasing in
      Python's list order, so no pair is generated twice. */
  lemma {:induction false} PairsUpToOrdered(vs: seq<nat>, i: nat)
    requires i <= |vs|
    requires StrictlyIncreasing(vs)
    ensures forall k, l :: 0 <= k < l < |PairsUpTo(vs, i)| ==> SlideLess(PairsUpTo(vs, i)[k], PairsUpTo(vs, i)[l])
  {
    if i > 0 {
      PairsUpToOrdered(vs, i - 1);
      var prefix := PairsUpTo(vs, i - 1);
      var row := Row(vs, i - 1);
      var all := PairsUpTo(vs, i);
      forall k, l | 0 <= k < l < |all|
        ensures SlideLess(all[k], all[l])
      {
        if l < |prefix| {
          assert all[k] == prefix[k] && all[l] == prefix[l];
        } else if k < |prefix| {
          PairsUpToShape(vs, i - 1, k);
          var a, b :| 0 <= a < b < |vs| && a < i - 1 && prefix[k] == Pair(vs[a], vs[b]);
          assert all[k] == Pair(vs[a], vs[b]);
          assert all[l] == row[l - |prefix|];
        } else {
          assert all[k] == row[k - |prefix|] && all[l] == row[l - |prefix|];
          assert vs[i + k - |prefix|] < vs[i + l - |prefix|];
        }
      }
    }
  }

  lemma PairsOrdered(vs: seq<nat>)
    requires StrictlyIncreasing(vs)
    ensures forall k, l :: 0 <= k < l < |Pairs(vs)| ==> SlideLess(Pairs(vs)[k], Pairs(vs)[l])
  {
    PairsUpToOrdered(vs, |vs|);
  }

  /** The entries whose flag is set, in order: `[s[i] for i in range(n) if x[i]]`. */
  function Select<T>(s: seq<T>, x: seq<bool>): (r: seq<T>)
    requires |s| == |x|
    ensures |r| <= |s|
    ensures forall k :: 0 <= k < |r| ==> r[k] in s
  {
    if s == [] then []
    else (if x[0] then [s[0]] else []) + Select(s[1..], x[1..])
  }

  /** An element is selected exactly when some position holding it is flagged. */
  lemma {:induction false} SelectMembership<T>(s: seq<T>, x: seq<bool>, e: T)
    requires |s| == |x|
    ensures e in Select(s, x) <==> exists i :: 0 <= i < |s| && x[i] && s[i] == e
  {
    if s != [] {
      SelectMembership(s[1..], x[1..], e);
      if e in Select(s[1..], x[1..]) {
        var i :| 0 <= i < |s| - 1 && x[1..][i] && s[1..][i] == e;
        assert x[i + 1] && s[i + 1] == e;
      }
      if exists i :: 0 <= i < |s| && x[i] && s[i] == e {
        var i :| 0 <= i < |s| && x[i] && s[i] == e;
        if i > 0 {
          assert x[1..][i - 1] && s[1..][i - 1] == e;
        }
      }
    }
  }
  /** One entry per set flag. */
  lemma {:induction false} SelectCount<T>(s: seq<T>, x: seq<bool>)
    requires |s| == |x|
    ensures |Select(s, x)| == CountTrue(x)
  {
    if s != [] {
      SelectCount(s[1..], x[1..]);
    }
  }

  /** Selecting from a list extended at the end: the last entry is kept iff flagged. */
  lemma {:induction false} SelectAppend<T>(s: seq<T>, x: seq<bool>, e: T, b: bool)
    requires |s| == |x|
    ensures Select(s + [e], x + [b]) == Select(s, x) + (if b then [e] else [])
  {
    if s == [] {
      assert s + [e] == [e] && x + [b] == [b];
    } else {
      assert (s + [e])[1..] == s[1..] + [e];
      assert (x + [b])[1..] == x[1..] + [b];
      SelectAppend(s[1..], x[1..], e, b);
    }
  }

  /** A value occurring at least twice in a sequence sits at two distinct positions. */
  lemma {:induction false} TwoCopies<T>(s: seq<T>, e: T)
    requires multiset(s)[e] >= 2
    ensures exists i, j :: 0 <= i < j < |s| && s[i] == e && s[j] == e
  {
    assert s == [s[0]] + s[1..];
    assert multiset(s) == multiset([s[0]]) + multiset(s[1..]);
    if s[0] == e {
      assert e in multiset(s[1..]);
      var j :| 0 <= j < |s| - 1 && s[1..][j] == e;
      assert s[0] == e && s[j + 1] == e;
    } else {
      TwoCopies(s[1..], e);
      var i, j :| 0 <= i < j < |s| - 1 && s[1..][i] == e && s[1..][j] == e;
      assert s[i + 1] == e && s[j + 1] == e;
    }
  }

  /** A value at two distinct positions occurs at least twice. */
  lemma CopiesAt<T>(s: seq<T>, k: nat, l: nat)
    requires k < l < |s| && s[k] == s[l]
    ensures multiset(s)[s[k]] >= 2
  {
    assert s == s[..l] + s[l..];
    assert s[k] in s[..l] && s[l] == s[l..][0];
    assert multiset(s)[s[k]] == multiset(s[..l])[s[k]] + multiset(s[l..])[s[k]];
  }

  /** The number of set flags: the value of `quicksum` over 0/1 variables. */
  function CountTrue(bs: seq<bool>): nat
  {
    if bs == [] then 0 else (if bs[0] then 1 else 0) + CountTrue(bs[1..])
  }

  lemma {:induction false} CountTrueBound(bs: seq<bool>)
    ensures CountTrue(bs) <= |bs|
    ensures CountTrue(bs) == 0 <==> forall i :: 0 <= i < |bs| ==> !bs[i]
  {
    if bs != [] {
      CountTrueBound(bs[1..]);
      assert forall i :: 1 <= i < |bs| ==> bs[i] == bs[1..][i - 1];
    }
  }

  /** Two distinct set flags make the count at least two. */
  lemma {:induction false} CountTrueTwo(bs: seq<bool>, i: nat, j: nat)
    requires i < |bs| && j < |bs| && i != j && bs[i] && bs[j]
    ensures CountTrue(bs) >= 2
  {
    if i == 0 || j == 0 {
      var k := if i == 0 then j else i;
      assert bs[1..][k - 1];
      CountTrueBound(bs[1..]);
    } else {
      CountTrueTwo(bs[1..], i - 1, j - 1);
    }
  }

  /** A count of at least two comes from two distinct set flags. */
  lemma {:induction false} CountTrueTwoWitness(bs: seq<bool>)
    requires CountTrue(bs) >= 2
    ensures exists i, j :: 0 <= i < j < |bs| && bs[i] && bs[j]
  {
    if !bs[0] {
      CountTrueTwoWitness(bs[1..]);
      var i, j :| 0 <= i < j < |bs| - 1 && bs[1..][i] && bs[1..][j];
      assert bs[i + 1] && bs[j + 1];
    } else {
      CountTrueBound(bs[1..]);
      var j :| 0 <= j < |bs| - 1 && bs[1..][j];
      assert bs[0] && bs[j + 1];
    }
  }

  /** A 0/1 variable's value. */
  function Bit(b: bool): int
  {
    if b then 1 else 0
  }

  // ---------------------------------------------------------------------------
  // The candidate list, from the photos' orientations

  /** The orientation of each photo, in input order; `orientation` reads it off one photo. */
  function Orientations<P>(photos: seq<P>, orientation: P -> string): (os: seq<string>)
    ensures |os| == |photos|
    ensures forall i :: 0 <= i < |photos| ==> os[i] == orientation(photos[i])
  {
    seq(|photos|, i requires 0 <= i < |photos| => orientation(photos[i]))
  }

  /** Horizontal photos as single slides, then every pair i < j of vertical photos. */
  function Candidates(os: seq<string>): seq<Slide>
  {
    Singles(IndicesOf(os, "H")) + Pairs(IndicesOf(os, "V"))
  }

  /** |H| + V(V − 1)/2 candidates. */
  lemma CandidatesCount(os: seq<string>)
    ensures var h := |IndicesOf(os, "H")|;
      var v := |IndicesOf(os, "V")|;
      2 * |Candidates(os)| == 2 * h + v * (v - 1)
  {
    PairsCount(IndicesOf(os, "V"));
  }

  /** A one-photo candidate shows a horizontal photo; a two-photo candidate shows
      two vertical photos, the first earlier in the input than the second. */
  lemma CandidatesShape(os: seq<string>, k: nat)
    requires k < |Candidates(os)|
    ensures var s := Candidates(os)[k];
      match s
      case Single(p) => p < |os| && os[p] == "H"
      case Pair(a, b) => a < b < |os| && os[a] == "V" && os[b] == "V"
  {
    var hs := IndicesOf(os, "H");
    var vs := IndicesOf(os, "V");
    if |hs| <= k {
      PairsShape(vs, k - |hs|);
      var a, b :| 0 <= a < b < |vs| && Pairs(vs)[k - |hs|] == Pair(vs[a], vs[b]);
      assert Candidates(os)[k] == Pair(vs[a], vs[b]);
    }
  }

  /** Every horizontal photo has its single slide, every pair i < j of vertical
      photos its pair slide. */
  lemma CandidatesComplete(os: seq<string>, i: nat, j: nat)
    requires i < |os| && j < |os|
    ensures os[i] == "H" ==> Single(i) in Candidates(os)
    ensures i < j && os[i] == "V" && os[j] == "V" ==> Pair(i, j) in Candidates(os)
  {
    var hs := IndicesOf(os, "H");
    var vs := IndicesOf(os, "V");
    if os[i] == "H" {
      var k :| 0 <= k < |hs| && hs[k] == i;
      assert Candidates(os)[k] == Single(i);
    }
    if i < j && os[i] == "V" && os[j] == "V" {
      var a :| 0 <= a < |vs| && vs[a] == i;
      var b :| 0 <= b < |vs| && vs[b] == j;
      PairsComplete(vs, a, b);
      var k :| 0 <= k < |Pairs(vs)| && Pairs(vs)[k] == Pair(i, j);
      assert Candidates(os)[|hs| + k] == Pair(i, j);
    }
  }

  /** No candidate is generated twice. */
  lemma CandidatesDistinct(os: seq<string>)
    ensures forall k, l :: 0 <= k < l < |Candidates(os)| ==> Candidates(os)[k] != Candidates(os)[l]
  {
    var hs := IndicesOf(os, "H");
    var vs := IndicesOf(os, "V");
    var c := Candidates(os);
    PairsOrdered(vs);
    forall k, l | 0 <= k < l < |c|
      ensures c[k] != c[l]
    {
      if |hs| <= k {
        assert c[k] == Pairs(vs)[k - |hs|] && c[l] == Pairs(vs)[l - |hs|];
        SeqLessIrreflexive(c[k].Members());
      } else if l < |hs| {
        assert hs[k] < hs[l];
      } else {
        PairsShape(vs, l - |hs|);
        assert c[k] == Single(hs[k]) && c[l] == Pairs(vs)[l - |hs|];
      }
    }
  }

  /** Candidates only show photos of the input, so the per-photo constraints over
      `range(len(photos))` cover every photo a candidate can hold. */
  lemma CandidatesMembersBelow(os: seq<string>)
    ensures MembersBelow(|os|, Candidates(os))
  {
    forall k, p: nat | 0 <= k < |Candidates(os)| && Candidates(os)[k].Contains(p)
      ensures p < |os|
    {
      CandidatesShape(os, k);
    }
  }

  // ---------------------------------------------------------------------------
  // Photo-disjointness of a selection

  /** Every slide shows photos among the first `numPhotos`. */
  ghost predicate MembersBelow(numPhotos: nat, slides: seq<Slide>)
  {
    forall s, p: nat :: 0 <= s < |slides| && slides[s].Contains(p) ==> p < numPhotos
  }

  /** No two used slides share a photo. */
  ghost predicate UsedSlidesDisjoint(slides: seq<Slide>, x: seq<bool>)
    requires |x| == |slides|
  {
    forall i, j, p: nat :: 0 <= i < j < |slides| && x[i] && x[j] && slides[i].Contains(p) ==> !slides[j].Contains(p)
  }
}
