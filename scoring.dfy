/** The interest score between two slides: the least of the number of tags
    they share, the number only the first has and the number only the second
    has. Both programs define it; this module states and proves its properties
    once, on tag sets. */
module Scoring {

  type Tag = string

  /** `set(tags)`: the tags of a list, duplicates and order forgotten. */
  function TagSet(ts: seq<Tag>): set<Tag>
  {
    set t | t in ts
  }

  /** A list has at least as many entries as distinct tags. */
  lemma {:induction false} TagSetSize(ts: seq<Tag>)
    ensures |TagSet(ts)| <= |ts|
  {
    if ts != [] {
      var n := |ts| - 1;
      TagSetSize(ts[..n]);
      assert ts == ts[..n] + [ts[n]];
      assert TagSet(ts) == TagSet(ts[..n]) + {ts[n]};
    }
  }

  /** `set(a + b) == set(a) | set(b)`. */
  lemma TagSetConcat(a: seq<Tag>, b: seq<Tag>)
    ensures TagSet(a + b) == TagSet(a) + TagSet(b)
  {
    assert forall t :: t in a + b <==> t in a || t in b;
  }

  function Min3(a: nat, b: nat, c: nat): nat
  {
    if a <= b && a <= c then a else if b <= c then b else c
  }

  /** min(|A ∩ B|, |A − B|, |B − A|). */
  function Interest(a: set<Tag>, b: set<Tag>): nat
  {
    Min3(|a * b|, |a - b|, |b - a|)
  }

  /** The score does not depend on which slide comes first. */
  lemma InterestSymmetric(a: set<Tag>, b: set<Tag>)
    ensures Interest(a, b) == Interest(b, a)
  {
    assert a * b == b * a;
  }

  /** The score is bounded by each of the three counts it is the minimum of. */
  lemma InterestBounds(a: set<Tag>, b: set<Tag>)
    ensures Interest(a, b) <= |a * b|
    ensures Interest(a, b) <= |a - b|
    ensures Interest(a, b) <= |b - a|
    ensures Interest(a, b) == |a * b| || Interest(a, b) == |a - b| || Interest(a, b) == |b - a|
  {
  }

  /** Every tag of `a` is either shared with `b` or only in `a`. */
  lemma SplitCardinality(a: set<Tag>, b: set<Tag>)
    ensures |a| == |a * b| + |a - b|
  {
    assert a == (a * b) + (a - b);
    assert (a * b) !! (a - b);
  }

  /** A score of k needs at least 2k tags on each side: k shared and k of its own. */
  lemma InterestAtMostHalf(a: set<Tag>, b: set<Tag>)
    ensures 2 * Interest(a, b) <= |a|
    ensures 2 * Interest(a, b) <= |b|
  {
    SplitCardinality(a, b);
    SplitCardinality(b, a);
    assert b * a == a * b;
  }

  /** Slides sharing no tag score 0. */
  lemma InterestDisjoint(a: set<Tag>, b: set<Tag>)
    requires a * b == {}
    ensures Interest(a, b) == 0
  {
  }

  /** When one slide's tags contain the other's, there is nothing unique on one side: score 0. */
  lemma InterestNested(a: set<Tag>, b: set<Tag>)
    requires a <= b || b <= a
    ensures Interest(a, b) == 0
  {
    if a <= b {
      assert a - b == {};
    } else {
      assert b - a == {};
    }
  }

  /** The score is positive exactly when the slides share a tag and each has a tag
      the other lacks. */
  lemma InterestPositive(a: set<Tag>, b: set<Tag>)
    ensures Interest(a, b) > 0 <==> (a * b != {} && !(a <= b) && !(b <= a))
  {
    if a * b != {} && !(a <= b) && !(b <= a) {
      var x :| x in a && x !in b;
      var y :| y in b && y !in a;
      var z :| z in a * b;
      assert x in a - b && y in b - a;
      assert |a - b| > 0 && |b - a| > 0 && |a * b| > 0;
    } else if a * b == {} {
      InterestDisjoint(a, b);
    } else {
      InterestNested(a, b);
    }
  }
}
