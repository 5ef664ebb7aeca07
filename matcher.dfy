/** The swap-match scorer and ranker of src/components/AIAssistant.jsx
    (`generateRecommendation`, lines 33-89): filter the catalogue to eligible
    candidates, score each against the reference item, drop scores of 30 or
    less, sort by descending score (stably) and keep the first five.
    The model follows the code as written, including its three quirks: the
    condition lookup compares raw `indexOf` positions (-1 for an unknown
    label), the tag term counts the reference's entries with duplicates, and
    the owner filter reads a `user_id` property that the store's items do
    not have. */
module Matcher {
  import opened Builtins
  import Store

  const CategoryExact := 40
  const CategoryPartial := 20
  const SizeExact := 30
  const SizePartial := 15
  const ConditionExact := 20
  const ConditionNear := 10
  const PointsPerTag := 5
  /** Only scores strictly above this are recommended. */
  const Threshold := 30
  /** At most this many recommendations are kept. */
  const TopN := 5

  /** The condition scale, most pristine first. */
  const ConditionOrder: seq<string> := ["New with tags", "Like new", "Very good", "Good", "Fair"]

  /** A catalogue object as the assistant reads it. The component is untyped:
      `userId` is whatever the object's `user_id` property holds (None when it
      has none) and `tags` may be missing. */
  datatype Listing = Listing(
    id: string,
    status: Store.ItemStatus,
    userId: Option<string>,
    category: string,
    size: string,
    condition: string,
    tags: Option<seq<string>>)

  /** `{ ...availableItem, matchScore: score }`. */
  datatype Match = Match(listing: Listing, matchScore: int)

  /** How the assistant sees an item of the store: the store's `Item` has no
      `user_id` property (its owner is in `uploaderId`), so that read yields
      undefined, and its tag list is always present. */
  function FromItem(i: Store.Item): (l: Listing)
    ensures l.id == i.id && l.status == i.status && l.userId == None
    ensures l.category == i.category && l.size == i.size && l.condition == i.condition
    ensures l.tags == Some(i.tags)
  {
    Listing(i.id, i.status, None, i.category, i.size, i.condition, Some(i.tags))
  }

  // ---------------------------------------------------------------------
  // The four score terms

  /** The category and size terms: full points on equal strings, else partial
      points when either contains the other (in either direction), else none. */
  function LabelTerm(cand: string, ref: string, exact: int, partial: int): (points: int)
    ensures cand == ref ==> points == exact
    ensures cand != ref && (IsSubstring(ref, cand) || IsSubstring(cand, ref)) ==> points == partial
    ensures cand != ref && !IsSubstring(ref, cand) && !IsSubstring(cand, ref) ==> points == 0
  {
    IncludesIffOccurs(cand, ref);
    IncludesIffOccurs(ref, cand);
    if cand == ref then exact
    else if Includes(cand, ref) || Includes(ref, cand) then partial
    else 0
  }

  /** Category: 40 on equal strings, else 20 on containment either way, else 0. */
  function CategoryTerm(cand: string, ref: string): (points: int)
    ensures points == CategoryExact <==> cand == ref
    ensures points == CategoryPartial <==> cand != ref && (IsSubstring(ref, cand) || IsSubstring(cand, ref))
    ensures points == 0 <==> cand != ref && !IsSubstring(ref, cand) && !IsSubstring(cand, ref)
  {
    LabelTerm(cand, ref, CategoryExact, CategoryPartial)
  }

  /** Size: 30 on equal strings, else 15 on containment either way, else 0. */
  function SizeTerm(cand: string, ref: string): (points: int)
    ensures points == SizeExact <==> cand == ref
    ensures points == SizePartial <==> cand != ref && (IsSubstring(ref, cand) || IsSubstring(cand, ref))
    ensures points == 0 <==> cand != ref && !IsSubstring(ref, cand) && !IsSubstring(cand, ref)
  {
    LabelTerm(cand, ref, SizeExact, SizePartial)
  }

  /** The label-based terms do not depend on which item is the reference. */
  lemma LabelTermsSymmetric(a: string, b: string)
    ensures CategoryTerm(a, b) == CategoryTerm(b, a)
    ensures SizeTerm(a, b) == SizeTerm(b, a)
    ensures ConditionTerm(a, b) == ConditionTerm(b, a)
  {
  }

  /** An empty label is contained in every label, so it earns the partial
      points against any other label. */
  lemma EmptyLabelIsPartialMatch(s: string)
    requires s != ""
    ensures CategoryTerm("", s) == CategoryPartial && CategoryTerm(s, "") == CategoryPartial
    ensures SizeTerm("", s) == SizePartial && SizeTerm(s, "") == SizePartial
  {
    assert OccursAt(s, "", 0);
  }

  /** `conditionOrder.indexOf(label)`: 0 to 4 on the scale, -1 off it. */
  function Rank(s: string): (r: int)
    ensures -1 <= r < |ConditionOrder|
    ensures r == -1 <==> s !in ConditionOrder
    ensures r != -1 ==> ConditionOrder[r] == s
  {
    IndexOf(ConditionOrder, s)
  }

  /** Two labels are neighbours on the condition scale. */
  ghost predicate Adjacent(a: string, b: string)
  {
    exists k :: 0 <= k < |ConditionOrder| - 1 &&
      ((ConditionOrder[k] == a && ConditionOrder[k + 1] == b) ||
       (ConditionOrder[k] == b && ConditionOrder[k + 1] == a))
  }

  /** Condition: 20 on equal labels; otherwise 10 when the raw `indexOf`
      positions differ by at most one, and 0 when they do not. */
  function ConditionTerm(cand: string, ref: string): (points: int)
    ensures points == ConditionExact <==> cand == ref
    ensures (cand != ref && cand in ConditionOrder && ref in ConditionOrder)
              ==> (points == ConditionNear <==> Adjacent(cand, ref))
    ensures (cand != ref && cand !in ConditionOrder && ref !in ConditionOrder)
              ==> points == ConditionNear
    ensures (cand != ref && cand in ConditionOrder && ref !in ConditionOrder)
              ==> (points == ConditionNear <==> cand == ConditionOrder[0])
    ensures (cand != ref && cand !in ConditionOrder && ref in ConditionOrder)
              ==> (points == ConditionNear <==> ref == ConditionOrder[0])
    ensures points == ConditionExact || points == ConditionNear || points == 0
  {
    if cand == ref then ConditionExact
    else
      var difference := Abs(Rank(ref) - Rank(cand));
      RankNeighbours(cand, ref);
      if difference <= 1 then ConditionNear else 0
  }

  function Abs(x: int): int
  {
    if x < 0 then -x else x
  }

  /** For two different labels on the scale, their positions are one apart
      exactly when they are neighbours. */
  lemma RankNeighbours(a: string, b: string)
    ensures (a != b && a in ConditionOrder && b in ConditionOrder)
              ==> (Abs(Rank(a) - Rank(b)) <= 1 <==> Adjacent(a, b))
  {
    if a != b && a in ConditionOrder && b in ConditionOrder {
      if Abs(Rank(a) - Rank(b)) <= 1 {
        NearIsAdjacent(a, b);
      }
      if Adjacent(a, b) {
        AdjacentIsNear(a, b);
      }
    }
  }

  lemma NearIsAdjacent(a: string, b: string)
    requires a != b && a in ConditionOrder && b in ConditionOrder
    requires Abs(Rank(a) - Rank(b)) <= 1
    ensures Adjacent(a, b)
  {
    var i, j := Rank(a), Rank(b);
    assert ConditionOrder[i] == a && ConditionOrder[j] == b;
    if i < j {
      assert j == i + 1 && ConditionOrder[i] == a && ConditionOrder[i + 1] == b;
    } else {
      assert i != j;
      assert i == j + 1 && ConditionOrder[j] == b && ConditionOrder[j + 1] == a;
    }
  }

  lemma AdjacentIsNear(a: string, b: string)
    requires Adjacent(a, b)
    ensures Abs(Rank(a) - Rank(b)) <= 1
  {
    var k :| 0 <= k < |ConditionOrder| - 1 &&
      ((ConditionOrder[k] == a && ConditionOrder[k + 1] == b) ||
       (ConditionOrder[k] == b && ConditionOrder[k + 1] == a));
    ScaleRanks(k);
    ScaleRanks(k + 1);
  }

  /** Each scale entry's position is its index (the entries are distinct). */
  lemma ScaleRanks(k: int)
    requires 0 <= k < |ConditionOrder|
    ensures Rank(ConditionOrder[k]) == k
  {
  }

  /** The number of entries of `ref`, duplicates included, that occur in `cand`. */
  function SharedCount(ref: seq<string>, cand: seq<string>): (n: nat)
    ensures n <= |ref|
  {
    if ref == [] then 0
    else (if ref[0] in cand then 1 else 0) + SharedCount(ref[1..], cand)
  }

  /** Tags: five points per entry of the reference's tag list found in the
      candidate's; nothing when either list is missing. */
  function TagTerm(refTags: Option<seq<string>>, candTags: Option<seq<string>>): (points: int)
    ensures refTags.None? || candTags.None? ==> points == 0
    ensures refTags.Some? && candTags.Some? ==> points == PointsPerTag * SharedCount(refTags.value, candTags.value)
    ensures 0 <= points
  {
    if refTags.Some? && candTags.Some? then PointsPerTag * SharedCount(refTags.value, candTags.value)
    else 0
  }

  /** The tags the two lists have in common, as a set. */
  ghost function Common(ref: seq<string>, cand: seq<string>): set<string>
  {
    set t | t in ref && t in cand
  }

  /** The tag count is at least the size of the set intersection and at most
      the length of the reference list; it equals the intersection size when
      the reference list has no duplicates. */
  lemma {:induction false} SharedCountVsCommon(ref: seq<string>, cand: seq<string>)
    ensures |Common(ref, cand)| <= SharedCount(ref, cand) <= |ref|
    ensures NoDuplicates(ref) ==> SharedCount(ref, cand) == |Common(ref, cand)|
    decreases |ref|
  {
    if ref != [] {
      var rest := ref[1..];
      SharedCountVsCommon(rest, cand);
      var head := if ref[0] in cand then {ref[0]} else {};
      CommonCons(ref, cand);
      if NoDuplicates(ref) {
        NoDuplicatesTail(ref);
        assert head !! Common(rest, cand);
      }
    }
  }

  lemma CommonCons(ref: seq<string>, cand: seq<string>)
    requires ref != []
    ensures Common(ref, cand) == (if ref[0] in cand then {ref[0]} else {}) + Common(ref[1..], cand)
  {
    assert forall t :: t in ref <==> t == ref[0] || t in ref[1..];
  }

  /** The whole score: the sum of the four terms. */
  function Score(ref: Listing, cand: Listing): (points: int)
    ensures 0 <= points
    ensures points <= CategoryExact + SizeExact + ConditionExact
                      + (if ref.tags.Some? then PointsPerTag * |ref.tags.value| else 0)
  {
    CategoryTerm(cand.category, ref.category)
    + SizeTerm(cand.size, ref.size)
    + ConditionTerm(cand.condition, ref.condition)
    + TagTerm(ref.tags, cand.tags)
  }

  // ---------------------------------------------------------------------
  // The ranking chain

  /** The eligibility filter: not the reference itself, still available, and
      a `user_id` that is not the current user's id, compared with `!==`
      (None stands for undefined on either side). */
  predicate Eligible(ref: Listing, userId: Option<string>, l: Listing)
  {
    l.id != ref.id && l.status == Store.Available && l.userId != userId
  }

  function EligibleFor(ref: Listing, userId: Option<string>): Listing -> bool
  {
    (l: Listing) => Eligible(ref, userId, l)
  }

  /** `items.filter(...)`: the eligible catalogue entries, in catalogue order. */
  function EligibleItems(ref: Listing, userId: Option<string>, catalog: seq<Listing>): (r: seq<Listing>)
    ensures forall l :: l in r <==> l in catalog && Eligible(ref, userId, l)
    ensures IsSubsequence(r, catalog)
    ensures forall l :: multiset(r)[l] == if Eligible(ref, userId, l) then multiset(catalog)[l] else 0
  {
    FilterIsSubsequence(EligibleFor(ref, userId), catalog);
    forall l ensures multiset(Filter(EligibleFor(ref, userId), catalog))[l]
                     == if Eligible(ref, userId, l) then multiset(catalog)[l] else 0 {
      FilterCounts(EligibleFor(ref, userId), catalog, l);
    }
    Filter(EligibleFor(ref, userId), catalog)
  }

  /** `.map(...)`: each entry unchanged, with its score attached. */
  function ScoreAll(ref: Listing, ls: seq<Listing>): (r: seq<Match>)
    ensures |r| == |ls|
    ensures forall k :: 0 <= k < |ls| ==> r[k] == Match(ls[k], Score(ref, ls[k]))
  {
    seq(|ls|, k requires 0 <= k < |ls| => Match(ls[k], Score(ref, ls[k])))
  }

  /** Scoring attaches each listing's own score and keeps every copy. */
  lemma {:induction false} ScoreAllCounts(ref: Listing, ls: seq<Listing>, m: Match)
    ensures multiset(ScoreAll(ref, ls))[m] ==
              if m.matchScore == Score(ref, m.listing) then multiset(ls)[m.listing] else 0
    decreases |ls|
  {
    if ls != [] {
      ScoreAllCounts(ref, ls[1..], m);
      ScoredHeadCounts(ref, ls[0], m);
      assert ScoreAll(ref, ls) == [Match(ls[0], Score(ref, ls[0]))] + ScoreAll(ref, ls[1..]);
      assert ls == [ls[0]] + ls[1..];
    }
  }

  lemma ScoredHeadCounts(ref: Listing, l: Listing, m: Match)
    ensures multiset([Match(l, Score(ref, l))])[m] ==
              if m.matchScore == Score(ref, m.listing) then multiset([l])[m.listing] else 0
  {
    if m == Match(l, Score(ref, l)) {
      assert m.listing == l;
    }
  }

  /** Scoring keeps a subsequence a subsequence. */
  lemma {:induction false} ScoreAllKeepsSubsequence(ref: Listing, a: seq<Listing>, b: seq<Listing>)
    requires IsSubsequence(a, b)
    ensures IsSubsequence(ScoreAll(ref, a), ScoreAll(ref, b))
    decreases |b|
  {
    if a != [] {
      assert ScoreAll(ref, b)[1..] == ScoreAll(ref, b[1..]);
      if a[0] == b[0] {
        assert ScoreAll(ref, a)[1..] == ScoreAll(ref, a[1..]);
        ScoreAllKeepsSubsequence(ref, a[1..], b[1..]);
      } else {
        ScoreAllKeepsSubsequence(ref, a, b[1..]);
      }
    }
  }

  function AboveThreshold(): Match -> bool
  {
    (m: Match) => m.matchScore > Threshold
  }

  /** How many copies of a match survive the eligibility filter, the scoring
      and the threshold. */
  lemma CandidateCount(ref: Listing, userId: Option<string>, catalog: seq<Listing>, m: Match)
    ensures multiset(Filter(AboveThreshold(), ScoreAll(ref, EligibleItems(ref, userId, catalog))))[m] ==
              if Eligible(ref, userId, m.listing) && m.matchScore == Score(ref, m.listing)
                 && m.matchScore > Threshold
              then multiset(catalog)[m.listing] else 0
  {
    var eligible := EligibleItems(ref, userId, catalog);
    FilterCounts(AboveThreshold(), ScoreAll(ref, eligible), m);
    ScoreAllCounts(ref, eligible, m);
  }

  /** Eligible, scored and above the threshold, still in catalogue order:
      the list the sort receives. */
  function Candidates(ref: Listing, userId: Option<string>, catalog: seq<Listing>): (r: seq<Match>)
    ensures forall m :: m in r <==>
              m.listing in catalog && Eligible(ref, userId, m.listing)
              && m.matchScore == Score(ref, m.listing) && m.matchScore > Threshold
    ensures IsSubsequence(r, ScoreAll(ref, catalog))
    ensures forall m :: multiset(r)[m] ==
              if Eligible(ref, userId, m.listing) && m.matchScore == Score(ref, m.listing)
                 && m.matchScore > Threshold
              then multiset(catalog)[m.listing] else 0
  {
    var eligible := EligibleItems(ref, userId, catalog);
    var kept := Filter(AboveThreshold(), ScoreAll(ref, eligible));
    forall m ensures multiset(kept)[m] ==
                       if Eligible(ref, userId, m.listing) && m.matchScore == Score(ref, m.listing)
                          && m.matchScore > Threshold
                       then multiset(catalog)[m.listing] else 0
    {
      CandidateCount(ref, userId, catalog, m);
    }
    forall m ensures m in kept <==>
                       m.listing in catalog && Eligible(ref, userId, m.listing)
                       && m.matchScore == Score(ref, m.listing) && m.matchScore > Threshold
    {
      CandidateCount(ref, userId, catalog, m);
      assert m in kept <==> multiset(kept)[m] > 0;
      assert m.listing in catalog <==> multiset(catalog)[m.listing] > 0;
    }
    FilterIsSubsequence(AboveThreshold(), ScoreAll(ref, eligible));
    ScoreAllKeepsSubsequence(ref, eligible, catalog);
    SubsequenceTrans(kept, ScoreAll(ref, eligible), ScoreAll(ref, catalog));
    kept
  }

  ghost predicate SortedByScore(ms: seq<Match>)
  {
    forall i, j :: 0 <= i < j < |ms| ==> ms[i].matchScore >= ms[j].matchScore
  }

  function ScoreIs(k: int): Match -> bool
  {
    (m: Match) => m.matchScore == k
  }

  /** The entries with score `k`, in order. */
  function WithScore(ms: seq<Match>, k: int): seq<Match>
  {
    Filter(ScoreIs(k), ms)
  }

  /** Puts `m` before the first entry whose score is not above its own. */
  function Insert(m: Match, ms: seq<Match>): (r: seq<Match>)
    requires SortedByScore(ms)
    ensures |r| == |ms| + 1
    ensures r[0] == m || (ms != [] && r[0] == ms[0])
    ensures SortedByScore(r)
  {
    if ms == [] || ms[0].matchScore <= m.matchScore then
      ConsSorted(m, ms);
      [m] + ms
    else
      var t := Insert(m, ms[1..]);
      assert |ms| > 1 ==> ms[1].matchScore <= ms[0].matchScore;
      ConsSorted(ms[0], t);
      [ms[0]] + t
  }

  /** Inserting adds exactly the new entry. */
  lemma {:induction false} InsertPermutes(m: Match, ms: seq<Match>)
    requires SortedByScore(ms)
    ensures multiset(Insert(m, ms)) == multiset(ms) + multiset{m}
    decreases |ms|
  {
    if !(ms == [] || ms[0].matchScore <= m.matchScore) {
      InsertPermutes(m, ms[1..]);
      assert ms == [ms[0]] + ms[1..];
      assert Insert(m, ms) == [ms[0]] + Insert(m, ms[1..]);
    }
  }

  /** An entry scoring at least the head of a sorted list can go in front of it. */
  lemma ConsSorted(x: Match, s: seq<Match>)
    requires SortedByScore(s)
    requires s == [] || s[0].matchScore <= x.matchScore
    ensures SortedByScore([x] + s)
  {
    var r := [x] + s;
    forall i, j | 0 <= i < j < |r| ensures r[i].matchScore >= r[j].matchScore {
      if i == 0 && j > 1 {
        assert s[0].matchScore >= s[j - 1].matchScore;
      }
    }
  }

  /** `.sort((a, b) => b.matchScore - a.matchScore)`: a stable sort by
      descending score. */
  function SortByScore(ms: seq<Match>): (r: seq<Match>)
    ensures SortedByScore(r)
    ensures multiset(r) == multiset(ms)
    ensures |r| == |ms| && forall x :: x in r <==> x in ms
  {
    if ms == [] then []
    else
      assert ms == [ms[0]] + ms[1..];
      InsertPermutes(ms[0], SortByScore(ms[1..]));
      SameElements(Insert(ms[0], SortByScore(ms[1..])), ms);
      Insert(ms[0], SortByScore(ms[1..]))
  }

  /** Two lists with the same multiset have the same length and members. */
  lemma SameElements(a: seq<Match>, b: seq<Match>)
    requires multiset(a) == multiset(b)
    ensures |a| == |b| && forall x :: x in a <==> x in b
  {
    assert |a| == |multiset(a)| && |b| == |multiset(b)|;
    forall x ensures x in a <==> x in b {
      assert x in a <==> x in multiset(a);
      assert x in b <==> x in multiset(b);
    }
  }

  lemma WithScoreSingle(x: Match, k: int)
    ensures WithScore([x], k) == if x.matchScore == k then [x] else []
  {
    assert [x][1..] == [];
  }

  /** Filtering by score over a list with a known first entry. */
  lemma WithScoreCons(x: Match, s: seq<Match>, k: int)
    ensures WithScore([x] + s, k) == if x.matchScore == k then [x] + WithScore(s, k) else WithScore(s, k)
  {
    FilterAppend(ScoreIs(k), [x], s);
    WithScoreSingle(x, k);
  }

  /** Inserting keeps, for each score, the new entry ahead of the old entries
      with that score. */
  lemma {:induction false} InsertStable(m: Match, ms: seq<Match>, k: int)
    requires SortedByScore(ms)
    ensures WithScore(Insert(m, ms), k) == WithScore([m] + ms, k)
    decreases |ms|
  {
    if !(ms == [] || ms[0].matchScore <= m.matchScore) {
      var rest := ms[1..];
      assert [ms[0]] + rest == ms;
      assert Insert(m, ms) == [ms[0]] + Insert(m, rest);
      InsertStable(m, rest, k);
      WithScoreCons(ms[0], Insert(m, rest), k);
      WithScoreCons(m, rest, k);
      WithScoreCons(ms[0], rest, k);
      WithScoreCons(m, ms, k);
    }
  }

  /** The sort is stable: for every score, the entries with that score come
      out in the order they went in. */
  lemma {:induction false} SortIsStable(ms: seq<Match>, k: int)
    ensures WithScore(SortByScore(ms), k) == WithScore(ms, k)
    decreases |ms|
  {
    if ms != [] {
      SortIsStable(ms[1..], k);
      InsertStable(ms[0], SortByScore(ms[1..]), k);
      FilterAppend(ScoreIs(k), [ms[0]], SortByScore(ms[1..]));
      FilterAppend(ScoreIs(k), [ms[0]], ms[1..]);
      assert [ms[0]] + ms[1..] == ms;
    }
  }

  function Min(a: int, b: int): int
  {
    if a < b then a else b
  }

  /** `generateRecommendation`'s chain: eligible, scored, above threshold,
      sorted, first five. */
  function Recommend(ref: Listing, userId: Option<string>, catalog: seq<Listing>): (r: seq<Match>)
    ensures forall m :: m in r ==>
              m.listing in catalog && Eligible(ref, userId, m.listing)
              && m.matchScore == Score(ref, m.listing) && m.matchScore > Threshold
    ensures SortedByScore(r)
    ensures |r| == Min(TopN, |Candidates(ref, userId, catalog)|)
  {
    var sorted := SortByScore(Candidates(ref, userId, catalog));
    var n := Min(TopN, |sorted|);
    assert forall m :: m in sorted[..n] ==> m in sorted;
    sorted[..n]
  }

  /** In a list sorted by descending score, a prefix holds the best entries:
      nothing after it scores higher than anything in it. */
  lemma PrefixIsTop(s: seq<Match>, n: int)
    requires SortedByScore(s) && 0 <= n <= |s|
    ensures multiset(s) == multiset(s[..n]) + multiset(s[n..])
    ensures forall x, y :: x in s[..n] && y in s[n..] ==> x.matchScore >= y.matchScore
  {
    assert s == s[..n] + s[n..];
    forall x, y | x in s[..n] && y in s[n..] ensures x.matchScore >= y.matchScore {
      var i :| 0 <= i < n && s[..n][i] == x;
      var j :| 0 <= j < |s| - n && s[n..][j] == y;
      assert s[i] == x && s[n + j] == y;
    }
  }

  /** The result is the true top five: every candidate left out scores no
      more than any candidate kept, and when fewer than five are kept none
      was left out. */
  lemma RecommendIsTop(ref: Listing, userId: Option<string>, catalog: seq<Listing>)
    ensures var r := Recommend(ref, userId, catalog);
            var c := Candidates(ref, userId, catalog);
            && multiset(r) <= multiset(c)
            && (forall x, y :: x in r && y in multiset(c) - multiset(r) ==> x.matchScore >= y.matchScore)
            && (|r| < TopN ==> multiset(r) == multiset(c))
  {
    var c := Candidates(ref, userId, catalog);
    var s := SortByScore(c);
    assert Recommend(ref, userId, catalog) == s[..Min(TopN, |s|)];
    TopOfSorted(c, s, Min(TopN, |s|));
  }

  /** The first `n` entries of a sorted permutation of `c` are a best part of `c`. */
  lemma TopOfSorted(c: seq<Match>, s: seq<Match>, n: int)
    requires SortedByScore(s) && multiset(s) == multiset(c) && 0 <= n <= |s|
    ensures multiset(s[..n]) <= multiset(c)
    ensures forall x, y :: x in s[..n] && y in multiset(c) - multiset(s[..n]) ==> x.matchScore >= y.matchScore
    ensures n == |s| ==> multiset(s[..n]) == multiset(c)
  {
    PrefixIsTop(s, n);
    assert multiset(c) - multiset(s[..n]) == multiset(s[n..]);
    if n == |s| {
      assert s[..n] == s;
    }
  }

  /** Equal scores keep catalogue order: for every score, the kept entries
      with that score are the first entries with that score among the
      candidates, in the same order. */
  lemma RecommendKeepsCatalogOrder(ref: Listing, userId: Option<string>, catalog: seq<Listing>, k: int)
    ensures WithScore(Recommend(ref, userId, catalog), k) <= WithScore(Candidates(ref, userId, catalog), k)
  {
    var c := Candidates(ref, userId, catalog);
    PrefixKeepsOrder(SortByScore(c), Min(TopN, |SortByScore(c)|), k);
    SortIsStable(c, k);
  }

  /** Cutting a list short keeps, of each score, a prefix of its entries. */
  lemma PrefixKeepsOrder(s: seq<Match>, n: int, k: int)
    requires 0 <= n <= |s|
    ensures WithScore(s[..n], k) <= WithScore(s, k)
  {
    assert s == s[..n] + s[n..];
    FilterAppend(ScoreIs(k), s[..n], s[n..]);
  }

  /** The reference item itself is never recommended, nor is anything
      unavailable. */
  lemma RecommendExcludesReference(ref: Listing, userId: Option<string>, catalog: seq<Listing>)
    ensures forall m :: m in Recommend(ref, userId, catalog) ==>
              m.listing.id != ref.id && m.listing.status == Store.Available
  {
  }

  /** Run over the store's items, the owner filter never removes anything for
      a logged-in user, so the user's own available items can be recommended;
      with nobody logged in, nothing is eligible. */
  lemma OwnerFilterOnStoreItems(ref: Listing, i: Store.Item, userId: Option<string>)
    requires i.id != ref.id && i.status == Store.Available
    ensures Eligible(ref, userId, FromItem(i)) <==> userId.Some?
  {
  }

  /** Logged out, the assistant recommends nothing from the store. */
  lemma LoggedOutGetsNothing(ref: Listing, items: seq<Store.Item>)
    ensures Recommend(ref, None, seq(|items|, k requires 0 <= k < |items| => FromItem(items[k]))) == []
  {
    var catalog := seq(|items|, k requires 0 <= k < |items| => FromItem(items[k]));
    assert forall l :: l in catalog ==> l.userId == None;
    var c := Candidates(ref, None, catalog);
    assert forall m :: m in c ==> m.listing in catalog && m.listing.userId != None;
    assert forall m :: m !in c;
    assert c == [];
  }

  // ---------------------------------------------------------------------
  // Worked scores

  /** Two matching outerwear jackets in size M, both 'Excellent', sharing one
      tag, score 40 + 30 + 20 + 5 = 95. */
  lemma JacketScore()
    ensures Score(Listing("1", Store.Available, None, "Outerwear", "M", "Excellent", Some(["vintage", "denim"])),
                  Listing("2", Store.Available, None, "Outerwear", "M", "Excellent", Some(["vintage", "casual"]))) == 95
  {
    assert SharedCount(["vintage", "denim"], ["vintage", "casual"]) == 1;
  }

  /** Positions 0 and 2 on the scale earn nothing; 1 and 2 earn 10. */
  lemma ConditionScaleSteps()
    ensures ConditionTerm("Very good", "New with tags") == 0
    ensures ConditionTerm("Very good", "Like new") == ConditionNear
  {
    ScaleRanks(0);
    ScaleRanks(1);
    ScaleRanks(2);
  }

  /** The store's labels 'Excellent' and 'Very Good' are not on the scale
      (which spells 'Very good'), so they still earn 10 against each other
      and against 'New with tags', but nothing against 'Good'. */
  lemma OffScaleLabels()
    ensures ConditionTerm("Excellent", "Very Good") == ConditionNear
    ensures ConditionTerm("Excellent", "New with tags") == ConditionNear
    ensures ConditionTerm("Excellent", "Good") == 0
  {
    assert Rank("Excellent") == -1 && Rank("Very Good") == -1;
    ScaleRanks(0);
    ScaleRanks(3);
  }

  /** A tag repeated in the reference list is counted each time. */
  lemma RepeatedTagCountsTwice()
    ensures TagTerm(Some(["vintage", "vintage"]), Some(["vintage"])) == 2 * PointsPerTag
  {
    assert SharedCount(["vintage", "vintage"], ["vintage"]) == 2;
  }
}
