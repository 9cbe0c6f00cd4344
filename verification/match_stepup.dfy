/**
 * The step-up matcher: the unlock gate on the number of "great" tries, and the scoring of
 * step-up hobbies against the user's top tags, ranked by score and then by the number of
 * matched tags.
 */
module MatchStepUp {
  import opened Wrappers
  import opened Types
  import opened Seqs
  import opened Ranking

  /** STEPUP_UNLOCK_THRESHOLD: "great" tries needed before step-up hobbies are shown. */
  const StepUpUnlockThreshold: int := 3

  /** `isStepUpUnlocked(greatCount)`. */
  predicate IsStepUpUnlocked(greatCount: int) {
    greatCount >= StepUpUnlockThreshold
  }

  /**
   * The gate opens at the third "great" try and never closes again as the count grows:
   * two are not enough, three are, and more than an unlocking count still unlocks.
   */
  lemma UnlockIsMonotone(greatCount: int, more: int)
    ensures !IsStepUpUnlocked(2) && IsStepUpUnlocked(3)
    ensures IsStepUpUnlocked(greatCount) && greatCount <= more ==> IsStepUpUnlocked(more)
  {
  }

  /**
   * `getRemainingToUnlock(greatCount)`: how many more "great" tries unlock step-up hobbies;
   * never negative, and zero exactly when they are already unlocked.
   */
  function GetRemainingToUnlock(greatCount: int): (r: int)
    ensures r >= 0
    ensures r == 0 <==> IsStepUpUnlocked(greatCount)
    ensures !IsStepUpUnlocked(greatCount) ==> greatCount + r == StepUpUnlockThreshold
  {
    var remaining := StepUpUnlockThreshold - greatCount;
    if remaining > 0 then remaining else 0
  }

  /** One scored recommendation. */
  datatype MatchResult = MatchResult(hobby: StepUpHobby, matchScore: int, matchedTags: seq<Tag>)

  /**
   * `Math.round(m / n * 100)` in exact arithmetic: the integer nearest to 100·m/n, halves
   * rounded up.
   */
  function RoundedPercent(m: nat, n: nat): (r: int)
    requires n > 0
    ensures 2 * n * r <= 200 * m + n < 2 * n * r + 2 * n
  {
    (200 * m + n) / (2 * n)
  }

  lemma MulMonotone(c: int, a: int, b: int)
    requires c >= 0
    requires a <= b
    ensures c * a <= c * b
  {
  }

  lemma CancelLess(c: int, a: int, b: int)
    requires c > 0
    requires c * a < c * b
    ensures a < b
  {
    if b <= a {
      MulMonotone(c, b, a);
    }
  }

  /** The rounding bounds pin the score down. */
  lemma RoundedPercentIsUnique(m: nat, n: nat, s: int)
    requires n > 0
    requires 2 * n * s <= 200 * m + n < 2 * n * s + 2 * n
    ensures s == RoundedPercent(m, n)
  {
    var r := RoundedPercent(m, n);
    var d := 2 * n;
    assert d * s < d * (r + 1);
    CancelLess(d, s, r + 1);
    assert d * r < d * (s + 1);
    CancelLess(d, r, s + 1);
  }

  /** A share of at most all of the user's tags scores between 0 and 100; all of them scores 100. */
  lemma RoundedPercentRange(m: nat, n: nat)
    requires 0 < n
    requires m <= n
    ensures 0 <= RoundedPercent(m, n) <= 100
    ensures m == n ==> RoundedPercent(m, n) == 100
    ensures m == 0 ==> RoundedPercent(m, n) == 0
  {
    var r := RoundedPercent(m, n);
    var d := 2 * n;
    assert d * r < d * 101;
    CancelLess(d, r, 101);
    assert d * 0 < d * (r + 1);
    CancelLess(d, 0, r + 1);
    if m == n {
      RoundedPercentIsUnique(m, n, 100);
    }
    if m == 0 {
      RoundedPercentIsUnique(m, n, 0);
    }
  }

  /** One of three tags rounds to 33, two of three to 67. */
  lemma ThirdsRound()
    ensures RoundedPercent(1, 3) == 33
    ensures RoundedPercent(2, 3) == 67
  {
  }

  /** Some match tag of `h` is one of the user's tags. */
  predicate HasOverlap(h: StepUpHobby, userTopTags: seq<Tag>) {
    exists i :: 0 <= i < |h.matchTags| && h.matchTags[i] in userTopTags
  }

  /**
   * `m` is a well-formed result for the user's tags: its matched tags are the hobby's match
   * tags that the user has, in match-tag order and multiplicity, there is at least one, and
   * the score is their share of the user's tags as a rounded percentage.
   */
  predicate IsMatchOf(m: MatchResult, userTopTags: seq<Tag>) {
    && |m.matchedTags| > 0
    && IsSubsequence(m.matchedTags, m.hobby.matchTags)
    && (forall t :: t in m.hobby.matchTags ==>
          multiset(m.matchedTags)[t] == if t in userTopTags then multiset(m.hobby.matchTags)[t] else 0)
    && (forall k :: 0 <= k < |m.matchedTags| ==> m.matchedTags[k] in userTopTags)
    && 2 * |userTopTags| * m.matchScore <= 200 * |m.matchedTags| + |userTopTags|
    && 200 * |m.matchedTags| + |userTopTags| < 2 * |userTopTags| * m.matchScore + 2 * |userTopTags|
  }

  /** `hobby.matchTags.filter((tag) => userTopTags.includes(tag))`. */
  function MatchedTags(h: StepUpHobby, userTopTags: seq<Tag>): seq<Tag> {
    Filter(h.matchTags, t => t in userTopTags)
  }

  /** The result the matcher builds for `h`: its matched tags and their rounded share. */
  function MatchFor(h: StepUpHobby, userTopTags: seq<Tag>): MatchResult
    requires |userTopTags| > 0
  {
    var matched := MatchedTags(h, userTopTags);
    MatchResult(h, RoundedPercent(|matched|, |userTopTags|), matched)
  }

  /** `MatchFor` of each hobby of `hs`, in order. */
  function MatchesFor(hs: seq<StepUpHobby>, userTopTags: seq<Tag>): (r: seq<MatchResult>)
    requires |userTopTags| > 0
    ensures |r| == |hs|
    ensures forall k :: 0 <= k < |hs| ==> r[k] == MatchFor(hs[k], userTopTags)
  {
    seq(|hs|, k requires 0 <= k < |hs| => MatchFor(hs[k], userTopTags))
  }

  /** The test a catalog hobby must pass to be recommended. */
  function OverlapWith(userTopTags: seq<Tag>): StepUpHobby -> bool {
    h => HasOverlap(h, userTopTags)
  }

  /** The loop over the catalog that pushes a result for every hobby with a matched tag. */
  function Candidates(hobbies: seq<StepUpHobby>, userTopTags: seq<Tag>): (r: seq<MatchResult>)
    requires |userTopTags| > 0
    ensures |r| <= |hobbies|
    decreases |hobbies|
  {
    if |hobbies| == 0 then []
    else
      (if |MatchedTags(hobbies[0], userTopTags)| == 0 then [] else [MatchFor(hobbies[0], userTopTags)])
      + Candidates(hobbies[1..], userTopTags)
  }

  /** The result pushed for one hobby is well formed. */
  lemma CandidateIsMatch(h: StepUpHobby, userTopTags: seq<Tag>)
    requires |userTopTags| > 0
    requires |MatchedTags(h, userTopTags)| > 0
    ensures IsMatchOf(MatchFor(h, userTopTags), userTopTags)
  {
    FilterIsSubsequence(h.matchTags, t => t in userTopTags);
    FilterMultiset(h.matchTags, t => t in userTopTags);
    FilterMembers(h.matchTags, t => t in userTopTags);
  }

  /** A hobby that shares a tag with the user has a matched tag. */
  lemma OverlapIsMatched(h: StepUpHobby, userTopTags: seq<Tag>)
    requires HasOverlap(h, userTopTags)
    ensures |MatchedTags(h, userTopTags)| > 0
  {
    var i :| 0 <= i < |h.matchTags| && h.matchTags[i] in userTopTags;
    assert h.matchTags[i] in h.matchTags;
    FilterMultiset(h.matchTags, t => t in userTopTags);
    assert multiset(MatchedTags(h, userTopTags))[h.matchTags[i]] > 0;
  }

  lemma {:induction false} CandidatesSound(hobbies: seq<StepUpHobby>, userTopTags: seq<Tag>)
    requires |userTopTags| > 0
    ensures forall k :: 0 <= k < |Candidates(hobbies, userTopTags)| ==>
      IsMatchOf(Candidates(hobbies, userTopTags)[k], userTopTags) &&
      Candidates(hobbies, userTopTags)[k].hobby in hobbies
    decreases |hobbies|
  {
    if |hobbies| > 0 {
      var h := hobbies[0];
      var rest := Candidates(hobbies[1..], userTopTags);
      CandidatesSound(hobbies[1..], userTopTags);
      assert forall g :: g in hobbies[1..] ==> g in hobbies;
      if |MatchedTags(h, userTopTags)| > 0 {
        CandidateIsMatch(h, userTopTags);
      }
    }
  }

  lemma {:induction false} CandidatesComplete(hobbies: seq<StepUpHobby>, userTopTags: seq<Tag>, h: StepUpHobby)
    requires |userTopTags| > 0
    requires h in hobbies
    requires HasOverlap(h, userTopTags)
    ensures exists k :: 0 <= k < |Candidates(hobbies, userTopTags)| && Candidates(hobbies, userTopTags)[k].hobby == h
    decreases |hobbies|
  {
    var c := Candidates(hobbies, userTopTags);
    var first := hobbies[0];
    var rest := Candidates(hobbies[1..], userTopTags);
    var head := if |MatchedTags(first, userTopTags)| == 0 then [] else [MatchFor(first, userTopTags)];
    assert c == head + rest;
    if h == first {
      OverlapIsMatched(h, userTopTags);
      assert c[0].hobby == h;
    } else {
      assert h in hobbies[1..] by {
        assert hobbies == [first] + hobbies[1..];
      }
      CandidatesComplete(hobbies[1..], userTopTags, h);
      var k :| 0 <= k < |rest| && rest[k].hobby == h;
      assert c[|head| + k] == rest[k];
    }
  }

  /**
   * The loop pushes exactly one result per catalog position whose hobby shares a tag with
   * the user, in catalog order: the results built for the filtered catalog.
   */
  lemma {:induction false} CandidatesAreOverlapMatches(hobbies: seq<StepUpHobby>, userTopTags: seq<Tag>)
    requires |userTopTags| > 0
    ensures Candidates(hobbies, userTopTags) == MatchesFor(Filter(hobbies, OverlapWith(userTopTags)), userTopTags)
    decreases |hobbies|
  {
    if |hobbies| > 0 {
      var h := hobbies[0];
      var p := OverlapWith(userTopTags);
      var kept := Filter(hobbies[1..], p);
      CandidatesAreOverlapMatches(hobbies[1..], userTopTags);
      assert |MatchedTags(h, userTopTags)| > 0 <==> p(h) by {
        if HasOverlap(h, userTopTags) {
          OverlapIsMatched(h, userTopTags);
        }
        if |MatchedTags(h, userTopTags)| > 0 {
          CandidateIsMatch(h, userTopTags);
          MatchImpliesOverlap(MatchFor(h, userTopTags), userTopTags);
        }
      }
      if p(h) {
        assert MatchesFor([h] + kept, userTopTags) == [MatchFor(h, userTopTags)] + MatchesFor(kept, userTopTags);
      }
    }
  }

  /** Sort comparator of `matchStepUpHobbies`: score descending, then matched tags descending. */
  function ScoreThenMatched(m: MatchResult): Key {
    Key(m.matchScore, |m.matchedTags|)
  }

  /**
   * `matchStepUpHobbies(stepUpHobbies, userTopTags)`: one well-formed result for every
   * catalog position whose hobby shares a tag with the user and for no other (a hobby listed
   * twice is recommended twice), ordered by score and then by number of matched tags, both
   * descending; nothing at all without user tags.
   */
  function MatchStepUpHobbies(hobbies: seq<StepUpHobby>, userTopTags: seq<Tag>): (r: seq<MatchResult>)
    ensures |userTopTags| == 0 ==> r == []
    ensures |r| <= |hobbies|
    ensures forall k :: 0 <= k < |r| ==> IsMatchOf(r[k], userTopTags) && r[k].hobby in hobbies
    ensures forall h :: h in hobbies ==>
      (HasOverlap(h, userTopTags) <==> exists k :: 0 <= k < |r| && r[k].hobby == h)
    ensures forall i, j :: 0 <= i < j < |r| ==>
      r[i].matchScore > r[j].matchScore ||
      (r[i].matchScore == r[j].matchScore && |r[i].matchedTags| >= |r[j].matchedTags|)
    ensures |userTopTags| > 0 ==> |r| == |Filter(hobbies, OverlapWith(userTopTags))|
    ensures |userTopTags| > 0 ==>
      multiset(r) == multiset(MatchesFor(Filter(hobbies, OverlapWith(userTopTags)), userTopTags))
  {
    if |userTopTags| == 0 then []
    else
      var cs := Candidates(hobbies, userTopTags);
      var sorted := SortDesc(cs, ScoreThenMatched);
      MatchSortedSpec(hobbies, userTopTags);
      CandidatesAreOverlapMatches(hobbies, userTopTags);
      sorted
  }

  lemma MatchSortedSpec(hobbies: seq<StepUpHobby>, userTopTags: seq<Tag>)
    requires |userTopTags| > 0
    ensures forall k :: 0 <= k < |SortDesc(Candidates(hobbies, userTopTags), ScoreThenMatched)| ==>
      IsMatchOf(SortDesc(Candidates(hobbies, userTopTags), ScoreThenMatched)[k], userTopTags) &&
      SortDesc(Candidates(hobbies, userTopTags), ScoreThenMatched)[k].hobby in hobbies
    ensures forall h :: h in hobbies ==>
      (HasOverlap(h, userTopTags) <==>
       exists k :: 0 <= k < |SortDesc(Candidates(hobbies, userTopTags), ScoreThenMatched)| &&
         SortDesc(Candidates(hobbies, userTopTags), ScoreThenMatched)[k].hobby == h)
  {
    var cs := Candidates(hobbies, userTopTags);
    var sorted := SortDesc(cs, ScoreThenMatched);
    CandidatesSound(hobbies, userTopTags);
    RearrangedSound(cs, sorted, hobbies, userTopTags);
    forall h | h in hobbies ensures HasOverlap(h, userTopTags) <==> exists k :: 0 <= k < |sorted| && sorted[k].hobby == h {
      if HasOverlap(h, userTopTags) {
        CandidatesComplete(hobbies, userTopTags, h);
        RearrangedComplete(cs, sorted, h);
      }
    }
  }

  lemma RearrangedSound(cs: seq<MatchResult>, sorted: seq<MatchResult>, hobbies: seq<StepUpHobby>, userTopTags: seq<Tag>)
    requires multiset(cs) == multiset(sorted)
    requires forall k :: 0 <= k < |cs| ==> IsMatchOf(cs[k], userTopTags) && cs[k].hobby in hobbies
    ensures forall k :: 0 <= k < |sorted| ==> IsMatchOf(sorted[k], userTopTags) && sorted[k].hobby in hobbies
    ensures forall k :: 0 <= k < |sorted| ==> HasOverlap(sorted[k].hobby, userTopTags)
  {
    PermutationMembers(cs, sorted);
    forall k | 0 <= k < |sorted| ensures IsMatchOf(sorted[k], userTopTags) && sorted[k].hobby in hobbies {
      var j :| 0 <= j < |cs| && cs[j] == sorted[k];
    }
    forall k | 0 <= k < |sorted| ensures HasOverlap(sorted[k].hobby, userTopTags) {
      MatchImpliesOverlap(sorted[k], userTopTags);
    }
  }

  lemma RearrangedComplete(cs: seq<MatchResult>, sorted: seq<MatchResult>, h: StepUpHobby)
    requires multiset(cs) == multiset(sorted)
    requires exists k :: 0 <= k < |cs| && cs[k].hobby == h
    ensures exists k :: 0 <= k < |sorted| && sorted[k].hobby == h
  {
    var k :| 0 <= k < |cs| && cs[k].hobby == h;
    assert cs[k] in multiset(sorted) by {
      assert cs[k] in multiset(cs);
    }
    var j :| 0 <= j < |sorted| && sorted[j] == cs[k];
  }

  lemma MatchImpliesOverlap(m: MatchResult, userTopTags: seq<Tag>)
    requires IsMatchOf(m, userTopTags)
    ensures HasOverlap(m.hobby, userTopTags)
  {
    var t := m.matchedTags[0];
    assert t in multiset(m.matchedTags);
    assert multiset(m.matchedTags) <= multiset(m.hobby.matchTags) by {
      SubsequenceMultiset(m.matchedTags, m.hobby.matchTags);
    }
    assert t in m.hobby.matchTags;
    var i :| 0 <= i < |m.hobby.matchTags| && m.hobby.matchTags[i] == t;
  }

  lemma {:induction false} SubsequenceMultiset<T>(r: seq<T>, s: seq<T>)
    requires IsSubsequence(r, s)
    ensures multiset(r) <= multiset(s)
    decreases |s|
  {
    if |r| > 0 {
      assert s == [s[0]] + s[1..];
      if r[0] == s[0] && IsSubsequence(r[1..], s[1..]) {
        SubsequenceMultiset(r[1..], s[1..]);
        assert r == [r[0]] + r[1..];
      } else {
        SubsequenceMultiset(r, s[1..]);
      }
    }
  }

  /** A well-formed result for a hobby without repeated match tags scores between 0 and 100. */
  lemma ResultWithinPercent(m: MatchResult, userTopTags: seq<Tag>)
    requires IsMatchOf(m, userTopTags)
    requires Distinct(m.hobby.matchTags)
    ensures 0 <= m.matchScore <= 100
  {
    var n := |userTopTags|;
    assert Distinct(m.matchedTags) by {
      SubsequenceMultiset(m.matchedTags, m.hobby.matchTags);
      forall i, j | 0 <= i < j < |m.matchedTags| ensures m.matchedTags[i] != m.matchedTags[j] {
        if m.matchedTags[i] == m.matchedTags[j] {
          RepeatMultiplicity(m.matchedTags, i, j);
          DistinctMultiplicity(m.hobby.matchTags, m.matchedTags[i]);
        }
      }
    }
    DistinctDrawnFromIsShorter(m.matchedTags, userTopTags);
    RoundedPercentRange(|m.matchedTags|, n);
    assert m.matchScore == RoundedPercent(|m.matchedTags|, n) by {
      RoundedPercentIsUnique(|m.matchedTags|, n, m.matchScore);
    }
  }

  /** When no catalog hobby repeats a match tag, every score lies between 0 and 100. */
  lemma ScoreWithinPercent(hobbies: seq<StepUpHobby>, userTopTags: seq<Tag>)
    requires forall i :: 0 <= i < |hobbies| ==> Distinct(hobbies[i].matchTags)
    ensures forall k :: 0 <= k < |MatchStepUpHobbies(hobbies, userTopTags)| ==>
      0 <= MatchStepUpHobbies(hobbies, userTopTags)[k].matchScore <= 100
  {
    var r := MatchStepUpHobbies(hobbies, userTopTags);
    forall k | 0 <= k < |r| ensures 0 <= r[k].matchScore <= 100 {
      assert r[k].hobby in hobbies;
      ResultWithinPercent(r[k], userTopTags);
    }
  }

  /** A one-hobby catalog that overlaps the user's tags yields exactly one result, for it. */
  lemma SingleHobbyMatch(h: StepUpHobby, userTopTags: seq<Tag>)
    requires HasOverlap(h, userTopTags)
    ensures |MatchStepUpHobbies([h], userTopTags)| == 1
    ensures MatchStepUpHobbies([h], userTopTags)[0].hobby == h
    ensures IsMatchOf(MatchStepUpHobbies([h], userTopTags)[0], userTopTags)
  {
    var r := MatchStepUpHobbies([h], userTopTags);
    assert h in [h];
    var k :| 0 <= k < |r| && r[k].hobby == h;
  }

  /** A sequence holding only `x` holds it once per position. */
  lemma {:induction false} ConstantMultiplicity<T>(s: seq<T>, x: T)
    requires forall k :: 0 <= k < |s| ==> s[k] == x
    ensures multiset(s)[x] == |s|
    decreases |s|
  {
    if |s| > 0 {
      assert s == [s[0]] + s[1..];
      ConstantMultiplicity(s[1..], x);
    }
  }

  /** A well-formed result for a hobby whose match tags are `[t, t]`, against the user tags `[t]`. */
  lemma DoubledTagMatch(m: MatchResult, t: Tag)
    requires m.hobby.matchTags == [t, t]
    requires IsMatchOf(m, [t])
    ensures m.matchedTags == [t, t] && m.matchScore == 200
  {
    assert multiset(m.matchedTags)[t] == 2 by {
      assert t in m.hobby.matchTags;
      assert multiset(m.hobby.matchTags) == multiset{t, t};
    }
    assert forall k :: 0 <= k < |m.matchedTags| ==> m.matchedTags[k] == t by {
      forall k | 0 <= k < |m.matchedTags| ensures m.matchedTags[k] == t {
        assert m.matchedTags[k] in [t];
      }
    }
    ConstantMultiplicity(m.matchedTags, t);
    assert 2 * m.matchScore <= 401 < 2 * m.matchScore + 2;
  }

  /**
   * Without distinct match tags the percentage bound fails: a hobby listing the user's only
   * tag twice matches it twice and scores 200.
   */
  lemma RepeatedMatchTagScoresTwoHundred(h: StepUpHobby, t: Tag)
    requires h.matchTags == [t, t]
    ensures MatchStepUpHobbies([h], [t]) == [MatchResult(h, 200, [t, t])]
  {
    assert HasOverlap(h, [t]) by {
      assert h.matchTags[0] in [t];
    }
    SingleHobbyMatch(h, [t]);
    var r := MatchStepUpHobbies([h], [t]);
    DoubledTagMatch(r[0], t);
    assert r == [r[0]];
  }

  /** Results that tie on both score and matched-tag count keep their catalog order. */
  lemma TiesKeepCatalogOrder(hobbies: seq<StepUpHobby>, userTopTags: seq<Tag>, k: Key)
    requires |userTopTags| > 0
    ensures Ties(MatchStepUpHobbies(hobbies, userTopTags), ScoreThenMatched, k)
         == Ties(Candidates(hobbies, userTopTags), ScoreThenMatched, k)
  {
    SortIsStable(Candidates(hobbies, userTopTags), ScoreThenMatched, k);
  }

  /**
   * `findStepUpHobbyById(stepUpHobbies, id)`: the first hobby with the id, or nothing when
   * no hobby has it (in particular for an empty catalog).
   */
  function FindStepUpHobbyById(hobbies: seq<StepUpHobby>, id: int): (r: Option<StepUpHobby>)
    ensures r.None? <==> forall k :: 0 <= k < |hobbies| ==> hobbies[k].id != id
    ensures r.Some? ==> exists k :: (0 <= k < |hobbies| && hobbies[k] == r.value && r.value.id == id &&
      forall m :: 0 <= m < k ==> hobbies[m].id != id)
  {
    FindFirst(hobbies, (h: StepUpHobby) => h.id == id)
  }
}
