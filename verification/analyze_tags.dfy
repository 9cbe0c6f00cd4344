/**
 * The tag aggregator: a user's log of rated tries becomes a ranking of tags, weighted by
 * rating (great 3, good 2, meh 1) and broken by raw occurrence count; plus the unweighted
 * frequency table and the weighted score of a single tag. Log entries whose hobby id is
 * not in the catalog are skipped without error.
 */
module AnalyzeTags {
  import opened Wrappers
  import opened Types
  import opened Seqs
  import opened Ranking
  import opened TagTally

  /** RATING_WEIGHTS. */
  function RatingWeight(r: Rating): (w: int)
    ensures 1 <= w <= 3
    ensures r == Meh <==> w == 1
    ensures r == Good <==> w == 2
    ensures r == Great <==> w == 3
  {
    match r
    case Great => 3
    case Good => 2
    case Meh => 1
  }

  /**
   * `hobbyMap.get(id)` for a map filled by `hobbyMap.set(h.id, h)` over the catalog: a later
   * hobby overwrites an earlier one with the same id, so the lookup finds the last.
   */
  function LastById(hobbies: seq<Hobby>, id: int): (r: Option<Hobby>)
    ensures r.None? <==> forall k :: 0 <= k < |hobbies| ==> hobbies[k].id != id
    ensures r.Some? ==> exists k :: (0 <= k < |hobbies| && hobbies[k] == r.value && hobbies[k].id == id &&
      forall m :: k < m < |hobbies| ==> hobbies[m].id != id)
    decreases |hobbies|
  {
    if |hobbies| == 0 then None
    else if hobbies[|hobbies| - 1].id == id then Some(hobbies[|hobbies| - 1])
    else LastById(hobbies[..|hobbies| - 1], id)
  }

  /** What the entries feed into the tally: the tags and rating weight of each resolved entry. */
  function Contributions(entries: seq<LogEntry>, hobbies: seq<Hobby>): seq<Contribution>
    decreases |entries|
  {
    if |entries| == 0 then []
    else
      var last := entries[|entries| - 1];
      Contributions(entries[..|entries| - 1], hobbies) +
      match LastById(hobbies, last.hobbyId)
      case Some(h) => [Contribution(h.tags, RatingWeight(last.rating))]
      case None => []
  }

  // ---------------------------------------------------------------------------
  // Reference totals over the log
  // ---------------------------------------------------------------------------

  /** How often `t` occurs among the tags of the resolved entries' hobbies, whatever the rating. */
  function Occurrences(entries: seq<LogEntry>, hobbies: seq<Hobby>, t: Tag): nat
    decreases |entries|
  {
    if |entries| == 0 then 0
    else
      Occurrences(entries[..|entries| - 1], hobbies, t) +
      match LastById(hobbies, entries[|entries| - 1].hobbyId)
      case Some(h) => CountIn(h.tags, t)
      case None => 0
  }

  /** The rating weight summed over every occurrence of `t` among the resolved entries' hobby tags. */
  function WeightedScore(entries: seq<LogEntry>, hobbies: seq<Hobby>, t: Tag): int
    decreases |entries|
  {
    if |entries| == 0 then 0
    else
      var last := entries[|entries| - 1];
      WeightedScore(entries[..|entries| - 1], hobbies, t) +
      match LastById(hobbies, last.hobbyId)
      case Some(h) => WeightIn(h.tags, t, RatingWeight(last.rating))
      case None => 0
  }

  /** The pair a tag ranks by: weighted score, then occurrence count. */
  function RankKey(entries: seq<LogEntry>, hobbies: seq<Hobby>, t: Tag): Key {
    Key(WeightedScore(entries, hobbies, t), Occurrences(entries, hobbies, t))
  }

  lemma {:induction false} ContributionTotals(entries: seq<LogEntry>, hobbies: seq<Hobby>, t: Tag)
    ensures Count(Contributions(entries, hobbies), t) == Occurrences(entries, hobbies, t)
    ensures Score(Contributions(entries, hobbies), t) == WeightedScore(entries, hobbies, t)
    decreases |entries|
  {
    if |entries| > 0 {
      var prev := entries[..|entries| - 1];
      var cs := Contributions(entries, hobbies);
      ContributionTotals(prev, hobbies, t);
      if LastById(hobbies, entries[|entries| - 1].hobbyId).None? {
        assert cs == Contributions(prev, hobbies);
      } else {
        assert cs[..|cs| - 1] == Contributions(prev, hobbies);
      }
    }
  }

  /** A tag with a positive count occurs in the tags of some resolved entry's hobby. */
  lemma {:induction false} OccurrenceWitness(entries: seq<LogEntry>, hobbies: seq<Hobby>, t: Tag)
    requires Occurrences(entries, hobbies, t) > 0
    ensures exists k :: (0 <= k < |entries| && LastById(hobbies, entries[k].hobbyId).Some? &&
      t in LastById(hobbies, entries[k].hobbyId).value.tags)
    decreases |entries|
  {
    var n := |entries| - 1;
    var found := LastById(hobbies, entries[n].hobbyId);
    if found.Some? && CountIn(found.value.tags, t) > 0 {
      CountInMembership(found.value.tags, t);
    } else {
      OccurrenceWitness(entries[..n], hobbies, t);
      var k :| 0 <= k < n && LastById(hobbies, entries[..n][k].hobbyId).Some? &&
        t in LastById(hobbies, entries[..n][k].hobbyId).value.tags;
      assert entries[..n][k] == entries[k];
    }
  }

  lemma {:induction false} CountInMembership(tags: seq<Tag>, t: Tag)
    ensures CountIn(tags, t) > 0 <==> t in tags
    decreases |tags|
  {
    if |tags| > 0 {
      CountInMembership(tags[1..], t);
      assert tags == [tags[0]] + tags[1..];
    }
  }

  /** Sort comparator of `analyzeUserTags`: score descending, then count descending. */
  function ScoreThenCount(st: TagStat): Key {
    Key(st.score, st.count)
  }

  /**
   * `analyzeUserTags(entries, hobbies, topN)`: at most `topN` distinct tags, each from a
   * resolved entry's hobby, in non-increasing (score, count) order; a tag is left out, or
   * placed after another, only if its (score, count) does not beat that other tag's.
   */
  function AnalyzeUserTags(entries: seq<LogEntry>, hobbies: seq<Hobby>, topN: int): (r: seq<Tag>)
    ensures |entries| == 0 ==> r == []
    ensures 0 <= topN ==> |r| <= topN
    ensures Distinct(r)
    ensures forall i :: 0 <= i < |r| ==> Occurrences(entries, hobbies, r[i]) > 0
    ensures forall i, j :: 0 <= i < j < |r| ==>
      KeyGe(RankKey(entries, hobbies, r[i]), RankKey(entries, hobbies, r[j]))
    ensures forall i, v ::
      (0 <= i < |r| && Occurrences(entries, hobbies, v) > 0 &&
       KeyGt(RankKey(entries, hobbies, v), RankKey(entries, hobbies, r[i])))
      ==> v in r[..i]
    ensures 0 <= topN && |r| < topN ==> forall v :: Occurrences(entries, hobbies, v) > 0 ==> v in r
  {
    if |entries| == 0 then []
    else
      var cs := Contributions(entries, hobbies);
      RankTagsSpec(cs, ScoreThenCount, topN);
      forall t ensures TagKey(cs, ScoreThenCount, t) == RankKey(entries, hobbies, t)
        && Count(cs, t) == Occurrences(entries, hobbies, t) {
        ContributionTotals(entries, hobbies, t);
      }
      RankTags(cs, ScoreThenCount, topN)
  }

  /** The tags of the resolved entries' hobbies, one after another, in entry order. */
  function ResolvedTags(entries: seq<LogEntry>, hobbies: seq<Hobby>): seq<Tag>
    decreases |entries|
  {
    if |entries| == 0 then []
    else
      ResolvedTags(entries[..|entries| - 1], hobbies) +
      match LastById(hobbies, entries[|entries| - 1].hobbyId)
      case Some(h) => h.tags
      case None => []
  }

  /**
   * How many tags come back when there are entries (none come back otherwise):
   * `slice(0, topN)` of the k distinct tags of the resolved entries keeps `min(topN, k)` of them for a non-negative `topN`, and drops `-topN` from
   * the back, keeping `max(0, k + topN)`, for a negative one.
   */
  lemma AnalyzeUserTagsLength(entries: seq<LogEntry>, hobbies: seq<Hobby>, topN: int)
    ensures |entries| > 0 && 0 <= topN ==>
      |AnalyzeUserTags(entries, hobbies, topN)| == Min(topN, |Elements(ResolvedTags(entries, hobbies))|)
    ensures |entries| > 0 && topN < 0 ==>
      |AnalyzeUserTags(entries, hobbies, topN)| == Max(0, |Elements(ResolvedTags(entries, hobbies))| + topN)
  {
    if |entries| > 0 {
      var cs := Contributions(entries, hobbies);
      TallySize(cs);
      ContributionsFlatten(entries, hobbies);
      assert |AnalyzeUserTags(entries, hobbies, topN)| == SliceEnd(|Tally(cs)|, topN);
    }
  }

  lemma {:induction false} ContributionsFlatten(entries: seq<LogEntry>, hobbies: seq<Hobby>)
    ensures Flatten(Contributions(entries, hobbies)) == ResolvedTags(entries, hobbies)
    decreases |entries|
  {
    if |entries| > 0 {
      var prev := entries[..|entries| - 1];
      var cs := Contributions(entries, hobbies);
      ContributionsFlatten(prev, hobbies);
      if LastById(hobbies, entries[|entries| - 1].hobbyId).None? {
        assert cs == Contributions(prev, hobbies);
      } else {
        assert cs[..|cs| - 1] == Contributions(prev, hobbies);
      }
    }
  }

  /**
   * Ties on both score and count go to the tag met first: returned tags that tie are in the
   * order they first occur among the resolved entries' tags, and a tying tag that was cut
   * off first occurs after every returned tag it ties with.
   */
  lemma AnalyzeUserTagsTieOrder(entries: seq<LogEntry>, hobbies: seq<Hobby>, topN: int)
    ensures var r := AnalyzeUserTags(entries, hobbies, topN);
      forall i, j ::
        (0 <= i < j < |r| && RankKey(entries, hobbies, r[i]) == RankKey(entries, hobbies, r[j]))
        ==> FirstIndex(ResolvedTags(entries, hobbies), r[i]) < FirstIndex(ResolvedTags(entries, hobbies), r[j])
    ensures var r := AnalyzeUserTags(entries, hobbies, topN);
      forall i, v ::
        (0 <= i < |r| && Occurrences(entries, hobbies, v) > 0 && v !in r &&
         RankKey(entries, hobbies, v) == RankKey(entries, hobbies, r[i]))
        ==> FirstIndex(ResolvedTags(entries, hobbies), r[i]) < FirstIndex(ResolvedTags(entries, hobbies), v)
  {
    if |entries| > 0 {
      var cs := Contributions(entries, hobbies);
      RankTagsTieOrder(cs, ScoreThenCount, topN);
      ContributionsFlatten(entries, hobbies);
      forall t ensures TagKey(cs, ScoreThenCount, t) == RankKey(entries, hobbies, t)
        && Count(cs, t) == Occurrences(entries, hobbies, t) {
        ContributionTotals(entries, hobbies, t);
      }
    }
  }

  /** Every tag `analyzeUserTags` returns is a tag of some resolved entry's hobby. */
  lemma ReturnedTagsComeFromResolvedHobbies(entries: seq<LogEntry>, hobbies: seq<Hobby>, topN: int, i: nat)
    requires i < |AnalyzeUserTags(entries, hobbies, topN)|
    ensures exists k :: (0 <= k < |entries| && LastById(hobbies, entries[k].hobbyId).Some? &&
      AnalyzeUserTags(entries, hobbies, topN)[i] in LastById(hobbies, entries[k].hobbyId).value.tags)
  {
    OccurrenceWitness(entries, hobbies, AnalyzeUserTags(entries, hobbies, topN)[i]);
  }

  /**
   * `getTagFrequency`: exactly the tags occurring in a resolved entry's hobby, each mapped
   * to its occurrence count, whatever the ratings.
   */
  function GetTagFrequency(entries: seq<LogEntry>, hobbies: seq<Hobby>): (m: map<Tag, int>)
    ensures forall t :: t in m <==> Occurrences(entries, hobbies, t) > 0
    ensures forall t :: t in m ==> m[t] == Occurrences(entries, hobbies, t)
  {
    var cs := Contributions(entries, hobbies);
    var stats := Tally(cs);
    TallyIsExact(cs);
    forall t ensures Count(cs, t) == Occurrences(entries, hobbies, t) {
      ContributionTotals(entries, hobbies, t);
    }
    forall t | t in TagsOf(stats) ensures CountOf(stats, t) == Occurrences(entries, hobbies, t) {
      var k :| 0 <= k < |stats| && stats[k].tag == t;
      SlotIsLookup(stats, k);
    }
    map t | t in TagsOf(stats) :: CountOf(stats, t)
  }

  // ---------------------------------------------------------------------------
  // The score of a single tag
  // ---------------------------------------------------------------------------

  /** Rating weight summed over the resolved entries whose hobby lists `t` (once per entry). */
  function TagScore(t: Tag, entries: seq<LogEntry>, hobbies: seq<Hobby>): int
    decreases |entries|
  {
    if |entries| == 0 then 0
    else
      var last := entries[|entries| - 1];
      TagScore(t, entries[..|entries| - 1], hobbies) +
      match LastById(hobbies, last.hobbyId)
      case Some(h) => if t in h.tags then RatingWeight(last.rating) else 0
      case None => 0
  }

  /** `calculateTagScore(tag, entries, hobbies)`: the loop over the entries. */
  method CalculateTagScore(tag: Tag, entries: seq<LogEntry>, hobbies: seq<Hobby>) returns (score: int)
    ensures score == TagScore(tag, entries, hobbies)
    ensures score >= 0
    ensures (forall k :: 0 <= k < |entries| ==>
      LastById(hobbies, entries[k].hobbyId).None? || tag !in LastById(hobbies, entries[k].hobbyId).value.tags)
      ==> score == 0
  {
    score := 0;
    var k := 0;
    while k < |entries|
      invariant 0 <= k <= |entries|
      invariant score == TagScore(tag, entries[..k], hobbies)
      invariant score >= 0
      invariant (forall m :: 0 <= m < k ==>
        LastById(hobbies, entries[m].hobbyId).None? || tag !in LastById(hobbies, entries[m].hobbyId).value.tags)
        ==> score == 0
    {
      var entry := entries[k];
      var hobby := LastById(hobbies, entry.hobbyId);
      assert entries[..k + 1][..k] == entries[..k];
      if hobby.Some? && tag in hobby.value.tags {
        score := score + RatingWeight(entry.rating);
      }
      k := k + 1;
    }
    assert entries[..k] == entries;
  }

  lemma {:induction false} WeightInWithoutRepeats(tags: seq<Tag>, t: Tag, w: int)
    requires Distinct(tags)
    ensures WeightIn(tags, t, w) == if t in tags then w else 0
    decreases |tags|
  {
    if |tags| > 0 {
      assert tags == [tags[0]] + tags[1..];
      WeightInWithoutRepeats(tags[1..], t, w);
    }
  }

  /**
   * When no catalog hobby lists a tag twice, `calculateTagScore` agrees with the weighted
   * score `analyzeUserTags` ranks by.
   */
  lemma {:induction false} TagScoreMatchesRanking(t: Tag, entries: seq<LogEntry>, hobbies: seq<Hobby>)
    requires forall k :: 0 <= k < |hobbies| ==> Distinct(hobbies[k].tags)
    ensures TagScore(t, entries, hobbies) == WeightedScore(entries, hobbies, t)
    decreases |entries|
  {
    if |entries| > 0 {
      var last := entries[|entries| - 1];
      TagScoreMatchesRanking(t, entries[..|entries| - 1], hobbies);
      match LastById(hobbies, last.hobbyId)
      case Some(h) => WeightInWithoutRepeats(h.tags, t, RatingWeight(last.rating));
      case None =>
    }
  }

  // ---------------------------------------------------------------------------
  // Unknown hobby ids are skipped
  // ---------------------------------------------------------------------------

  lemma {:induction false} ContributionsAppend(a: seq<LogEntry>, b: seq<LogEntry>, hobbies: seq<Hobby>)
    ensures Contributions(a + b, hobbies) == Contributions(a, hobbies) + Contributions(b, hobbies)
    decreases |b|
  {
    if |b| == 0 {
      assert a + b == a;
    } else {
      var b' := b[..|b| - 1];
      assert (a + b)[..|a + b| - 1] == a + b';
      ContributionsAppend(a, b', hobbies);
    }
  }

  lemma {:induction false} TagScoreAppend(t: Tag, a: seq<LogEntry>, b: seq<LogEntry>, hobbies: seq<Hobby>)
    ensures TagScore(t, a + b, hobbies) == TagScore(t, a, hobbies) + TagScore(t, b, hobbies)
    decreases |b|
  {
    if |b| == 0 {
      assert a + b == a;
    } else {
      var b' := b[..|b| - 1];
      assert (a + b)[..|a + b| - 1] == a + b';
      TagScoreAppend(t, a, b', hobbies);
    }
  }

  /**
   * An entry whose hobby id is not in the catalog contributes nothing: removing it from
   * anywhere in the log changes neither the ranking, nor the frequency table, nor any
   * tag's score.
   */
  lemma SkippedContributions(a: seq<LogEntry>, e: LogEntry, b: seq<LogEntry>, hobbies: seq<Hobby>)
    requires LastById(hobbies, e.hobbyId).None?
    ensures Contributions(a + [e] + b, hobbies) == Contributions(a + b, hobbies)
  {
    assert Contributions([e], hobbies) == [] by {
      assert [e][..0] == [];
      assert Contributions([e], hobbies) == Contributions([], hobbies) + [];
    }
    var ae := a + [e];
    ContributionsAppend(a, [e], hobbies);
    assert Contributions(ae, hobbies) == Contributions(a, hobbies);
    ContributionsAppend(ae, b, hobbies);
    ContributionsAppend(a, b, hobbies);
  }

  lemma SkippedTagScore(t: Tag, a: seq<LogEntry>, e: LogEntry, b: seq<LogEntry>, hobbies: seq<Hobby>)
    requires LastById(hobbies, e.hobbyId).None?
    ensures TagScore(t, a + [e] + b, hobbies) == TagScore(t, a + b, hobbies)
  {
    assert TagScore(t, [e], hobbies) == 0 by {
      assert [e][..0] == [];
    }
    var ae := a + [e];
    TagScoreAppend(t, a, [e], hobbies);
    TagScoreAppend(t, ae, b, hobbies);
    TagScoreAppend(t, a, b, hobbies);
  }

  /**
   * An entry whose hobby id is not in the catalog is skipped: it changes neither the
   * ranking, nor the frequency map, nor any tag's score.
   */
  lemma UnknownHobbyIsSkipped(a: seq<LogEntry>, e: LogEntry, b: seq<LogEntry>, hobbies: seq<Hobby>, topN: int, t: Tag)
    requires forall k :: 0 <= k < |hobbies| ==> hobbies[k].id != e.hobbyId
    ensures AnalyzeUserTags(a + [e] + b, hobbies, topN) == AnalyzeUserTags(a + b, hobbies, topN)
    ensures GetTagFrequency(a + [e] + b, hobbies) == GetTagFrequency(a + b, hobbies)
    ensures TagScore(t, a + [e] + b, hobbies) == TagScore(t, a + b, hobbies)
  {
    SkippedContributions(a, e, b, hobbies);
    SkippedTagScore(t, a, e, b, hobbies);
    if |a + b| == 0 {
      assert Contributions(a + [e] + b, hobbies) == [];
      assert AnalyzeUserTags(a + [e] + b, hobbies, topN) == [];
    }
  }
}
