/**
 * The hobby-log aggregate kept by `useHobbyLog`: the list of tries plus two cached
 * fields, the number of "great" tries and the three most frequent tags. Every add and
 * delete re-reads the stored log, recomputes both cached fields from the new entry list,
 * and replaces the in-memory log only when the write succeeds. Storage is abstracted to
 * the value read (absent or unreadable: `None`) and the success flag of the write.
 */
module HobbyLogHook {
  import opened Wrappers
  import opened Types
  import opened Seqs
  import opened Ranking
  import opened TagTally
  import MatchStepUp
  import AnalyzeTags

  /** The persisted log with its cached fields. */
  datatype HobbyLog = HobbyLog(entries: seq<LogEntry>, greatCount: int, topTags: seq<Tag>)

  /** `createEmptyLog()`. */
  function CreateEmptyLog(): HobbyLog {
    HobbyLog([], 0, [])
  }

  /** The filter condition of `countGreatRatings`. */
  predicate IsGreat(e: LogEntry) {
    e.rating == Great
  }

  /** `countGreatRatings(entries)`: `entries.filter(e => e.rating === 'great').length`. */
  function CountGreatRatings(entries: seq<LogEntry>): (n: nat)
    ensures n <= |entries|
    ensures n == 0 <==> forall k :: 0 <= k < |entries| ==> entries[k].rating != Great
    ensures n == |entries| <==> forall k :: 0 <= k < |entries| ==> entries[k].rating == Great
  {
    FilterLength(entries, IsGreat);
    |Filter(entries, IsGreat)|
  }

  lemma CountGreatConcat(a: seq<LogEntry>, b: seq<LogEntry>)
    ensures CountGreatRatings(a + b) == CountGreatRatings(a) + CountGreatRatings(b)
  {
    FilterAppend(a, b, IsGreat);
  }

  /** Appending an entry adds one to the count exactly when the entry is "great". */
  lemma CountGreatAppend(entries: seq<LogEntry>, e: LogEntry)
    ensures CountGreatRatings(entries + [e]) == CountGreatRatings(entries) + (if e.rating == Great then 1 else 0)
  {
    CountGreatConcat(entries, [e]);
    assert Filter([e], IsGreat) == (if e.rating == Great then [e] else []) by {
      assert [e][1..] == [];
    }
  }

  /** Removing position `i` takes one off the count exactly when that entry is "great". */
  lemma CountGreatRemove(entries: seq<LogEntry>, i: int)
    requires 0 <= i < |entries|
    ensures CountGreatRatings(RemoveAt(entries, i)) + (if entries[i].rating == Great then 1 else 0)
         == CountGreatRatings(entries)
  {
    var front, back := entries[..i], entries[i + 1..];
    var upTo := front + [entries[i]];
    assert entries == upTo + back;
    CountGreatConcat(upTo, back);
    CountGreatAppend(front, entries[i]);
    CountGreatConcat(front, back);
  }

  // ---------------------------------------------------------------------------
  // calculateTopTags: raw tag frequency, top 3
  // ---------------------------------------------------------------------------

  /** `calculateTopTags` keeps `.slice(0, 3)`. */
  const TopTagCount: int := 3

  /** `hobbiesData.find(h => h.id === id)`: the first hobby with the id. */
  function FirstById(hobbies: seq<Hobby>, id: int): (r: Option<Hobby>)
    ensures r.None? <==> forall k :: 0 <= k < |hobbies| ==> hobbies[k].id != id
    ensures r.Some? ==> exists k :: (0 <= k < |hobbies| && hobbies[k] == r.value && r.value.id == id &&
      forall m :: 0 <= m < k ==> hobbies[m].id != id)
  {
    FindFirst(hobbies, (h: Hobby) => h.id == id)
  }

  /** The tag lists of the resolved entries, each occurrence counting one. */
  function HookContributions(entries: seq<LogEntry>, hobbies: seq<Hobby>): seq<Contribution>
    decreases |entries|
  {
    if |entries| == 0 then []
    else
      HookContributions(entries[..|entries| - 1], hobbies) +
      match FirstById(hobbies, entries[|entries| - 1].hobbyId)
      case Some(h) => [Contribution(h.tags, 1)]
      case None => []
  }

  /** How often `t` occurs among the tags of the resolved entries' hobbies. */
  function TagUses(entries: seq<LogEntry>, hobbies: seq<Hobby>, t: Tag): nat
    decreases |entries|
  {
    if |entries| == 0 then 0
    else
      TagUses(entries[..|entries| - 1], hobbies, t) +
      match FirstById(hobbies, entries[|entries| - 1].hobbyId)
      case Some(h) => CountIn(h.tags, t)
      case None => 0
  }

  /** The tags of the resolved entries' hobbies, one after another, in entry order. */
  function UsedTags(entries: seq<LogEntry>, hobbies: seq<Hobby>): seq<Tag>
    decreases |entries|
  {
    if |entries| == 0 then []
    else
      UsedTags(entries[..|entries| - 1], hobbies) +
      match FirstById(hobbies, entries[|entries| - 1].hobbyId)
      case Some(h) => h.tags
      case None => []
  }

  lemma {:induction false} HookContributionsFlatten(entries: seq<LogEntry>, hobbies: seq<Hobby>)
    ensures Flatten(HookContributions(entries, hobbies)) == UsedTags(entries, hobbies)
    decreases |entries|
  {
    if |entries| > 0 {
      var prev := entries[..|entries| - 1];
      var cs := HookContributions(entries, hobbies);
      HookContributionsFlatten(prev, hobbies);
      if FirstById(hobbies, entries[|entries| - 1].hobbyId).None? {
        assert cs == HookContributions(prev, hobbies);
      } else {
        assert cs[..|cs| - 1] == HookContributions(prev, hobbies);
      }
    }
  }

  lemma {:induction false} HookContributionTotals(entries: seq<LogEntry>, hobbies: seq<Hobby>, t: Tag)
    ensures Count(HookContributions(entries, hobbies), t) == TagUses(entries, hobbies, t)
    decreases |entries|
  {
    if |entries| > 0 {
      var prev := entries[..|entries| - 1];
      var cs := HookContributions(entries, hobbies);
      HookContributionTotals(prev, hobbies, t);
      if FirstById(hobbies, entries[|entries| - 1].hobbyId).None? {
        assert cs == HookContributions(prev, hobbies);
      } else {
        assert cs[..|cs| - 1] == HookContributions(prev, hobbies);
      }
    }
  }

  /** Sort comparator of `calculateTopTags`: occurrence count descending. */
  function CountOnly(st: TagStat): Key {
    Key(st.count, 0)
  }

  /**
   * `calculateTopTags(entries, hobbiesData)`: at most three distinct tags, each used by a
   * resolved entry, in non-increasing order of use; a more used tag is never left out or
   * placed after a less used one, and with fewer than three tags every used tag is there.
   * Ties go to the tag first met in entry order: equally used tags are in the order they
   * first occur, and an equally used tag left out first occurs after every kept one it ties.
   */
  function CalculateTopTags(entries: seq<LogEntry>, hobbies: seq<Hobby>): (r: seq<Tag>)
    ensures |r| <= TopTagCount
    ensures Distinct(r)
    ensures forall i :: 0 <= i < |r| ==> TagUses(entries, hobbies, r[i]) > 0
    ensures forall i, j :: 0 <= i < j < |r| ==> TagUses(entries, hobbies, r[i]) >= TagUses(entries, hobbies, r[j])
    ensures forall i, v ::
      (0 <= i < |r| && TagUses(entries, hobbies, v) > TagUses(entries, hobbies, r[i])) ==> v in r[..i]
    ensures |r| < TopTagCount ==> forall v :: TagUses(entries, hobbies, v) > 0 ==> v in r
    ensures forall i, j ::
      (0 <= i < j < |r| && TagUses(entries, hobbies, r[i]) == TagUses(entries, hobbies, r[j]))
      ==> FirstIndex(UsedTags(entries, hobbies), r[i]) < FirstIndex(UsedTags(entries, hobbies), r[j])
    ensures forall i, v ::
      (0 <= i < |r| && TagUses(entries, hobbies, v) > 0 && v !in r &&
       TagUses(entries, hobbies, v) == TagUses(entries, hobbies, r[i]))
      ==> FirstIndex(UsedTags(entries, hobbies), r[i]) < FirstIndex(UsedTags(entries, hobbies), v)
  {
    TopTagsByUse(entries, hobbies);
    TopTagsTieOrder(entries, hobbies);
    RankTags(HookContributions(entries, hobbies), CountOnly, TopTagCount)
  }

  /** The guarantees of the ranking, restated over the log entries. */
  lemma TopTagsByUse(entries: seq<LogEntry>, hobbies: seq<Hobby>)
    ensures var r := RankTags(HookContributions(entries, hobbies), CountOnly, TopTagCount);
      |r| <= TopTagCount && Distinct(r) &&
      (forall i :: 0 <= i < |r| ==> TagUses(entries, hobbies, r[i]) > 0) &&
      (forall i, j :: 0 <= i < j < |r| ==> TagUses(entries, hobbies, r[i]) >= TagUses(entries, hobbies, r[j])) &&
      (forall i, v ::
        (0 <= i < |r| && TagUses(entries, hobbies, v) > TagUses(entries, hobbies, r[i])) ==> v in r[..i]) &&
      (|r| < TopTagCount ==> forall v :: TagUses(entries, hobbies, v) > 0 ==> v in r)
  {
    var cs := HookContributions(entries, hobbies);
    RankTagsSpec(cs, CountOnly, TopTagCount);
    forall t ensures TagKey(cs, CountOnly, t) == Key(TagUses(entries, hobbies, t), 0)
      && Count(cs, t) == TagUses(entries, hobbies, t) {
      HookContributionTotals(entries, hobbies, t);
    }
  }

  /** The tie order of the ranking, restated over the log entries. */
  lemma TopTagsTieOrder(entries: seq<LogEntry>, hobbies: seq<Hobby>)
    ensures var r := RankTags(HookContributions(entries, hobbies), CountOnly, TopTagCount);
      forall i, j ::
        (0 <= i < j < |r| && TagUses(entries, hobbies, r[i]) == TagUses(entries, hobbies, r[j]))
        ==> FirstIndex(UsedTags(entries, hobbies), r[i]) < FirstIndex(UsedTags(entries, hobbies), r[j])
    ensures var r := RankTags(HookContributions(entries, hobbies), CountOnly, TopTagCount);
      forall i, v ::
        (0 <= i < |r| && TagUses(entries, hobbies, v) > 0 && v !in r &&
         TagUses(entries, hobbies, v) == TagUses(entries, hobbies, r[i]))
        ==> FirstIndex(UsedTags(entries, hobbies), r[i]) < FirstIndex(UsedTags(entries, hobbies), v)
  {
    var cs := HookContributions(entries, hobbies);
    RankTagsTieOrder(cs, CountOnly, TopTagCount);
    HookContributionsFlatten(entries, hobbies);
    forall t ensures TagKey(cs, CountOnly, t) == Key(TagUses(entries, hobbies, t), 0)
      && Count(cs, t) == TagUses(entries, hobbies, t) {
      HookContributionTotals(entries, hobbies, t);
    }
  }

  lemma {:induction false} HookContributionsAppend(a: seq<LogEntry>, b: seq<LogEntry>, hobbies: seq<Hobby>)
    ensures HookContributions(a + b, hobbies) == HookContributions(a, hobbies) + HookContributions(b, hobbies)
    decreases |b|
  {
    if |b| == 0 {
      assert a + b == a;
    } else {
      var b' := b[..|b| - 1];
      assert (a + b)[..|a + b| - 1] == a + b';
      HookContributionsAppend(a, b', hobbies);
    }
  }

  lemma SkippedContributions(a: seq<LogEntry>, e: LogEntry, b: seq<LogEntry>, hobbies: seq<Hobby>)
    requires FirstById(hobbies, e.hobbyId).None?
    ensures HookContributions(a + [e] + b, hobbies) == HookContributions(a + b, hobbies)
  {
    assert HookContributions([e], hobbies) == [] by {
      assert [e][..0] == [];
      assert HookContributions([e], hobbies) == HookContributions([], hobbies) + [];
    }
    var ae := a + [e];
    HookContributionsAppend(a, [e], hobbies);
    assert HookContributions(ae, hobbies) == HookContributions(a, hobbies);
    HookContributionsAppend(ae, b, hobbies);
    HookContributionsAppend(a, b, hobbies);
  }

  /** An entry whose hobby id is not in the catalog does not change the top tags. */
  lemma UnknownHobbyIsSkipped(a: seq<LogEntry>, e: LogEntry, b: seq<LogEntry>, hobbies: seq<Hobby>)
    requires forall k :: 0 <= k < |hobbies| ==> hobbies[k].id != e.hobbyId
    ensures CalculateTopTags(a + [e] + b, hobbies) == CalculateTopTags(a + b, hobbies)
  {
    SkippedContributions(a, e, b, hobbies);
  }

  /**
   * With unique catalog ids the first-match lookup here and the last-wins map of the tag
   * aggregator find the same hobby, so this ranking counts exactly the occurrences that
   * `analyzeUserTags` breaks ties with.
   */
  lemma {:induction false} UsesMatchAggregatorCounts(entries: seq<LogEntry>, hobbies: seq<Hobby>, t: Tag)
    requires forall i, j :: 0 <= i < j < |hobbies| ==> hobbies[i].id != hobbies[j].id
    ensures TagUses(entries, hobbies, t) == AnalyzeTags.Occurrences(entries, hobbies, t)
    decreases |entries|
  {
    if |entries| > 0 {
      UsesMatchAggregatorCounts(entries[..|entries| - 1], hobbies, t);
      LookupsAgree(hobbies, entries[|entries| - 1].hobbyId);
    }
  }

  lemma LookupsAgree(hobbies: seq<Hobby>, id: int)
    requires forall i, j :: 0 <= i < j < |hobbies| ==> hobbies[i].id != hobbies[j].id
    ensures FirstById(hobbies, id) == AnalyzeTags.LastById(hobbies, id)
  {
    var first := FirstById(hobbies, id);
    var last := AnalyzeTags.LastById(hobbies, id);
    if first.Some? {
      var k :| 0 <= k < |hobbies| && hobbies[k] == first.value && first.value.id == id;
      var m :| 0 <= m < |hobbies| && hobbies[m] == last.value && hobbies[m].id == id;
      assert k == m;
    }
  }

  // ---------------------------------------------------------------------------
  // The cached fields and the update rules
  // ---------------------------------------------------------------------------

  /** The cached fields equal their recomputation from the entries. */
  predicate Consistent(log: HobbyLog, hobbies: seq<Hobby>) {
    log.greatCount == CountGreatRatings(log.entries) && log.topTags == CalculateTopTags(log.entries, hobbies)
  }

  /** The empty log is consistent with any catalog. */
  lemma EmptyLogIsConsistent(hobbies: seq<Hobby>)
    ensures Consistent(CreateEmptyLog(), hobbies)
    ensures CreateEmptyLog().entries == [] && CreateEmptyLog().greatCount == 0 && CreateEmptyLog().topTags == []
  {
    var cs := HookContributions([], hobbies);
    assert cs == [];
    assert Tally(cs) == [];
    assert SortDesc(Tally(cs), CountOnly) == [];
  }

  /** `getItem() ?? createEmptyLog()`: the stored log, or the empty one when nothing is readable. */
  function LoadLog(stored: Option<HobbyLog>): HobbyLog {
    stored.GetOr(CreateEmptyLog())
  }

  /** A new log with both cached fields recomputed from `entries`. */
  function Recompute(entries: seq<LogEntry>, hobbies: seq<Hobby>): (r: HobbyLog)
    ensures r.entries == entries
    ensures Consistent(r, hobbies)
  {
    HobbyLog(entries, CountGreatRatings(entries), CalculateTopTags(entries, hobbies))
  }

  /** One add or delete: the log handed to storage, the in-memory log after it, the result. */
  datatype Update = Update(written: HobbyLog, log: HobbyLog, success: bool)

  /** The in-memory log is replaced by the written one only when the write succeeded. */
  function Commit(current: HobbyLog, written: HobbyLog, writeOk: bool): Update {
    Update(written, if writeOk then written else current, writeOk)
  }

  /**
   * `addEntry(hobbyId, rating, hobbiesData)`: append the new entry to the freshly read
   * log, recompute the cached fields, write, and keep the result only if the write worked.
   */
  function AddEntry(current: HobbyLog, stored: Option<HobbyLog>, hobbyId: int, rating: Rating,
                    loggedAt: string, hobbies: seq<Hobby>, writeOk: bool): (u: Update)
    ensures u.success == writeOk
    ensures u.written.entries == LoadLog(stored).entries + [LogEntry(hobbyId, rating, loggedAt)]
    ensures u.written.greatCount == CountGreatRatings(LoadLog(stored).entries) + (if rating == Great then 1 else 0)
    ensures Consistent(u.written, hobbies)
    ensures writeOk ==> u.log == u.written
    ensures !writeOk ==> u.log == current
    ensures Consistent(current, hobbies) ==> Consistent(u.log, hobbies)
  {
    var base := LoadLog(stored);
    var entry := LogEntry(hobbyId, rating, loggedAt);
    CountGreatAppend(base.entries, entry);
    Commit(current, Recompute(base.entries + [entry], hobbies), writeOk)
  }

  /**
   * `deleteEntry(index, hobbiesData)`: drop position `index` of the freshly read log (an
   * index outside the log drops nothing), recompute, write, keep only if the write worked.
   */
  function DeleteEntry(current: HobbyLog, stored: Option<HobbyLog>, index: int,
                       hobbies: seq<Hobby>, writeOk: bool): (u: Update)
    ensures u.success == writeOk
    ensures 0 <= index < |LoadLog(stored).entries| ==>
      u.written.entries == LoadLog(stored).entries[..index] + LoadLog(stored).entries[index + 1..]
    ensures !(0 <= index < |LoadLog(stored).entries|) ==> u.written.entries == LoadLog(stored).entries
    ensures 0 <= index < |LoadLog(stored).entries| ==>
      u.written.greatCount + (if LoadLog(stored).entries[index].rating == Great then 1 else 0)
      == CountGreatRatings(LoadLog(stored).entries)
    ensures Consistent(u.written, hobbies)
    ensures writeOk ==> u.log == u.written
    ensures !writeOk ==> u.log == current
    ensures Consistent(current, hobbies) ==> Consistent(u.log, hobbies)
  {
    var base := LoadLog(stored);
    assert 0 <= index < |base.entries| ==>
      CountGreatRatings(RemoveAt(base.entries, index)) + (if base.entries[index].rating == Great then 1 else 0)
      == CountGreatRatings(base.entries) by {
      if 0 <= index < |base.entries| {
        CountGreatRemove(base.entries, index);
      }
    }
    Commit(current, Recompute(RemoveAt(base.entries, index), hobbies), writeOk)
  }

  /** A consistent stored log loads as a consistent in-memory log. */
  lemma LoadKeepsCacheConsistent(stored: Option<HobbyLog>, hobbies: seq<Hobby>)
    requires stored.Some? ==> Consistent(stored.value, hobbies)
    ensures Consistent(LoadLog(stored), hobbies)
  {
    if stored.None? {
      EmptyLogIsConsistent(hobbies);
    }
  }

  /**
   * The hook's `isStepUpUnlocked()`: `log.greatCount >= 3`, the same gate as the step-up
   * matcher's; on a consistent log, three or more "great" entries.
   */
  function HookIsStepUpUnlocked(log: HobbyLog, hobbies: seq<Hobby>): (r: bool)
    ensures r <==> MatchStepUp.IsStepUpUnlocked(log.greatCount)
    ensures Consistent(log, hobbies) ==> (r <==> CountGreatRatings(log.entries) >= MatchStepUp.StepUpUnlockThreshold)
  {
    log.greatCount >= 3
  }
}
