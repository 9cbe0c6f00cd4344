/**
 * The per-tag tally both rankings build: for every resolved log entry and every tag of its
 * hobby, add the entry's weight to the tag's score and one to its count. The tally is kept
 * in the iteration order of the source's `Map` / plain object: a tag's slot is created the
 * first time the tag is seen and updated in place afterwards.
 */
module TagTally {
  import opened Types
  import opened Seqs
  import opened Ranking

  /** The tag list of one resolved log entry and the weight that entry carries. */
  datatype Contribution = Contribution(tags: seq<Tag>, weight: int)

  /** A tag's running totals: summed weight and number of occurrences. */
  datatype TagStat = TagStat(tag: Tag, score: int, count: int)

  function TagsOf(stats: seq<TagStat>): (r: seq<Tag>)
    ensures |r| == |stats|
    ensures forall k :: 0 <= k < |r| ==> r[k] == stats[k].tag
  {
    seq(|stats|, k requires 0 <= k < |stats| => stats[k].tag)
  }

  // ---------------------------------------------------------------------------
  // Reference totals, defined directly over the contributions
  // ---------------------------------------------------------------------------

  /** How many times `t` occurs in `tags`. */
  function CountIn(tags: seq<Tag>, t: Tag): nat
    decreases |tags|
  {
    if |tags| == 0 then 0 else (if tags[0] == t then 1 else 0) + CountIn(tags[1..], t)
  }

  /** `w` for every occurrence of `t` in `tags`. */
  function WeightIn(tags: seq<Tag>, t: Tag, w: int): int
    decreases |tags|
  {
    if |tags| == 0 then 0 else (if tags[0] == t then w else 0) + WeightIn(tags[1..], t, w)
  }

  /** Number of (contribution, tag occurrence) pairs naming `t`. */
  function Count(cs: seq<Contribution>, t: Tag): nat
    decreases |cs|
  {
    if |cs| == 0 then 0 else Count(cs[..|cs| - 1], t) + CountIn(cs[|cs| - 1].tags, t)
  }

  /** Sum of the contribution's weight over every (contribution, tag occurrence) pair naming `t`. */
  function Score(cs: seq<Contribution>, t: Tag): int
    decreases |cs|
  {
    if |cs| == 0 then 0 else Score(cs[..|cs| - 1], t) + WeightIn(cs[|cs| - 1].tags, t, cs[|cs| - 1].weight)
  }

  /** The totals the tally must hold for `t`. */
  function RefStat(cs: seq<Contribution>, t: Tag): TagStat {
    TagStat(t, Score(cs, t), Count(cs, t))
  }

  // ---------------------------------------------------------------------------
  // The tally as the source builds it
  // ---------------------------------------------------------------------------

  /** One `map.set(t, {score + w, count + 1})`: update `t`'s slot, or append a new slot. */
  function Bump(stats: seq<TagStat>, t: Tag, w: int): seq<TagStat>
    decreases |stats|
  {
    if |stats| == 0 then [TagStat(t, w, 1)]
    else if stats[0].tag == t then [TagStat(t, stats[0].score + w, stats[0].count + 1)] + stats[1..]
    else [stats[0]] + Bump(stats[1..], t, w)
  }

  /** `for (const tag of hobby.tags)` with the entry's weight. */
  function AddTags(stats: seq<TagStat>, tags: seq<Tag>, w: int): seq<TagStat>
    decreases |tags|
  {
    if |tags| == 0 then stats else AddTags(Bump(stats, tags[0], w), tags[1..], w)
  }

  /** `for (const entry of entries)` over the resolved entries. */
  function Tally(cs: seq<Contribution>): seq<TagStat>
    decreases |cs|
  {
    if |cs| == 0 then [] else AddTags(Tally(cs[..|cs| - 1]), cs[|cs| - 1].tags, cs[|cs| - 1].weight)
  }

  /** The score recorded for `t`, 0 when `t` has no slot (`map.get(t) ?? 0`). */
  function ScoreOf(stats: seq<TagStat>, t: Tag): int
    decreases |stats|
  {
    if |stats| == 0 then 0 else if stats[0].tag == t then stats[0].score else ScoreOf(stats[1..], t)
  }

  /** The count recorded for `t`, 0 when `t` has no slot. */
  function CountOf(stats: seq<TagStat>, t: Tag): int
    decreases |stats|
  {
    if |stats| == 0 then 0 else if stats[0].tag == t then stats[0].count else CountOf(stats[1..], t)
  }

  /** One slot per tag, and every slot has been touched at least once. */
  predicate WellFormed(stats: seq<TagStat>) {
    Distinct(TagsOf(stats)) && forall k :: 0 <= k < |stats| ==> stats[k].count >= 1
  }

  lemma WellFormedTail(stats: seq<TagStat>)
    requires WellFormed(stats)
    requires |stats| > 0
    ensures WellFormed(stats[1..])
    ensures TagsOf(stats) == [stats[0].tag] + TagsOf(stats[1..])
  {
    assert forall i :: 0 <= i < |stats| - 1 ==> TagsOf(stats[1..])[i] == TagsOf(stats)[i + 1];
  }

  lemma {:induction false} CountOfPositive(stats: seq<TagStat>, t: Tag)
    requires WellFormed(stats)
    ensures t in TagsOf(stats) <==> CountOf(stats, t) > 0
    ensures t !in TagsOf(stats) ==> CountOf(stats, t) == 0 && ScoreOf(stats, t) == 0
    decreases |stats|
  {
    if |stats| > 0 {
      WellFormedTail(stats);
      CountOfPositive(stats[1..], t);
    }
  }

  /** The slot of a tag in a well-formed tally is the one the lookups find. */
  lemma {:induction false} SlotIsLookup(stats: seq<TagStat>, k: nat)
    requires WellFormed(stats)
    requires k < |stats|
    ensures stats[k] == TagStat(stats[k].tag, ScoreOf(stats, stats[k].tag), CountOf(stats, stats[k].tag))
    decreases k
  {
    if k > 0 {
      assert stats[0].tag != stats[k].tag by { assert TagsOf(stats)[0] != TagsOf(stats)[k]; }
      WellFormedTail(stats);
      SlotIsLookup(stats[1..], k - 1);
    }
  }

  lemma {:induction false} BumpLookup(stats: seq<TagStat>, t: Tag, w: int, u: Tag)
    ensures ScoreOf(Bump(stats, t, w), u) == ScoreOf(stats, u) + (if u == t then w else 0)
    ensures CountOf(Bump(stats, t, w), u) == CountOf(stats, u) + (if u == t then 1 else 0)
    decreases |stats|
  {
    if |stats| > 0 && stats[0].tag != t {
      BumpLookup(stats[1..], t, w, u);
      assert ([stats[0]] + Bump(stats[1..], t, w))[1..] == Bump(stats[1..], t, w);
    } else if |stats| > 0 {
      assert ([TagStat(t, stats[0].score + w, stats[0].count + 1)] + stats[1..])[1..] == stats[1..];
    }
  }

  lemma TagsOfCons(x: TagStat, stats: seq<TagStat>)
    ensures TagsOf([x] + stats) == [x.tag] + TagsOf(stats)
  {
  }

  /** A bump keeps the slot order and appends a slot only for a new tag. */
  lemma {:induction false} BumpTags(stats: seq<TagStat>, t: Tag, w: int)
    ensures TagsOf(Bump(stats, t, w)) == if t in TagsOf(stats) then TagsOf(stats) else TagsOf(stats) + [t]
    decreases |stats|
  {
    if |stats| == 0 {
      assert TagsOf(Bump(stats, t, w)) == [t];
    } else {
      var rest := TagsOf(stats[1..]);
      assert stats == [stats[0]] + stats[1..];
      TagsOfCons(stats[0], stats[1..]);
      if stats[0].tag == t {
        TagsOfCons(TagStat(t, stats[0].score + w, stats[0].count + 1), stats[1..]);
      } else {
        var bumped := Bump(stats[1..], t, w);
        BumpTags(stats[1..], t, w);
        TagsOfCons(stats[0], bumped);
        if t !in rest {
          assert [stats[0].tag] + (rest + [t]) == ([stats[0].tag] + rest) + [t];
        }
      }
    }
  }

  lemma {:induction false} BumpCounts(stats: seq<TagStat>, t: Tag, w: int)
    requires forall k :: 0 <= k < |stats| ==> stats[k].count >= 1
    ensures forall k :: 0 <= k < |Bump(stats, t, w)| ==> Bump(stats, t, w)[k].count >= 1
    decreases |stats|
  {
    if |stats| > 0 && stats[0].tag != t {
      BumpCounts(stats[1..], t, w);
      assert Bump(stats, t, w) == [stats[0]] + Bump(stats[1..], t, w);
    }
  }

  lemma BumpShape(stats: seq<TagStat>, t: Tag, w: int)
    requires WellFormed(stats)
    ensures WellFormed(Bump(stats, t, w))
    ensures TagsOf(Bump(stats, t, w)) == if t in TagsOf(stats) then TagsOf(stats) else TagsOf(stats) + [t]
  {
    BumpTags(stats, t, w);
    BumpCounts(stats, t, w);
  }

  lemma {:induction false} ScoreVanishes(cs: seq<Contribution>, t: Tag)
    requires Count(cs, t) == 0
    ensures Score(cs, t) == 0
    decreases |cs|
  {
    if |cs| > 0 {
      ScoreVanishes(cs[..|cs| - 1], t);
      WeightVanishes(cs[|cs| - 1].tags, t, cs[|cs| - 1].weight);
    }
  }

  lemma {:induction false} WeightVanishes(tags: seq<Tag>, t: Tag, w: int)
    requires CountIn(tags, t) == 0
    ensures WeightIn(tags, t, w) == 0
    decreases |tags|
  {
    if |tags| > 0 {
      WeightVanishes(tags[1..], t, w);
    }
  }

  lemma {:induction false} AddTagsSpec(stats: seq<TagStat>, tags: seq<Tag>, w: int)
    requires WellFormed(stats)
    ensures WellFormed(AddTags(stats, tags, w))
    ensures forall u :: u in TagsOf(AddTags(stats, tags, w)) <==> u in TagsOf(stats) || u in tags
    ensures forall u :: ScoreOf(AddTags(stats, tags, w), u) == ScoreOf(stats, u) + WeightIn(tags, u, w)
    ensures forall u :: CountOf(AddTags(stats, tags, w), u) == CountOf(stats, u) + CountIn(tags, u)
    decreases |tags|
  {
    if |tags| > 0 {
      BumpShape(stats, tags[0], w);
      forall u {
        BumpLookup(stats, tags[0], w, u);
      }
      AddTagsSpec(Bump(stats, tags[0], w), tags[1..], w);
      assert forall u :: u in tags <==> u == tags[0] || u in tags[1..] by {
        assert tags == [tags[0]] + tags[1..];
      }
    }
  }

  /**
   * The tally is exact: it has one slot per tag that occurs in some contribution, and that
   * slot holds the tag's reference score and count.
   */
  lemma {:induction false} TallyIsExact(cs: seq<Contribution>)
    ensures WellFormed(Tally(cs))
    ensures forall t :: t in TagsOf(Tally(cs)) <==> Count(cs, t) > 0
    ensures forall k :: 0 <= k < |Tally(cs)| ==> Tally(cs)[k] == RefStat(cs, Tally(cs)[k].tag)
    decreases |cs|
  {
    var stats := Tally(cs);
    if |cs| == 0 {
      assert TagsOf(stats) == [];
    } else {
      var prev := cs[..|cs| - 1];
      var last := cs[|cs| - 1];
      TallyIsExact(prev);
      forall t ensures ScoreOf(Tally(prev), t) == Score(prev, t) && CountOf(Tally(prev), t) == Count(prev, t) {
        CountOfPositive(Tally(prev), t);
        if t in TagsOf(Tally(prev)) {
          var k :| 0 <= k < |Tally(prev)| && Tally(prev)[k].tag == t;
          SlotIsLookup(Tally(prev), k);
        } else {
          ScoreVanishes(prev, t);
        }
      }
      AddTagsSpec(Tally(prev), last.tags, last.weight);
      forall t ensures t in TagsOf(stats) <==> Count(cs, t) > 0 {
        CountOfPositive(stats, t);
      }
      forall k | 0 <= k < |stats| ensures stats[k] == RefStat(cs, stats[k].tag) {
        SlotIsLookup(stats, k);
      }
    }
  }

  // ---------------------------------------------------------------------------
  // Slot order: first occurrence
  // ---------------------------------------------------------------------------

  /** Every tag occurrence of the contributions, in iteration order. */
  function Flatten(cs: seq<Contribution>): seq<Tag>
    decreases |cs|
  {
    if |cs| == 0 then [] else Flatten(cs[..|cs| - 1]) + cs[|cs| - 1].tags
  }

  /**
   * The slots name exactly the tags of `seen`, and they are ordered by where each tag
   * first occurs in `seen`.
   */
  predicate FirstSeenOrder(stats: seq<TagStat>, seen: seq<Tag>) {
    (forall t :: t in TagsOf(stats) ==> t in seen) &&
    (forall t :: t in seen ==> t in TagsOf(stats)) &&
    forall i, j :: 0 <= i < j < |stats| ==> FirstIndex(seen, stats[i].tag) < FirstIndex(seen, stats[j].tag)
  }

  lemma FirstIndexExtend(seen: seq<Tag>, t: Tag, u: Tag)
    ensures u in seen ==> FirstIndex(seen + [t], u) == FirstIndex(seen, u)
    ensures u !in seen && u == t ==> FirstIndex(seen + [t], u) == |seen|
  {
    var k := FirstIndex(seen + [t], u);
    if u in seen {
      var j := FirstIndex(seen, u);
      assert (seen + [t])[j] == u;
      assert seen[k] == u;
    }
  }

  lemma BumpFirstSeen(stats: seq<TagStat>, seen: seq<Tag>, t: Tag, w: int)
    requires FirstSeenOrder(stats, seen)
    ensures FirstSeenOrder(Bump(stats, t, w), seen + [t])
  {
    BumpTags(stats, t, w);
    if t in seen {
      BumpSeenTag(stats, seen, t, w);
    } else {
      BumpNewTag(stats, seen, t, w);
    }
  }

  /** A tag seen before only updates its slot: the slot tags and their order stay. */
  lemma BumpSeenTag(stats: seq<TagStat>, seen: seq<Tag>, t: Tag, w: int)
    requires FirstSeenOrder(stats, seen)
    requires t in seen
    requires TagsOf(Bump(stats, t, w)) == TagsOf(stats)
    ensures FirstSeenOrder(Bump(stats, t, w), seen + [t])
  {
    var bumped := Bump(stats, t, w);
    var seen' := seen + [t];
    forall i, j | 0 <= i < j < |bumped|
      ensures FirstIndex(seen', bumped[i].tag) < FirstIndex(seen', bumped[j].tag)
    {
      var a, b := TagsOf(stats)[i], TagsOf(stats)[j];
      assert bumped[i].tag == a && bumped[j].tag == b;
      FirstIndexExtend(seen, t, a);
      FirstIndexExtend(seen, t, b);
    }
  }

  /** A new tag gets a slot at the end, and it is also the last tag to be first seen. */
  lemma BumpNewTag(stats: seq<TagStat>, seen: seq<Tag>, t: Tag, w: int)
    requires FirstSeenOrder(stats, seen)
    requires t !in seen
    requires TagsOf(Bump(stats, t, w)) == TagsOf(stats) + [t]
    ensures FirstSeenOrder(Bump(stats, t, w), seen + [t])
  {
    var bumped := Bump(stats, t, w);
    var seen' := seen + [t];
    forall u | u in seen ensures FirstIndex(seen', u) == FirstIndex(seen, u) {
      FirstIndexExtend(seen, t, u);
    }
    FirstIndexExtend(seen, t, t);
    forall i, j | 0 <= i < j < |bumped|
      ensures FirstIndex(seen', bumped[i].tag) < FirstIndex(seen', bumped[j].tag)
    {
      assert bumped[i].tag == TagsOf(stats)[i];
      if j < |stats| {
        assert bumped[j].tag == TagsOf(stats)[j];
      } else {
        assert bumped[j].tag == t;
      }
    }
  }

  lemma {:induction false} AddTagsFirstSeen(stats: seq<TagStat>, seen: seq<Tag>, tags: seq<Tag>, w: int)
    requires FirstSeenOrder(stats, seen)
    ensures FirstSeenOrder(AddTags(stats, tags, w), seen + tags)
    decreases |tags|
  {
    if |tags| > 0 {
      BumpFirstSeen(stats, seen, tags[0], w);
      AddTagsFirstSeen(Bump(stats, tags[0], w), seen + [tags[0]], tags[1..], w);
      assert (seen + [tags[0]]) + tags[1..] == seen + tags;
    } else {
      assert seen + tags == seen;
    }
  }

  /**
   * The slots are in first-occurrence order: the tally has a slot for exactly the tags that
   * occur, and a tag seen earlier has an earlier slot.
   */
  lemma {:induction false} TallyFirstSeen(cs: seq<Contribution>)
    ensures FirstSeenOrder(Tally(cs), Flatten(cs))
    decreases |cs|
  {
    if |cs| > 0 {
      var prev := cs[..|cs| - 1];
      TallyFirstSeen(prev);
      AddTagsFirstSeen(Tally(prev), Flatten(prev), cs[|cs| - 1].tags, cs[|cs| - 1].weight);
    }
  }

  // ---------------------------------------------------------------------------
  // Ranking the tally
  // ---------------------------------------------------------------------------

  /** The tally sorted by `key`, stable and descending, cut to `n` slots, tag names only. */
  function RankTags(cs: seq<Contribution>, key: TagStat -> Key, n: int): seq<Tag> {
    TagsOf(JsSlice(SortDesc(Tally(cs), key), n))
  }

  /** The key a tag ranks by, computed from its reference totals. */
  function TagKey(cs: seq<Contribution>, key: TagStat -> Key, t: Tag): Key {
    key(RefStat(cs, t))
  }

  /** A rearrangement of the tally is still exact and has one slot per tag. */
  lemma RearrangedTallyIsExact(cs: seq<Contribution>, sorted: seq<TagStat>)
    requires multiset(sorted) == multiset(Tally(cs))
    ensures Distinct(TagsOf(sorted))
    ensures forall k :: 0 <= k < |sorted| ==> sorted[k] == RefStat(cs, sorted[k].tag)
    ensures forall t :: t in TagsOf(sorted) <==> Count(cs, t) > 0
  {
    var stats := Tally(cs);
    TallyIsExact(cs);
    PermutationMembers(stats, sorted);
    assert Distinct(stats) by {
      forall i, j | 0 <= i < j < |stats| ensures stats[i] != stats[j] {
        assert TagsOf(stats)[i] != TagsOf(stats)[j];
      }
    }
    PermutationKeepsDistinct(stats, sorted);
    forall i, j | 0 <= i < j < |sorted| ensures TagsOf(sorted)[i] != TagsOf(sorted)[j] {
      assert sorted[i] != sorted[j];
      assert sorted[i] == RefStat(cs, sorted[i].tag);
      assert sorted[j] == RefStat(cs, sorted[j].tag);
    }
    forall t ensures t in TagsOf(sorted) <==> Count(cs, t) > 0 {
      if t in TagsOf(stats) {
        var m :| 0 <= m < |stats| && stats[m].tag == t;
        var j :| 0 <= j < |sorted| && sorted[j] == stats[m];
        assert TagsOf(sorted)[j] == t;
      }
    }
  }

  /**
   * What a ranking of the tally returns: at most `n` tags, each once, each occurring in some
   * contribution, in non-increasing key order; a tag is missing from the front of the
   * result only if its key does not beat the tags there; when fewer than `n` tags are
   * returned, every occurring tag is among them.
   */
  lemma RankTagsSpec(cs: seq<Contribution>, key: TagStat -> Key, n: int)
    ensures 0 <= n ==> |RankTags(cs, key, n)| <= n
    ensures Distinct(RankTags(cs, key, n))
    ensures forall i :: 0 <= i < |RankTags(cs, key, n)| ==> Count(cs, RankTags(cs, key, n)[i]) > 0
    ensures forall i, j :: 0 <= i < j < |RankTags(cs, key, n)| ==>
      KeyGe(TagKey(cs, key, RankTags(cs, key, n)[i]), TagKey(cs, key, RankTags(cs, key, n)[j]))
    ensures forall i, v ::
      (0 <= i < |RankTags(cs, key, n)| && Count(cs, v) > 0 &&
       KeyGt(TagKey(cs, key, v), TagKey(cs, key, RankTags(cs, key, n)[i])))
      ==> v in RankTags(cs, key, n)[..i]
    ensures 0 <= n && |RankTags(cs, key, n)| < n ==> forall v :: Count(cs, v) > 0 ==> v in RankTags(cs, key, n)
  {
    var sorted := SortDesc(Tally(cs), key);
    var r := RankTags(cs, key, n);
    var k := SliceEnd(|sorted|, n);
    RearrangedTallyIsExact(cs, sorted);
    assert r == TagsOf(sorted)[..k];
    DistinctPrefix(TagsOf(sorted), k);
    forall i | 0 <= i < |r| ensures sorted[i] == RefStat(cs, r[i]) {
    }
    forall i, v | 0 <= i < |r| && Count(cs, v) > 0 && KeyGt(TagKey(cs, key, v), TagKey(cs, key, r[i]))
      ensures v in r[..i]
    {
      var j :| 0 <= j < |sorted| && TagsOf(sorted)[j] == v;
      assert sorted[j] == RefStat(cs, v);
      assert !KeyGe(key(sorted[i]), key(sorted[j]));
      assert j < i;
      assert r[..i][j] == v;
    }
    if 0 <= n && |r| < n {
      assert k == |sorted|;
      assert r == TagsOf(sorted);
    }
  }

  /**
   * How a ranking breaks ties: two returned tags with the same key are in the order in which
   * they first occur, and a tag left out although it ties with a returned one first occurs
   * after it.
   */
  lemma RankTagsTieOrder(cs: seq<Contribution>, key: TagStat -> Key, n: int)
    ensures forall i, j ::
      (0 <= i < j < |RankTags(cs, key, n)| &&
       TagKey(cs, key, RankTags(cs, key, n)[i]) == TagKey(cs, key, RankTags(cs, key, n)[j]))
      ==> FirstIndex(Flatten(cs), RankTags(cs, key, n)[i]) < FirstIndex(Flatten(cs), RankTags(cs, key, n)[j])
    ensures forall i, v ::
      (0 <= i < |RankTags(cs, key, n)| && Count(cs, v) > 0 && v !in RankTags(cs, key, n) &&
       TagKey(cs, key, v) == TagKey(cs, key, RankTags(cs, key, n)[i]))
      ==> FirstIndex(Flatten(cs), RankTags(cs, key, n)[i]) < FirstIndex(Flatten(cs), v)
  {
    var seen := Flatten(cs);
    var sorted := SortDesc(Tally(cs), key);
    var r := RankTags(cs, key, n);
    var k := SliceEnd(|sorted|, n);
    RearrangedTallyIsExact(cs, sorted);
    SortedTallyTieOrder(cs, key);
    assert r == TagsOf(sorted)[..k];
    forall i | 0 <= i < |r| ensures sorted[i] == RefStat(cs, r[i]) {
    }
    forall i, v | 0 <= i < |r| && Count(cs, v) > 0 && v !in r && TagKey(cs, key, v) == TagKey(cs, key, r[i])
      ensures FirstIndex(seen, r[i]) < FirstIndex(seen, v)
    {
      var q :| 0 <= q < |sorted| && TagsOf(sorted)[q] == v;
      assert sorted[q] == RefStat(cs, v);
      assert q >= k;
    }
  }

  /** The tally has one slot per distinct tag that occurs. */
  lemma TallySize(cs: seq<Contribution>)
    ensures |Tally(cs)| == |Elements(Flatten(cs))|
  {
    TallyIsExact(cs);
    TallyFirstSeen(cs);
    DistinctCardinality(TagsOf(Tally(cs)));
    assert Elements(TagsOf(Tally(cs))) == Elements(Flatten(cs));
  }

  /** The tally never holds the same slot twice. */
  lemma TallyIsDistinct(cs: seq<Contribution>)
    ensures Distinct(Tally(cs))
  {
    var stats := Tally(cs);
    TallyIsExact(cs);
    forall i, j | 0 <= i < j < |stats| ensures stats[i] != stats[j] {
      assert TagsOf(stats)[i] != TagsOf(stats)[j];
    }
  }

  /** A rearrangement that keeps tied slots in slot order keeps them in first-occurrence order. */
  lemma TiedSlotsFirstSeen(stats: seq<TagStat>, seen: seq<Tag>, sorted: seq<TagStat>, key: TagStat -> Key)
    requires FirstSeenOrder(stats, seen)
    requires multiset(sorted) == multiset(stats)
    requires KeepsTieOrder(sorted, stats, key)
    ensures forall a, b ::
      (0 <= a < b < |sorted| && key(sorted[a]) == key(sorted[b]))
      ==> FirstIndex(seen, sorted[a].tag) < FirstIndex(seen, sorted[b].tag)
  {
    forall a, b | 0 <= a < b < |sorted| && key(sorted[a]) == key(sorted[b])
      ensures FirstIndex(seen, sorted[a].tag) < FirstIndex(seen, sorted[b].tag)
    {
      assert sorted[a] in multiset(stats) && sorted[b] in multiset(stats) by {
        assert sorted[a] in multiset(sorted) && sorted[b] in multiset(sorted);
      }
      var ia := FirstIndex(stats, sorted[a]);
      var ib := FirstIndex(stats, sorted[b]);
      assert ia < ib;
    }
  }

  /** In the sorted tally, slots that tie on the key are in first-occurrence order of their tags. */
  lemma SortedTallyTieOrder(cs: seq<Contribution>, key: TagStat -> Key)
    ensures forall a, b ::
      (0 <= a < b < |SortDesc(Tally(cs), key)| &&
       key(SortDesc(Tally(cs), key)[a]) == key(SortDesc(Tally(cs), key)[b]))
      ==> FirstIndex(Flatten(cs), SortDesc(Tally(cs), key)[a].tag) < FirstIndex(Flatten(cs), SortDesc(Tally(cs), key)[b].tag)
  {
    TallyIsDistinct(cs);
    TallyFirstSeen(cs);
    SortKeepsTieOrder(Tally(cs), key);
    TiedSlotsFirstSeen(Tally(cs), Flatten(cs), SortDesc(Tally(cs), key), key);
  }
}
