/**
 * Narrowing the hobby catalog to a diagnosis answer, and drawing a random handful from the
 * result with a Fisher–Yates shuffle. The random source is a parameter: `draws[i]` is the
 * index `Math.floor(Math.random() * (i + 1))` produced when the loop counter is `i`.
 */
module FilterHobbies {
  import opened Types
  import opened Seqs

  /** PASSIVE_CATEGORIES: watch, listen, learn, tidy, play. */
  const PassiveCategories: seq<Category> := [Watch, Listen, Learn, Tidy, Play]

  /** ACTIVE_CATEGORIES: make, move, learn, tidy, play. */
  const ActiveCategories: seq<Category> := [Make, Move, Learn, Tidy, Play]

  /** ALLOWED_ENERGY_LEVELS: the hobby energies shown to a user who answered `e`. */
  function AllowedEnergyLevels(e: EnergyLevel): seq<EnergyLevel> {
    match e
    case Low => [Low]
    case Medium => [Low, Medium]
    case High => [Medium, High]
  }

  /** The categories offered for an activity type; anything but passive counts as active. */
  function TargetCategories(t: ActivityType): seq<Category> {
    if t == Passive then PassiveCategories else ActiveCategories
  }

  /** The callback of `filterHobbiesByDiagnosis`: energy, then location, then category. */
  predicate Admits(answer: DiagnosisAnswer, h: Hobby) {
    if h.energy !in AllowedEnergyLevels(answer.energy) then false
    else if !answer.goOut && !h.indoor then false
    else h.category in TargetCategories(answer.activityType)
  }

  /**
   * The three conditions stated independently of the lookup tables: a sliding energy
   * window (low users never see medium or high hobbies, high users never see low ones),
   * indoor-only when the user stays home, and only passive or active categories excluded.
   */
  predicate Compatible(answer: DiagnosisAnswer, h: Hobby) {
    && (match answer.energy
        case Low => h.energy == Low
        case Medium => h.energy != High
        case High => h.energy != Low)
    && (answer.goOut || h.indoor)
    && (match answer.activityType
        case Passive => h.category != Make && h.category != Move
        case Active => h.category != Watch && h.category != Listen)
  }

  lemma AdmitsIsCompatible(answer: DiagnosisAnswer, h: Hobby)
    ensures Admits(answer, h) <==> Compatible(answer, h)
  {
  }

  /**
   * `filterHobbiesByDiagnosis`: the catalog hobbies compatible with the answer, in catalog
   * order, each as often as in the catalog and nothing else.
   */
  function FilterHobbiesByDiagnosis(hobbies: seq<Hobby>, answer: DiagnosisAnswer): (r: seq<Hobby>)
    ensures forall k :: 0 <= k < |r| ==> Compatible(answer, r[k])
    ensures forall h :: h in hobbies ==> (h in r <==> Compatible(answer, h))
    ensures forall h :: h in hobbies ==>
      multiset(r)[h] == if Compatible(answer, h) then multiset(hobbies)[h] else 0
    ensures multiset(r) <= multiset(hobbies)
    ensures IsSubsequence(r, hobbies)
    ensures |hobbies| == 0 ==> r == []
  {
    var keep := h => Admits(answer, h);
    FilterIsSubsequence(hobbies, keep);
    FilterMultiset(hobbies, keep);
    FilterMembers(hobbies, keep);
    var r := Filter(hobbies, keep);
    forall h | h in hobbies ensures (h in r <==> Compatible(answer, h)) {
      AdmitsIsCompatible(answer, h);
      assert h in multiset(hobbies);
      assert h in r <==> h in multiset(r);
    }
    r
  }

  /**
   * Wanting to go out only widens the choice: everything admitted to a stay-at-home
   * answer is admitted to the same answer with `goOut` set, and outdoor-only hobbies are
   * admitted only then.
   */
  lemma GoingOutOnlyWidens(hobbies: seq<Hobby>, answer: DiagnosisAnswer)
    ensures forall h :: h in FilterHobbiesByDiagnosis(hobbies, answer.(goOut := false)) ==>
      h in FilterHobbiesByDiagnosis(hobbies, answer.(goOut := true))
    ensures forall h :: h in FilterHobbiesByDiagnosis(hobbies, answer.(goOut := false)) ==> h.indoor
  {
    var home := FilterHobbiesByDiagnosis(hobbies, answer.(goOut := false));
    var away := FilterHobbiesByDiagnosis(hobbies, answer.(goOut := true));
    forall h | h in home ensures h in away && h.indoor {
      assert multiset(home)[h] > 0;
      assert h in hobbies;
      assert Compatible(answer.(goOut := false), h);
    }
  }

  // ---------------------------------------------------------------------------
  // Random selection
  // ---------------------------------------------------------------------------

  /** `[s[i], s[j]] = [s[j], s[i]]`. */
  function Swap<T>(s: seq<T>, i: nat, j: nat): (r: seq<T>)
    requires i < |s| && j < |s|
    ensures |r| == |s|
    ensures r[i] == s[j] && r[j] == s[i]
    ensures forall k :: 0 <= k < |s| && k != i && k != j ==> r[k] == s[k]
  {
    s[i := s[j]][j := s[i]]
  }

  /** A swap only rearranges. */
  lemma SwapPermutes<T>(s: seq<T>, i: nat, j: nat)
    requires i < |s| && j < |s|
    ensures multiset(Swap(s, i, j)) == multiset(s)
  {
  }

  /** The random source behaves like `Math.floor(Math.random() * (i + 1))`: a draw in [0, i]. */
  predicate ValidDraws(draws: seq<int>, n: nat) {
    |draws| >= n && forall i :: 0 < i < n ==> 0 <= draws[i] <= i
  }

  /** The shuffle loop from counter `i` down to 1. */
  function ShuffleDown<T>(s: seq<T>, draws: seq<int>, i: nat): seq<T>
    requires i < |s|
    requires ValidDraws(draws, |s|)
    decreases i
  {
    if i == 0 then s else ShuffleDown(Swap(s, i, draws[i]), draws, i - 1)
  }

  /** The Fisher–Yates shuffle of `s` driven by `draws`. */
  function Shuffle<T>(s: seq<T>, draws: seq<int>): seq<T>
    requires ValidDraws(draws, |s|)
  {
    if |s| == 0 then s else ShuffleDown(s, draws, |s| - 1)
  }

  lemma {:induction false} ShuffleDownPermutes<T>(s: seq<T>, draws: seq<int>, i: nat)
    requires i < |s|
    requires ValidDraws(draws, |s|)
    ensures |ShuffleDown(s, draws, i)| == |s|
    ensures multiset(ShuffleDown(s, draws, i)) == multiset(s)
    decreases i
  {
    if i > 0 {
      SwapPermutes(s, i, draws[i]);
      ShuffleDownPermutes(Swap(s, i, draws[i]), draws, i - 1);
    }
  }

  /** Whatever the draws, the shuffle only rearranges its input. */
  lemma ShufflePermutes<T>(s: seq<T>, draws: seq<int>)
    requires ValidDraws(draws, |s|)
    ensures |Shuffle(s, draws)| == |s|
    ensures multiset(Shuffle(s, draws)) == multiset(s)
  {
    if |s| > 0 {
      ShuffleDownPermutes(s, draws, |s| - 1);
    }
  }

  /** Draws that always pick the current position leave the order unchanged. */
  lemma {:induction false} IdentityDrawsKeepOrder<T>(s: seq<T>, draws: seq<int>, i: nat)
    requires i < |s|
    requires ValidDraws(draws, |s|)
    requires forall k :: 0 < k < |s| ==> draws[k] == k
    ensures ShuffleDown(s, draws, i) == s
    decreases i
  {
    if i > 0 {
      assert Swap(s, i, draws[i]) == s;
      IdentityDrawsKeepOrder(s, draws, i - 1);
    }
  }

  lemma PrefixMultiset<T>(s: seq<T>, k: nat)
    requires k <= |s|
    ensures multiset(s[..k]) <= multiset(s)
  {
    assert s == s[..k] + s[k..];
  }

  /**
   * The shuffle loop of `selectRandomHobbies`, run in place on a fresh copy of the input:
   * the copy ends as a rearrangement of the input (same length, same hobbies with the same
   * multiplicities), and it is the rearrangement the draws select.
   */
  method ShuffleCopy(hobbies: seq<Hobby>, draws: seq<int>) returns (shuffled: seq<Hobby>)
    requires ValidDraws(draws, |hobbies|)
    ensures |shuffled| == |hobbies|
    ensures multiset(shuffled) == multiset(hobbies)
    ensures shuffled == Shuffle(hobbies, draws)
  {
    shuffled := hobbies;
    var i := |hobbies| - 1;
    while i > 0
      invariant 0 <= i < |hobbies| || (|hobbies| == 0 && i == -1)
      invariant |shuffled| == |hobbies|
      invariant multiset(shuffled) == multiset(hobbies)
      invariant |hobbies| > 0 ==> ShuffleDown(shuffled, draws, i) == Shuffle(hobbies, draws)
    {
      var randomIndex := draws[i];
      SwapPermutes(shuffled, i, randomIndex);
      shuffled := shuffled[i := shuffled[randomIndex]][randomIndex := shuffled[i]];
      i := i - 1;
    }
  }

  /**
   * `selectRandomHobbies`: shuffle a copy of the input, then `slice(0, count)`. The result
   * is the first items of a rearrangement of the input: `min(count, n)` of them for a
   * non-negative count, none repeated beyond its multiplicity in the input.
   */
  method SelectRandomHobbies(hobbies: seq<Hobby>, count: int, draws: seq<int>) returns (r: seq<Hobby>)
    requires ValidDraws(draws, |hobbies|)
    ensures r == JsSlice(Shuffle(hobbies, draws), count)
    ensures 0 <= count ==> |r| == Min(count, |hobbies|)
    ensures count < 0 ==> |r| == Max(0, |hobbies| + count)
    ensures multiset(r) <= multiset(hobbies)
    ensures count >= |hobbies| ==> multiset(r) == multiset(hobbies)
  {
    var shuffled := ShuffleCopy(hobbies, draws);
    ShufflePermutes(hobbies, draws);
    r := JsSlice(shuffled, count);
    PrefixMultiset(shuffled, |r|);
    if count >= |hobbies| {
      assert r == shuffled;
    }
  }
}
