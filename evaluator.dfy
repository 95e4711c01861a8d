/**
 * The `evaluate` endpoint as the source runs it: a grouping loop, a loop that
 * collects the gaps, a tally loop over the scored answers and a judging loop
 * over the categories. `Evaluate` is proved to report exactly
 * `Assessment.EvaluateSpec`.
 */
module Evaluator {
  import opened Records
  import opened Assessment

  /** One entry of `bycat`: the Major and the Minor activity ids of a category. */
  datatype ByLevel = ByLevel(major: seq<int>, minor: seq<int>)

  /** `dict.get(k, 0)` on the per-category Major tally. */
  function Get0(m: map<int, nat>, k: int): nat {
    if k in m then m[k] else 0
  }

  /** `{a.activity_id: a for a in acts}`. */
  function ActivityIndex(acts: seq<Activity>): (index: map<int, Activity>)
    requires DistinctIds(acts)
    ensures index.Keys == IdSet(acts)
    ensures forall a | a in acts :: index[a.id] == a
  {
    assert forall a, b | a in acts && b in acts && a.id == b.id :: a == b by {
      forall a, b | a in acts && b in acts && a.id == b.id ensures a == b {
        var i :| 0 <= i < |acts| && acts[i] == a;
        var j :| 0 <= j < |acts| && acts[j] == b;
        assert i == j;
      }
    }
    map a | a in acts :: a.id := a
  }

  lemma {:induction false} SelectOutsideCategories(acts: seq<Activity>, c: int, lvl: Level)
    requires c !in Categories(acts)
    ensures Select(acts, InCategory(c, lvl)) == []
  {
    if acts != [] {
      var pre := acts[..|acts| - 1];
      assert acts == pre + [acts[|acts| - 1]];
      assert Categories(pre) <= Categories(acts);
      SelectOutsideCategories(pre, c, lvl);
    }
  }

  lemma EmptyOrHasMember(s: set<int>)
    ensures s == {} || exists x :: x in s
  {
    if forall x :: x !in s {
      assert s == {};
    }
  }

  lemma {:induction false} CountOnesWithinNothing(acts: seq<Activity>, scored: map<int, int>, s: Selector)
    ensures CountOnes(acts, scored, {}, s) == 0
  {
    if acts != [] {
      CountOnesWithinNothing(acts[..|acts| - 1], scored, s);
    }
  }

  /** The `bycat` entry of category `c` once the activities `acts` are listed. */
  function Grouped(acts: seq<Activity>, c: int): ByLevel {
    ByLevel(Select(acts, InCategory(c, Major)), Select(acts, InCategory(c, Minor)))
  }

  /** Appending an activity's id to the list of its level. */
  function AddId(g: ByLevel, a: Activity): ByLevel {
    if a.level == Major then g.(major := g.major + [a.id]) else g.(minor := g.minor + [a.id])
  }

  /** Listing one more activity adds its category and extends that category's entry only. */
  lemma GroupedSnoc(acts: seq<Activity>, i: int)
    requires 0 <= i < |acts|
    ensures Categories(acts[..i + 1]) == Categories(acts[..i]) + {acts[i].category}
    ensures forall c ::
      Grouped(acts[..i + 1], c) == if c == acts[i].category then AddId(Grouped(acts[..i], c), acts[i]) else Grouped(acts[..i], c)
  {
    assert acts[..i + 1][..i] == acts[..i];
    assert acts[..i + 1] == acts[..i] + [acts[i]];
  }

  /** The `bycat` loop: `setdefault` the category, then append the id to its level's list. */
  method GroupByCategory(acts: seq<Activity>) returns (bycat: map<int, ByLevel>)
    ensures bycat.Keys == Categories(acts)
    ensures forall c | c in bycat ::
      bycat[c] == ByLevel(Select(acts, InCategory(c, Major)), Select(acts, InCategory(c, Minor)))
  {
    bycat := map[];
    for i := 0 to |acts|
      invariant bycat.Keys == Categories(acts[..i])
      invariant forall c | c in bycat :: bycat[c] == Grouped(acts[..i], c)
    {
      var a := acts[i];
      GroupedSnoc(acts, i);
      if a.category !in bycat {
        SelectOutsideCategories(acts[..i], a.category, Major);
        SelectOutsideCategories(acts[..i], a.category, Minor);
        bycat := bycat[a.category := ByLevel([], [])];
      }
      var g := bycat[a.category];
      assert g == Grouped(acts[..i], a.category);
      if a.level == Major {
        bycat := bycat[a.category := g.(major := g.major + [a.id])];
      } else {
        bycat := bycat[a.category := g.(minor := g.minor + [a.id])];
      }
      assert bycat[a.category] == AddId(g, a) == Grouped(acts[..i + 1], a.category);
    }
    assert acts[..|acts|] == acts;
  }

  /** The gaps of one category's lists: the two list comprehensions of the missing loop. */
  function GapsIn(g: ByLevel, scored: map<int, int>): Gaps {
    Gaps(Unscored(g.major, scored), Unscored(g.minor, scored))
  }

  /** The `missing` loop: one entry for every category with an unscored activity. */
  method CollectMissing(bycat: map<int, ByLevel>, scored: map<int, int>) returns (missing: map<int, Gaps>)
    ensures missing.Keys == set c | c in bycat && HasGaps(GapsIn(bycat[c], scored))
    ensures forall c | c in missing :: missing[c] == GapsIn(bycat[c], scored)
  {
    missing := map[];
    var todo := bycat.Keys;
    while todo != {}
      invariant todo <= bycat.Keys
      invariant missing.Keys == set c | c in bycat.Keys - todo && HasGaps(GapsIn(bycat[c], scored))
      invariant forall c | c in missing :: missing[c] == GapsIn(bycat[c], scored)
      decreases todo
    {
      EmptyOrHasMember(todo);
      var c :| c in todo;
      var grp := bycat[c];
      var missMajor := Unscored(grp.major, scored);
      var missMinor := Unscored(grp.minor, scored);
      if missMajor != [] || missMinor != [] {
        missing := missing[c := Gaps(missMajor, missMinor)];
      }
      todo := todo - {c};
    }
    assert bycat.Keys - todo == bycat.Keys;
  }

  /**
   * The tally loop over the scored answers: a result 1 adds one to its
   * category's Major count or to the Minor total.
   */
  method TallyPasses(acts: seq<Activity>, scored: map<int, int>)
    returns (perCatMajor: map<int, nat>, minorTotal: nat)
    requires DistinctIds(acts)
    requires scored.Keys <= IdSet(acts)
    ensures forall c :: Get0(perCatMajor, c) == PassCount(acts, scored, InCategory(c, Major))
    ensures minorTotal == PassCount(acts, scored, EveryMinor)
  {
    var amap := ActivityIndex(acts);
    perCatMajor, minorTotal := map[], 0;
    var todo := scored.Keys;
    assert scored.Keys - todo == {};
    forall c ensures CountOnes(acts, scored, {}, InCategory(c, Major)) == 0 {
      CountOnesWithinNothing(acts, scored, InCategory(c, Major));
    }
    CountOnesWithinNothing(acts, scored, EveryMinor);
    while todo != {}
      invariant todo <= scored.Keys
      invariant forall c :: Get0(perCatMajor, c) == CountOnes(acts, scored, scored.Keys - todo, InCategory(c, Major))
      invariant minorTotal == CountOnes(acts, scored, scored.Keys - todo, EveryMinor)
      decreases todo
    {
      assert |todo| != 0;
      var aid :| aid in todo;
      var a := amap[aid];
      assert a in acts && a.id == aid;
      var done := scored.Keys - todo;
      assert scored.Keys - (todo - {aid}) == done + {aid};
      var inc := if scored[aid] == 1 then 1 else 0;
      if a.level == Major {
        perCatMajor := perCatMajor[a.category := Get0(perCatMajor, a.category) + inc];
      } else {
        minorTotal := minorTotal + inc;
      }
      forall c ensures Get0(perCatMajor, c) == CountOnes(acts, scored, done + {aid}, InCategory(c, Major)) {
        CountOnesStep(acts, scored, done, a, InCategory(c, Major));
      }
      CountOnesStep(acts, scored, done, a, EveryMinor);
      todo := todo - {aid};
    }
    assert scored.Keys - todo == scored.Keys;
  }

  /** The judging loop over the categories: the result of each and whether all passed. */
  method JudgeCategories(cats: set<int>, perCatMajor: map<int, nat>, crits: seq<Criterion>)
    returns (perCat: map<int, CategoryResult>, allMajorOk: bool)
    ensures perCat.Keys == cats
    ensures forall c | c in perCat :: perCat[c] == Judge(Get0(perCatMajor, c), MajorReq(crits, c))
    ensures allMajorOk == AllPassed(perCat)
  {
    perCat, allMajorOk := map[], true;
    var todo := cats;
    while todo != {}
      invariant todo <= cats
      invariant perCat.Keys == cats - todo
      invariant forall c | c in perCat :: perCat[c] == Judge(Get0(perCatMajor, c), MajorReq(crits, c))
      invariant allMajorOk == AllPassed(perCat)
      decreases todo
    {
      EmptyOrHasMember(todo);
      var c :| c in todo;
      var got := Get0(perCatMajor, c);
      var req := MajorReq(crits, c);
      if req.None? {
        perCat := perCat[c := CategoryResult(got, None, NoCriteria)];
        allMajorOk := false;
      } else {
        var ok := got >= req.value;
        perCat := perCat[c := CategoryResult(got, req, if ok then Passed else Failed)];
        if !ok {
          allMajorOk := false;
        }
      }
      todo := todo - {c};
    }
    assert cats - todo == cats;
  }

  /** The gaps collected from `bycat` are the incomplete report of the specification. */
  lemma MissingAgrees(acts: seq<Activity>, bycat: map<int, ByLevel>, scored: map<int, int>, missing: map<int, Gaps>)
    requires bycat.Keys == Categories(acts)
    requires forall c | c in bycat ::
      bycat[c] == ByLevel(Select(acts, InCategory(c, Major)), Select(acts, InCategory(c, Minor)))
    requires missing.Keys == set c | c in bycat && HasGaps(GapsIn(bycat[c], scored))
    requires forall c | c in missing :: missing[c] == GapsIn(bycat[c], scored)
    ensures missing == MissingMap(acts, scored)
  {
    var spec := MissingMap(acts, scored);
    assert forall c | c in bycat :: GapsIn(bycat[c], scored) == GapsOf(acts, scored, c);
    assert missing.Keys == spec.Keys;
  }

  /** The judged categories are the per-category report of the specification. */
  lemma PerCategoryAgrees(acts: seq<Activity>, scored: map<int, int>, crits: seq<Criterion>,
                          perCatMajor: map<int, nat>, perCat: map<int, CategoryResult>)
    requires forall c :: Get0(perCatMajor, c) == PassCount(acts, scored, InCategory(c, Major))
    requires perCat.Keys == Categories(acts)
    requires forall c | c in perCat :: perCat[c] == Judge(Get0(perCatMajor, c), MajorReq(crits, c))
    ensures perCat == PerCategory(acts, scored, crits)
  {
    var spec := PerCategory(acts, scored, crits);
    assert perCat.Keys == spec.Keys;
  }

  /**
   * `evaluate(user_id)`. The source looks every scored answer's activity up
   * in the activity table, so it relies on each scored answer naming a
   * configured activity; the store keeps that invariant.
   */
  method Evaluate(acts: seq<Activity>, answers: map<AnswerKey, AnswerRow>,
                  crits: seq<Criterion>, user: UserId) returns (r: Result<Verdict>)
    requires DistinctIds(acts)
    requires Scored(answers, user).Keys <= IdSet(acts)
    ensures r == EvaluateSpec(acts, answers, crits, user)
  {
    if |acts| == 0 {
      return Err(NoActivitiesConfigured);
    }
    var bycat := GroupByCategory(acts);
    var scored := Scored(answers, user);
    var missing := CollectMissing(bycat, scored);
    MissingAgrees(acts, bycat, scored, missing);
    if missing != map[] {
      return Ok(Incomplete(missing));
    }
    var perCatMajor, minorTotal := TallyPasses(acts, scored);
    var minorReq := MinorReq(crits);
    var perCat, allMajorOk := JudgeCategories(bycat.Keys, perCatMajor, crits);
    PerCategoryAgrees(acts, scored, crits, perCatMajor, perCat);
    var minorOk := if minorReq.None? then true else minorTotal >= minorReq.value;
    r := Ok(Complete(perCat, minorTotal, minorReq, allMajorOk && minorOk));
  }
}
