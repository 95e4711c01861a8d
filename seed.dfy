/**
 * The reference data `seed_master` writes into an empty database: eight
 * categories whose activities are listed Major items first, then Minor items,
 * with ids handed out from 1 in listing order; one Major criterion per
 * category and one global Minor criterion. Display strings are not modelled.
 */
module Seed {
  import opened Records
  import opened Assessment

  /** One category of the seeded questionnaire: how many Major and Minor items it lists. */
  datatype Block = Block(category: int, majors: nat, minors: nat)

  /** The seeded questionnaire, category by category. */
  const SEED_LAYOUT: seq<Block> := [
    Block(1, 5, 2), Block(2, 4, 4), Block(3, 5, 1), Block(4, 2, 3),
    Block(5, 1, 3), Block(6, 0, 1), Block(7, 1, 7), Block(8, 3, 5)
  ]

  /** The seeded Major requirement of each category; its keys are the seeded categories. */
  const SEED_MAJOR: map<int, int> := map[1 := 5, 2 := 4, 3 := 5, 4 := 2, 5 := 1, 6 := 0, 7 := 1, 8 := 3]

  /** The seeded global Minor requirement. */
  const SEED_MINOR: int := 16

  function BlockActivities(b: Block, firstId: int): seq<Activity> {
    seq(b.majors, i => Activity(firstId + i, b.category, Major))
      + seq(b.minors, i => Activity(firstId + b.majors + i, b.category, Minor))
  }

  function Layout(blocks: seq<Block>, firstId: int): seq<Activity> {
    if blocks == [] then []
    else BlockActivities(blocks[0], firstId) + Layout(blocks[1..], firstId + blocks[0].majors + blocks[0].minors)
  }

  /** The 47 seeded activities with ids 1 to 47. */
  function SeedActivities(): seq<Activity> {
    Layout(SEED_LAYOUT, 1)
  }

  /** The seeded criteria: Major requirements {1:5, 2:4, 3:5, 4:2, 5:1, 6:0, 7:1, 8:3} and Minor 16. */
  function SeedCriteria(): seq<Criterion> {
    [ Criterion(Some(1), Major, 5), Criterion(Some(2), Major, 4), Criterion(Some(3), Major, 5),
      Criterion(Some(4), Major, 2), Criterion(Some(5), Major, 1), Criterion(Some(6), Major, 0),
      Criterion(Some(7), Major, 1), Criterion(Some(8), Major, 3), Criterion(None, Minor, SEED_MINOR) ]
  }

  /** How many activities of a block a selector picks. */
  function BlockCount(b: Block, s: Selector): nat {
    match s
    case InCategory(c, lvl) => if b.category != c then 0 else if lvl == Major then b.majors else b.minors
    case EveryMinor => b.minors
  }

  function SumCount(blocks: seq<Block>, s: Selector): nat {
    if blocks == [] then 0 else BlockCount(blocks[0], s) + SumCount(blocks[1..], s)
  }

  function Size(blocks: seq<Block>): nat {
    if blocks == [] then 0 else blocks[0].majors + blocks[0].minors + Size(blocks[1..])
  }

  // ---------------------------------------------------------------------------
  // Structure of the layout
  // ---------------------------------------------------------------------------

  lemma {:induction false} LayoutIds(blocks: seq<Block>, firstId: int)
    ensures |Layout(blocks, firstId)| == Size(blocks)
    ensures forall i | 0 <= i < |Layout(blocks, firstId)| :: Layout(blocks, firstId)[i].id == firstId + i
  {
    if blocks != [] {
      var b := blocks[0];
      var next := firstId + b.majors + b.minors;
      LayoutIds(blocks[1..], next);
      var head := BlockActivities(b, firstId);
      assert |head| == b.majors + b.minors;
      forall i | 0 <= i < |Layout(blocks, firstId)| ensures Layout(blocks, firstId)[i].id == firstId + i {
        if i >= |head| {
          assert Layout(blocks, firstId)[i] == Layout(blocks[1..], next)[i - |head|];
        }
      }
    }
  }

  /** The seeded ids are 1..47, hence distinct. */
  lemma SeedIdsDistinct()
    ensures DistinctIds(SeedActivities())
    ensures |SeedActivities()| == 47
  {
    LayoutIds(SEED_LAYOUT, 1);
    assert Size(SEED_LAYOUT) == 47;
  }

  lemma {:induction false} SelectAppend(xs: seq<Activity>, ys: seq<Activity>, s: Selector)
    ensures Select(xs + ys, s) == Select(xs, s) + Select(ys, s)
  {
    if ys != [] {
      var pre := ys[..|ys| - 1];
      assert (xs + ys)[..|xs + ys| - 1] == xs + pre;
      SelectAppend(xs, pre, s);
    } else {
      assert xs + ys == xs;
    }
  }

  lemma {:induction false} SelectHomogeneous(acts: seq<Activity>, s: Selector)
    requires (forall a | a in acts :: Selects(s, a)) || (forall a | a in acts :: !Selects(s, a))
    ensures |Select(acts, s)| == if forall a | a in acts :: Selects(s, a) then |acts| else 0
  {
    if acts != [] {
      var pre := acts[..|acts| - 1];
      assert forall a | a in pre :: a in acts;
      SelectHomogeneous(pre, s);
      assert acts[|acts| - 1] in acts;
    }
  }

  lemma BlockSelect(b: Block, firstId: int, s: Selector)
    ensures |Select(BlockActivities(b, firstId), s)| == BlockCount(b, s)
  {
    var majors := seq(b.majors, i => Activity(firstId + i, b.category, Major));
    var minors := seq(b.minors, i => Activity(firstId + b.majors + i, b.category, Minor));
    SelectAppend(majors, minors, s);
    SelectHomogeneous(majors, s);
    SelectHomogeneous(minors, s);
  }

  lemma LayoutUnfold(blocks: seq<Block>, firstId: int)
    requires blocks != []
    ensures Layout(blocks, firstId)
      == BlockActivities(blocks[0], firstId) + Layout(blocks[1..], firstId + blocks[0].majors + blocks[0].minors)
  {
  }

  lemma {:induction false} LayoutSelect(blocks: seq<Block>, firstId: int, s: Selector)
    ensures |Select(Layout(blocks, firstId), s)| == SumCount(blocks, s)
  {
    if blocks != [] {
      var b := blocks[0];
      var next := firstId + b.majors + b.minors;
      var head := BlockActivities(b, firstId);
      var tail := Layout(blocks[1..], next);
      LayoutUnfold(blocks, firstId);
      SelectAppend(head, tail, s);
      BlockSelect(b, firstId, s);
      LayoutSelect(blocks[1..], next, s);
    }
  }

  /** The categories of the blocks that list at least one activity. */
  function ListedCategories(blocks: seq<Block>): set<int> {
    if blocks == [] then {}
    else (if blocks[0].majors + blocks[0].minors > 0 then {blocks[0].category} else {}) + ListedCategories(blocks[1..])
  }

  lemma CategoriesAppend(xs: seq<Activity>, ys: seq<Activity>)
    ensures Categories(xs + ys) == Categories(xs) + Categories(ys)
  {
  }

  lemma BlockCategories(b: Block, firstId: int)
    ensures Categories(BlockActivities(b, firstId)) == if b.majors + b.minors > 0 then {b.category} else {}
  {
    var head := BlockActivities(b, firstId);
    if b.majors + b.minors > 0 {
      assert head[0] in head;
    }
  }

  lemma {:induction false} LayoutCategories(blocks: seq<Block>, firstId: int)
    ensures Categories(Layout(blocks, firstId)) == ListedCategories(blocks)
  {
    if blocks != [] {
      var b := blocks[0];
      var next := firstId + b.majors + b.minors;
      LayoutUnfold(blocks, firstId);
      CategoriesAppend(BlockActivities(b, firstId), Layout(blocks[1..], next));
      BlockCategories(b, firstId);
      LayoutCategories(blocks[1..], next);
    }
  }

  // ---------------------------------------------------------------------------
  // The seeded questionnaire and criteria
  // ---------------------------------------------------------------------------

  /** The seed configures categories 1 to 8. */
  lemma SeedCategories()
    ensures Categories(SeedActivities()) == SEED_MAJOR.Keys
  {
    LayoutCategories(SEED_LAYOUT, 1);
    var l := SEED_LAYOUT;
    assert ListedCategories(l[8..]) == {};
    assert ListedCategories(l[7..]) == {8} by { assert l[7..][1..] == l[8..]; }
    assert ListedCategories(l[6..]) == {7, 8} by { assert l[6..][1..] == l[7..]; }
    assert ListedCategories(l[5..]) == {6, 7, 8} by { assert l[5..][1..] == l[6..]; }
    assert ListedCategories(l[4..]) == {5, 6, 7, 8} by { assert l[4..][1..] == l[5..]; }
    assert ListedCategories(l[3..]) == {4, 5, 6, 7, 8} by { assert l[3..][1..] == l[4..]; }
    assert ListedCategories(l[2..]) == {3, 4, 5, 6, 7, 8} by { assert l[2..][1..] == l[3..]; }
    assert ListedCategories(l[1..]) == {2, 3, 4, 5, 6, 7, 8} by { assert l[1..][1..] == l[2..]; }
    assert ListedCategories(l) == {1, 2, 3, 4, 5, 6, 7, 8};
  }

  /** A block whose category no other block repeats holds all of that category's activities. */
  lemma {:induction false} SumCountOwnBlock(blocks: seq<Block>, i: int, lvl: Level)
    requires 0 <= i < |blocks|
    requires forall j | 0 <= j < |blocks| && j != i :: blocks[j].category != blocks[i].category
    ensures SumCount(blocks, InCategory(blocks[i].category, lvl)) == BlockCount(blocks[i], InCategory(blocks[i].category, lvl))
  {
    var s := InCategory(blocks[i].category, lvl);
    if i == 0 {
      SumCountOtherBlocks(blocks[1..], s);
    } else {
      SumCountOwnBlock(blocks[1..], i - 1, lvl);
    }
  }

  lemma {:induction false} SumCountOtherBlocks(blocks: seq<Block>, s: Selector)
    requires s.InCategory? && forall j | 0 <= j < |blocks| :: blocks[j].category != s.category
    ensures SumCount(blocks, s) == 0
  {
    if blocks != [] {
      SumCountOtherBlocks(blocks[1..], s);
    }
  }

  lemma SeedLayoutShape()
    ensures |SEED_LAYOUT| == 8
    ensures forall j | 0 <= j < 8 :: SEED_LAYOUT[j].category == j + 1 && SEED_LAYOUT[j].majors == SEED_MAJOR[j + 1]
  {
  }

  /** The number of seeded Major activities of each category equals its Major requirement. */
  lemma SeedMajorCounts(c: int)
    requires c in SEED_MAJOR
    ensures |Select(SeedActivities(), InCategory(c, Major))| == SEED_MAJOR[c]
  {
    SeedLayoutShape();
    assert 1 <= c <= 8;
    SumCountOwnBlock(SEED_LAYOUT, c - 1, Major);
    LayoutSelect(SEED_LAYOUT, 1, InCategory(c, Major));
  }

  /** The seed has 26 Minor activities. */
  lemma SeedMinorCount()
    ensures |Select(SeedActivities(), EveryMinor)| == 26
  {
    LayoutSelect(SEED_LAYOUT, 1, EveryMinor);
  }

  /** A Major criterion that is the only one naming its category gives that category's requirement. */
  lemma MajorReqSole(crits: seq<Criterion>, i: int, c: int)
    requires 0 <= i < |crits| && IsMajorFor(crits[i], c)
    requires forall j | 0 <= j < |crits| && j != i :: !IsMajorFor(crits[j], c)
    ensures MajorReq(crits, c) == Some(crits[i].required)
  {
  }

  lemma SeedCriteriaShape()
    ensures |SeedCriteria()| == 9
    ensures forall j | 0 <= j < 8 :: SeedCriteria()[j] == Criterion(Some(j + 1), Major, SEED_MAJOR[j + 1])
    ensures SeedCriteria()[8] == Criterion(None, Minor, SEED_MINOR)
  {
  }

  /** The seeded criteria give each category its Major requirement and a global Minor requirement of 16. */
  lemma SeedRequirements()
    ensures forall c | c in SEED_MAJOR :: MajorReq(SeedCriteria(), c) == Some(SEED_MAJOR[c])
    ensures MinorReq(SeedCriteria()) == Some(SEED_MINOR)
  {
    var crits := SeedCriteria();
    SeedCriteriaShape();
    forall c | c in SEED_MAJOR ensures MajorReq(crits, c) == Some(SEED_MAJOR[c]) {
      MajorReqSole(crits, c - 1, c);
    }
    var k :| 0 <= k < |crits| && crits[k].level == Minor && crits[k].required == MinorReq(crits).value
                                && forall j | 0 <= j < k :: crits[j].level != Minor;
    assert k == 8;
  }

  /** With every activity scored 1, each pass count reaches the number of activities it ranges over. */
  lemma {:induction false} AllOnesCount(acts: seq<Activity>, scored: map<int, int>, s: Selector)
    requires forall a | a in acts :: a.id in scored && scored[a.id] == 1
    ensures CountOnes(acts, scored, scored.Keys, s) == |Select(acts, s)|
  {
    if acts != [] {
      var pre := acts[..|acts| - 1];
      assert forall a | a in pre :: a in acts;
      AllOnesCount(pre, scored, s);
      assert acts[|acts| - 1] in acts;
    }
  }

  /**
   * Eligibility on a fully scored questionnaire whose categories are exactly
   * those with a Major requirement: each category's Major count must reach
   * its requirement and the Minor total must reach the Minor requirement.
   */
  lemma EligibleUnderRequirements(acts: seq<Activity>, crits: seq<Criterion>, answers: map<AnswerKey, AnswerRow>,
                                  user: UserId, major: map<int, int>, minor: int)
    requires acts != [] && Categories(acts) == major.Keys
    requires forall c | c in major :: MajorReq(crits, c) == Some(major[c])
    requires MinorReq(crits) == Some(minor)
    requires forall a | a in acts :: (user, a.id) in answers && answers[(user, a.id)].result.Some?
    ensures var r := EvaluateSpec(acts, answers, crits, user);
      var scored := Scored(answers, user);
      && r.Ok? && r.value.Complete?
      && (r.value.eligible <==>
            && (forall c | c in major :: PassCount(acts, scored, InCategory(c, Major)) >= major[c])
            && PassCount(acts, scored, EveryMinor) >= minor)
  {
    IncompleteIffUnscored(acts, answers, crits, user);
    EligibleIff(acts, answers, crits, user);
  }

  /**
   * On the seeded configuration, once every activity is scored, the user is
   * eligible exactly when each category's Major count reaches its seeded
   * requirement and the Minor total reaches 16.
   */
  lemma SeedEligibleIff(answers: map<AnswerKey, AnswerRow>, user: UserId)
    requires forall a | a in SeedActivities() :: (user, a.id) in answers && answers[(user, a.id)].result.Some?
    ensures var r := EvaluateSpec(SeedActivities(), answers, SeedCriteria(), user);
      var scored := Scored(answers, user);
      && r.Ok? && r.value.Complete?
      && (r.value.eligible <==>
            && (forall c | c in SEED_MAJOR :: PassCount(SeedActivities(), scored, InCategory(c, Major)) >= SEED_MAJOR[c])
            && PassCount(SeedActivities(), scored, EveryMinor) >= SEED_MINOR)
  {
    SeedIdsDistinct();
    SeedCategories();
    SeedRequirements();
    EligibleUnderRequirements(SeedActivities(), SeedCriteria(), answers, user, SEED_MAJOR, SEED_MINOR);
  }

  /**
   * A seeded category whose requirement is 0 (category 6) has no Major
   * activity, so in every complete evaluation of the seed it passes with
   * count 0.
   */
  lemma SeedZeroRequirementVacuous(answers: map<AnswerKey, AnswerRow>, user: UserId, c: int)
    requires c in SEED_MAJOR && SEED_MAJOR[c] == 0
    requires forall a | a in SeedActivities() :: (user, a.id) in answers && answers[(user, a.id)].result.Some?
    ensures var r := EvaluateSpec(SeedActivities(), answers, SeedCriteria(), user);
      r.Ok? && r.value.Complete? && c in r.value.perCategory
      && r.value.perCategory[c] == CategoryResult(0, Some(0), Passed)
  {
    SeedEligibleIff(answers, user);
    SeedCategories();
    SeedRequirements();
    SeedMajorCounts(c);
    CompleteReport(SeedActivities(), answers, SeedCriteria(), user);
    VacuousCategoryPasses(SeedActivities(), Scored(answers, user), SeedCriteria(), c);
  }

  /** A category without Major activities whose requirement is 0 passes with count 0. */
  lemma VacuousCategoryPasses(acts: seq<Activity>, scored: map<int, int>, crits: seq<Criterion>, c: int)
    requires c in Categories(acts)
    requires |Select(acts, InCategory(c, Major))| == 0 && MajorReq(crits, c) == Some(0)
    ensures var per := PerCategory(acts, scored, crits);
      c in per && per[c] == CategoryResult(0, Some(0), Passed)
  {
    CountOnesBound(acts, scored, scored.Keys, InCategory(c, Major));
  }

  /** The seeded thresholds are reachable: scoring every seeded activity 1 makes the user eligible. */
  lemma SeedReachable(answers: map<AnswerKey, AnswerRow>, user: UserId)
    requires forall a | a in SeedActivities() :: (user, a.id) in answers && answers[(user, a.id)].result == Some(1)
    ensures var r := EvaluateSpec(SeedActivities(), answers, SeedCriteria(), user);
      r.Ok? && r.value.Complete? && r.value.eligible
  {
    var acts := SeedActivities();
    var scored := Scored(answers, user);
    SeedEligibleIff(answers, user);
    forall c | c in SEED_MAJOR ensures PassCount(acts, scored, InCategory(c, Major)) >= SEED_MAJOR[c] {
      AllOnesCount(acts, scored, InCategory(c, Major));
      SeedMajorCounts(c);
    }
    AllOnesCount(acts, scored, EveryMinor);
    SeedMinorCount();
  }
}
