/**
 * The eligibility rules of the durian self-assessment, stated declaratively:
 * what `evaluate` must report for a set of activities, a user's answers and
 * the configured criteria. The imperative evaluator in module Evaluator is
 * proved to compute exactly `EvaluateSpec`.
 */
module Assessment {
  import opened Records

  /** Per-category outcome of the Major check. */
  datatype Status = Passed | Failed | NoCriteria

  datatype CategoryResult = CategoryResult(majorPass: nat, majorRequire: Option<int>, status: Status)

  /** The activities of one category that still lack a scored answer, by level. */
  datatype Gaps = Gaps(majorMissing: seq<int>, minorMissing: seq<int>)

  /** The two shapes of the evaluation report. */
  datatype Verdict =
    | Incomplete(missing: map<int, Gaps>)
    | Complete(perCategory: map<int, CategoryResult>, minorTotal: nat,
               minorRequire: Option<int>, eligible: bool)

  /** Which activities a list or a tally ranges over. */
  datatype Selector = InCategory(category: int, level: Level) | EveryMinor

  predicate Selects(s: Selector, a: Activity) {
    match s
    case InCategory(c, lvl) => a.category == c && a.level == lvl
    case EveryMinor => a.level == Minor
  }

  /** Activity ids are a primary key. */
  predicate DistinctIds(acts: seq<Activity>) {
    forall i, j | 0 <= i < j < |acts| :: acts[i].id != acts[j].id
  }

  function IdSet(acts: seq<Activity>): set<int> {
    set a | a in acts :: a.id
  }

  function Categories(acts: seq<Activity>): set<int> {
    set a | a in acts :: a.category
  }

  /** The results of the user's answers that carry a result, by activity id. */
  function Scored(answers: map<AnswerKey, AnswerRow>, user: UserId): (scored: map<int, int>)
    ensures forall aid :: aid in scored <==> (user, aid) in answers && answers[(user, aid)].result.Some?
    ensures forall aid | aid in scored :: scored[aid] == answers[(user, aid)].result.value
  {
    map k | k in answers && k.0 == user && answers[k].result.Some? :: k.1 := answers[k].result.value
  }

  /** The ids of the selected activities, in configuration order. */
  function Select(acts: seq<Activity>, s: Selector): seq<int> {
    if acts == [] then []
    else
      var a := acts[|acts| - 1];
      Select(acts[..|acts| - 1], s) + (if Selects(s, a) then [a.id] else [])
  }

  /** The ids among `ids` that have no scored answer, in order. */
  function Unscored(ids: seq<int>, scored: map<int, int>): seq<int> {
    if ids == [] then []
    else
      var x := ids[|ids| - 1];
      Unscored(ids[..|ids| - 1], scored) + (if x in scored then [] else [x])
  }

  function GapsOf(acts: seq<Activity>, scored: map<int, int>, c: int): Gaps {
    Gaps(Unscored(Select(acts, InCategory(c, Major)), scored),
         Unscored(Select(acts, InCategory(c, Minor)), scored))
  }

  predicate HasGaps(g: Gaps) {
    g.majorMissing != [] || g.minorMissing != []
  }

  /** The incomplete report: one entry per category that has a gap. */
  function MissingMap(acts: seq<Activity>, scored: map<int, int>): map<int, Gaps> {
    map c | c in Categories(acts) && HasGaps(GapsOf(acts, scored, c)) :: GapsOf(acts, scored, c)
  }

  /**
   * How many selected activities whose id lies in `within` are scored exactly 1.
   * A result 0, or no result, adds nothing.
   */
  function CountOnes(acts: seq<Activity>, scored: map<int, int>, within: set<int>, s: Selector): nat {
    if acts == [] then 0
    else
      var a := acts[|acts| - 1];
      CountOnes(acts[..|acts| - 1], scored, within, s)
        + (if Selects(s, a) && a.id in within && a.id in scored && scored[a.id] == 1 then 1 else 0)
  }

  /** The pass count over every scored answer. */
  function PassCount(acts: seq<Activity>, scored: map<int, int>, s: Selector): nat {
    CountOnes(acts, scored, scored.Keys, s)
  }

  predicate IsMajorFor(cr: Criterion, c: int) {
    cr.level == Major && cr.category == Some(c)
  }

  /**
   * The position of the last Major criterion naming category `c`, or -1 when
   * there is none.
   */
  function LastMajor(crits: seq<Criterion>, c: int): (k: int)
    ensures -1 <= k < |crits|
    ensures k >= 0 ==> IsMajorFor(crits[k], c)
    ensures forall j | k < j < |crits| :: !IsMajorFor(crits[j], c)
  {
    if crits == [] then -1
    else if IsMajorFor(crits[|crits| - 1], c) then |crits| - 1
    else
      var pre := crits[..|crits| - 1];
      var k := LastMajor(pre, c);
      assert forall j | k < j < |pre| :: crits[j] == pre[j];
      k
  }

  /**
   * The Major requirement of category `c`. The source builds a dictionary from
   * the criteria in table order, so the last Major criterion naming `c` wins.
   */
  function MajorReq(crits: seq<Criterion>, c: int): (r: Option<int>)
    ensures r.None? <==> forall i | 0 <= i < |crits| :: !IsMajorFor(crits[i], c)
    ensures r.Some? ==>
      exists i | 0 <= i < |crits| ::
        IsMajorFor(crits[i], c) && crits[i].required == r.value
        && forall j | i < j < |crits| :: !IsMajorFor(crits[j], c)
  {
    var k := LastMajor(crits, c);
    if k < 0 then None else Some(crits[k].required)
  }

  /**
   * The global Minor requirement: the first Minor criterion in table order,
   * whatever category it names.
   */
  function MinorReq(crits: seq<Criterion>): (r: Option<int>)
    ensures r.None? <==> forall i | 0 <= i < |crits| :: crits[i].level != Minor
    ensures r.Some? ==>
      exists i | 0 <= i < |crits| ::
        crits[i].level == Minor && crits[i].required == r.value
        && forall j | 0 <= j < i :: crits[j].level != Minor
  {
    if crits == [] then None
    else if crits[0].level == Minor then Some(crits[0].required)
    else
      var r := MinorReq(crits[1..]);
      assert forall j | 1 <= j < |crits| :: crits[j] == crits[1..][j - 1];
      r
  }

  /** The per-category Major check: no criterion, pass or fail. */
  function Judge(got: nat, req: Option<int>): CategoryResult {
    match req
    case None => CategoryResult(got, None, NoCriteria)
    case Some(n) => CategoryResult(got, req, if got >= n then Passed else Failed)
  }

  predicate MinorOk(total: nat, req: Option<int>) {
    req.None? || total >= req.value
  }

  predicate AllPassed(per: map<int, CategoryResult>) {
    forall c | c in per :: per[c].status == Passed
  }

  function PerCategory(acts: seq<Activity>, scored: map<int, int>, crits: seq<Criterion>): map<int, CategoryResult> {
    map c | c in Categories(acts) :: Judge(PassCount(acts, scored, InCategory(c, Major)), MajorReq(crits, c))
  }

  /** What `evaluate(user_id)` reports. */
  function EvaluateSpec(acts: seq<Activity>, answers: map<AnswerKey, AnswerRow>,
                        crits: seq<Criterion>, user: UserId): (r: Result<Verdict>)
    ensures r.Err? <==> acts == []
    ensures r.Err? ==> r.error == NoActivitiesConfigured && StatusCode(r.error) == 400
    ensures r.Ok? && r.value.Incomplete? ==> r.value.missing != map[] && r.value.missing.Keys <= Categories(acts)
    ensures r.Ok? && r.value.Complete? ==>
      && r.value.perCategory.Keys == Categories(acts)
      && r.value.minorRequire == MinorReq(crits)
      && (r.value.eligible <==> AllPassed(r.value.perCategory) && MinorOk(r.value.minorTotal, r.value.minorRequire))
  {
    if acts == [] then Err(NoActivitiesConfigured)
    else
      var scored := Scored(answers, user);
      var missing := MissingMap(acts, scored);
      if missing != map[] then Ok(Incomplete(missing))
      else
        var per := PerCategory(acts, scored, crits);
        var minorTotal := PassCount(acts, scored, EveryMinor);
        var minorReq := MinorReq(crits);
        Ok(Complete(per, minorTotal, minorReq, AllPassed(per) && MinorOk(minorTotal, minorReq)))
  }

  // ---------------------------------------------------------------------------
  // Lemmas about the building blocks
  // ---------------------------------------------------------------------------

  lemma {:induction false} SelectMembers(acts: seq<Activity>, s: Selector)
    ensures forall x :: x in Select(acts, s) <==> exists a :: a in acts && a.id == x && Selects(s, a)
  {
    if acts != [] {
      var pre := acts[..|acts| - 1];
      SelectMembers(pre, s);
      assert acts == pre + [acts[|acts| - 1]];
    }
  }

  lemma {:induction false} UnscoredMembers(ids: seq<int>, scored: map<int, int>)
    ensures forall x :: x in Unscored(ids, scored) <==> x in ids && x !in scored
  {
    if ids != [] {
      var pre := ids[..|ids| - 1];
      UnscoredMembers(pre, scored);
      assert ids == pre + [ids[|ids| - 1]];
    }
  }

  /** Each reported list holds exactly the activities of that category and level without a scored answer. */
  lemma GapsMembers(acts: seq<Activity>, scored: map<int, int>, c: int)
    ensures forall x :: x in GapsOf(acts, scored, c).majorMissing <==>
      exists a :: a in acts && a.id == x && a.category == c && a.level == Major && x !in scored
    ensures forall x :: x in GapsOf(acts, scored, c).minorMissing <==>
      exists a :: a in acts && a.id == x && a.category == c && a.level == Minor && x !in scored
  {
    SelectMembers(acts, InCategory(c, Major));
    SelectMembers(acts, InCategory(c, Minor));
    UnscoredMembers(Select(acts, InCategory(c, Major)), scored);
    UnscoredMembers(Select(acts, InCategory(c, Minor)), scored);
  }

  /** A category has gaps exactly when one of its activities has no scored answer. */
  lemma HasGapsIff(acts: seq<Activity>, scored: map<int, int>, c: int)
    ensures HasGaps(GapsOf(acts, scored, c)) <==> exists a :: a in acts && a.category == c && a.id !in scored
  {
    GapsMembers(acts, scored, c);
    var g := GapsOf(acts, scored, c);
    if a :| a in acts && a.category == c && a.id !in scored {
      if a.level == Major {
        assert a.id in g.majorMissing;
      } else {
        assert a.id in g.minorMissing;
      }
    }
    if HasGaps(g) {
      var x := if g.majorMissing != [] then g.majorMissing[0] else g.minorMissing[0];
      assert x in g.majorMissing || x in g.minorMissing;
      var a :| a in acts && a.id == x && a.category == c && x !in scored;
      assert a.id !in scored;
    }
  }

  /** A pass count never exceeds the number of activities it ranges over. */
  lemma {:induction false} CountOnesBound(acts: seq<Activity>, scored: map<int, int>, within: set<int>, s: Selector)
    ensures CountOnes(acts, scored, within, s) <= |Select(acts, s)|
  {
    if acts != [] {
      CountOnesBound(acts[..|acts| - 1], scored, within, s);
    }
  }

  /** Widening `within` by an id that no activity carries changes nothing. */
  lemma {:induction false} CountOnesIgnoresForeignId(acts: seq<Activity>, scored: map<int, int>,
                                                     within: set<int>, aid: int, s: Selector)
    requires forall a | a in acts :: a.id != aid
    ensures CountOnes(acts, scored, within + {aid}, s) == CountOnes(acts, scored, within, s)
  {
    if acts != [] {
      var pre := acts[..|acts| - 1];
      assert forall a | a in pre :: a in acts;
      CountOnesIgnoresForeignId(pre, scored, within, aid, s);
    }
  }

  /**
   * Widening `within` by the id of one activity adds that activity's
   * contribution and nothing else: the step of the evaluator's tally loop.
   */
  lemma {:induction false} CountOnesStep(acts: seq<Activity>, scored: map<int, int>,
                                         within: set<int>, a: Activity, s: Selector)
    requires DistinctIds(acts)
    requires a in acts && a.id !in within
    ensures CountOnes(acts, scored, within + {a.id}, s)
         == CountOnes(acts, scored, within, s)
            + (if Selects(s, a) && a.id in scored && scored[a.id] == 1 then 1 else 0)
  {
    var n := |acts|;
    var pre := acts[..n - 1];
    var last := acts[n - 1];
    assert DistinctIds(pre);
    if last == a {
      forall b | b in pre ensures b.id != a.id {
        var i :| 0 <= i < n - 1 && pre[i] == b;
        assert acts[i] == b;
      }
      CountOnesIgnoresForeignId(pre, scored, within, a.id, s);
    } else {
      assert acts == pre + [last];
      assert a in pre;
      CountOnesStep(pre, scored, within, a, s);
      var i :| 0 <= i < n - 1 && pre[i] == a;
      assert acts[i] == a;
      assert last.id != a.id;
    }
  }

  /** A result 0 for a not yet scored activity closes its gap but adds to no count. */
  lemma {:induction false} ZeroAddsNothing(acts: seq<Activity>, scored: map<int, int>,
                                           within: set<int>, aid: int, s: Selector)
    requires aid !in scored
    ensures CountOnes(acts, scored[aid := 0], within + {aid}, s) == CountOnes(acts, scored, within, s)
  {
    if acts != [] {
      ZeroAddsNothing(acts[..|acts| - 1], scored, within, aid, s);
    }
  }

  /**
   * Scoring a not yet scored activity 0 removes exactly that activity from
   * every missing list and leaves every pass count as it was.
   */
  lemma ZeroClosesGapOnly(acts: seq<Activity>, scored: map<int, int>, aid: int, s: Selector)
    requires aid !in scored
    ensures PassCount(acts, scored[aid := 0], s) == PassCount(acts, scored, s)
    ensures forall ids: seq<int>, x :: x in Unscored(ids, scored[aid := 0]) <==> x in Unscored(ids, scored) && x != aid
  {
    assert scored[aid := 0].Keys == scored.Keys + {aid};
    ZeroAddsNothing(acts, scored, scored.Keys, aid, s);
    forall ids: seq<int>, x
      ensures x in Unscored(ids, scored[aid := 0]) <==> x in Unscored(ids, scored) && x != aid
    {
      UnscoredMembers(ids, scored);
      UnscoredMembers(ids, scored[aid := 0]);
    }
  }

  // ---------------------------------------------------------------------------
  // Lemmas about the verdict
  // ---------------------------------------------------------------------------

  /** The report is incomplete exactly when some configured activity has no scored answer. */
  lemma IncompleteIffUnscored(acts: seq<Activity>, answers: map<AnswerKey, AnswerRow>,
                              crits: seq<Criterion>, user: UserId)
    requires acts != []
    ensures EvaluateSpec(acts, answers, crits, user).Ok?
    ensures EvaluateSpec(acts, answers, crits, user).value.Incomplete? <==>
      exists a :: a in acts && a.id !in Scored(answers, user)
  {
    var scored := Scored(answers, user);
    var missing := MissingMap(acts, scored);
    if a :| a in acts && a.id !in scored {
      HasGapsIff(acts, scored, a.category);
      assert a.category in missing;
    }
    if missing != map[] {
      var c :| c in missing;
      HasGapsIff(acts, scored, c);
    }
  }

  /**
   * An incomplete report names exactly the categories with a gap, and each
   * list names exactly the unscored activities of its category and level.
   */
  lemma IncompleteReportExact(acts: seq<Activity>, answers: map<AnswerKey, AnswerRow>,
                              crits: seq<Criterion>, user: UserId)
    requires EvaluateSpec(acts, answers, crits, user).Ok?
    requires EvaluateSpec(acts, answers, crits, user).value.Incomplete?
    ensures var m := EvaluateSpec(acts, answers, crits, user).value.missing;
      && (forall c :: c in m <==> exists a :: a in acts && a.category == c && a.id !in Scored(answers, user))
      && (forall c, x | c in m :: x in m[c].majorMissing <==>
            exists a :: a in acts && a.id == x && a.category == c && a.level == Major && x !in Scored(answers, user))
      && (forall c, x | c in m :: x in m[c].minorMissing <==>
            exists a :: a in acts && a.id == x && a.category == c && a.level == Minor && x !in Scored(answers, user))
  {
    var scored := Scored(answers, user);
    var m := MissingMap(acts, scored);
    forall c ensures c in m <==> exists a :: a in acts && a.category == c && a.id !in scored {
      HasGapsIff(acts, scored, c);
    }
    forall c | c in m {
      GapsMembers(acts, scored, c);
    }
  }

  /** A complete report means every configured activity carries a scored answer. */
  lemma CompleteMeansAllScored(acts: seq<Activity>, answers: map<AnswerKey, AnswerRow>,
                               crits: seq<Criterion>, user: UserId)
    requires EvaluateSpec(acts, answers, crits, user).Ok?
    requires EvaluateSpec(acts, answers, crits, user).value.Complete?
    ensures forall a | a in acts :: (user, a.id) in answers && answers[(user, a.id)].result.Some?
  {
    IncompleteIffUnscored(acts, answers, crits, user);
  }

  /**
   * In a complete report the per-category Major counts and the Minor total
   * count only results equal to 1 and never exceed the number of activities
   * they range over.
   */
  lemma CompleteCountsBounded(acts: seq<Activity>, answers: map<AnswerKey, AnswerRow>,
                              crits: seq<Criterion>, user: UserId)
    requires EvaluateSpec(acts, answers, crits, user).Ok?
    requires EvaluateSpec(acts, answers, crits, user).value.Complete?
    ensures var v := EvaluateSpec(acts, answers, crits, user).value;
      && v.perCategory.Keys == Categories(acts)
      && (forall c | c in v.perCategory ::
            v.perCategory[c].majorPass == PassCount(acts, Scored(answers, user), InCategory(c, Major))
            <= |Select(acts, InCategory(c, Major))|)
      && v.minorTotal == PassCount(acts, Scored(answers, user), EveryMinor) <= |Select(acts, EveryMinor)|
  {
    var scored := Scored(answers, user);
    forall c | c in Categories(acts) {
      CountOnesBound(acts, scored, scored.Keys, InCategory(c, Major));
    }
    CountOnesBound(acts, scored, scored.Keys, EveryMinor);
  }

  /**
   * The eligibility flag of a complete report: every category has a Major
   * criterion that its pass count meets, and there is no Minor criterion or
   * the Minor total meets it. A category without a Major criterion is
   * reported `NoCriteria` and blocks eligibility.
   */
  lemma EligibleIff(acts: seq<Activity>, answers: map<AnswerKey, AnswerRow>,
                    crits: seq<Criterion>, user: UserId)
    requires EvaluateSpec(acts, answers, crits, user).Ok?
    requires EvaluateSpec(acts, answers, crits, user).value.Complete?
    ensures var v := EvaluateSpec(acts, answers, crits, user).value;
      var scored := Scored(answers, user);
      && (forall c | c in v.perCategory ::
            && (v.perCategory[c].status == NoCriteria <==> MajorReq(crits, c).None?)
            && (v.perCategory[c].status == Passed <==>
                  MajorReq(crits, c).Some? && PassCount(acts, scored, InCategory(c, Major)) >= MajorReq(crits, c).value))
      && (v.eligible <==>
            && (forall c | c in Categories(acts) ::
                  MajorReq(crits, c).Some? && PassCount(acts, scored, InCategory(c, Major)) >= MajorReq(crits, c).value)
            && (MinorReq(crits).None? || PassCount(acts, scored, EveryMinor) >= MinorReq(crits).value))
  {
    CompleteReport(acts, answers, crits, user);
    JudgedIff(acts, Scored(answers, user), crits);
  }

  /** The statuses of the judged categories, and when all of them pass. */
  lemma JudgedIff(acts: seq<Activity>, scored: map<int, int>, crits: seq<Criterion>)
    ensures var per := PerCategory(acts, scored, crits);
      && (forall c | c in per ::
            && (per[c].status == NoCriteria <==> MajorReq(crits, c).None?)
            && (per[c].status == Passed <==>
                  MajorReq(crits, c).Some? && PassCount(acts, scored, InCategory(c, Major)) >= MajorReq(crits, c).value))
      && (AllPassed(per) <==>
            forall c | c in Categories(acts) ::
              MajorReq(crits, c).Some? && PassCount(acts, scored, InCategory(c, Major)) >= MajorReq(crits, c).value)
  {
  }

  /** The fields of a complete report, as the specification defines them. */
  lemma CompleteReport(acts: seq<Activity>, answers: map<AnswerKey, AnswerRow>,
                       crits: seq<Criterion>, user: UserId)
    requires EvaluateSpec(acts, answers, crits, user).Ok?
    requires EvaluateSpec(acts, answers, crits, user).value.Complete?
    ensures var v := EvaluateSpec(acts, answers, crits, user).value;
      && v.perCategory == PerCategory(acts, Scored(answers, user), crits)
      && v.minorTotal == PassCount(acts, Scored(answers, user), EveryMinor)
      && v.minorRequire == MinorReq(crits)
  {
  }

  /** One category without a Major criterion makes the user ineligible, whatever the answers. */
  lemma NoCriteriaBlocks(acts: seq<Activity>, answers: map<AnswerKey, AnswerRow>,
                         crits: seq<Criterion>, user: UserId, c: int)
    requires EvaluateSpec(acts, answers, crits, user).Ok?
    requires EvaluateSpec(acts, answers, crits, user).value.Complete?
    requires c in Categories(acts) && MajorReq(crits, c).None?
    ensures EvaluateSpec(acts, answers, crits, user).value.perCategory[c].status == NoCriteria
    ensures !EvaluateSpec(acts, answers, crits, user).value.eligible
  {
  }
}
