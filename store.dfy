/**
 * The database behind the assessment endpoints as one object whose tables
 * the endpoints update in place, and the certification-request gate.
 * Tables the modelled endpoints only read (users, farms, durian records,
 * agreements and agreement answers) are fields that no method here changes.
 */
module Store {
  import opened Records
  import opened Assessment
  import opened Answers
  import Evaluator
  import Seed

  // ---------------------------------------------------------------------------
  // The request gate as a function of the tables
  // ---------------------------------------------------------------------------

  /** The positions of the agreement answers in which `user` accepts. */
  function AcceptingRows(rows: seq<AgreementAnswer>, user: UserId): set<int> {
    set i | 0 <= i < |rows| && rows[i].userId == user && rows[i].answer == ACCEPT
  }

  /** One more agreement answer adds one accepting row exactly when it is an acceptance by `user`. */
  lemma AcceptingRowsSnoc(rows: seq<AgreementAnswer>, user: UserId)
    requires rows != []
    ensures var last := rows[|rows| - 1];
      |AcceptingRows(rows, user)|
        == |AcceptingRows(rows[..|rows| - 1], user)| + (if last.userId == user && last.answer == ACCEPT then 1 else 0)
  {
    var pre := rows[..|rows| - 1];
    var last := rows[|rows| - 1];
    assert forall i | 0 <= i < |pre| :: pre[i] == rows[i];
    var here: set<int> := if last.userId == user && last.answer == ACCEPT then {|pre|} else {};
    assert AcceptingRows(rows, user) == AcceptingRows(pre, user) + here;
  }

  /**
   * The agreement answers of `user` whose text is the acceptance word, in table
   * order: one entry per accepting row, so its length is the number of such rows.
   */
  function Accepted(rows: seq<AgreementAnswer>, user: UserId): (ids: seq<int>)
    ensures |ids| <= |rows|
    ensures |ids| == |AcceptingRows(rows, user)|
    ensures forall x :: x in ids <==> exists r | r in rows :: r.userId == user && r.answer == ACCEPT && r.agreementId == x
  {
    if rows == [] then []
    else
      var pre := rows[..|rows| - 1];
      var last := rows[|rows| - 1];
      assert forall r | r in rows :: r in pre || r == last;
      AcceptingRowsSnoc(rows, user);
      Accepted(pre, user) + (if last.userId == user && last.answer == ACCEPT then [last.agreementId] else [])
  }

  /** The agreement check as written: at least as many acceptances as there are agreements. */
  predicate AgreementsSatisfied(agreements: seq<int>, rows: seq<AgreementAnswer>, user: UserId)
    ensures AgreementsSatisfied(agreements, rows, user) <==>
      |agreements| == 0 || |AcceptingRows(rows, user)| >= |agreements|
  {
    |agreements| == 0 || |Accepted(rows, user)| >= |agreements|
  }

  /**
   * What `create_gap_request` answers, given the evaluation of the user: the
   * farm must exist and belong to the user, the evaluation must be complete
   * and eligible, the user must have a durian record and the agreement check
   * must pass, checked in that order. `None` means the request is stored.
   */
  function GateCheck(farms: map<int, UserId>, durians: seq<UserId>, agreements: seq<int>,
                     agreementAnswers: seq<AgreementAnswer>, verdict: Result<Verdict>,
                     farmId: int, user: UserId): (r: Option<Failure>)
    ensures r.None? <==>
      && farmId in farms && farms[farmId] == user
      && verdict.Ok? && verdict.value.Complete? && verdict.value.eligible
      && user in durians
      && AgreementsSatisfied(agreements, agreementAnswers, user)
    ensures farmId !in farms ==> r == Some(FarmNotFound)
    ensures farmId in farms && farms[farmId] != user ==> r == Some(NotFarmOwner)
    ensures farmId in farms && farms[farmId] == user && verdict.Err? ==> r == Some(verdict.error)
    ensures (&& farmId in farms && farms[farmId] == user && verdict.Ok?
             && !(verdict.value.Complete? && verdict.value.eligible)) ==> r == Some(NotEligible)
    ensures (&& farmId in farms && farms[farmId] == user && verdict.Ok?
             && verdict.value.Complete? && verdict.value.eligible && user !in durians) ==> r == Some(NoDurianRecord)
    ensures (&& farmId in farms && farms[farmId] == user && verdict.Ok?
             && verdict.value.Complete? && verdict.value.eligible && user in durians
             && !AgreementsSatisfied(agreements, agreementAnswers, user)) ==> r == Some(AgreementsNotAccepted)
    ensures farmId in farms && farms[farmId] == user && verdict.Ok? && r.Some? ==> StatusCode(r.value) == 400
    ensures r.Some? ==> (StatusCode(r.value) == 404 <==> farmId !in farms || (farms[farmId] == user && verdict.Err? && StatusCode(verdict.error) == 404))
  {
    if farmId !in farms then Some(FarmNotFound)
    else if farms[farmId] != user then Some(NotFarmOwner)
    else if verdict.Err? then Some(verdict.error)
    else if !(verdict.value.Complete? && verdict.value.eligible) then Some(NotEligible)
    else if user !in durians then Some(NoDurianRecord)
    else if !AgreementsSatisfied(agreements, agreementAnswers, user) then Some(AgreementsNotAccepted)
    else None
  }

  /**
   * A request that passes the gate comes from a user for whom every configured
   * activity is scored, every category has a Major criterion that its pass
   * count meets, and the Minor total meets the Minor criterion if there is one.
   */
  lemma GatePassedMeansAssessmentPassed(farms: map<int, UserId>, durians: seq<UserId>, agreements: seq<int>,
                                        agreementAnswers: seq<AgreementAnswer>, acts: seq<Activity>,
                                        answers: Rows, crits: seq<Criterion>, farmId: int, user: UserId)
    requires GateCheck(farms, durians, agreements, agreementAnswers,
                       EvaluateSpec(acts, answers, crits, user), farmId, user).None?
    ensures acts != []
    ensures forall a | a in acts :: (user, a.id) in answers && answers[(user, a.id)].result.Some?
    ensures forall c | c in Categories(acts) ::
      MajorReq(crits, c).Some? && PassCount(acts, Scored(answers, user), InCategory(c, Major)) >= MajorReq(crits, c).value
    ensures MinorReq(crits).None? || PassCount(acts, Scored(answers, user), EveryMinor) >= MinorReq(crits).value
    ensures farmId in farms && farms[farmId] == user && user in durians
  {
    CompleteMeansAllScored(acts, answers, crits, user);
    EligibleIff(acts, answers, crits, user);
  }

  /**
   * The agreement check counts acceptance rows: two acceptances of the same
   * agreement satisfy a table of two agreements although the second was never
   * accepted.
   */
  lemma CountingAcceptsUnmatchedAgreement()
    ensures var rows := [AgreementAnswer(1, "u", ACCEPT), AgreementAnswer(1, "u", ACCEPT)];
      && AgreementsSatisfied([1, 2], rows, "u")
      && 2 !in Accepted(rows, "u")
  {
    var rows := [AgreementAnswer(1, "u", ACCEPT), AgreementAnswer(1, "u", ACCEPT)];
    assert rows[..1] == [AgreementAnswer(1, "u", ACCEPT)];
    assert [AgreementAnswer(1, "u", ACCEPT)][..0] == [];
  }

  lemma {:induction false} DistinctSetSize(xs: seq<int>)
    requires forall i, j | 0 <= i < j < |xs| :: xs[i] != xs[j]
    ensures |set x | x in xs| == |xs|
  {
    if xs != [] {
      var pre := xs[..|xs| - 1];
      var last := xs[|xs| - 1];
      DistinctSetSize(pre);
      assert (set x | x in xs) == (set x | x in pre) + {last};
      assert last !in (set x | x in pre);
    }
  }

  lemma {:induction false} SetOfSeqBound(xs: seq<int>)
    ensures |set x | x in xs| <= |xs|
  {
    if xs != [] {
      var pre := xs[..|xs| - 1];
      SetOfSeqBound(pre);
      assert (set x | x in xs) == (set x | x in pre) + {xs[|xs| - 1]};
    }
  }

  lemma {:induction false} SubsetSize(a: set<int>, b: set<int>)
    requires a <= b
    ensures |a| <= |b|
  {
    if a != {} {
      Evaluator.EmptyOrHasMember(a);
      var x :| x in a;
      SubsetSize(a - {x}, b - {x});
    }
  }

  /**
   * The counting check is never stricter than the intended one: when the
   * agreement ids are distinct and the user accepted every one of them, the
   * check passes.
   */
  lemma EveryAgreementAcceptedPasses(agreements: seq<int>, rows: seq<AgreementAnswer>, user: UserId)
    requires forall i, j | 0 <= i < j < |agreements| :: agreements[i] != agreements[j]
    requires forall g | g in agreements :: exists r | r in rows :: r.userId == user && r.answer == ACCEPT && r.agreementId == g
    ensures AgreementsSatisfied(agreements, rows, user)
  {
    var acc := Accepted(rows, user);
    DistinctSetSize(agreements);
    SetOfSeqBound(acc);
    SubsetSize(set x | x in agreements, set x | x in acc);
  }

  // ---------------------------------------------------------------------------
  // The database
  // ---------------------------------------------------------------------------

  class GapStore {
    var users: set<UserId>
    var activities: seq<Activity>
    var criteria: seq<Criterion>
    var answers: Rows
    var nextAnswerId: nat
    var agreements: seq<int>
    var agreementAnswers: seq<AgreementAnswer>
    var farms: map<int, UserId>
    var durians: seq<UserId>
    var requests: seq<GapRequestRow>

    /**
     * Activity ids are a primary key; every answer belongs to a known user and
     * a configured activity; answer ids are a primary key below the next id;
     * every stored result is absent, 0 or 1.
     */
    ghost predicate Valid()
      reads this
    {
      && DistinctIds(activities)
      && (forall k | k in answers :: k.0 in users && k.1 in IdSet(activities))
      && RowIdsFresh(answers, nextAnswerId)
      && BinaryResults(answers)
    }

    /** A database holding the seeded questionnaire and criteria, no answers and no requests. */
    constructor Seeded(users: set<UserId>, farms: map<int, UserId>, durians: seq<UserId>,
                       agreements: seq<int>, agreementAnswers: seq<AgreementAnswer>)
      ensures Valid()
      ensures this.activities == Seed.SeedActivities() && this.criteria == Seed.SeedCriteria()
      ensures this.answers == map[] && this.nextAnswerId == 1 && this.requests == []
      ensures this.users == users && this.farms == farms && this.durians == durians
      ensures this.agreements == agreements && this.agreementAnswers == agreementAnswers
    {
      this.users := users;
      this.activities := Seed.SeedActivities();
      this.criteria := Seed.SeedCriteria();
      this.answers := map[];
      this.nextAnswerId := 1;
      this.agreements := agreements;
      this.agreementAnswers := agreementAnswers;
      this.farms := farms;
      this.durians := durians;
      this.requests := [];
      new;
      Seed.SeedIdsDistinct();
    }

    /**
     * `insert_answer`: after the checks, the client's fields overwrite the
     * existing answer for (user, activity), or a new row is added.
     */
    method InsertAnswer(p: AnswerPayload) returns (r: Result<AnswerRow>)
      requires Valid()
      modifies this`answers, this`nextAnswerId
      ensures Valid()
      ensures var check := InsertCheck(users, IdSet(activities), p);
        && (check.Some? ==> r == Err(check.value) && answers == old(answers) && nextAnswerId == old(nextAnswerId))
        && (check.None? ==> (answers, nextAnswerId) == Upsert(old(answers), old(nextAnswerId), p)
                            && r == Ok(answers[(p.userId, p.activityId)]))
    {
      if p.userId !in users {
        return Err(UserNotFound);
      }
      if p.activityId !in IdSet(activities) {
        return Err(ActivityNotFound);
      }
      if !Truthy(p.text.Val()) && !Truthy(p.file.Val()) && p.result.Val().None? {
        return Err(ContentRequired);
      }
      var bad := Score01(p.result.Val());
      if bad.Some? {
        return Err(bad.value);
      }
      var key := (p.userId, p.activityId);
      if key in answers {
        var rec := answers[key];
        if p.file.Given? {
          rec := rec.(file := p.file.sent);
        }
        if p.text.Given? {
          rec := rec.(text := p.text.sent);
        }
        if p.result.Given? {
          rec := rec.(result := p.result.sent);
        }
        answers := answers[key := rec];
      } else {
        answers := answers[key := NewRow(nextAnswerId, p)];
        nextAnswerId := nextAnswerId + 1;
      }
      UpsertKeepsInvariant(old(answers), old(nextAnswerId), p);
      r := Ok(answers[key]);
    }

    /** `update_answer`: replaces the text and the file of an existing answer when they are supplied. */
    method UpdateAnswer(p: AnswerPayload) returns (r: Result<AnswerRow>)
      requires Valid()
      modifies this`answers
      ensures Valid()
      ensures var check := UpdateCheck(users, IdSet(activities), old(answers), p);
        var key := (p.userId, p.activityId);
        && (check.Some? ==> r == Err(check.value) && answers == old(answers))
        && (check.None? ==> answers == old(answers)[key := Overwrite(old(answers)[key], p)] && r == Ok(answers[key]))
    {
      if p.userId !in users {
        return Err(UserNotFound);
      }
      if p.activityId !in IdSet(activities) {
        return Err(ActivityNotFound);
      }
      if !Truthy(p.text.Val()) && !Truthy(p.file.Val()) {
        return Err(ContentRequired);
      }
      var key := (p.userId, p.activityId);
      if key !in answers {
        return Err(AnswerNotFound);
      }
      var rec := answers[key];
      if p.text.Val().Some? {
        rec := rec.(text := p.text.Val());
      }
      if p.file.Val().Some? {
        rec := rec.(file := p.file.Val());
      }
      answers := answers[key := rec];
      r := Ok(rec);
    }

    /** `activities_with_status`: one line per configured activity, in configuration order. */
    method ActivitiesWithStatus(user: UserId) returns (out: seq<ActivityStatus>)
      ensures out == StatusView(activities, answers, user)
    {
      out := [];
      for i := 0 to |activities|
        invariant out == StatusView(activities[..i], answers, user)
      {
        var a := activities[i];
        var key := (user, a.id);
        var line;
        if key in answers {
          var rec := answers[key];
          line := ActivityStatus(a.id, a.category, a.level, true, rec.result.Some?, rec.result,
                                 Some(rec.answerId), rec.text, rec.file);
        } else {
          line := ActivityStatus(a.id, a.category, a.level, false, false, None, None, None, None);
        }
        out := out + [line];
      }
      assert activities[..|activities|] == activities;
    }

    /**
     * `admin_score`: when every listed activity has an answer of the user,
     * sets the results one item at a time; an invalid result stops the loop
     * with the earlier items already stored. The reply lists the answers of
     * all items as they stand after the loop.
     */
    method AdminScore(user: UserId, items: seq<AnswerPayload>) returns (r: Result<seq<AnswerRow>>)
      requires Valid()
      modifies this`answers
      ensures Valid()
      ensures user !in users ==> r == Err(UserNotFound) && answers == old(answers)
      ensures user in users && Unanswered(old(answers), user, items) != [] ==>
        r == Err(UnansweredActivities(Unanswered(old(answers), user, items))) && answers == old(answers)
      ensures user in users && Unanswered(old(answers), user, items) == [] ==>
        && AllAnswered(old(answers), user, items)
        && answers == ApplyScores(old(answers), user, items[..FirstInvalid(items)])
        && (FirstInvalid(items) < |items| ==> r == Err(ResultNotBinary))
        && (FirstInvalid(items) == |items| ==>
              r.Ok? && |r.value| == |items|
              && forall i | 0 <= i < |items| :: r.value[i] == answers[(user, items[i].activityId)])
    {
      if user !in users {
        return Err(UserNotFound);
      }
      var missing := Unanswered(answers, user, items);
      if missing != [] {
        return Err(UnansweredActivities(missing));
      }
      assert AllAnswered(answers, user, items);
      r := ScoreItems(user, items);
      ScoredPrefixValid(old(answers), user, items, FirstInvalid(items));
    }

    /** The rows after scoring a prefix of accepted items satisfy the store invariant. */
    lemma ScoredPrefixValid(rows: Rows, user: UserId, items: seq<AnswerPayload>, i: int)
      requires 0 <= i <= FirstInvalid(items)
      requires AllAnswered(rows, user, items)
      requires DistinctIds(activities) && RowIdsFresh(rows, nextAnswerId) && BinaryResults(rows)
      requires forall k | k in rows :: k.0 in users && k.1 in IdSet(activities)
      ensures AllAnswered(rows, user, items[..i])
      ensures var after := ApplyScores(rows, user, items[..i]);
        && after.Keys == rows.Keys
        && RowIdsFresh(after, nextAnswerId) && BinaryResults(after)
        && forall k | k in after :: k.0 in users && k.1 in IdSet(activities)
    {
      ApplyScoresKeepsInvariant(rows, nextAnswerId, user, items[..i]);
    }

    /** The scoring loop of `admin_score`, once every listed activity is known to have an answer. */
    method ScoreItems(user: UserId, items: seq<AnswerPayload>) returns (r: Result<seq<AnswerRow>>)
      requires AllAnswered(answers, user, items)
      modifies this`answers
      ensures answers == ApplyScores(old(answers), user, items[..FirstInvalid(items)])
      ensures FirstInvalid(items) < |items| ==> r == Err(ResultNotBinary)
      ensures FirstInvalid(items) == |items| ==>
        r.Ok? && |r.value| == |items|
        && forall i | 0 <= i < |items| :: r.value[i] == answers[(user, items[i].activityId)]
    {
      var rows0 := answers;
      var rows := answers;
      var out: seq<AnswerKey> := [];
      for i := 0 to |items|
        invariant rows == ApplyScores(rows0, user, items[..i])
        invariant i <= FirstInvalid(items)
        invariant |out| == i && forall j | 0 <= j < i :: out[j] == (user, items[j].activityId)
      {
        var it := items[i];
        var bad := Score01(it.result.Val());
        if bad.Some? {
          assert FirstInvalid(items) == i;
          answers := rows;
          return Err(bad.value);
        }
        FirstInvalidPast(items, i);
        ApplyScoresSnoc(rows0, user, items, i);
        var key := (user, it.activityId);
        var rec := rows[key];
        rec := rec.(result := it.result.Val());
        rows := rows[key := rec];
        out := out + [key];
      }
      assert FirstInvalid(items) == |items| && items[..|items|] == items;
      answers := rows;
      r := Ok(seq(|out|, j requires 0 <= j < |out| => rows[out[j]]));
    }

    /**
     * `create_gap_request`: the request is stored exactly when the gate
     * passes on the current tables; the evaluation runs only once the farm
     * checks have passed.
     */
    method CreateGapRequest(req: GapRequest, user: UserId) returns (r: Result<GapRequestRow>)
      requires Valid()
      modifies this`requests
      ensures var gate := GateCheck(farms, durians, agreements, agreementAnswers,
                                    EvaluateSpec(activities, answers, criteria, user), req.farmId, user);
        && (gate.Some? ==> r == Err(gate.value) && requests == old(requests))
        && (gate.None? ==> r == Ok(GapRequestRow(|old(requests)| + 1, req.farmId, req.timelineStatus))
                           && requests == old(requests) + [r.value])
    {
      if req.farmId !in farms {
        return Err(FarmNotFound);
      }
      if farms[req.farmId] != user {
        return Err(NotFarmOwner);
      }
      var verdict := Evaluator.Evaluate(activities, answers, criteria, user);
      if verdict.Err? {
        return Err(verdict.error);
      }
      if !(verdict.value.Complete? && verdict.value.eligible) {
        return Err(NotEligible);
      }
      if user !in durians {
        return Err(NoDurianRecord);
      }
      var accepted := Accepted(agreementAnswers, user);
      if |agreements| > 0 && |accepted| < |agreements| {
        return Err(AgreementsNotAccepted);
      }
      var row := GapRequestRow(|requests| + 1, req.farmId, req.timelineStatus);
      requests := requests + [row];
      r := Ok(row);
    }
  }
}
