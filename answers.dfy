/**
 * The answer table as a value: the checks the answer endpoints make, the
 * upsert by (user, activity), the content update, the admin scoring step and
 * the per-activity status view. The store class in module Store applies
 * these to its fields.
 */
module Answers {
  import opened Records
  import opened Assessment

  /** The answer table: rows keyed by (user, activity) and the next row id. */
  type Rows = map<AnswerKey, AnswerRow>

  /** `_score01`: no result, 0 and 1 are accepted; every other value is a validation error. */
  function Score01(v: Option<int>): (r: Option<Failure>)
    ensures r.None? <==> v == None || v == Some(0) || v == Some(1)
    ensures r.Some? ==> r.value == ResultNotBinary
  {
    if v.None? then None
    else if v.value != 0 && v.value != 1 then Some(ResultNotBinary)
    else None
  }

  /** Python truthiness of an optional string: absent and empty are both false. */
  predicate Truthy(s: Option<string>) {
    s.Some? && s.value != ""
  }

  /** Every stored result is absent, 0 or 1. */
  predicate BinaryResults(rows: Rows) {
    forall k | k in rows :: Score01(rows[k].result).None?
  }

  /** Row ids are a primary key below the next id to hand out. */
  predicate RowIdsFresh(rows: Rows, nextId: nat) {
    && (forall k | k in rows :: rows[k].answerId < nextId)
    && (forall k1, k2 | k1 in rows && k2 in rows && k1 != k2 :: rows[k1].answerId != rows[k2].answerId)
  }

  // ---------------------------------------------------------------------------
  // insert_answer
  // ---------------------------------------------------------------------------

  /** The checks of `insert_answer`, in the order the source makes them. */
  function InsertCheck(users: set<UserId>, activityIds: set<int>, p: AnswerPayload): (r: Option<Failure>)
    ensures r.None? <==>
      && p.userId in users
      && p.activityId in activityIds
      && (Truthy(p.text.Val()) || Truthy(p.file.Val()) || p.result.Val().Some?)
      && Score01(p.result.Val()).None?
    ensures p.userId !in users ==> r == Some(UserNotFound)
    ensures p.userId in users && p.activityId !in activityIds ==> r == Some(ActivityNotFound)
    ensures (&& p.userId in users && p.activityId in activityIds
             && !Truthy(p.text.Val()) && !Truthy(p.file.Val()) && p.result.Val().None?) ==> r == Some(ContentRequired)
    ensures (&& p.userId in users && p.activityId in activityIds
             && (Truthy(p.text.Val()) || Truthy(p.file.Val()) || p.result.Val().Some?)
             && Score01(p.result.Val()).Some?) ==> r == Some(ResultNotBinary)
    ensures r.Some? ==> (StatusCode(r.value) == 404 <==> p.userId !in users || p.activityId !in activityIds)
    ensures r.Some? ==> StatusCode(r.value) == 404 || StatusCode(r.value) == 422
  {
    if p.userId !in users then Some(UserNotFound)
    else if p.activityId !in activityIds then Some(ActivityNotFound)
    else if !Truthy(p.text.Val()) && !Truthy(p.file.Val()) && p.result.Val().None? then Some(ContentRequired)
    else Score01(p.result.Val())
  }

  /** The row a resubmission leaves: every field the client sent overwrites, every unset field stays. */
  function Merge(row: AnswerRow, p: AnswerPayload): AnswerRow {
    AnswerRow(row.answerId,
              if p.file.Given? then p.file.sent else row.file,
              if p.text.Given? then p.text.sent else row.text,
              if p.result.Given? then p.result.sent else row.result)
  }

  /** The row a first submission creates; unset fields are null. */
  function NewRow(id: nat, p: AnswerPayload): AnswerRow {
    AnswerRow(id, p.file.Val(), p.text.Val(), p.result.Val())
  }

  /**
   * The upsert of `insert_answer`: the existing answer for (user, activity) is
   * merged in place, otherwise a row with the next id is added.
   */
  function Upsert(rows: Rows, nextId: nat, p: AnswerPayload): (r: (Rows, nat))
    ensures (p.userId, p.activityId) in r.0
    ensures r.0.Keys == rows.Keys + {(p.userId, p.activityId)}
    ensures forall k | k in rows && k != (p.userId, p.activityId) :: r.0[k] == rows[k]
    ensures var key := (p.userId, p.activityId);
      var prev := if key in rows then Some(rows[key]) else None;
      && r.0[key].text == (if p.text.Given? then p.text.sent else if prev.Some? then prev.value.text else None)
      && r.0[key].file == (if p.file.Given? then p.file.sent else if prev.Some? then prev.value.file else None)
      && r.0[key].result == (if p.result.Given? then p.result.sent else if prev.Some? then prev.value.result else None)
    ensures (p.userId, p.activityId) in rows ==>
      r.0[(p.userId, p.activityId)].answerId == rows[(p.userId, p.activityId)].answerId && r.1 == nextId
    ensures (p.userId, p.activityId) !in rows ==>
      r.0[(p.userId, p.activityId)].answerId == nextId && r.1 == nextId + 1
  {
    var key := (p.userId, p.activityId);
    if key in rows then (rows[key := Merge(rows[key], p)], nextId)
    else (rows[key := NewRow(nextId, p)], nextId + 1)
  }

  /** A resubmission never adds a second row: the table grows by at most the one new pair. */
  lemma UpsertRowCount(rows: Rows, nextId: nat, p: AnswerPayload)
    ensures |Upsert(rows, nextId, p).0| == if (p.userId, p.activityId) in rows then |rows| else |rows| + 1
  {
    var key := (p.userId, p.activityId);
    var r := Upsert(rows, nextId, p).0;
    if key in rows {
      assert r.Keys == rows.Keys;
    } else {
      assert r.Keys == rows.Keys + {key};
    }
  }

  /** Submitting the same answer twice leaves the table as submitting it once. */
  lemma UpsertIdempotent(rows: Rows, nextId: nat, p: AnswerPayload)
    ensures var once := Upsert(rows, nextId, p);
      Upsert(once.0, once.1, p) == once
  {
    var key := (p.userId, p.activityId);
    var once := Upsert(rows, nextId, p);
    var row := once.0[key];
    assert Merge(row, p) == row;
    assert once.0[key := Merge(row, p)] == once.0;
  }

  /** The upsert keeps row ids distinct and below the next id, and results binary when the check passed. */
  lemma UpsertKeepsInvariant(rows: Rows, nextId: nat, p: AnswerPayload)
    requires RowIdsFresh(rows, nextId) && BinaryResults(rows)
    requires Score01(p.result.Val()).None?
    ensures RowIdsFresh(Upsert(rows, nextId, p).0, Upsert(rows, nextId, p).1)
    ensures BinaryResults(Upsert(rows, nextId, p).0)
  {
  }

  // ---------------------------------------------------------------------------
  // update_answer
  // ---------------------------------------------------------------------------

  /** The checks of `update_answer`, in the order the source makes them. */
  function UpdateCheck(users: set<UserId>, activityIds: set<int>, rows: Rows, p: AnswerPayload): (r: Option<Failure>)
    ensures r.None? <==>
      && p.userId in users
      && p.activityId in activityIds
      && (Truthy(p.text.Val()) || Truthy(p.file.Val()))
      && (p.userId, p.activityId) in rows
    ensures (&& p.userId in users && p.activityId in activityIds
             && (Truthy(p.text.Val()) || Truthy(p.file.Val()))
             && (p.userId, p.activityId) !in rows) ==> r == Some(AnswerNotFound)
    ensures p.userId !in users ==> r == Some(UserNotFound)
    ensures p.userId in users && p.activityId !in activityIds ==> r == Some(ActivityNotFound)
    ensures (&& p.userId in users && p.activityId in activityIds
             && !Truthy(p.text.Val()) && !Truthy(p.file.Val())) ==> r == Some(ContentRequired)
    ensures r.Some? ==> (StatusCode(r.value) == 422 <==> r == Some(ContentRequired))
    ensures r.Some? ==> StatusCode(r.value) == 404 || StatusCode(r.value) == 422
  {
    if p.userId !in users then Some(UserNotFound)
    else if p.activityId !in activityIds then Some(ActivityNotFound)
    else if !Truthy(p.text.Val()) && !Truthy(p.file.Val()) then Some(ContentRequired)
    else if (p.userId, p.activityId) !in rows then Some(AnswerNotFound)
    else None
  }

  /** `update_answer` on an existing row: text and file are replaced only when supplied. */
  function Overwrite(row: AnswerRow, p: AnswerPayload): (r: AnswerRow)
    ensures r.answerId == row.answerId && r.result == row.result
    ensures r.text == if p.text.Val().Some? then p.text.Val() else row.text
    ensures r.file == if p.file.Val().Some? then p.file.Val() else row.file
  {
    var withText := if p.text.Val().Some? then row.(text := p.text.Val()) else row;
    if p.file.Val().Some? then withText.(file := p.file.Val()) else withText
  }

  // ---------------------------------------------------------------------------
  // admin_score
  // ---------------------------------------------------------------------------

  /** The listed activity ids that have no answer of the user, in list order and with repeats. */
  function Unanswered(rows: Rows, user: UserId, items: seq<AnswerPayload>): (missing: seq<int>)
    ensures forall x :: x in missing <==>
      exists i | 0 <= i < |items| :: items[i].activityId == x && (user, x) !in rows
  {
    if items == [] then []
    else
      var pre := items[..|items| - 1];
      var it := items[|items| - 1];
      var r := Unanswered(rows, user, pre);
      assert forall i | 0 <= i < |pre| :: pre[i] == items[i];
      r + (if (user, it.activityId) in rows then [] else [it.activityId])
  }

  /** The position of the first item whose result `_score01` rejects, or the length when there is none. */
  function FirstInvalid(items: seq<AnswerPayload>): (k: nat)
    ensures k <= |items|
    ensures forall i | 0 <= i < k :: Score01(items[i].result.Val()).None?
    ensures k < |items| ==> Score01(items[k].result.Val()).Some?
  {
    if items == [] then 0
    else if Score01(items[0].result.Val()).Some? then 0
    else
      var k := FirstInvalid(items[1..]);
      assert forall i | 1 <= i < |items| :: items[i] == items[1..][i - 1];
      1 + k
  }

  predicate AllAnswered(rows: Rows, user: UserId, items: seq<AnswerPayload>) {
    forall i | 0 <= i < |items| :: (user, items[i].activityId) in rows
  }

  /** The rows after the scoring loop has set the result of each listed answer in turn. */
  function ApplyScores(rows: Rows, user: UserId, items: seq<AnswerPayload>): (r: Rows)
    requires AllAnswered(rows, user, items)
    ensures r.Keys == rows.Keys
  {
    if items == [] then rows
    else
      var pre := items[..|items| - 1];
      var it := items[|items| - 1];
      assert AllAnswered(rows, user, pre) by {
        assert forall i | 0 <= i < |pre| :: pre[i] == items[i];
      }
      var before := ApplyScores(rows, user, pre);
      var key := (user, it.activityId);
      before[key := before[key].(result := it.result.Val())]
  }

  /**
   * After scoring, an answer of the user that the list names carries the
   * result of the LAST item naming it, with its other fields unchanged; every
   * other answer is unchanged.
   */
  lemma {:induction false} ApplyScoresEffect(rows: Rows, user: UserId, items: seq<AnswerPayload>, k: AnswerKey)
    requires AllAnswered(rows, user, items)
    requires k in rows
    ensures (k.0 != user || forall i | 0 <= i < |items| :: items[i].activityId != k.1) ==>
      ApplyScores(rows, user, items)[k] == rows[k]
    ensures (k.0 == user && exists i | 0 <= i < |items| :: items[i].activityId == k.1) ==>
      exists i | 0 <= i < |items| ::
        && items[i].activityId == k.1
        && ApplyScores(rows, user, items)[k] == rows[k].(result := items[i].result.Val())
        && forall j | i < j < |items| :: items[j].activityId != k.1
  {
    ApplyScoresLast(rows, user, items, k);
    var last := LastItemFor(items, k.1);
    if exists i | 0 <= i < |items| :: items[i].activityId == k.1 {
      var i :| 0 <= i < |items| && items[i].activityId == k.1;
      assert i <= last;
    }
  }

  /** The position of the last item naming activity `aid`, or -1 when none does. */
  function LastItemFor(items: seq<AnswerPayload>, aid: int): (k: int)
    ensures -1 <= k < |items|
    ensures k >= 0 ==> items[k].activityId == aid
    ensures forall j | k < j < |items| :: items[j].activityId != aid
  {
    if items == [] then -1
    else if items[|items| - 1].activityId == aid then |items| - 1
    else
      var pre := items[..|items| - 1];
      var k := LastItemFor(pre, aid);
      assert forall j | k < j < |pre| :: items[j] == pre[j];
      k
  }

  /** A scored answer ends with the result of the last item naming it; any other answer is untouched. */
  lemma {:induction false} ApplyScoresLast(rows: Rows, user: UserId, items: seq<AnswerPayload>, k: AnswerKey)
    requires AllAnswered(rows, user, items)
    requires k in rows
    ensures var last := LastItemFor(items, k.1);
      ApplyScores(rows, user, items)[k]
        == if k.0 == user && last >= 0 then rows[k].(result := items[last].result.Val()) else rows[k]
  {
    if items != [] {
      var n := |items|;
      var pre := items[..n - 1];
      assert forall i | 0 <= i < |pre| :: pre[i] == items[i];
      assert AllAnswered(rows, user, pre);
      ApplyScoresLast(rows, user, pre, k);
    }
  }

  /** Scoring with results that `_score01` accepts keeps every stored result binary. */
  lemma {:induction false} ApplyScoresKeepsBinary(rows: Rows, user: UserId, items: seq<AnswerPayload>)
    requires AllAnswered(rows, user, items) && BinaryResults(rows)
    requires forall i | 0 <= i < |items| :: Score01(items[i].result.Val()).None?
    ensures BinaryResults(ApplyScores(rows, user, items))
  {
    if items != [] {
      var pre := items[..|items| - 1];
      assert forall i | 0 <= i < |pre| :: pre[i] == items[i];
      ApplyScoresKeepsBinary(rows, user, pre);
    }
  }

  /** Scoring changes results only, so row ids stay as they were. */
  lemma {:induction false} ApplyScoresKeepsIds(rows: Rows, user: UserId, items: seq<AnswerPayload>)
    requires AllAnswered(rows, user, items)
    ensures forall k | k in rows :: ApplyScores(rows, user, items)[k].answerId == rows[k].answerId
  {
    if items != [] {
      var pre := items[..|items| - 1];
      assert forall i | 0 <= i < |pre| :: pre[i] == items[i];
      ApplyScoresKeepsIds(rows, user, pre);
    }
  }

  /** Scoring with accepted results keeps row ids and results valid. */
  lemma ApplyScoresKeepsInvariant(rows: Rows, nextId: nat, user: UserId, items: seq<AnswerPayload>)
    requires AllAnswered(rows, user, items) && RowIdsFresh(rows, nextId) && BinaryResults(rows)
    requires forall i | 0 <= i < |items| :: Score01(items[i].result.Val()).None?
    ensures RowIdsFresh(ApplyScores(rows, user, items), nextId)
    ensures BinaryResults(ApplyScores(rows, user, items))
  {
    ApplyScoresKeepsBinary(rows, user, items);
    ApplyScoresKeepsIds(rows, user, items);
  }

  /** An accepted item before the first invalid one moves the first invalid position past it. */
  lemma FirstInvalidPast(items: seq<AnswerPayload>, i: int)
    requires 0 <= i < |items| && i <= FirstInvalid(items)
    requires Score01(items[i].result.Val()).None?
    ensures i < FirstInvalid(items)
  {
  }

  /** One pass of the scoring loop extends the scored prefix by one item. */
  lemma ApplyScoresSnoc(rows: Rows, user: UserId, items: seq<AnswerPayload>, i: int)
    requires AllAnswered(rows, user, items) && 0 <= i < |items|
    ensures AllAnswered(rows, user, items[..i]) && AllAnswered(rows, user, items[..i + 1])
    ensures var before := ApplyScores(rows, user, items[..i]);
      var key := (user, items[i].activityId);
      key in before && ApplyScores(rows, user, items[..i + 1]) == before[key := before[key].(result := items[i].result.Val())]
  {
    assert items[..i + 1][..i] == items[..i];
  }

  // ---------------------------------------------------------------------------
  // activities_with_status
  // ---------------------------------------------------------------------------

  /** One line of the per-activity status view. */
  datatype ActivityStatus = ActivityStatus(
    activityId: int, category: int, level: Level,
    answered: bool, scored: bool, result: Option<int>,
    answerId: Option<nat>, text: Option<string>, file: Option<string>)

  function StatusOf(a: Activity, rows: Rows, user: UserId): ActivityStatus {
    var key := (user, a.id);
    if key in rows then
      var rec := rows[key];
      ActivityStatus(a.id, a.category, a.level, true, rec.result.Some?, rec.result,
                     Some(rec.answerId), rec.text, rec.file)
    else
      ActivityStatus(a.id, a.category, a.level, false, false, None, None, None, None)
  }

  /** `activities_with_status`: one line per configured activity, in configuration order. */
  function StatusView(acts: seq<Activity>, rows: Rows, user: UserId): (view: seq<ActivityStatus>)
    ensures |view| == |acts|
    ensures forall i | 0 <= i < |acts| ::
      && view[i].activityId == acts[i].id
      && view[i].category == acts[i].category
      && view[i].level == acts[i].level
      && (view[i].answered <==> (user, acts[i].id) in rows)
      && (view[i].scored <==> (user, acts[i].id) in rows && rows[(user, acts[i].id)].result.Some?)
      && (view[i].scored ==> view[i].answered)
      && (view[i].answered ==> view[i].result == rows[(user, acts[i].id)].result)
  {
    seq(|acts|, i requires 0 <= i < |acts| => StatusOf(acts[i], rows, user))
  }

  /**
   * The view and the evaluator agree: the evaluation is incomplete exactly
   * when some line of the view is not scored.
   */
  lemma ViewAgreesWithEvaluation(acts: seq<Activity>, rows: Rows, crits: seq<Criterion>, user: UserId)
    requires acts != []
    ensures EvaluateSpec(acts, rows, crits, user).Ok?
    ensures EvaluateSpec(acts, rows, crits, user).value.Incomplete? <==>
      exists i | 0 <= i < |acts| :: !StatusView(acts, rows, user)[i].scored
  {
    IncompleteIffUnscored(acts, rows, crits, user);
    var view := StatusView(acts, rows, user);
    if a :| a in acts && a.id !in Scored(rows, user) {
      var i :| 0 <= i < |acts| && acts[i] == a;
      assert !view[i].scored;
    }
    if i :| 0 <= i < |acts| && !view[i].scored {
      assert acts[i] in acts && acts[i].id !in Scored(rows, user);
    }
  }
}
