/**
 * Record shapes of the GAP durian assessment backend (the SQLModel tables),
 * reduced to the fields the assessment workflow reads or writes, and the
 * error outcomes its endpoints raise.
 */
module Records {

  /** `user_id` is a string column in every table the workflow touches. */
  type UserId = string

  datatype Option<+T> = None | Some(value: T)

  /** An endpoint either answers with a value or raises one of the failures below. */
  datatype Result<+T> = Ok(value: T) | Err(error: Failure)

  /** The two severity tiers of a questionnaire item (ActivityLevel). */
  datatype Level = Major | Minor

  /** A questionnaire item (ActivityDB) without its display name. */
  datatype Activity = Activity(id: int, category: int, level: Level)

  /**
   * A field of a request body. Pydantic distinguishes a field the client left
   * out (`Unset`) from one it sent, possibly as an explicit null (`Given(None)`);
   * an unset field reads as `None`.
   */
  datatype Field<+T> = Unset | Given(sent: Option<T>) {
    function Val(): Option<T> {
      if Given? then sent else None
    }
  }

  /** The `Answer` request body: the key pair and three optional fields. */
  datatype AnswerPayload = AnswerPayload(
    activityId: int,
    userId: UserId,
    file: Field<string>,
    text: Field<string>,
    result: Field<int>)

  /** A stored AnswerDB row without its key pair, which is the key of the answer map. */
  datatype AnswerRow = AnswerRow(
    answerId: nat,
    file: Option<string>,
    text: Option<string>,
    result: Option<int>)

  /** Answers are identified by the pair (user, activity). */
  type AnswerKey = (UserId, int)

  /**
   * A scoring threshold (CriteriaDB). A Major criterion names its category;
   * the global Minor criterion has no category.
   */
  datatype Criterion = Criterion(category: Option<int>, level: Level, required: int)

  /** An AgreementAnswerDB row: a user's free-text answer to one agreement. */
  datatype AgreementAnswer = AgreementAnswer(agreementId: int, userId: UserId, answer: string)

  /** The answer text that counts as acceptance of an agreement. */
  const ACCEPT: string := "ยอมรับ"

  /** The GAPRequest body: the farm and the timeline status (the request date is not modelled). */
  datatype GapRequest = GapRequest(farmId: int, timelineStatus: string)

  /** A stored GAPRequestDB row. */
  datatype GapRequestRow = GapRequestRow(requestId: nat, farmId: int, timelineStatus: string)

  /** The HTTP exceptions the modelled endpoints raise. */
  datatype Failure =
    | UserNotFound
    | ActivityNotFound
    | AnswerNotFound
    | FarmNotFound
    | NotFarmOwner
    | ResultNotBinary
    | ContentRequired
    | UnansweredActivities(ids: seq<int>)
    | NoActivitiesConfigured
    | NotEligible
    | NoDurianRecord
    | AgreementsNotAccepted

  /** The HTTP status code each failure is raised with. */
  function StatusCode(f: Failure): int {
    match f
    case UserNotFound | ActivityNotFound | AnswerNotFound | FarmNotFound => 404
    case NotFarmOwner => 403
    case ResultNotBinary | ContentRequired => 422
    case UnansweredActivities(_) | NoActivitiesConfigured | NotEligible
       | NoDurianRecord | AgreementsNotAccepted => 400
  }
}
