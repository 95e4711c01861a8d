# GAP durian self-assessment: a Dafny model

This project models the backend of a durian "Good Agricultural Practice" (GAP) certification
programme. A grower answers a questionnaire of activities. The activities are grouped into
categories and marked Major or Minor. An administrator scores each answer 0 or 1. The backend
evaluates the answers against scoring criteria: one Major requirement per category and one
global Minor requirement. A grower may file a certification request for their farm only when
the evaluation is complete and eligible, they have a durian record, and they have accepted the
agreements.

Modules:

- `Records` (`records.dfy`): the table rows the workflow reads or writes, the request bodies, and
  the failures the endpoints raise, with their HTTP status codes.
- `Assessment` (`assessment.dfy`): the evaluation as a declarative function `EvaluateSpec`, and
  lemmas about completeness, the missing report, the counts and eligibility.
- `Evaluator` (`evaluator.dfy`): the `evaluate` endpoint as the source runs it. It has a grouping
  loop, a loop that collects gaps, a tally loop and a judging loop, and is proved equal to
  `EvaluateSpec`.
- `Answers` (`answers.dfy`): the answer table as a value. It covers the checks of the answer
  endpoints, the upsert by (user, activity), the content update, the admin scoring step and the
  per-activity status view.
- `Store` (`store.dfy`): the database as a class `GapStore` whose endpoint methods update its
  tables in place. It also holds the certification-request gate and lemmas about that gate.
- `Seed` (`seed.dfy`): the questionnaire and criteria that `seed_master` writes (47 activities in
  8 categories, Major requirements `{1:5, 2:4, 3:5, 4:2, 5:1, 6:0, 7:1, 8:3}`, Minor 16), and
  lemmas about that configuration.

Where the code's checks and its own messages or comments disagree, the model follows the code:

- The 400 message of the agreement check (`Project/main.py:520`) says the user has not yet
  accepted all the agreements, which reads as a per-agreement rule. The check itself
  (`Project/main.py:519`) only compares the number of the user's acceptance rows,
  `len(accepted)`, with the number of agreements. `Store.Accepted` states that its length is
  that row count. `Store.CountingAcceptsUnmatchedAgreement` shows
  that two acceptances of one agreement pass the check for two agreements.
  `Store.EveryAgreementAcceptedPasses` shows the counting check is never stricter than the
  per-agreement rule.
- The seed's id comments `32–38` and `39–46` are off by one. Categories 7 and 8 each list eight
  activities (`Project/main.py:105-123`), so the ids run from 1 to 47. `Seed.SeedIdsDistinct`
  states the count.

## Model

| member | source | states |
|---|---|---|
| Answers.Score01 | Project/main.py:40-44 | a result passes exactly when it is absent, 0 or 1; any other value is the 422 validation failure |
| Answers.InsertCheck | Project/main.py:296-302 | `insert_answer` accepts a payload exactly when the user and the activity exist, some text, file or result is supplied, and the result is binary; the failures come in that order: unknown user, unknown activity (both 404), no content, non-binary result (both 422) |
| Answers.Upsert | Project/main.py:303-313 | afterwards the (user, activity) pair has exactly one row and every other row is unchanged; a resubmission keeps the existing row id, a first submission takes the next id; each of text, file and result is the value sent when the client set it, otherwise the existing row's value, or null in a new row |
| Answers.UpsertRowCount | Project/main.py:303-313 | a resubmission never adds a row; a first submission adds exactly one |
| Answers.UpsertIdempotent | Project/main.py:303-313 | submitting the same payload twice leaves the table as submitting it once |
| Answers.UpsertKeepsInvariant | Project/main.py:302-313 | an accepted upsert keeps row ids unique and below the next id, and every stored result binary |
| Answers.UpdateCheck | Project/main.py:318-341 | `update_answer` proceeds exactly when the user and activity exist, text or file is supplied, and an answer for the pair exists; the failures come in that order: unknown user, unknown activity, no text or file, no answer; only the missing content is a 422, the others are 404 |
| Answers.Overwrite | Project/main.py:329-333 | the update keeps the row id and the result, and replaces text and file only when they are supplied |
| Answers.Unanswered | Project/main.py:371-379 | the reported ids are exactly the listed activities that have no answer of the user |
| Answers.FirstInvalid | Project/main.py:386-387 | every item before the reported position has a binary result, and the item at it does not |
| Answers.ApplyScores | Project/main.py:386-393 | scoring never adds or removes an answer |
| Answers.ApplyScoresEffect | Project/main.py:386-393 | a listed answer of the user ends with the result of the last item naming it, its other fields unchanged; every other answer is unchanged |
| Answers.ApplyScoresLast | Project/main.py:386-393 | an answer of the user ends with the result of the last item naming its activity, every other field unchanged; an answer no item names is untouched |
| Answers.ApplyScoresKeepsBinary | Project/main.py:386-393 | scoring with accepted values keeps every stored result binary |
| Answers.ApplyScoresKeepsIds | Project/main.py:386-393 | scoring never changes a row id |
| Answers.StatusView | Project/main.py:343-364 | one line per configured activity, in order; a line is answered exactly when the user has an answer for it, scored exactly when that answer has a result, and scored implies answered |
| Answers.ViewAgreesWithEvaluation | Project/main.py:343-364 | the evaluation is incomplete exactly when some line of the status view is not scored |
| Assessment.EvaluateSpec | Project/main.py:397-473 | no configured activity is the 400 failure; otherwise the verdict is incomplete exactly when the missing map is non-empty, and a complete verdict carries the per-category results, the Minor total and requirement, and eligibility as every category passing and the Minor requirement met |
| Assessment.Scored | Project/main.py:410-413 | the scored map holds exactly the user's answers whose result is set, with that result |
| Assessment.MajorReq | Project/main.py:443 | a category has a Major requirement exactly when some Major criterion names it, and the requirement comes from the last such criterion |
| Assessment.MinorReq | Project/main.py:444 | there is a Minor requirement exactly when some criterion is Minor, and it comes from the first such criterion |
| Assessment.SelectMembers | Project/main.py:404-407 | a category's Major or Minor list holds exactly the ids of the activities of that category and level |
| Assessment.UnscoredMembers | Project/main.py:418-419 | a missing list holds exactly the listed ids that have no scored answer |
| Assessment.HasGapsIff | Project/main.py:417-426 | a category enters the missing report exactly when one of its activities has no scored answer |
| Assessment.CountOnesBound | Project/main.py:431-439 | a pass count never exceeds the number of activities it ranges over |
| Assessment.CountOnesStep | Project/main.py:434-439 | tallying one more scored activity adds 1 to its own count exactly when its result is 1, and leaves every other count unchanged |
| Assessment.ZeroAddsNothing | Project/main.py:434-439 | a result 0 adds nothing to any count |
| Assessment.ZeroClosesGapOnly | Project/main.py:413-439 | scoring an unscored activity 0 removes it from the missing lists and changes no pass count |
| Assessment.IncompleteIffUnscored | Project/main.py:397-428 | with activities configured, the verdict is incomplete exactly when some activity has no scored answer |
| Assessment.IncompleteReportExact | Project/main.py:416-428 | the incomplete report names exactly the categories with a gap, and each list names exactly the unscored activities of that category and level |
| Assessment.CompleteMeansAllScored | Project/main.py:427-428 | a complete verdict means every configured activity has a scored answer of the user |
| Assessment.CompleteCountsBounded | Project/main.py:431-439 | a complete verdict reports every configured category; its Major counts and Minor total count results equal to 1 and are bounded by the number of activities |
| Assessment.EligibleIff | Project/main.py:447-463 | a category has status `no_criteria` exactly when it has no Major criterion, and passes exactly when its count meets its requirement; the user is eligible exactly when every category passes and the Minor total meets the Minor requirement, or there is none |
| Assessment.JudgedIff | Project/main.py:447-459 | a judged category is `no_criteria` exactly when it has no Major criterion and passes exactly when its count meets its requirement; all categories pass exactly when each has a Major criterion that its count meets |
| Assessment.NoCriteriaBlocks | Project/main.py:453-455 | one configured category without a Major criterion makes the user ineligible |
| Evaluator.ActivityIndex | Project/main.py:433 | the index maps each configured id to its activity |
| Evaluator.GroupByCategory | Project/main.py:404-407 | the grouping loop yields one entry per configured category, holding that category's Major and Minor ids in configuration order |
| Evaluator.CollectMissing | Project/main.py:416-426 | the missing loop yields exactly the categories with a gap, each with its unscored Major and Minor ids |
| Evaluator.TallyPasses | Project/main.py:431-439 | the tally loop's per-category Major counts and Minor total are the numbers of results equal to 1 |
| Evaluator.JudgeCategories | Project/main.py:447-459 | the judging loop gives every category its status against its requirement, and clears the all-passed flag exactly when some category did not pass |
| Evaluator.MissingAgrees | Project/main.py:416-428 | the gaps collected by the loop are the missing report of the specification |
| Evaluator.PerCategoryAgrees | Project/main.py:447-459 | the judged categories are the per-category report of the specification |
| Evaluator.Evaluate | Project/main.py:397-473 | `evaluate` returns exactly the specified verdict: 400 with no activities, the incomplete report, or the complete report and its eligibility |
| Store.GateCheck | Project/main.py:501-520 | a request passes exactly when the farm exists and is the user's, the verdict is complete and eligible, the user has a durian record and the acceptance count check passes; a missing farm gives 404, a foreign farm 403, and an evaluation failure is passed on; after the farm checks, a failed verdict, a missing durian record and the acceptance count check each give their 400, in that order |
| Store.GatePassedMeansAssessmentPassed | Project/main.py:501-520 | a request that passes the gate comes from the farm's owner with a durian record, all activities scored, every category meeting its Major requirement and the Minor requirement met |
| Store.CountingAcceptsUnmatchedAgreement | Project/main.py:515-520 | two acceptances of one agreement pass the check for two agreements, though the second was never accepted |
| Store.EveryAgreementAcceptedPasses | Project/main.py:515-520 | with distinct agreement ids, accepting each agreement is enough to pass the check |
| Store.Accepted | Project/main.py:516-519 | the accepted list names exactly the agreements the user answered with the acceptance word, and its length, the `len(accepted)` the gate compares, is the number of the user's acceptance rows |
| Store.AgreementsSatisfied | Project/main.py:519 | the agreement check passes exactly when there are no agreements or the user has at least as many acceptance rows as there are agreements |
| Store.GapStore.Seeded | Project/main.py:50-132 | the seeded database holds the seeded questionnaire and criteria, no answers and no requests, and satisfies the store invariant |
| Store.GapStore.InsertAnswer | Project/main.py:294-313 | a rejected payload changes nothing and reports the first failing check; an accepted one leaves the table as the upsert specifies, keeps the invariant and returns the stored row |
| Store.GapStore.UpdateAnswer | Project/main.py:315-341 | a rejected payload changes nothing; an accepted one overwrites only that answer's text and file |
| Store.GapStore.ActivitiesWithStatus | Project/main.py:343-364 | the loop builds exactly the status view |
| Store.GapStore.AdminScore | Project/main.py:367-394 | an unknown user or an unanswered listed activity changes nothing; otherwise the items before the first invalid result are committed in order, an invalid result ends in 422, and a fully valid list returns every listed answer as it stands after scoring |
| Store.GapStore.ScoreItems | Project/main.py:386-394 | the scoring loop commits, in order, the items before the first invalid result and then fails with 422; when every item is valid it returns the answer of each listed item as it stands after scoring |
| Store.GapStore.CreateGapRequest | Project/main.py:498-525 | a request row is appended, with the next id and the request's farm and status, exactly when the gate passes on the current tables; otherwise the request table is unchanged and the failure is returned |
| Seed.SeedIdsDistinct | Project/main.py:67-126 | the seed creates 47 activities with distinct ids |
| Seed.SeedCategories | Project/main.py:67-126 | the seeded activities cover categories 1 to 8, the keys of the Major requirements |
| Seed.SeedMajorCounts | Project/main.py:67-131 | each seeded category has as many Major activities as its Major requirement |
| Seed.SeedMinorCount | Project/main.py:67-126 | the seed has 26 Minor activities |
| Seed.SeedRequirements | Project/main.py:129-132 | the seeded criteria give each category its listed Major requirement and a global Minor requirement of 16 |
| Seed.EligibleUnderRequirements | Project/main.py:442-463 | once every activity is scored, and the categories are exactly those with a Major requirement, eligibility is each Major count reaching its requirement and the Minor total reaching the Minor requirement |
| Seed.SeedEligibleIff | Project/main.py:129-132 | on the seed, once every activity is scored, the user is eligible exactly when each category reaches its seeded Major requirement and the Minor total reaches 16 |
| Seed.VacuousCategoryPasses | Project/main.py:447-458 | a category without Major activities and with requirement 0 is judged passed with count 0 |
| Seed.SeedZeroRequirementVacuous | Project/main.py:103-104 | the seeded category with requirement 0 (category 6) passes with count 0 in every complete evaluation |
| Seed.SeedReachable | Project/main.py:129-132 | the seeded thresholds are reachable: scoring every seeded activity 1 makes the user eligible |

## Left out

- HTTP routing, sessions and commits are not modelled. Each endpoint is a method whose result is a `Result` value. A failure carries the status code given by `Records.StatusCode`. The detail messages (Thai text) are not modelled.
- JSON key order is not modelled: reports are Dafny maps. This covers the order of `missing` (category insertion order) and of `per_category` (sorted).
- Category display names are not modelled. This covers the `category_name` lookups in `evaluate`, and the crash when a category row with a judged id is absent (`Project/main.py:452-458`).
- User ids are strings throughout. `admin_score` declares its `user_id` as an integer and relies on the database to coerce it. The store's user set stands for the `PersonalDB` lookup of `_ensure_user`.
- Personal, farm and durian CRUD and the update-by-user endpoints are not modelled, being plain field copies. Farms appear only as a farm-to-owner map, durian records as a list of owners. Both are constructor arguments of `GapStore`.
- Creating agreements and agreement answers is not modelled, being plain inserts. Both tables are constructor arguments of `GapStore`.
- `list_activities`, `search_activities` and `list_categories` are not modelled, being database filters.
- Inspections, certifications, the request-status update and the request listing are not modelled. They only check existence or overwrite a string.
- The seed's guard against a second run and its Thai display strings are not modelled. `GapStore.Seeded` builds the seeded state directly.
- The default timeline status of a request body (`Project/model.py:245`) is not modelled. A `GapRequest` carries the status after that default was applied.
- Dates are not modelled. This covers `request_date` of a request, and the float and date fields of the other tables.
- Evaluator.Evaluate: requires every scored answer of the user to name a configured activity. The source looks each one up with `amap[aid]` and would fail otherwise. `GapStore`'s invariant guarantees this for every answer the endpoints store.
- Store.GapStore.AdminScore: commits all items together at the end of the loop rather than one by one. Nothing else runs in between, so the resulting state is the same. The reply rows are read after the loop, as the source serialises them after it.
- Store.GapStore.CreateGapRequest: request ids are numbered from 1 in insertion order, standing for the database's auto-increment.
