# Lead scoring and event grouping, modelled in Dafny

This project models the two event-processing pipelines of the repository:

- **Lead scoring** (`lead_scoring_api.py`, the `/score` endpoint). Request
  batches of interaction events are flattened into rows. Rows with a null
  identity hash (`hem_sha256`), event type or timestamp are dropped. Each
  event gets a base weight from a fixed table, times a recency multiplier
  measured in whole days back from the latest timestamp of the whole batch.
  Each identity's score is the sum of those adjusted scores, plus a burst
  bonus (0 or 5) and a velocity bonus (0 to 3). The result has one record per
  (identity, email) pair and is sorted by score, highest first.
- **Event grouping** (`lead_event_grouping.py`, the `/group-events` endpoint).
  Batches are flattened into records. Each record's primary email is the
  trimmed text before the first comma of its `PERSONAL_EMAILS` value. Records
  with a null identity or event type are dropped. One row is emitted per
  (identity, email) pair, with the pair's event types sorted and joined by
  `", "`.

Modules, leaf first:

| file | module | what it holds |
|---|---|---|
| `results.dfy` | `Results` | `Option`, `Result`, and the one exception both pipelines can raise |
| `sequences.dfy` | `Sequences` | insertion sort against a total preorder (`sorted`, `sort_values`), order-keeping de-duplication (`drop_duplicates`) |
| `text.dfy` | `Text` | Python's `str` ordering, `strip`, `split(",")[0]`, `", ".join` and the matching split |
| `scoring_rules.dfy` | `ScoringRules` | the weight table, `recency_multiplier`, `burst_bonus`, `velocity_bonus` |
| `lead_scoring.dfy` | `LeadScoring` | `score_events`: flattening, `dropna`, the burst-map loop, aggregation, email merge, sort |
| `event_grouping.dfy` | `EventGrouping` | `group_events`: flattening with email extraction, `dropna`, group-by and the sorted join |

Conventions:

- Timestamps are integer seconds that have already been parsed.
- Recency multipliers are integer tenths (1.2 is 12), so an adjusted score is
  `weight * tenths`. A final score is held in tenths: ten times the source's
  value, exactly.
- The velocity rule is stated on exact reals, as the source writes it.
  `VelocityByCounts` rewrites it as integer comparisons.
- `None` stands for a null cell of the data frame.
- The code that loops in the source is written as methods with loops: the
  nested `for` loops that build `all_events`, the early-return scan of
  `burst_bonus`, and the loop that fills `burst_map`. Each method is proved
  against a specification function. The pandas column expressions,
  `groupby`, `merge` and `sorted` are written as functions over sequences.

Behaviours of the code that are easy to misread, all of which the model follows:

- The grouper keeps duplicate event types (`sorted(x)` on the whole group). It
  does not deduplicate them.
- The burst window is forward-only: `0 <= t - t_i <= 600`.
- The scorer emits one record per distinct (identity, non-null email) pair. It
  does not pick one email per identity.
- No score is clamped. With the model's exact arithmetic no clamp is needed.
- A request whose batches hold no events at all fails. `pd.DataFrame([])` has
  no columns, so `dropna(subset=[...])` raises `KeyError`. The model returns
  `Failure(MissingColumns)` here, not an empty result.
- Both endpoints take a list of batches. The scorer's request model declares a
  list. The grouper iterates over the decoded value, so a single object would
  be iterated as its keys, and the code would then fail.
- The grouper's rows come out sorted by (identity, email), because `groupby`
  sorts its keys by default.

## Model

| member | source | states |
|---|---|---|
| `Sequences.Sort` | lead_event_grouping.py:44 | `sorted`: the result is ordered by the given total preorder and is a permutation (same multiset) of the input |
| `Sequences.Distinct` | lead_scoring_api.py:113 | `drop_duplicates`: no element twice, and exactly the elements of the input |
| `Sequences.NoDuplicatesPermutation` | lead_event_grouping.py:43 | reordering a duplicate-free sequence (the group index) leaves it duplicate-free |
| `Text.Strip` | lead_event_grouping.py:31 | `str.strip()`: the result is a slice of the input whose margins are all whitespace (Python's `isspace` set), with no whitespace at either end |
| `Text.StripFramed` | lead_event_grouping.py:31 | `strip` of whitespace, then a core that neither starts nor ends with whitespace, then whitespace, is exactly that core |
| `Text.BeforeFirst` | lead_event_grouping.py:31 | `split(",")[0]`: the longest prefix without a comma, followed in the input by a comma or by nothing |
| `Text.BeforeFirstOf` | lead_event_grouping.py:31 | `split(",")[0]` of a comma-free item followed by nothing or by a comma and anything is that item |
| `Text.SplitJoin` | lead_event_grouping.py:44 | splitting a `", "`-joined non-empty list whose items hold no `", "` gives back the list, duplicates included |
| `Text.StrLeIsTotalPreorder` | lead_event_grouping.py:44 | Python's string `<=` (lexicographic by code point) is total and transitive, so `sorted` is well defined on event types |
| `ScoringRules.EventWeight` | lead_scoring_api.py:26-37 | an event type's weight is at most 10, and it is positive exactly when the type is in the table; an unknown type weighs 0 and is not dropped |
| `ScoringRules.DaysOld` | lead_scoring_api.py:40 | `timedelta.days` is the age in seconds floored to whole days, negative ages included |
| `ScoringRules.RecencyTenths` | lead_scoring_api.py:39-49 | the multiplier is always one of 1.2, 1.0, 0.7, 0.5, 0.2 |
| `ScoringRules.RecencyBands` | lead_scoring_api.py:39-49 | in seconds of age: 1.2 below 2 days (any negative age included), 1.0 below 4 days, 0.7 below 8, 0.5 below 15, 0.2 from 15 days on |
| `ScoringRules.RecencyNonIncreasing` | lead_scoring_api.py:39-49 | an older event never gets a larger multiplier |
| `ScoringRules.Window` | lead_scoring_api.py:53 | the list comprehension keeps exactly the timestamps at most 600 s after the window's start (none before it), and no more than it was given |
| `ScoringRules.WindowCounts` | lead_scoring_api.py:53-54 | the window holds each in-window timestamp exactly as often as the input does and nothing else, so `len(window)` counts repeated timestamps |
| `ScoringRules.BurstBonus` | lead_scoring_api.py:51-56 | the bonus is 0 or 5, and it is 5 exactly when some timestamp's forward 600 s window holds at least three timestamps, itself included |
| `ScoringRules.BurstNeedsThree` | lead_scoring_api.py:54 | fewer than three timestamps never give a burst |
| `ScoringRules.WindowSizePermutation` | lead_scoring_api.py:53 | a window's size depends only on the multiset of timestamps |
| `ScoringRules.BurstOrderIndependent` | lead_scoring_api.py:96-97 | sorting the timestamps before the scan does not change the burst decision |
| `ScoringRules.BurstInSortedTimestamps` | lead_scoring_api.py:51-56 | over ascending timestamps, a burst is exactly three consecutive timestamps spanning at most 600 s |
| `ScoringRules.VelocityBonus` | lead_scoring_api.py:58-68 | the velocity bonus is at most 3 |
| `ScoringRules.VelocityByCounts` | lead_scoring_api.py:58-68 | for a positive span of s seconds and n events: 3 when 30n >= s, else 2 when 60n >= s, else 1 when 120n >= s, else 0 (a rate of at least 2, 1 or 1/2 events per minute) |
| `ScoringRules.VelocityZeroSpan` | lead_scoring_api.py:59-60 | a zero-length span gives bonus 0 for any count |
| `ScoringRules.VelocityNonDecreasing` | lead_scoring_api.py:58-68 | for a fixed span, more events never give a smaller bonus |
| `LeadScoring.AllRowsAppend` | lead_scoring_api.py:75-83 | flattening keeps batch order, then event order within each batch |
| `LeadScoring.CollectRows` | lead_scoring_api.py:75-83 | the nested append loops build exactly the flattened rows, each with its raw `PERSONAL_EMAILS` value |
| `LeadScoring.Survivors` | lead_scoring_api.py:86 | an event survives `dropna` exactly when it comes from a row whose identity, type and timestamp are all non-null |
| `LeadScoring.SurvivorCounts` | lead_scoring_api.py:86 | each surviving event occurs exactly as often as its complete row does, so repeated rows are each summed and counted |
| `LeadScoring.Latest` | lead_scoring_api.py:90 | `max()` is a timestamp of the column and no timestamp exceeds it |
| `LeadScoring.Earliest` | lead_scoring_api.py:101 | `min()` is a timestamp of the column and no timestamp is below it |
| `LeadScoring.LatestEventFullWeight` | lead_scoring_api.py:90-91 | with the batch-wide maximum as reference, every event's day age is at least 0 and some event gets the 1.2 multiplier |
| `LeadScoring.AdjustedScore` | lead_scoring_api.py:88-92 | an event's adjusted score is at most 12.0, and 0 for an unknown type |
| `LeadScoring.AdjustedTotal` | lead_scoring_api.py:108 | the sum of adjusted scores is at least 0 and at most 12.0 per event |
| `LeadScoring.IdentityEvents` | lead_scoring_api.py:95 | an identity's group holds exactly the surviving events of that identity |
| `LeadScoring.IdentityEventCounts` | lead_scoring_api.py:95 | an identity's group holds each of its events as often as the surviving events do, and no event of another identity |
| `LeadScoring.UnknownTypeStillCounts` | lead_scoring_api.py:100-106 | an unknown-type event adds nothing to its identity's sum but adds one to the event count used by the velocity bonus |
| `LeadScoring.VelocityOf` | lead_scoring_api.py:100-106 | an identity's velocity bonus is at most 3 |
| `LeadScoring.VelocityOfCounts` | lead_scoring_api.py:99-106 | with n the size of the identity's group and s the seconds from its earliest to its latest timestamp: 0 when s is 0, else 3 when 30n >= s, 2 when 60n >= s, 1 when 120n >= s, otherwise 0 |
| `LeadScoring.FinalScore` | lead_scoring_api.py:111 | a final score is at least ten times the burst bonus in tenths, so it is never negative |
| `LeadScoring.Identities` | lead_scoring_api.py:95 | each identity with a surviving event appears once, and nothing else appears |
| `LeadScoring.IdentityEmails` | lead_scoring_api.py:113 | an identity's emails are its distinct non-null email values, each once |
| `LeadScoring.MergedRows` | lead_scoring_api.py:108-114 | a record is in the merged frame exactly when its identity is listed and its score and email agree with that identity's events; no (identity, email) pair repeats |
| `LeadScoring.IdentityBurst` | lead_scoring_api.py:95-97 | the burst computed over the sorted timestamps equals the burst of the identity's timestamps in any order |
| `LeadScoring.FillBurstMap` | lead_scoring_api.py:94-97 | the loop fills `burst_map` with every identity's burst bonus and nothing else |
| `LeadScoring.ScoreEvents` | lead_scoring_api.py:74-118 | fails exactly when the request holds no event; otherwise returns a permutation of the expected records, in non-increasing order of final score |
| `LeadScoring.ScoredRowScore` | lead_scoring_api.py:108-111 | every record's identity has events, and its score is the sum of its adjusted scores plus ten times its burst and velocity bonuses, never negative |
| `LeadScoring.ScoredRowsDistinct` | lead_scoring_api.py:113-114 | no (identity, email) pair appears in two records |
| `LeadScoring.ScoredRowPairs` | lead_scoring_api.py:113-114 | there is a record for (identity, email) exactly when the identity has that non-null email, or, for a null email, when the identity has events but no email at all |
| `LeadScoring.IncompleteEventIgnored` | lead_scoring_api.py:86 | adding an event with a null identity, type or timestamp leaves the expected records unchanged |
| `LeadScoring.ByScoreDescIsTotalPreorder` | lead_scoring_api.py:116 | descending order of final score is a total preorder, so the sort is well defined up to ties |
| `EventGrouping.PrimaryEmail` | lead_event_grouping.py:30-31 | the email is null exactly when the raw value is absent or empty; otherwise it holds no comma and has no whitespace at either end |
| `EventGrouping.PrimaryEmailTrims` | lead_event_grouping.py:30-31 | a non-empty raw value made of whitespace, an address, whitespace, then nothing or a comma and anything, gives exactly that address (any non-empty value splits this way) |
| `EventGrouping.PrimaryEmailFirstItem` | lead_event_grouping.py:31 | only the first item of a comma-separated value matters |
| `EventGrouping.PrimaryEmailClean` | lead_event_grouping.py:31 | a single address without a comma or surrounding whitespace is kept unchanged |
| `EventGrouping.AllRecordsAppend` | lead_event_grouping.py:27-38 | flattening keeps batch order, then event order within each batch |
| `EventGrouping.EmptyBatchAddsNothing` | lead_event_grouping.py:29 | a batch with no `events` key, or an empty one, adds no records |
| `EventGrouping.Flatten` | lead_event_grouping.py:27-38 | the nested append loops build exactly the flattened records, each with its primary email |
| `EventGrouping.DropIncomplete` | lead_event_grouping.py:41 | a record is kept exactly when its identity and type are non-null; a null timestamp does not drop it |
| `EventGrouping.DropIncompleteCounts` | lead_event_grouping.py:41 | each keyed record is kept as often as it occurs, so repeated event types reach the label |
| `EventGrouping.KeysIn` | lead_event_grouping.py:43 | the group keys are exactly the (identity, email) pairs of records whose identity and email are both non-null |
| `EventGrouping.KeyLeIsTotalPreorder` | lead_event_grouping.py:43 | ordering keys by identity, then email, is a total preorder |
| `EventGrouping.GroupKeys` | lead_event_grouping.py:43 | the groups are in ascending key order, none twice, one for each pair that some record has |
| `EventGrouping.GroupRows` | lead_event_grouping.py:43-47 | row i carries the i-th group's identity and email and that group's label |
| `EventGrouping.GroupEvents` | lead_event_grouping.py:27-47 | fails exactly when the request holds no event; otherwise returns the rows of the records that survive `dropna` |
| `EventGrouping.GroupRowsKeys` | lead_event_grouping.py:43-45 | rows are in ascending (identity, email) order with no pair twice, and a row exists exactly when some kept record has that identity and non-null email |
| `EventGrouping.GroupRowLabel` | lead_event_grouping.py:44 | a label is the `", "`-join of the group's types in ascending order, a permutation of them with duplicates kept; splitting it gives them back when no type holds `", "` |
| `EventGrouping.GroupTypesNonEmpty` | lead_event_grouping.py:43-44 | among kept records every group has at least one event type |
| `EventGrouping.NoEmailIgnored` | lead_event_grouping.py:43 | a record with a null email is in no group: adding it leaves the rows unchanged |
| `EventGrouping.UnkeyedEventIgnored` | lead_event_grouping.py:41 | adding an event with a null identity or type leaves the kept records, and so the rows, unchanged |

## Left out

- HTTP transport: the FastAPI apps, routes, `async` handlers, pydantic request models and `uvicorn` startup. They are plumbing around the pipelines.
- JSON decoding of the grouper's request body, and its error dictionary (lead_event_grouping.py:19-25). This is library parsing. `GroupEvents` takes the decoded batches.
- ISO-8601 parsing with `pd.to_datetime(errors="coerce")`. Timestamps are whole seconds that are already parsed. Unparseable values, which pandas turns into `NaT` after the `dropna`, are not modelled. Neither are sub-second precision and time zones.
- Floating point. Multipliers and scores are exact integer tenths, and the velocity rate is an exact real. Float rounding at the rate thresholds is not modelled.
- JSON values of an unexpected type: a list or number in `PERSONAL_EMAILS`, a null `resolution` or `events`, a batch that is not an object, a non-string event type. In the source these raise or behave in library-specific ways.
- LeadScoring.ScoreEvents: does not state the order of records with equal scores. pandas' default `quicksort` is not stable, so the model only promises non-increasing scores and the right multiset of records (its own sort is a stable insertion sort).
- LeadScoring.ScoreEvents: the order in which identities are visited is first appearance, where pandas' `groupby` uses sorted keys. This changes neither `burst_map` nor the returned multiset of records.
- LeadScoring.ScoreEvents: when the request holds events but every row is dropped, the model returns no records. The source's request model declares identity, type and timestamp as required strings, so for validated requests `dropna` keeps every row, and this case never reaches pandas.
