/**
 * The `/score` pipeline: flatten the request's batches into rows, drop rows
 * with a null identity, event type or timestamp, score every identity and
 * return one record per (identity, email) pair, highest score first.
 *
 * Scores are in tenths (see ScoringRules). `None` stands for a null cell.
 */
module LeadScoring {
  import opened Results
  import opened Sequences
  import opened ScoringRules

  /** One event of a request batch. */
  datatype RawEvent = RawEvent(
    hem: Option<string>,
    eventType: Option<string>,
    timestamp: Option<int>,
    resolution: map<string, string>)

  /** A row of `all_events`: the event's fields and its raw `PERSONAL_EMAILS` value. */
  datatype Row = Row(
    hem: Option<string>,
    eventType: Option<string>,
    timestamp: Option<int>,
    personalEmails: Option<string>)

  /** A row that survives `dropna` on the identity, type and timestamp columns. */
  datatype Event = Event(hem: string, eventType: string, timestamp: int, personalEmails: Option<string>)

  /** An output record. */
  datatype ScoreRow = ScoreRow(hem: string, personalEmails: Option<string>, finalScoreTenths: int)

  /** The row appended for one event; the email field is copied unsplit. */
  function ToRow(e: RawEvent): Row
  {
    Row(e.hem, e.eventType, e.timestamp,
        if PersonalEmailsKey in e.resolution then Some(e.resolution[PersonalEmailsKey]) else None)
  }

  function BatchRows(events: seq<RawEvent>): seq<Row>
  {
    seq(|events|, i requires 0 <= i < |events| => ToRow(events[i]))
  }

  /** `all_events`: every batch's rows, batch after batch. */
  function AllRows(payload: seq<seq<RawEvent>>): seq<Row>
  {
    if payload == [] then []
    else AllRows(payload[..|payload| - 1]) + BatchRows(payload[|payload| - 1])
  }

  /** Flattening keeps batch order: the rows of `p + q` are those of `p`, then those of `q`. */
  lemma {:induction false} AllRowsAppend(p: seq<seq<RawEvent>>, q: seq<seq<RawEvent>>)
    ensures AllRows(p + q) == AllRows(p) + AllRows(q)
    decreases |q|
  {
    if q == [] {
      assert p + q == p;
    } else {
      assert (p + q)[..|p + q| - 1] == p + q[..|q| - 1];
      AllRowsAppend(p, q[..|q| - 1]);
    }
  }

  predicate Complete(r: Row)
  {
    r.hem.Some? && r.eventType.Some? && r.timestamp.Some?
  }

  /** `df.dropna(subset=["hem_sha256", "event_type", "event_timestamp"])`. */
  function Survivors(rows: seq<Row>): (evs: seq<Event>)
    ensures |evs| <= |rows|
    ensures forall e :: e in evs <==> Row(Some(e.hem), Some(e.eventType), Some(e.timestamp), e.personalEmails) in rows
  {
    if rows == [] then []
    else
      var r := rows[|rows| - 1];
      var init := Survivors(rows[..|rows| - 1]);
      assert rows == rows[..|rows| - 1] + [r];
      if Complete(r) then init + [Event(r.hem.value, r.eventType.value, r.timestamp.value, r.personalEmails)]
      else init
  }

  /** The complete row an event comes from. */
  function EventRow(e: Event): (r: Row)
    ensures Complete(r)
  {
    Row(Some(e.hem), Some(e.eventType), Some(e.timestamp), e.personalEmails)
  }

  /** `dropna` keeps every complete row as often as it occurs, so repeated rows are scored repeatedly. */
  lemma {:induction false} SurvivorCounts(rows: seq<Row>)
    ensures forall e :: multiset(Survivors(rows))[e] == multiset(rows)[EventRow(e)]
  {
    if rows != [] {
      var init := rows[..|rows| - 1];
      var r := rows[|rows| - 1];
      SurvivorCounts(init);
      assert rows == init + [r];
      if Complete(r) {
        var e' := Event(r.hem.value, r.eventType.value, r.timestamp.value, r.personalEmails);
        assert Survivors(rows) == Survivors(init) + [e'];
        assert EventRow(e') == r;
        forall e
          ensures multiset(Survivors(rows))[e] == multiset(rows)[EventRow(e)]
        {
          assert EventRow(e) == r <==> e == e';
        }
      } else {
        assert Survivors(rows) == Survivors(init);
        forall e
          ensures multiset(Survivors(rows))[e] == multiset(rows)[EventRow(e)]
        {
          assert EventRow(e) != r;
        }
      }
    }
  }

  function Timestamps(evs: seq<Event>): (ts: seq<int>)
    ensures |ts| == |evs|
    ensures forall k :: 0 <= k < |evs| ==> ts[k] == evs[k].timestamp
  {
    seq(|evs|, i requires 0 <= i < |evs| => evs[i].timestamp)
  }

  /** `max()` of a timestamp column. */
  function Latest(ts: seq<int>): (t: int)
    requires ts != []
    ensures t in ts
    ensures forall k :: 0 <= k < |ts| ==> ts[k] <= t
  {
    if |ts| == 1 then ts[0]
    else
      var m := Latest(ts[..|ts| - 1]);
      if ts[|ts| - 1] > m then ts[|ts| - 1] else m
  }

  /** `min()` of a timestamp column. */
  function Earliest(ts: seq<int>): (t: int)
    requires ts != []
    ensures t in ts
    ensures forall k :: 0 <= k < |ts| ==> t <= ts[k]
  {
    if |ts| == 1 then ts[0]
    else
      var m := Earliest(ts[..|ts| - 1]);
      if ts[|ts| - 1] < m then ts[|ts| - 1] else m
  }

  /**
   * The reference time is the latest timestamp of the whole batch, so no
   * event is younger than zero days and the latest one gets the 1.2 multiplier.
   */
  lemma LatestEventFullWeight(evs: seq<Event>)
    requires evs != []
    ensures var now := Latest(Timestamps(evs));
      (forall k :: 0 <= k < |evs| ==> DaysOld(evs[k].timestamp, now) >= 0) &&
      (exists k :: 0 <= k < |evs| && RecencyTenths(evs[k].timestamp, now) == 12)
  {
    var ts := Timestamps(evs);
    var now := Latest(ts);
    var k :| 0 <= k < |ts| && ts[k] == now;
    RecencyBands(evs[k].timestamp, now);
  }

  /** `adjusted_score`: the type's weight times the recency multiplier, in tenths. */
  function AdjustedScore(e: Event, now: int): (s: nat)
    ensures s <= 120
    ensures e.eventType !in EventWeights ==> s == 0
  {
    var w := EventWeight(e.eventType);
    var m := RecencyTenths(e.timestamp, now);
    assert w * m <= 10 * m by {
      assert m >= 0 && w <= 10;
    }
    w * m
  }

  /** The `sum` of `adjusted_score` over some events. */
  function AdjustedTotal(evs: seq<Event>, now: int): (total: nat)
    ensures total <= 120 * |evs|
  {
    if evs == [] then 0
    else AdjustedTotal(evs[..|evs| - 1], now) + AdjustedScore(evs[|evs| - 1], now)
  }

  /** The rows of one identity, in order (one `groupby` group). */
  function IdentityEvents(evs: seq<Event>, hem: string): (group: seq<Event>)
    ensures |group| <= |evs|
    ensures forall e :: e in group <==> e in evs && e.hem == hem
  {
    if evs == [] then []
    else
      var e := evs[|evs| - 1];
      var init := IdentityEvents(evs[..|evs| - 1], hem);
      assert evs == evs[..|evs| - 1] + [e];
      if e.hem == hem then init + [e] else init
  }

  /** An identity's group holds each of its events as often as the surviving events do, and no other event. */
  lemma {:induction false} IdentityEventCounts(evs: seq<Event>, hem: string)
    ensures forall e :: multiset(IdentityEvents(evs, hem))[e] == if e.hem == hem then multiset(evs)[e] else 0
  {
    if evs != [] {
      var init := evs[..|evs| - 1];
      var last := evs[|evs| - 1];
      IdentityEventCounts(init, hem);
      assert evs == init + [last];
    }
  }

  /**
   * An event of an unknown type adds nothing to its identity's adjusted total
   * but is still one more event for the velocity bonus.
   */
  lemma UnknownTypeStillCounts(evs: seq<Event>, e: Event, now: int)
    requires e.eventType !in EventWeights
    ensures AdjustedTotal(IdentityEvents(evs + [e], e.hem), now) == AdjustedTotal(IdentityEvents(evs, e.hem), now)
    ensures |IdentityEvents(evs + [e], e.hem)| == |IdentityEvents(evs, e.hem)| + 1
  {
    assert (evs + [e])[..|evs|] == evs;
    var group := IdentityEvents(evs, e.hem);
    assert IdentityEvents(evs + [e], e.hem) == group + [e];
    assert (group + [e])[..|group|] == group;
  }

  /** `velocity_bonus(count, duration_min)` for one identity's events. */
  function VelocityOf(events: seq<Event>): (bonus: nat)
    ensures bonus <= 3
  {
    if events == [] then 0
    else
      var ts := Timestamps(events);
      VelocityBonus(|events|, DurationMinutes(Latest(ts) - Earliest(ts)))
  }

  /**
   * The velocity bonus counts every event of the group and measures the span
   * from its earliest to its latest timestamp: 3, 2 or 1 when the span is at
   * most 30, 60 or 120 seconds per event, 0 for a wider or a zero span.
   */
  lemma VelocityOfCounts(group: seq<Event>)
    requires group != []
    ensures var n := |group|;
      var span := Latest(Timestamps(group)) - Earliest(Timestamps(group));
      VelocityOf(group) ==
        if span == 0 then 0
        else if 30 * n >= span then 3
        else if 60 * n >= span then 2
        else if 120 * n >= span then 1
        else 0
  {
    var ts := Timestamps(group);
    var span := Latest(ts) - Earliest(ts);
    if span != 0 {
      VelocityByCounts(|group|, span);
    }
  }

  /** `final_score` of one identity, given its burst bonus. */
  function FinalScore(events: seq<Event>, now: int, burst: nat): (score: int)
    ensures score >= 10 * burst
  {
    AdjustedTotal(events, now) + 10 * burst + 10 * VelocityOf(events)
  }

  /** Some event belongs to identity `hem`. */
  predicate HasIdentity(evs: seq<Event>, hem: string)
  {
    exists k :: 0 <= k < |evs| && evs[k].hem == hem
  }

  /** Some event of identity `hem` carries the email `email`. */
  predicate HasEmail(evs: seq<Event>, hem: string, email: string)
  {
    exists k :: 0 <= k < |evs| && evs[k].hem == hem && evs[k].personalEmails == Some(email)
  }

  /** The identities that have events, each once, in order of first appearance. */
  function Identities(evs: seq<Event>): (hems: seq<string>)
    ensures NoDuplicates(hems)
    ensures forall h :: h in hems <==> HasIdentity(evs, h)
  {
    var all := seq(|evs|, i requires 0 <= i < |evs| => evs[i].hem);
    assert forall k :: 0 <= k < |evs| ==> all[k] == evs[k].hem;
    Distinct(all)
  }

  /** The non-null emails in some events, in order. */
  function EmailsIn(evs: seq<Event>): (emails: seq<string>)
    ensures forall m :: m in emails <==> exists k :: 0 <= k < |evs| && evs[k].personalEmails == Some(m)
  {
    if evs == [] then []
    else
      var e := evs[|evs| - 1];
      var init := EmailsIn(evs[..|evs| - 1]);
      assert forall k :: 0 <= k < |evs| - 1 ==> evs[..|evs| - 1][k] == evs[k];
      if e.personalEmails.Some? then init + [e.personalEmails.value] else init
  }

  /** The distinct emails of one identity (`dropna().drop_duplicates()`). */
  function IdentityEmails(evs: seq<Event>, hem: string): (emails: seq<string>)
    ensures NoDuplicates(emails)
    ensures forall m :: m in emails <==> HasEmail(evs, hem, m)
  {
    var group := IdentityEvents(evs, hem);
    forall m | (exists k :: 0 <= k < |group| && group[k].personalEmails == Some(m))
      ensures HasEmail(evs, hem, m)
    {
      var k :| 0 <= k < |group| && group[k].personalEmails == Some(m);
      assert group[k] in group;
    }
    forall m | HasEmail(evs, hem, m)
      ensures exists k :: 0 <= k < |group| && group[k].personalEmails == Some(m)
    {
      var k :| 0 <= k < |evs| && evs[k].hem == hem && evs[k].personalEmails == Some(m);
      assert evs[k] in group;
    }
    Distinct(EmailsIn(group))
  }

  /** The records the left merge gives one identity: one per email, or one with no email. */
  function RowsFor(hem: string, emails: seq<string>, score: int): seq<ScoreRow>
  {
    if emails == [] then [ScoreRow(hem, None, score)]
    else seq(|emails|, i requires 0 <= i < |emails| => ScoreRow(hem, Some(emails[i]), score))
  }

  /** The email of a record agrees with the left merge of the identity's emails. */
  predicate EmailFits(emails: seq<string>, email: Option<string>)
  {
    if emails == [] then email == None else email.Some? && email.value in emails
  }

  /** `r` is a record the merge gives its identity, with that identity's final score. */
  predicate ScoredAs(evs: seq<Event>, now: int, burst: nat, r: ScoreRow)
  {
    r.finalScoreTenths == FinalScore(IdentityEvents(evs, r.hem), now, burst) &&
    EmailFits(IdentityEmails(evs, r.hem), r.personalEmails)
  }

  /** No two records share an (identity, email) pair. */
  predicate DistinctPairs(rows: seq<ScoreRow>)
  {
    forall i, j :: 0 <= i < j < |rows| ==>
      rows[i].hem != rows[j].hem || rows[i].personalEmails != rows[j].personalEmails
  }

  lemma RowsForMembership(hem: string, emails: seq<string>, score: int, r: ScoreRow)
    ensures r in RowsFor(hem, emails, score) <==>
      r.hem == hem && r.finalScoreTenths == score && EmailFits(emails, r.personalEmails)
  {
    if emails != [] && r.hem == hem && r.finalScoreTenths == score && EmailFits(emails, r.personalEmails) {
      var k :| 0 <= k < |emails| && emails[k] == r.personalEmails.value;
      assert RowsFor(hem, emails, score)[k] == r;
    }
  }

  lemma RowsForDistinct(hem: string, emails: seq<string>, score: int)
    requires NoDuplicates(emails)
    ensures DistinctPairs(RowsFor(hem, emails, score))
  {
  }

  lemma DistinctPairsAppend(a: seq<ScoreRow>, b: seq<ScoreRow>)
    requires DistinctPairs(a) && DistinctPairs(b)
    requires forall i, j :: 0 <= i < |a| && 0 <= j < |b| ==> a[i].hem != b[j].hem
    ensures DistinctPairs(a + b)
  {
    forall i, j | 0 <= i < j < |a + b|
      ensures (a + b)[i].hem != (a + b)[j].hem || (a + b)[i].personalEmails != (a + b)[j].personalEmails
    {
      if j < |a| {
        assert (a + b)[i] == a[i] && (a + b)[j] == a[j];
      } else if i >= |a| {
        assert (a + b)[i] == b[i - |a|] && (a + b)[j] == b[j - |a|];
      } else {
        assert (a + b)[i] == a[i] && (a + b)[j] == b[j - |a|];
      }
    }
  }

  /** `final` after both merges: the records of the identities `hems`, before sorting. */
  function MergedRows(evs: seq<Event>, now: int, hems: seq<string>, burst: map<string, nat>): (rows: seq<ScoreRow>)
    requires forall h :: h in hems ==> h in burst
    ensures forall r :: r in rows <==> r.hem in hems && ScoredAs(evs, now, burst[r.hem], r)
    ensures NoDuplicates(hems) ==> DistinctPairs(rows)
  {
    if hems == [] then []
    else
      var h := hems[|hems| - 1];
      var init := MergedRows(evs, now, hems[..|hems| - 1], burst);
      MergedRowsStep(evs, now, hems, burst, init);
      init + RowsFor(h, IdentityEmails(evs, h), FinalScore(IdentityEvents(evs, h), now, burst[h]))
  }

  /** Appending the last identity's records to those of the identities before it. */
  lemma MergedRowsStep(evs: seq<Event>, now: int, hems: seq<string>, burst: map<string, nat>, init: seq<ScoreRow>)
    requires hems != [] && forall x :: x in hems ==> x in burst
    requires forall r :: r in init <==> r.hem in hems[..|hems| - 1] && ScoredAs(evs, now, burst[r.hem], r)
    requires NoDuplicates(hems[..|hems| - 1]) ==> DistinctPairs(init)
    ensures var h := hems[|hems| - 1];
      var rows := init + RowsFor(h, IdentityEmails(evs, h), FinalScore(IdentityEvents(evs, h), now, burst[h]));
      (forall r :: r in rows <==> r.hem in hems && ScoredAs(evs, now, burst[r.hem], r)) &&
      (NoDuplicates(hems) ==> DistinctPairs(rows))
  {
    var prefix := hems[..|hems| - 1];
    var h := hems[|hems| - 1];
    assert hems == prefix + [h];
    var emails := IdentityEmails(evs, h);
    var score := FinalScore(IdentityEvents(evs, h), now, burst[h]);
    var mine := RowsFor(h, emails, score);
    forall r: ScoreRow
      ensures r in mine <==> r.hem == h && ScoredAs(evs, now, burst[h], r)
    {
      RowsForMembership(h, emails, score, r);
    }
    if NoDuplicates(hems) {
      assert NoDuplicates(prefix) by {
        forall i, j | 0 <= i < j < |prefix|
          ensures prefix[i] != prefix[j]
        {
          assert hems[i] == prefix[i] && hems[j] == prefix[j];
        }
      }
      assert h !in prefix by {
        forall i | 0 <= i < |prefix|
          ensures prefix[i] != h
        {
          assert hems[i] == prefix[i];
        }
      }
      RowsForDistinct(h, emails, score);
      forall i, j | 0 <= i < |init| && 0 <= j < |mine|
        ensures init[i].hem != mine[j].hem
      {
        assert init[i] in init && mine[j] in mine;
      }
      DistinctPairsAppend(init, mine);
    }
  }

  /** The burst bonus `burst_map` holds for one identity. */
  function BurstOf(evs: seq<Event>, hem: string): nat
  {
    BurstValue(Timestamps(IdentityEvents(evs, hem)))
  }

  /** `burst_map`: each identity's burst bonus. */
  function BurstMap(evs: seq<Event>): map<string, nat>
  {
    map h | h in Identities(evs) :: BurstOf(evs, h)
  }

  /** A map with exactly the listed identities, each holding its burst bonus, is `burst_map`. */
  lemma BurstMapByKeys(evs: seq<Event>, m: map<string, nat>)
    requires forall h :: h in m <==> h in Identities(evs)
    requires forall h :: h in m ==> m[h] == BurstOf(evs, h)
    ensures m == BurstMap(evs)
  {
  }

  /** The records of the surviving events, before sorting by score. */
  function ScoredRows(evs: seq<Event>): seq<ScoreRow>
    requires evs != []
  {
    MergedRows(evs, Latest(Timestamps(evs)), Identities(evs), BurstMap(evs))
  }

  /** The records `/score` returns for a payload, before sorting by score. */
  function ExpectedRows(payload: seq<seq<RawEvent>>): seq<ScoreRow>
  {
    var evs := Survivors(AllRows(payload));
    if evs == [] then [] else ScoredRows(evs)
  }

  /** Descending order on final scores. */
  predicate ByScoreDesc(a: ScoreRow, b: ScoreRow)
  {
    a.finalScoreTenths >= b.finalScoreTenths
  }

  lemma ByScoreDescIsTotalPreorder()
    ensures TotalPreorder(ByScoreDesc)
  {
  }

  /** The nested loops of `score_events` that append one row per event to `all_events`. */
  method CollectRows(payload: seq<seq<RawEvent>>) returns (allEvents: seq<Row>)
    ensures allEvents == AllRows(payload)
  {
    allEvents := [];
    for i := 0 to |payload|
      invariant allEvents == AllRows(payload[..i])
    {
      var block := payload[i];
      for j := 0 to |block|
        invariant allEvents == AllRows(payload[..i]) + BatchRows(block[..j])
      {
        assert BatchRows(block[..j + 1]) == BatchRows(block[..j]) + [ToRow(block[j])];
        allEvents := allEvents + [ToRow(block[j])];
      }
      assert payload[..i + 1][..i] == payload[..i];
      assert block[..|block|] == block;
    }
    assert payload[..|payload|] == payload;
  }

  /** One identity's burst bonus, computed over its sorted timestamps. */
  method IdentityBurst(evs: seq<Event>, hem: string) returns (bonus: nat)
    ensures bonus == BurstOf(evs, hem)
  {
    var ts := Timestamps(IdentityEvents(evs, hem));
    IntLeIsTotalPreorder();
    var sortedTs := Sort(ts, IntLe);
    bonus := BurstBonus(sortedTs);
    BurstOrderIndependent(sortedTs, ts);
  }

  /** The loop of `score_events` that fills `burst_map`, one identity at a time. */
  method FillBurstMap(evs: seq<Event>) returns (burstMap: map<string, nat>)
    ensures burstMap == BurstMap(evs)
  {
    var hems := Identities(evs);
    burstMap := map[];
    for k := 0 to |hems|
      invariant forall h :: h in burstMap <==> h in hems[..k]
      invariant forall h :: h in burstMap ==> burstMap[h] == BurstOf(evs, h)
    {
      var bonus := IdentityBurst(evs, hems[k]);
      assert hems[..k + 1] == hems[..k] + [hems[k]];
      burstMap := burstMap[hems[k] := bonus];
    }
    assert hems[..|hems|] == hems;
    BurstMapByKeys(evs, burstMap);
  }

  /** `score_events`. */
  method ScoreEvents(payload: seq<seq<RawEvent>>) returns (result: Result<seq<ScoreRow>, Error>)
    ensures result.Failure? <==> AllRows(payload) == []
    ensures result.Failure? ==> result.error == MissingColumns
    ensures result.Success? ==> multiset(result.value) == multiset(ExpectedRows(payload))
    ensures result.Success? ==> SortedBy(result.value, ByScoreDesc)
  {
    var allEvents := CollectRows(payload);
    if allEvents == [] {
      return Failure(MissingColumns);
    }
    var evs := Survivors(allEvents);
    if evs == [] {
      return Success([]);
    }
    var now := Latest(Timestamps(evs));
    var burstMap := FillBurstMap(evs);
    var final := MergedRows(evs, now, Identities(evs), burstMap);
    ByScoreDescIsTotalPreorder();
    result := Success(Sort(final, ByScoreDesc));
  }

  /**
   * Every record is an identity with surviving events, its score is the
   * sum of its adjusted scores plus ten times its burst and velocity bonuses,
   * and that score is not negative.
   */
  lemma ScoredRowScore(evs: seq<Event>, r: ScoreRow)
    requires evs != [] && r in ScoredRows(evs)
    ensures var group := IdentityEvents(evs, r.hem);
      group != [] &&
      r.finalScoreTenths ==
        AdjustedTotal(group, Latest(Timestamps(evs))) + 10 * BurstValue(Timestamps(group)) + 10 * VelocityOf(group) &&
      r.finalScoreTenths >= 0
  {
    var burst := BurstMap(evs);
    assert r.hem in Identities(evs);
    assert HasIdentity(evs, r.hem);
    var k :| 0 <= k < |evs| && evs[k].hem == r.hem;
    var group := IdentityEvents(evs, r.hem);
    assert evs[k] in group;
    assert burst[r.hem] == BurstOf(evs, r.hem) == BurstValue(Timestamps(group));
  }

  /** No (identity, email) pair appears in two records. */
  lemma ScoredRowsDistinct(evs: seq<Event>)
    requires evs != []
    ensures DistinctPairs(ScoredRows(evs))
  {
  }

  /**
   * The email merge: an identity has a record for each of its distinct
   * non-null emails, or, when it has none, exactly one record with no email.
   */
  lemma ScoredRowPairs(evs: seq<Event>, hem: string, email: Option<string>)
    requires evs != []
    ensures (exists r :: r in ScoredRows(evs) && r.hem == hem && r.personalEmails == email) <==>
        HasIdentity(evs, hem) &&
        (if email.Some? then HasEmail(evs, hem, email.value)
         else forall m :: !HasEmail(evs, hem, m))
  {
    NoEmails(evs, hem);
    if exists r :: r in ScoredRows(evs) && r.hem == hem && r.personalEmails == email {
      ScoredRowPairsOnly(evs, hem, email);
    }
    if HasIdentity(evs, hem) && EmailFits(IdentityEmails(evs, hem), email) {
      ScoredRowPairsAll(evs, hem, email);
    }
  }

  lemma ScoredRowPairsOnly(evs: seq<Event>, hem: string, email: Option<string>)
    requires evs != []
    requires exists r :: r in ScoredRows(evs) && r.hem == hem && r.personalEmails == email
    ensures HasIdentity(evs, hem) && EmailFits(IdentityEmails(evs, hem), email)
  {
    var r :| r in ScoredRows(evs) && r.hem == hem && r.personalEmails == email;
    assert r.hem in Identities(evs);
  }

  lemma ScoredRowPairsAll(evs: seq<Event>, hem: string, email: Option<string>)
    requires evs != []
    requires HasIdentity(evs, hem) && EmailFits(IdentityEmails(evs, hem), email)
    ensures exists r :: r in ScoredRows(evs) && r.hem == hem && r.personalEmails == email
  {
    var burst := BurstMap(evs);
    var now := Latest(Timestamps(evs));
    var hems := Identities(evs);
    assert hem in hems;
    var r := ScoreRow(hem, email, FinalScore(IdentityEvents(evs, hem), now, burst[hem]));
    assert ScoredAs(evs, now, burst[r.hem], r);
    assert r in MergedRows(evs, now, hems, burst);
  }

  lemma NoEmails(evs: seq<Event>, hem: string)
    ensures IdentityEmails(evs, hem) == [] <==> forall m :: !HasEmail(evs, hem, m)
  {
    var emails := IdentityEmails(evs, hem);
    if emails != [] {
      assert emails[0] in emails;
    }
  }

  /**
   * An event with a null identity, type or timestamp changes nothing: adding
   * it to a request leaves the records to return as they were.
   */
  lemma IncompleteEventIgnored(payload: seq<seq<RawEvent>>, e: RawEvent)
    requires !Complete(ToRow(e))
    ensures ExpectedRows(payload + [[e]]) == ExpectedRows(payload)
  {
    AllRowsAppend(payload, [[e]]);
    assert AllRows([[e]]) == [ToRow(e)] by {
      assert [[e]][..0] == [];
      assert BatchRows([e]) == [ToRow(e)];
    }
    var rows := AllRows(payload) + [ToRow(e)];
    assert rows[..|rows| - 1] == AllRows(payload);
  }
}
