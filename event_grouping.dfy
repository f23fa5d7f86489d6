/**
 * The `/group-events` pipeline: flatten the request's batches into records,
 * keep the first item of each event's email field, drop records with a null
 * identity or event type, and emit one row per (identity, email) pair with
 * the pair's event types sorted and joined by `", "`.
 *
 * `None` stands for a null cell: a missing key or a JSON `null`.
 */
module EventGrouping {
  import opened Results
  import opened Sequences
  import opened Text

  /** One event of a request batch; a missing `resolution` is the empty map. */
  datatype RawEvent = RawEvent(
    hem: Option<string>,
    eventType: Option<string>,
    timestamp: Option<string>,
    resolution: map<string, string>)

  /** A request batch; `events` is `None` when the batch has no `events` key. */
  datatype Batch = Batch(events: Option<seq<RawEvent>>)

  /** A row of `all_events`. The timestamp is carried as text and never parsed. */
  datatype Record = Record(
    hem: Option<string>,
    eventType: Option<string>,
    timestamp: Option<string>,
    personalEmails: Option<string>)

  /** An output row. */
  datatype GroupRow = GroupRow(hem: string, personalEmails: string, eventsCollected: string)

  /**
   * `raw.split(",")[0].strip() if raw else None`: an absent or empty value has
   * no email; any other value gives its first comma-separated item, trimmed.
   */
  function PrimaryEmail(raw: Option<string>): (email: Option<string>)
    ensures email.None? <==> raw.None? || raw.value == ""
    ensures email.Some? ==> ',' !in email.value
    ensures email.Some? && email.value != [] ==>
      !IsSpace(email.value[0]) && !IsSpace(email.value[|email.value| - 1])
  {
    if raw.None? || raw.value == "" then None
    else
      var first := BeforeFirst(raw.value, ',');
      var r := Strip(first);
      assert forall k :: 0 <= k < |r| ==> r[k] in first;
      Some(r)
  }

  /** Only the first item of a comma-separated list matters. */
  lemma PrimaryEmailFirstItem(first: string, rest: string)
    requires first != "" && ',' !in first
    ensures PrimaryEmail(Some(first + "," + rest)) == PrimaryEmail(Some(first))
  {
    var s := first + "," + rest;
    var r := BeforeFirst(s, ',');
    assert s[|first|] == ',';
    assert forall k :: 0 <= k < |first| ==> s[k] == first[k];
    assert r == s[..|first|] == first;
    assert BeforeFirst(first, ',') == first;
  }

  /**
   * Every non-empty raw value reads as optional whitespace, an address,
   * optional whitespace, then nothing or a comma and the rest; the email is
   * the address, with the whitespace around it trimmed.
   */
  lemma PrimaryEmailTrims(pre: string, core: string, post: string, tail: string)
    requires AllSpace(pre) && AllSpace(post)
    requires ',' !in pre + core + post
    requires core == [] || (!IsSpace(core[0]) && !IsSpace(core[|core| - 1]))
    requires tail == [] || tail[0] == ','
    requires pre + core + post + tail != []
    ensures PrimaryEmail(Some(pre + core + post + tail)) == Some(core)
  {
    BeforeFirstOf(pre + core + post, tail, ',');
    StripFramed(pre, core, post);
  }

  /** A single email with no comma and no surrounding whitespace is kept as it is. */
  lemma PrimaryEmailClean(email: string)
    requires email != "" && ',' !in email
    requires !IsSpace(email[0]) && !IsSpace(email[|email| - 1])
    ensures PrimaryEmail(Some(email)) == Some(email)
  {
    assert BeforeFirst(email, ',') == email;
  }

  /** `block.get("events", [])`. */
  function BatchEvents(b: Batch): seq<RawEvent>
  {
    if b.events.Some? then b.events.value else []
  }

  /** The record appended for one event. */
  function ToRecord(e: RawEvent): Record
  {
    var raw := if PersonalEmailsKey in e.resolution then Some(e.resolution[PersonalEmailsKey]) else None;
    Record(e.hem, e.eventType, e.timestamp, PrimaryEmail(raw))
  }

  function BatchRecords(events: seq<RawEvent>): seq<Record>
  {
    seq(|events|, i requires 0 <= i < |events| => ToRecord(events[i]))
  }

  /** `all_events`: the records of every batch, batch after batch. */
  function AllRecords(payload: seq<Batch>): seq<Record>
  {
    if payload == [] then []
    else AllRecords(payload[..|payload| - 1]) + BatchRecords(BatchEvents(payload[|payload| - 1]))
  }

  /** Flattening keeps batch order: the records of `p + q` are those of `p`, then those of `q`. */
  lemma {:induction false} AllRecordsAppend(p: seq<Batch>, q: seq<Batch>)
    ensures AllRecords(p + q) == AllRecords(p) + AllRecords(q)
    decreases |q|
  {
    if q == [] {
      assert p + q == p;
    } else {
      assert (p + q)[..|p + q| - 1] == p + q[..|q| - 1];
      AllRecordsAppend(p, q[..|q| - 1]);
    }
  }

  /** A batch without an `events` key, or with an empty one, adds no records. */
  lemma EmptyBatchAddsNothing(p: seq<Batch>, b: Batch)
    requires BatchEvents(b) == []
    ensures AllRecords(p + [b]) == AllRecords(p)
  {
    assert (p + [b])[..|p|] == p;
  }

  /** The nested loops of `group_events` that append one record per event to `all_events`. */
  method Flatten(payload: seq<Batch>) returns (allEvents: seq<Record>)
    ensures allEvents == AllRecords(payload)
  {
    allEvents := [];
    for i := 0 to |payload|
      invariant allEvents == AllRecords(payload[..i])
    {
      var events := BatchEvents(payload[i]);
      for j := 0 to |events|
        invariant allEvents == AllRecords(payload[..i]) + BatchRecords(events[..j])
      {
        assert BatchRecords(events[..j + 1]) == BatchRecords(events[..j]) + [ToRecord(events[j])];
        allEvents := allEvents + [ToRecord(events[j])];
      }
      assert payload[..i + 1][..i] == payload[..i];
      assert events[..|events|] == events;
    }
    assert payload[..|payload|] == payload;
  }

  /** The record has an identity and an event type; the timestamp is not consulted. */
  predicate Keyed(r: Record)
  {
    r.hem.Some? && r.eventType.Some?
  }

  /** `df.dropna(subset=["hem_sha256", "event_type"])`. */
  function DropIncomplete(recs: seq<Record>): (kept: seq<Record>)
    ensures |kept| <= |recs|
    ensures forall r :: r in kept <==> r in recs && Keyed(r)
  {
    if recs == [] then []
    else
      var r := recs[|recs| - 1];
      var init := DropIncomplete(recs[..|recs| - 1]);
      assert recs == recs[..|recs| - 1] + [r];
      if Keyed(r) then init + [r] else init
  }

  /** `dropna` keeps every keyed record as often as it occurs, so repeated types reach the label. */
  lemma {:induction false} DropIncompleteCounts(recs: seq<Record>)
    ensures forall r :: multiset(DropIncomplete(recs))[r] == if Keyed(r) then multiset(recs)[r] else 0
  {
    if recs != [] {
      var init := recs[..|recs| - 1];
      var last := recs[|recs| - 1];
      DropIncompleteCounts(init);
      assert recs == init + [last];
    }
  }

  /** A group-by key: an identity and a non-null email. */
  datatype Key = Key(hem: string, email: string)

  predicate InGroup(r: Record, k: Key)
  {
    r.hem == Some(k.hem) && r.personalEmails == Some(k.email)
  }

  predicate HasGroup(recs: seq<Record>, k: Key)
  {
    exists i :: 0 <= i < |recs| && InGroup(recs[i], k)
  }

  /** The keys of the records whose identity and email are both non-null, in order. */
  function KeysIn(recs: seq<Record>): (keys: seq<Key>)
    ensures forall k :: k in keys <==> HasGroup(recs, k)
  {
    if recs == [] then []
    else
      var r := recs[|recs| - 1];
      var init := KeysIn(recs[..|recs| - 1]);
      assert forall i :: 0 <= i < |recs| - 1 ==> recs[..|recs| - 1][i] == recs[i];
      if r.hem.Some? && r.personalEmails.Some? then
        assert InGroup(r, Key(r.hem.value, r.personalEmails.value));
        init + [Key(r.hem.value, r.personalEmails.value)]
      else init
  }

  /** The order of the sorted group index: by identity, then by email. */
  predicate KeyLe(a: Key, b: Key)
  {
    if a.hem != b.hem then StrLe(a.hem, b.hem) else StrLe(a.email, b.email)
  }

  lemma KeyLeIsTotalPreorder()
    ensures TotalPreorder(KeyLe)
  {
    forall a, b ensures KeyLe(a, b) || KeyLe(b, a) {
      StrLeTotal(a.hem, b.hem);
      StrLeTotal(a.email, b.email);
    }
    forall a, b, c | KeyLe(a, b) && KeyLe(b, c) ensures KeyLe(a, c) {
      if a.hem == b.hem == c.hem {
        StrLeTransitive(a.email, b.email, c.email);
      } else if a.hem == c.hem {
        StrLeAntisymmetric(a.hem, b.hem);
      } else if a.hem != b.hem && b.hem != c.hem {
        StrLeTransitive(a.hem, b.hem, c.hem);
      }
    }
  }

  /** The groups of `groupby(["hem_sha256", "personal_emails"])`, in its sorted order. */
  function GroupKeys(recs: seq<Record>): (keys: seq<Key>)
    ensures SortedBy(keys, KeyLe)
    ensures NoDuplicates(keys)
    ensures forall k :: k in keys <==> HasGroup(recs, k)
  {
    var distinct := Distinct(KeysIn(recs));
    KeyLeIsTotalPreorder();
    var keys := Sort(distinct, KeyLe);
    NoDuplicatesPermutation(distinct, keys);
    assert forall k :: k in keys <==> k in multiset(distinct);
    keys
  }

  /** The group's `event_type` column, in record order. */
  function GroupTypes(recs: seq<Record>, k: Key): seq<string>
  {
    if recs == [] then []
    else
      var r := recs[|recs| - 1];
      var init := GroupTypes(recs[..|recs| - 1], k);
      if InGroup(r, k) && r.eventType.Some? then init + [r.eventType.value] else init
  }

  /** `sorted(x)` of the group's event types. */
  function SortedTypes(recs: seq<Record>, k: Key): seq<string>
  {
    StrLeIsTotalPreorder();
    Sort(GroupTypes(recs, k), StrLe)
  }

  /** `events_collected`: `", ".join(sorted(x))`. */
  function Label(recs: seq<Record>, k: Key): string
  {
    Join(SortedTypes(recs, k), ListSeparator)
  }

  /** The aggregated, re-indexed frame: one row per group, in group order. */
  function GroupRows(recs: seq<Record>): (rows: seq<GroupRow>)
    ensures |rows| == |GroupKeys(recs)|
    ensures forall i :: 0 <= i < |rows| ==>
      Key(rows[i].hem, rows[i].personalEmails) == GroupKeys(recs)[i] &&
      rows[i].eventsCollected == Label(recs, GroupKeys(recs)[i])
  {
    var keys := GroupKeys(recs);
    seq(|keys|, i requires 0 <= i < |keys| => GroupRow(keys[i].hem, keys[i].email, Label(recs, keys[i])))
  }

  /** `group_events`, after the request body has been decoded into batches. */
  method GroupEvents(payload: seq<Batch>) returns (result: Result<seq<GroupRow>, Error>)
    ensures result.Failure? <==> AllRecords(payload) == []
    ensures result.Failure? ==> result.error == MissingColumns
    ensures result.Success? ==> result.value == GroupRows(DropIncomplete(AllRecords(payload)))
  {
    var allEvents := Flatten(payload);
    if allEvents == [] {
      return Failure(MissingColumns);
    }
    var df := DropIncomplete(allEvents);
    result := Success(GroupRows(df));
  }

  /**
   * The rows come in ascending (identity, email) order, no pair twice, and
   * there is a row for a pair exactly when some kept record has that identity
   * and that non-null email. Records with no email are in no row.
   */
  lemma GroupRowsKeys(recs: seq<Record>, hem: string, email: string)
    ensures var rows := GroupRows(recs);
      (forall i, j :: 0 <= i < j < |rows| ==>
        KeyLe(Key(rows[i].hem, rows[i].personalEmails), Key(rows[j].hem, rows[j].personalEmails)) &&
        (rows[i].hem != rows[j].hem || rows[i].personalEmails != rows[j].personalEmails)) &&
      ((exists i :: 0 <= i < |rows| && rows[i].hem == hem && rows[i].personalEmails == email) <==>
        HasGroup(recs, Key(hem, email)))
  {
    var rows := GroupRows(recs);
    var keys := GroupKeys(recs);
    forall i, j | 0 <= i < j < |rows|
      ensures KeyLe(Key(rows[i].hem, rows[i].personalEmails), Key(rows[j].hem, rows[j].personalEmails))
      ensures rows[i].hem != rows[j].hem || rows[i].personalEmails != rows[j].personalEmails
    {
      assert Key(rows[i].hem, rows[i].personalEmails) == keys[i];
      assert Key(rows[j].hem, rows[j].personalEmails) == keys[j];
      assert KeyLe(keys[i], keys[j]) && keys[i] != keys[j];
    }
    if HasGroup(recs, Key(hem, email)) {
      var i :| 0 <= i < |keys| && keys[i] == Key(hem, email);
      assert rows[i].hem == hem && rows[i].personalEmails == email;
    }
    if exists i :: 0 <= i < |rows| && rows[i].hem == hem && rows[i].personalEmails == email {
      var i :| 0 <= i < |rows| && rows[i].hem == hem && rows[i].personalEmails == email;
      assert keys[i] == Key(hem, email);
    }
  }

  /**
   * A row's label lists the group's event types in ascending order with
   * duplicates kept: the items are a permutation of the group's types, and
   * when no type holds `", "` splitting the label gives them back.
   */
  lemma GroupRowLabel(recs: seq<Record>, i: nat)
    requires forall j :: 0 <= j < |recs| ==> Keyed(recs[j])
    requires i < |GroupRows(recs)|
    ensures var row := GroupRows(recs)[i];
      var k := Key(row.hem, row.personalEmails);
      var items := SortedTypes(recs, k);
      row.eventsCollected == Join(items, ListSeparator) &&
      SortedBy(items, StrLe) &&
      multiset(items) == multiset(GroupTypes(recs, k)) &&
      ((forall t :: t in GroupTypes(recs, k) ==> !ContainsSeparator(t)) ==>
        SplitItems(row.eventsCollected) == items)
  {
    var row := GroupRows(recs)[i];
    var k := Key(row.hem, row.personalEmails);
    var items := SortedTypes(recs, k);
    assert k in GroupKeys(recs);
    GroupTypesNonEmpty(recs, k);
    if forall t :: t in GroupTypes(recs, k) ==> !ContainsSeparator(t) {
      forall j | 0 <= j < |items|
        ensures !ContainsSeparator(items[j])
      {
        assert items[j] in multiset(GroupTypes(recs, k));
      }
      SplitJoin(items);
    }
  }

  /** Among kept records, every group has at least one event type. */
  lemma {:induction false} GroupTypesNonEmpty(recs: seq<Record>, k: Key)
    requires forall j :: 0 <= j < |recs| ==> Keyed(recs[j])
    requires HasGroup(recs, k)
    ensures |GroupTypes(recs, k)| >= 1
  {
    var r := recs[|recs| - 1];
    if !InGroup(r, k) {
      var j :| 0 <= j < |recs| && InGroup(recs[j], k);
      assert recs[..|recs| - 1][j] == recs[j];
      GroupTypesNonEmpty(recs[..|recs| - 1], k);
    }
  }

  /**
   * A record with no email joins no group: adding it, or dropping it, leaves
   * the rows as they were.
   */
  lemma NoEmailIgnored(recs: seq<Record>, r: Record)
    requires r.personalEmails.None?
    ensures GroupRows(recs + [r]) == GroupRows(recs)
  {
    var more := recs + [r];
    assert more[..|recs|] == recs;
    assert forall k :: GroupTypes(more, k) == GroupTypes(recs, k);
    assert KeysIn(more) == KeysIn(recs);
  }

  /**
   * An event with a null identity or event type changes nothing: adding it to
   * a non-empty request leaves the rows as they were.
   */
  lemma UnkeyedEventIgnored(payload: seq<Batch>, e: RawEvent)
    requires !Keyed(ToRecord(e))
    ensures DropIncomplete(AllRecords(payload + [Batch(Some([e]))])) == DropIncomplete(AllRecords(payload))
    ensures GroupRows(DropIncomplete(AllRecords(payload + [Batch(Some([e]))]))) ==
      GroupRows(DropIncomplete(AllRecords(payload)))
  {
    var b := Batch(Some([e]));
    assert (payload + [b])[..|payload|] == payload;
    assert BatchRecords(BatchEvents(b)) == [ToRecord(e)];
    var recs := AllRecords(payload) + [ToRecord(e)];
    assert recs[..|recs| - 1] == AllRecords(payload);
  }
}
