/**
 The position-history store (history.go): per server, per player identity, per
 calendar day, the ordered list of sampled positions. One call of `Ingest`
 (logCoordinates) takes a polling cycle's player records, appends one sample per
 accepted record, prunes day buckets past the seven-day retention window,
 flushes the touched identities to the repository at most every five minutes
 and evicts the identities the cycle did not mention.

 The functions before the classes are the specification: `Appended` is the
 table after the append loop, `AfterIngest` the server's table after the whole
 call. The lemmas after them state what the source promises about those.
 */
module History {
  import opened Values
  import opened Calendar

  datatype Point = Point(x: int, y: int, z: int, t: int)

  /** A day key, "YYYY-MM-DD" as the local clock printed it. */
  type Day = string

  /** One identity's history: day key to the samples of that day, in append order. */
  type DayMap = map<Day, seq<Point>>

  /** One server's resident identities. */
  type ServerHistory = map<string, DayMap>

  /** What a history file holds: a decoded day map, or content that does not
      decode to one (bytes that are not JSON, JSON whose top-level value is
      null or not an object, or a file that exists but cannot be read). */
  datatype StoredFile = Snapshot(days: DayMap) | Corrupt

  type Files = map<string, StoredFile>

  const NanosPerSecond: int := 1_000_000_000

  /** 7 * 24 hours, as a Go duration in nanoseconds. */
  const RetentionNanos: int := 7 * 24 * 3600 * NanosPerSecond

  /** 5 minutes, as a Go duration in nanoseconds. */
  const FlushIntervalNanos: int := 5 * 60 * NanosPerSecond

  // ---------------------------------------------------------------------------
  // Reading one record

  /** Go's `math.Round`: to the nearest integer, halves away from zero. */
  function RoundHalfAwayFromZero(f: real): (n: int)
    ensures -0.5 <= n as real - f <= 0.5
    ensures n as real - f == 0.5 ==> f > 0.0
    ensures f - n as real == 0.5 ==> f < 0.0
  {
    if f >= 0.0 then (f + 0.5).Floor else -((-f + 0.5).Floor)
  }

  /** The coordinates (3.14, -2.6, 0.5) are stored as (3, -3, 1). */
  lemma RoundingExamples()
    ensures RoundHalfAwayFromZero(3.14) == 3
    ensures RoundHalfAwayFromZero(-2.6) == -3
    ensures RoundHalfAwayFromZero(0.5) == 1
  {
  }

  /** `strings.ReplaceAll(raw, ":", "_")`. */
  function Normalize(raw: string): (id: string)
    ensures |id| == |raw|
    ensures forall i :: 0 <= i < |raw| ==> id[i] == if raw[i] == ':' then '_' else raw[i]
  {
    if raw == [] then []
    else
      var c := raw[|raw| - 1];
      Normalize(raw[..|raw| - 1]) + [if c == ':' then '_' else c]
  }

  /** A normalised identity has no ':' and normalising it again changes nothing. */
  lemma NormalizeIsSafeAndIdempotent(raw: string)
    ensures ':' !in Normalize(raw)
    ensures Normalize(Normalize(raw)) == Normalize(raw)
  {
    var id := Normalize(raw);
    assert forall i :: 0 <= i < |id| ==> id[i] != ':';
  }

  /** The filter of the record loop: a JSON object whose "coords" is non-nil,
      whose "character" is not the boolean false, whose "invisible" is not the
      boolean true, whose "coords" is an object and whose "steamIdentifier" is
      non-nil. */
  predicate Accepted(record: Value)
  {
    && record.Obj?
    && !Lookup(record.fields, "coords").Null?
    && Lookup(record.fields, "character") != Bool(false)
    && Lookup(record.fields, "invisible") != Bool(true)
    && Lookup(record.fields, "coords").Obj?
    && !Lookup(record.fields, "steamIdentifier").Null?
  }

  /** The type assertions the source makes on an accepted record without
      checking them: x, y and z are float64 and the identity a string. Any
      other accepted record makes the source panic. */
  predicate WellTyped(record: Value)
  {
    Accepted(record) ==>
      var coords := record.fields["coords"].fields;
      && Lookup(coords, "x").Num?
      && Lookup(coords, "y").Num?
      && Lookup(coords, "z").Num?
      && record.fields["steamIdentifier"].Str?
  }

  predicate AllWellTyped(records: seq<Value>)
  {
    forall i :: 0 <= i < |records| ==> WellTyped(records[i])
  }

  /** An accepted record's contribution: its normalised identity and its sample. */
  datatype Entry = Entry(id: string, point: Point)

  function Extract(record: Value, unix: int): (e: Option<Entry>)
    requires WellTyped(record)
    ensures e.Some? <==> Accepted(record)
    ensures e.Some? ==> e.value.point.t == unix && ':' !in e.value.id
  {
    if Accepted(record) then
      var coords := record.fields["coords"].fields;
      NormalizeIsSafeAndIdempotent(record.fields["steamIdentifier"].s);
      Some(Entry(Normalize(record.fields["steamIdentifier"].s),
                 Point(RoundHalfAwayFromZero(coords["x"].f),
                       RoundHalfAwayFromZero(coords["y"].f),
                       RoundHalfAwayFromZero(coords["z"].f),
                       unix)))
    else None
  }

  /** A record whose "character" is the boolean false, or whose "invisible" is
      the boolean true, contributes nothing; each flag excludes the record for
      that one value only, so "character": true, "invisible": false, an absent
      flag or a non-boolean one excludes nothing. */
  lemma FlagsThatExclude(record: Value)
    requires record.Obj? && WellTyped(record)
    ensures Lookup(record.fields, "character") == Bool(false) ==> !Accepted(record)
    ensures Lookup(record.fields, "invisible") == Bool(true) ==> !Accepted(record)
    ensures Lookup(record.fields, "coords").Obj? && !Lookup(record.fields, "steamIdentifier").Null?
            && Lookup(record.fields, "invisible") != Bool(true)
            ==> (Accepted(record) <==> Lookup(record.fields, "character") != Bool(false))
    ensures Lookup(record.fields, "coords").Obj? && !Lookup(record.fields, "steamIdentifier").Null?
            && Lookup(record.fields, "character") != Bool(false)
            ==> (Accepted(record) <==> Lookup(record.fields, "invisible") != Bool(true))
  {
  }

  // ---------------------------------------------------------------------------
  // Repository (loadPlayer / storePlayer)

  /** loadPlayer as intended: the stored day map, or an empty one when there is
      no file or its content does not decode. */
  function LoadPlayer(files: Files, id: string): (days: DayMap)
    ensures id in files && files[id].Snapshot? ==> days == files[id].days
    ensures !(id in files && files[id].Snapshot?) ==> days == map[]
  {
    if id in files && files[id].Snapshot? then files[id].days else map[]
  }

  /** loadPlayer as written: when the file exists but does not decode, the
      result is Go's nil map (None here). */
  function LoadPlayerAsWritten(files: Files, id: string): (days: Option<DayMap>)
    ensures days.None? <==> id in files && files[id].Corrupt?
  {
    if id !in files then Some(map[])
    else match files[id]
      case Snapshot(d) => Some(d)
      case Corrupt => None
  }

  /** The samples of `day` in a day map; a missing bucket reads as empty. */
  function Bucket(days: DayMap, day: Day): seq<Point>
  {
    if day in days then days[day] else []
  }

  /** The day map with `points` appended to the bucket of `day` (creating it). */
  function AppendPoints(days: DayMap, day: Day, points: seq<Point>): (r: DayMap)
    ensures r.Keys == days.Keys + {day}
    ensures r[day] == Bucket(days, day) + points
    ensures forall d :: d in days && d != day ==> r[d] == days[d]
  {
    days[day := Bucket(days, day) + points]
  }

  /** Lines 73-78 as written, on what LoadPlayerAsWritten returned: writing a
      bucket into a nil map panics (None). */
  function AppendAsWritten(days: Option<DayMap>, day: Day, point: Point): (r: Option<DayMap>)
    ensures r.None? <==> days.None?
  {
    match days
    case None => None
    case Some(d) => Some(AppendPoints(d, day, [point]))
  }

  /** An identity whose history file exists but does not decode makes the first
      append of its first sample panic as written; with LoadPlayer it starts an
      empty history holding just that sample. */
  lemma CorruptFileFirstAppend(files: Files, id: string, day: Day, point: Point)
    requires id in files && files[id].Corrupt?
    ensures AppendAsWritten(LoadPlayerAsWritten(files, id), day, point).None?
    ensures AppendPoints(LoadPlayer(files, id), day, [point]) == map[day := [point]]
  {
    assert Bucket(map[], day) + [point] == [point];
  }

  // ---------------------------------------------------------------------------
  // Specification of one call

  /** The day map an identity's first sample of the cycle is appended to: the
      resident one, or else the loaded one. */
  function Base(m: ServerHistory, files: Files, id: string): DayMap
  {
    if id in m then m[id] else LoadPlayer(files, id)
  }

  /** One iteration of the record loop. */
  function Step(m: ServerHistory, files: Files, e: Option<Entry>, day: Day): (r: ServerHistory)
    ensures r.Keys == m.Keys + (if e.Some? then {e.value.id} else {})
  {
    match e
    case None => m
    case Some(Entry(id, point)) => m[id := AppendPoints(Base(m, files, id), day, [point])]
  }

  /** The identities accepted in `records`. */
  function Touched(records: seq<Value>, unix: int): (ids: set<string>)
    requires AllWellTyped(records)
    ensures forall id :: id in ids ==> ':' !in id
  {
    if records == [] then {}
    else
      var init := records[..|records| - 1];
      var e := Extract(records[|records| - 1], unix);
      Touched(init, unix) + (if e.Some? then {e.value.id} else {})
  }

  /** The samples `records` contribute to identity `id`, in record order. */
  function IdPoints(records: seq<Value>, id: string, unix: int): (points: seq<Point>)
    requires AllWellTyped(records)
    ensures |points| <= |records|
    ensures forall k :: 0 <= k < |points| ==> points[k].t == unix
  {
    if records == [] then []
    else
      var init := records[..|records| - 1];
      var e := Extract(records[|records| - 1], unix);
      IdPoints(init, id, unix) + (if e.Some? && e.value.id == id then [e.value.point] else [])
  }

  /** The server's table after the record loop over `records`. */
  function Appended(m0: ServerHistory, files: Files, records: seq<Value>, day: Day, unix: int): (m: ServerHistory)
    requires AllWellTyped(records)
    ensures m.Keys == m0.Keys + Touched(records, unix)
  {
    if records == [] then m0
    else
      var init := records[..|records| - 1];
      Step(Appended(m0, files, init, day, unix), files, Extract(records[|records| - 1], unix), day)
  }

  /** A bucket key is expired when more than 7 * 24 hours separate `now` from
      its parsed start (Go's `now.Sub(d) > 7*24*time.Hour`; the saturation of
      `Sub` at the int64 bounds never changes the outcome of that comparison). */
  predicate Expired(day: Day, now: int)
  {
    now - DayStartUnix(day) * NanosPerSecond > RetentionNanos
  }

  /** The day map without its expired buckets; the rest is kept as it is. */
  function Pruned(days: DayMap, now: int): (r: DayMap)
    ensures forall d :: d in r <==> d in days && !Expired(d, now)
    ensures forall d :: d in r ==> r[d] == days[d]
  {
    map d | d in days && !Expired(d, now) :: days[d]
  }

  /** The server's table after one call: the touched identities only, each with
      its appended history, pruned. */
  function AfterIngest(m0: ServerHistory, files: Files, records: seq<Value>, day: Day, unix: int, now: int): ServerHistory
    requires AllWellTyped(records)
  {
    var a := Appended(m0, files, records, day, unix);
    map id | id in Touched(records, unix) :: Pruned(a[id], now)
  }

  /** Whether the flush gate is open: more than five minutes since the last save. */
  predicate FlushDue(lastSave: int, now: int)
  {
    now - lastSave > FlushIntervalNanos
  }

  // ---------------------------------------------------------------------------
  // Properties of the specification

  /** An identity is touched exactly when the cycle gives it at least one
      sample, and every sample of the cycle carries the cycle's timestamp. */
  lemma {:induction false} TouchedIffSampled(records: seq<Value>, id: string, unix: int)
    requires AllWellTyped(records)
    ensures id in Touched(records, unix) <==> IdPoints(records, id, unix) != []
    ensures forall k :: 0 <= k < |IdPoints(records, id, unix)| ==> IdPoints(records, id, unix)[k].t == unix
  {
    if records != [] {
      TouchedIffSampled(records[..|records| - 1], id, unix);
    }
  }

  /** One more record adds its own samples, at most one, after those of the
      records before it. */
  lemma IdPointsSnoc(init: seq<Value>, x: Value, id: string, unix: int)
    requires AllWellTyped(init) && WellTyped(x)
    ensures AllWellTyped(init + [x]) && AllWellTyped([x])
    ensures IdPoints(init + [x], id, unix) == IdPoints(init, id, unix) + IdPoints([x], id, unix)
    ensures |IdPoints([x], id, unix)| <= 1
  {
    assert (init + [x])[..|init|] == init;
    assert [x][..0] == [];
  }

  /** The samples of a concatenation of record lists are those of the first list
      followed by those of the second: input order is kept. */
  lemma {:induction false} IdPointsConcat(r1: seq<Value>, r2: seq<Value>, id: string, unix: int)
    requires AllWellTyped(r1) && AllWellTyped(r2)
    ensures AllWellTyped(r1 + r2)
    ensures IdPoints(r1 + r2, id, unix) == IdPoints(r1, id, unix) + IdPoints(r2, id, unix)
    decreases |r2|
  {
    if r2 == [] {
      assert r1 + r2 == r1;
    } else {
      var init2, x := r2[..|r2| - 1], r2[|r2| - 1];
      assert r2 == init2 + [x];
      assert r1 + r2 == (r1 + init2) + [x];
      IdPointsConcat(r1, init2, id, unix);
      IdPointsSnoc(r1 + init2, x, id, unix);
      IdPointsSnoc(init2, x, id, unix);
    }
  }

  /** One more record adds its own identity, if any, to those touched before. */
  lemma TouchedSnoc(init: seq<Value>, x: Value, unix: int)
    requires AllWellTyped(init) && WellTyped(x)
    ensures AllWellTyped(init + [x]) && AllWellTyped([x])
    ensures Touched(init + [x], unix) == Touched(init, unix) + Touched([x], unix)
  {
    assert (init + [x])[..|init|] == init;
    assert [x][..0] == [];
  }

  /** The identities touched by a concatenation of record lists are those
      touched by either list. */
  lemma {:induction false} TouchedConcat(r1: seq<Value>, r2: seq<Value>, unix: int)
    requires AllWellTyped(r1) && AllWellTyped(r2)
    ensures AllWellTyped(r1 + r2)
    ensures Touched(r1 + r2, unix) == Touched(r1, unix) + Touched(r2, unix)
    decreases |r2|
  {
    if r2 == [] {
      assert r1 + r2 == r1;
    } else {
      var init2, x := r2[..|r2| - 1], r2[|r2| - 1];
      assert r2 == init2 + [x];
      assert r1 + r2 == (r1 + init2) + [x];
      TouchedConcat(r1, init2, unix);
      TouchedSnoc(r1 + init2, x, unix);
      TouchedSnoc(init2, x, unix);
    }
  }

  /** Appending to the same bucket twice is appending the concatenation once. */
  lemma AppendPointsTwice(days: DayMap, day: Day, p1: seq<Point>, p2: seq<Point>)
    ensures AppendPoints(AppendPoints(days, day, p1), day, p2) == AppendPoints(days, day, p1 + p2)
  {
    assert Bucket(days, day) + p1 + p2 == Bucket(days, day) + (p1 + p2);
  }

  /** The append loop, identity by identity: a touched identity's history is its
      resident (else loaded) day map with the cycle's samples appended, in
      order, to today's bucket; every other resident identity is unchanged. */
  lemma {:induction false} AppendedContents(m0: ServerHistory, files: Files, records: seq<Value>,
                                            day: Day, unix: int, id: string)
    requires AllWellTyped(records)
    ensures id in Touched(records, unix) ==>
              Appended(m0, files, records, day, unix)[id]
                == AppendPoints(Base(m0, files, id), day, IdPoints(records, id, unix))
    ensures id !in Touched(records, unix) && id in m0 ==>
              Appended(m0, files, records, day, unix)[id] == m0[id]
  {
    if records != [] {
      var init := records[..|records| - 1];
      AppendedContents(m0, files, init, day, unix, id);
      TouchedIffSampled(init, id, unix);
      var e := Extract(records[|records| - 1], unix);
      if e.Some? && e.value.id == id {
        SampledByLast(m0, files, records, day, unix, id);
      } else {
        NotSampledByLast(m0, files, records, day, unix, id);
      }
    }
  }

  /** The induction step of `AppendedContents` when the last record samples `id`. */
  lemma SampledByLast(m0: ServerHistory, files: Files, records: seq<Value>, day: Day, unix: int, id: string)
    requires AllWellTyped(records) && records != []
    requires var e := Extract(records[|records| - 1], unix); e.Some? && e.value.id == id
    requires var init := records[..|records| - 1];
             && (id in Touched(init, unix) <==> IdPoints(init, id, unix) != [])
             && (id in Touched(init, unix) ==>
                   Appended(m0, files, init, day, unix)[id]
                     == AppendPoints(Base(m0, files, id), day, IdPoints(init, id, unix)))
             && (id !in Touched(init, unix) && id in m0 ==>
                   Appended(m0, files, init, day, unix)[id] == m0[id])
    ensures id in Touched(records, unix)
    ensures Appended(m0, files, records, day, unix)[id]
              == AppendPoints(Base(m0, files, id), day, IdPoints(records, id, unix))
  {
    var init := records[..|records| - 1];
    var pt := Extract(records[|records| - 1], unix).value.point;
    var before := Appended(m0, files, init, day, unix);
    var b0 := Base(m0, files, id);
    var p0 := IdPoints(init, id, unix);
    var after := Appended(m0, files, records, day, unix);
    assert after[id] == AppendPoints(Base(before, files, id), day, [pt]);
    assert IdPoints(records, id, unix) == p0 + [pt];
    if id in Touched(init, unix) {
      assert Base(before, files, id) == AppendPoints(b0, day, p0);
      AppendPointsTwice(b0, day, p0, [pt]);
    } else {
      assert Base(before, files, id) == b0;
      assert p0 + [pt] == [pt];
    }
  }

  /** The induction step of `AppendedContents` when the last record does not
      sample `id`. */
  lemma NotSampledByLast(m0: ServerHistory, files: Files, records: seq<Value>, day: Day, unix: int, id: string)
    requires AllWellTyped(records) && records != []
    requires var e := Extract(records[|records| - 1], unix); !(e.Some? && e.value.id == id)
    requires var init := records[..|records| - 1];
             && (id in Touched(init, unix) ==>
                   Appended(m0, files, init, day, unix)[id]
                     == AppendPoints(Base(m0, files, id), day, IdPoints(init, id, unix)))
             && (id !in Touched(init, unix) && id in m0 ==>
                   Appended(m0, files, init, day, unix)[id] == m0[id])
    ensures id in Touched(records, unix) ==>
              Appended(m0, files, records, day, unix)[id]
                == AppendPoints(Base(m0, files, id), day, IdPoints(records, id, unix))
    ensures id !in Touched(records, unix) && id in m0 ==>
              Appended(m0, files, records, day, unix)[id] == m0[id]
  {
    var init := records[..|records| - 1];
    var before := Appended(m0, files, init, day, unix);
    assert IdPoints(records, id, unix) == IdPoints(init, id, unix);
    assert id in Touched(records, unix) <==> id in Touched(init, unix);
    assert id in before ==> Appended(m0, files, records, day, unix)[id] == before[id];
  }

  /** After the call exactly the touched identities are resident; each one's
      history is its resident (else loaded) day map with the cycle's samples
      appended to today's bucket, minus the expired buckets. */
  lemma AfterIngestContents(m0: ServerHistory, files: Files, records: seq<Value>,
                            day: Day, unix: int, now: int, id: string)
    requires AllWellTyped(records)
    ensures AfterIngest(m0, files, records, day, unix, now).Keys == Touched(records, unix)
    ensures id in Touched(records, unix) ==>
              AfterIngest(m0, files, records, day, unix, now)[id]
                == Pruned(AppendPoints(Base(m0, files, id), day, IdPoints(records, id, unix)), now)
  {
    AppendedContents(m0, files, records, day, unix, id);
  }

  /** Retention: no resident identity keeps an expired bucket after the call,
      and every bucket that is not expired is kept, with earlier samples first
      and the cycle's samples after them. */
  lemma RetentionAfterIngest(m0: ServerHistory, files: Files, records: seq<Value>,
                             day: Day, unix: int, now: int, id: string, d: Day)
    requires AllWellTyped(records)
    requires id in Touched(records, unix)
    ensures var h := AfterIngest(m0, files, records, day, unix, now)[id];
            && (d in h <==> (d in Base(m0, files, id) || d == day) && !Expired(d, now))
            && (d in h && d != day ==> h[d] == Base(m0, files, id)[d])
            && (d in h && d == day ==> h[d] == Bucket(Base(m0, files, id), day) + IdPoints(records, id, unix))
  {
    AfterIngestContents(m0, files, records, day, unix, now, id);
  }

  /** Dropping a rejected record between `r0` and `r2` changes neither the
      touched identities nor any identity's samples. */
  lemma DropRejected(r0: seq<Value>, x: Value, r2: seq<Value>, unix: int, id: string)
    requires AllWellTyped(r0) && WellTyped(x) && AllWellTyped(r2) && !Accepted(x)
    ensures AllWellTyped(r0 + r2) && AllWellTyped(r0 + [x] + r2)
    ensures Touched(r0 + r2, unix) == Touched(r0 + [x] + r2, unix)
    ensures IdPoints(r0 + r2, id, unix) == IdPoints(r0 + [x] + r2, id, unix)
  {
    RejectedAddsNothing(r0, x, unix, id);
    TouchedConcat(r0, r2, unix);
    TouchedConcat(r0 + [x], r2, unix);
    IdPointsConcat(r0, r2, id, unix);
    IdPointsConcat(r0 + [x], r2, id, unix);
  }

  lemma RejectedAddsNothing(r0: seq<Value>, x: Value, unix: int, id: string)
    requires AllWellTyped(r0) && WellTyped(x) && !Accepted(x)
    ensures AllWellTyped(r0 + [x])
    ensures Touched(r0 + [x], unix) == Touched(r0, unix)
    ensures IdPoints(r0 + [x], id, unix) == IdPoints(r0, id, unix)
  {
    assert (r0 + [x])[..|r0|] == r0;
  }

  /** A record the filter rejects (for one, "character": false or
      "invisible": true) can be dropped from the cycle without changing the
      outcome. */
  lemma RejectedRecordIsInert(m0: ServerHistory, files: Files, records: seq<Value>,
                              i: int, day: Day, unix: int, now: int)
    requires AllWellTyped(records) && 0 <= i < |records| && !Accepted(records[i])
    ensures AllWellTyped(records[..i] + records[i + 1..])
    ensures AfterIngest(m0, files, records[..i] + records[i + 1..], day, unix, now)
            == AfterIngest(m0, files, records, day, unix, now)
  {
    var r0, x, r2 := records[..i], records[i], records[i + 1..];
    assert records == r0 + [x] + r2;
    var rest := r0 + r2;
    DropRejected(r0, x, r2, unix, "");
    var after := AfterIngest(m0, files, rest, day, unix, now);
    var expected := AfterIngest(m0, files, records, day, unix, now);
    forall id | id in Touched(records, unix)
      ensures after[id] == expected[id]
    {
      DropRejected(r0, x, r2, unix, id);
      AfterIngestContents(m0, files, rest, day, unix, now, id);
      AfterIngestContents(m0, files, records, day, unix, now, id);
    }
    AfterIngestContents(m0, files, rest, day, unix, now, "");
    AfterIngestContents(m0, files, records, day, unix, now, "");
  }

  /** A bucket exactly 7 * 24 hours old is kept (the comparison is strict); one
      nanosecond later it is pruned. A key that does not parse counts from Go's
      zero time, so any clock reading after 0001-01-08 prunes it. */
  lemma RetentionBoundary(day: Day, now: int)
    ensures !Expired(day, DayStartUnix(day) * NanosPerSecond + RetentionNanos)
    ensures Expired(day, DayStartUnix(day) * NanosPerSecond + RetentionNanos + 1)
    ensures ParseDay(day).None? && now > ZeroTimeUnix * NanosPerSecond + RetentionNanos ==> Expired(day, now)
  {
  }

  /** An identity that is not resident but has a history file: its first cycle,
      on a day the file has no bucket for, keeps every stored bucket as it was
      and adds a bucket holding just the cycle's samples (before pruning). */
  lemma LoadedHistoryIsExtended(files: Files, m0: ServerHistory, records: seq<Value>,
                                day: Day, unix: int, id: string)
    requires AllWellTyped(records)
    requires id !in m0 && id in files && files[id].Snapshot? && day !in files[id].days
    requires id in Touched(records, unix)
    ensures var h := Appended(m0, files, records, day, unix)[id];
            var stored := files[id].days;
            && h.Keys == stored.Keys + {day}
            && (forall k :: k in stored ==> h[k] == stored[k])
            && h[day] == IdPoints(records, id, unix)
  {
    AppendedContents(m0, files, records, day, unix, id);
    AppendToNewDay(files[id].days, day, IdPoints(records, id, unix));
  }

  /** Appending to a day the map has no bucket for keeps every other bucket and
      makes a bucket of just the appended points. */
  lemma AppendToNewDay(days: DayMap, day: Day, points: seq<Point>)
    requires day !in days
    ensures var h := AppendPoints(days, day, points);
            && h.Keys == days.Keys + {day}
            && (forall k :: k in days ==> h[k] == days[k])
            && h[day] == points
  {
    assert Bucket(days, day) + points == points;
  }

  /** Two cycles less than five minutes apart open the flush gate at most once. */
  lemma AtMostOneFlushPerInterval(lastSave: int, now1: int, now2: int)
    requires now1 <= now2 <= now1 + FlushIntervalNanos
    ensures !(FlushDue(lastSave, now1) && FlushDue(if FlushDue(lastSave, now1) then now1 else lastSave, now2))
  {
  }

  // ---------------------------------------------------------------------------
  // The store

  /** The history directory: one file per normalised identity, shared by all
      servers. `saves` counts the files written. */
  class Repository {
    var files: Files
    ghost var saves: nat

    constructor (files: Files)
      ensures this.files == files && saves == 0
    {
      this.files := files;
      saves := 0;
    }

    /** storePlayer: the identity's file now holds `days`. */
    method Save(id: string, days: DayMap)
      modifies this
      ensures files == old(files)[id := Snapshot(days)]
      ensures saves == old(saves) + 1
    {
      files := files[id := Snapshot(days)];
      saves := saves + 1;
    }
  }

  /** What the sweep makes of the identities `ids` of a table. */
  function PrunedAll(table: ServerHistory, ids: set<string>, now: int): (r: ServerHistory)
    ensures r.Keys == ids * table.Keys
  {
    map id | id in ids && id in table :: Pruned(table[id], now)
  }

  /** Midway through the sweep: the identities of `done` hold their `target`
      value, the rest of `table` is as it was. */
  ghost predicate SweptSoFar(table: ServerHistory, target: ServerHistory, done: set<string>, current: ServerHistory)
  {
    && current.Keys == table.Keys
    && (forall id :: id in table && id !in done ==> current[id] == table[id])
    && (forall id :: id in done ==> id in target && id in current && current[id] == target[id])
  }

  lemma SweptStep(table: ServerHistory, target: ServerHistory, done: set<string>, current: ServerHistory, id: string)
    requires SweptSoFar(table, target, done, current) && id in table && id in target && id !in done
    ensures SweptSoFar(table, target, done + {id}, current[id := target[id]])
  {
  }

  /** The repository after saving, for each identity of `ids` that `table`
      holds, its day map as `table` has it. */
  function SavedAll(files: Files, table: ServerHistory, ids: set<string>): (r: Files)
    ensures r.Keys == files.Keys + (ids * table.Keys)
    ensures forall id :: id in ids && id in table ==> r[id] == Snapshot(table[id])
    ensures forall id :: id in files && !(id in ids && id in table) ==> r[id] == files[id]
  {
    files + (map id | id in ids && id in table :: Snapshot(table[id]))
  }

  /** Saving one more identity adds its file to those saved before. */
  lemma SavedStep(files: Files, table: ServerHistory, done: set<string>, id: string)
    requires id in table
    ensures SavedAll(files, table, done)[id := Snapshot(table[id])] == SavedAll(files, table, done + {id})
  {
  }

  /** The sweep followed by the eviction: once every touched identity holds its
      pruned history and the untouched ones are dropped, the table is
      `AfterIngest`, and what the sweep saved is what stays in memory. */
  lemma SweepThenEvict(m0: ServerHistory, files: Files, records: seq<Value>, day: Day,
                       unix: int, now: int, swept: ServerHistory)
    requires AllWellTyped(records)
    requires var a := Appended(m0, files, records, day, unix);
             SweptSoFar(a, PrunedAll(a, Touched(records, unix), now), Touched(records, unix), swept)
    ensures var touched := Touched(records, unix);
            var kept := map id | id in swept && id in touched :: swept[id];
            && kept == AfterIngest(m0, files, records, day, unix, now)
            && PrunedAll(Appended(m0, files, records, day, unix), touched, now) == kept
  {
    var a := Appended(m0, files, records, day, unix);
    var touched := Touched(records, unix);
    KeptIsTarget(a, touched, now, swept);
    assert AfterIngest(m0, files, records, day, unix, now) == PrunedAll(a, touched, now);
  }

  /** Keeping only the swept identities leaves exactly their pruned histories. */
  lemma KeptIsTarget(table: ServerHistory, ids: set<string>, now: int, swept: ServerHistory)
    requires ids <= table.Keys && SweptSoFar(table, PrunedAll(table, ids, now), ids, swept)
    ensures (map id | id in swept && id in ids :: swept[id]) == PrunedAll(table, ids, now)
  {
  }

  /** The sweep of one identity midway: the buckets of `keys` are still to be
      examined, every other expired bucket is gone. */
  function PrunedExcept(days: DayMap, keys: set<Day>, now: int): DayMap
  {
    map d | d in days && (d in keys || !Expired(d, now)) :: days[d]
  }

  lemma PrunedExceptStep(days: DayMap, keys: set<Day>, d: Day, now: int)
    requires d in keys && keys <= days.Keys
    ensures Expired(d, now) ==> PrunedExcept(days, keys, now) - {d} == PrunedExcept(days, keys - {d}, now)
    ensures !Expired(d, now) ==> PrunedExcept(days, keys, now) == PrunedExcept(days, keys - {d}, now)
    ensures PrunedExcept(days, {}, now) == Pruned(days, now)
  {
  }

  lemma PrunedExceptAll(days: DayMap, now: int)
    ensures PrunedExcept(days, days.Keys, now) == days
  {
  }

  /** The eviction midway: the identities of `resident` are still to be
      examined, every other identity outside `ids` is gone. */
  function KeptExcept(table: ServerHistory, resident: set<string>, ids: set<string>): ServerHistory
  {
    map id | id in table && (id in resident || id in ids) :: table[id]
  }

  lemma KeptExceptStep(table: ServerHistory, resident: set<string>, ids: set<string>, id: string)
    requires id in resident && resident <= table.Keys
    ensures id !in ids ==> KeptExcept(table, resident, ids) - {id} == KeptExcept(table, resident - {id}, ids)
    ensures id in ids ==> KeptExcept(table, resident, ids) == KeptExcept(table, resident - {id}, ids)
  {
  }

  lemma KeptExceptAll(table: ServerHistory, ids: set<string>)
    ensures KeptExcept(table, table.Keys, ids) == table
    ensures KeptExcept(table, {}, ids) == map id | id in table && id in ids :: table[id]
  {
  }

  /** Writing back the value a key already holds changes nothing. */
  lemma UpdateSame<K, V>(m: map<K, V>, k: K)
    requires k in m
    ensures m[k := m[k]] == m
  {
  }

  /** A second write to the same key hides the first. */
  lemma UpdateTwice<K, V>(m: map<K, V>, k: K, a: V, b: V)
    ensures m[k := a][k := b] == m[k := b]
  {
  }

  class HistoryStore {
    /** server -> identity -> day -> samples */
    var history: map<string, ServerHistory>
    /** The instant of the last flush, in nanoseconds since the epoch. */
    var lastSave: int
    const repo: Repository

    /** A fresh store: no history, and the last flush at the epoch, so the first
        eligible cycle flushes. */
    constructor (repo: Repository)
      ensures history == map[] && lastSave == 0 && this.repo == repo
    {
      history := map[];
      lastSave := 0;
      this.repo := repo;
    }

    /** The server's table, empty when the server has not been seen. */
    function ServerTable(server: string): ServerHistory
      reads this
    {
      if server in history then history[server] else map[]
    }

    /** logCoordinates. `unix` (seconds), `day` and `now` (nanoseconds) are the
        three clock readings the source takes, in that order. */
    method Ingest(players: seq<Value>, server: string, unix: int, day: Day, now: int)
      requires AllWellTyped(players)
      modifies this, repo
      ensures server in history
      ensures history == old(history)[server := AfterIngest(old(ServerTable(server)), old(repo.files),
                                                            players, day, unix, now)]
      ensures lastSave == if FlushDue(old(lastSave), now) then now else old(lastSave)
      ensures repo.files == if FlushDue(old(lastSave), now)
                            then SavedAll(old(repo.files), history[server], Touched(players, unix))
                            else old(repo.files)
      ensures repo.saves == old(repo.saves) + (if FlushDue(old(lastSave), now) then |Touched(players, unix)| else 0)
    {
      if server !in history {
        history := history[server := map[]];
      }
      ghost var m0 := history[server];
      ghost var result := AfterIngest(m0, repo.files, players, day, unix, now);
      assert m0 == old(ServerTable(server)) && repo.files == old(repo.files);
      assert result == AfterIngest(old(ServerTable(server)), old(repo.files), players, day, unix, now);
      assert history == old(history)[server := m0];
      var identifiers := AppendRecords(players, server, unix, day);
      ghost var appended := history[server];
      UpdateTwice(old(history), server, m0, appended);
      assert history == old(history)[server := appended];
      SweepTouched(server, identifiers, now);
      ghost var swept := history[server];
      UpdateTwice(old(history), server, appended, swept);
      assert history == old(history)[server := swept];
      SweepThenEvict(m0, old(repo.files), players, day, unix, now, swept);
      assert PrunedAll(appended, identifiers, now) == result;
      if now - lastSave > FlushIntervalNanos {
        lastSave := now;
      }
      ghost var beforeEviction := history;
      EvictUntouched(server, identifiers);
      assert history[server] == result;
      assert history == beforeEviction[server := result];
      UpdateTwice(old(history), server, swept, result);
    }

    /** Two polling cycles less than five minutes apart: between them they
        save the touched identities of at most one of the two cycles. */
    method TwoCycles(first: seq<Value>, second: seq<Value>, server: string,
                     unix1: int, day1: Day, now1: int, unix2: int, day2: Day, now2: int)
      requires AllWellTyped(first) && AllWellTyped(second)
      requires now1 <= now2 <= now1 + FlushIntervalNanos
      modifies this, repo
      ensures || repo.saves == old(repo.saves)
              || repo.saves == old(repo.saves) + |Touched(first, unix1)|
              || repo.saves == old(repo.saves) + |Touched(second, unix2)|
    {
      AtMostOneFlushPerInterval(lastSave, now1, now2);
      Ingest(first, server, unix1, day1, now1);
      Ingest(second, server, unix2, day2, now2);
    }

    /** The record loop (lines 41-85): filter, normalise, load on first sight,
        append; returns the set of identities it touched. */
    method AppendRecords(players: seq<Value>, server: string, unix: int, day: Day)
      returns (identifiers: set<string>)
      requires AllWellTyped(players) && server in history
      modifies this
      ensures identifiers == Touched(players, unix)
      ensures history == old(history)[server := Appended(old(history[server]), repo.files, players, day, unix)]
      ensures lastSave == old(lastSave)
    {
      ghost var m0, files0 := history[server], repo.files;
      identifiers := {};
      for i := 0 to |players|
        invariant history == old(history)[server := Appended(m0, files0, players[..i], day, unix)]
        invariant identifiers == Touched(players[..i], unix)
        invariant lastSave == old(lastSave)
      {
        assert players[..i + 1][..i] == players[..i];
        var p := players[i];
        ghost var before := history[server];
        assert Appended(m0, files0, players[..i + 1], day, unix) == Step(before, files0, Extract(p, unix), day);
        if p.Obj? && !Lookup(p.fields, "coords").Null? {
          var character := Lookup(p.fields, "character");
          if character.Bool? && !character.b {
            continue;
          }
          var invisible := Lookup(p.fields, "invisible");
          if invisible.Bool? && invisible.b {
            continue;
          }
          var raw := Lookup(p.fields, "coords");
          if raw.Obj? && !Lookup(p.fields, "steamIdentifier").Null? {
            var coords := Point(RoundHalfAwayFromZero(raw.fields["x"].f),
                                RoundHalfAwayFromZero(raw.fields["y"].f),
                                RoundHalfAwayFromZero(raw.fields["z"].f),
                                unix);
            var identifier := Normalize(p.fields["steamIdentifier"].s);
            assert Extract(p, unix) == Some(Entry(identifier, coords));
            AppendSample(server, identifier, coords, day);
            UpdateTwice(old(history), server, before, history[server]);
            identifiers := identifiers + {identifier};
          }
        }
      }
      assert players[..|players|] == players;
    }

    /** Lines 67-80: load the identity's history unless it is resident, then
        append the sample to the bucket of `day`, creating the bucket first. */
    method AppendSample(server: string, identifier: string, coords: Point, day: Day)
      requires server in history
      modifies this
      ensures history == old(history)[server := Step(old(history[server]), repo.files, Some(Entry(identifier, coords)), day)]
      ensures lastSave == old(lastSave)
    {
      if identifier !in history[server] {
        history := history[server := history[server][identifier := LoadPlayer(repo.files, identifier)]];
      }
      var days := history[server][identifier];
      ghost var base := days;
      assert base == Base(old(history[server]), repo.files, identifier);
      if day !in days {
        days := days[day := []];
      }
      assert days[day := days[day] + [coords]] == AppendPoints(base, day, [coords]);
      history := history[server := history[server][identifier := days[day := days[day] + [coords]]]];
      assert history[server] == old(history[server])[identifier := AppendPoints(base, day, [coords])];
    }

    /** The sweep (lines 87-107): each touched identity loses its expired
        buckets and, when the flush gate is open, is saved as it now stands. */
    method SweepTouched(server: string, identifiers: set<string>, now: int)
      requires server in history && identifiers <= history[server].Keys
      modifies this, repo
      ensures server in history && history == old(history)[server := history[server]]
      ensures SweptSoFar(old(history[server]), PrunedAll(old(history[server]), identifiers, now), identifiers, history[server])
      ensures lastSave == old(lastSave)
      ensures repo.files == if FlushDue(lastSave, now)
                            then SavedAll(old(repo.files), PrunedAll(old(history[server]), identifiers, now), identifiers)
                            else old(repo.files)
      ensures repo.saves == old(repo.saves) + (if FlushDue(lastSave, now) then |identifiers| else 0)
    {
      ghost var table := history[server];
      ghost var target := PrunedAll(table, identifiers, now);
      ghost var done: set<string> := {};
      var todo := identifiers;
      while todo != {}
        invariant todo <= identifiers && done == identifiers - todo
        invariant server in history && history == old(history)[server := history[server]]
        invariant SweptSoFar(table, target, done, history[server])
        invariant lastSave == old(lastSave)
        invariant repo.files == if FlushDue(lastSave, now) then SavedAll(old(repo.files), target, done) else old(repo.files)
        invariant repo.saves == old(repo.saves) + (if FlushDue(lastSave, now) then |done| else 0)
        decreases todo
      {
        var identifier :| identifier in todo;
        SweepNext(server, identifier, now, old(history), table, target, done, old(repo.files), old(repo.saves));
        todo := todo - {identifier};
        done := done + {identifier};
      }
      assert done == identifiers;
    }

    /** One step of the sweep loop: `identifier` joins the identities `done`
        that hold their pruned history and, when the gate is open, are saved. */
    method SweepNext(server: string, identifier: string, now: int, ghost h0: map<string, ServerHistory>,
                     ghost table: ServerHistory, ghost target: ServerHistory, ghost done: set<string>,
                     ghost files0: Files, ghost saves0: int)
      requires server in history && history == h0[server := history[server]]
      requires SweptSoFar(table, target, done, history[server])
      requires identifier in table && identifier !in done
      requires identifier in target && target[identifier] == Pruned(table[identifier], now)
      requires repo.files == if FlushDue(lastSave, now) then SavedAll(files0, target, done) else files0
      requires repo.saves == saves0 + (if FlushDue(lastSave, now) then |done| else 0)
      modifies this, repo
      ensures server in history && history == h0[server := history[server]]
      ensures SweptSoFar(table, target, done + {identifier}, history[server])
      ensures lastSave == old(lastSave)
      ensures repo.files == if FlushDue(lastSave, now) then SavedAll(files0, target, done + {identifier}) else files0
      ensures repo.saves == saves0 + (if FlushDue(lastSave, now) then |done + {identifier}| else 0)
    {
      ghost var current := history[server];
      SweptStep(table, target, done, current, identifier);
      var days := SweepIdentity(server, identifier, now);
      UpdateTwice(h0, server, current, current[identifier := days]);
      SavedStep(files0, target, done, identifier);
    }

    /** One identity of the sweep (lines 89-106): prune its expired buckets,
        then save it if the flush gate is open. */
    method SweepIdentity(server: string, identifier: string, now: int) returns (days: DayMap)
      requires server in history && identifier in history[server]
      modifies this, repo
      ensures days == Pruned(old(history[server][identifier]), now)
      ensures history == old(history)[server := old(history[server])[identifier := days]]
      ensures lastSave == old(lastSave)
      ensures FlushDue(lastSave, now) ==>
                repo.files == old(repo.files)[identifier := Snapshot(days)] && repo.saves == old(repo.saves) + 1
      ensures !FlushDue(lastSave, now) ==> repo.files == old(repo.files) && repo.saves == old(repo.saves)
    {
      days := PruneIdentity(server, identifier, now);
      if now - lastSave > FlushIntervalNanos {
        repo.Save(identifier, days);
      }
    }

    /** The inner loop of the sweep (lines 90-102): deletes every expired bucket
        of one identity and returns its remaining day map. */
    method PruneIdentity(server: string, identifier: string, now: int) returns (days: DayMap)
      requires server in history && identifier in history[server]
      modifies this
      ensures days == Pruned(old(history[server][identifier]), now)
      ensures history == old(history)[server := old(history[server])[identifier := days]]
      ensures lastSave == old(lastSave)
    {
      ghost var table := history[server];
      days := history[server][identifier];
      ghost var whole := days;
      var keys := days.Keys;
      PrunedExceptAll(whole, now);
      UpdateSame(table, identifier);
      UpdateSame(old(history), server);
      while keys != {}
        invariant keys <= whole.Keys
        invariant days == PrunedExcept(whole, keys, now)
        invariant history == old(history)[server := table[identifier := days]]
        invariant lastSave == old(lastSave)
        decreases keys
      {
        var d :| d in keys;
        PrunedExceptStep(whole, keys, d, now);
        if Expired(d, now) {
          ghost var before := days;
          history := history[server := history[server][identifier := history[server][identifier] - {d}]];
          days := days - {d};
          UpdateTwice(table, identifier, before, days);
          UpdateTwice(old(history), server, table[identifier := before], table[identifier := days]);
        }
        keys := keys - {d};
      }
      assert days == Pruned(whole, now);
    }

    /** Cleanup (lines 113-120): every identity of the server that the cycle did
        not touch leaves memory. */
    method EvictUntouched(server: string, identifiers: set<string>)
      requires server in history
      modifies this
      ensures history == old(history)[server := map id | id in old(history[server]) && id in identifiers ::
                                                 old(history[server][id])]
      ensures lastSave == old(lastSave)
    {
      ghost var table := history[server];
      var resident := history[server].Keys;
      KeptExceptAll(table, identifiers);
      UpdateSame(old(history), server);
      while resident != {}
        invariant resident <= table.Keys
        invariant history == old(history)[server := KeptExcept(table, resident, identifiers)]
        invariant lastSave == old(lastSave)
        decreases resident
      {
        var identifier :| identifier in resident;
        KeptExceptStep(table, resident, identifiers, identifier);
        ghost var before := history[server];
        if identifier !in identifiers {
          history := history[server := history[server] - {identifier}];
          UpdateTwice(old(history), server, before, history[server]);
        }
        resident := resident - {identifier};
      }
    }
  }
}
