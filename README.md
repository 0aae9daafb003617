# Position history and compact records of the admin-panel socket server

This project models two parts of the socket server behind the admin panel.

The first is the position-history store (`history.go`). For each game server it keeps a table in memory: player identity → calendar day → the samples of that day. One call of `logCoordinates` (`History.HistoryStore.Ingest`) does five things in order:

- It filters one polling cycle of player records.
- It normalises each identity, turning every `:` into `_`.
- It appends one sample per accepted record. An identity the table does not hold yet is first loaded from the history repository.
- It prunes the day buckets of the touched identities that are older than seven days. When more than five minutes have passed since the last flush, it saves those identities.
- It evicts every identity of that server that the cycle did not touch.

The second is the lenient field readers and the compact record builders of `compress.go` (module `Compress`).

The modules are:

- `Values` — the decoded JSON value a record is made of.
- `Decimal` — digit strings.
- `Calendar` — the `"2006-01-02"` day layout and days since the epoch.
- `Compress` — the readers and the compact records.
- `History` — the store.

In `History`, the functions `Appended` and `AfterIngest` specify one call on values. The lemmas prove what the source promises about them:

- retention;
- order of samples;
- the filter;
- eviction;
- the flush gate.

The class `HistoryStore` performs the call step by step, as the source does, and each of its methods is proved against those functions. The repository is the class `Repository`. It is a map from identity to the stored file plus a ghost count of saves.

## Model

| member | source | states |
|---|---|---|
| Calendar.DaysIn | history.go:94 | a month has 28 to 31 days, and 29 exactly for February of a Gregorian leap year |
| Calendar.FormatDay | history.go:29 | the day key is ten characters with '-' at positions 4 and 7 |
| Calendar.ParseDay | history.go:94 | parsing succeeds only on a valid calendar date in the layout |
| Calendar.FormatThenParse | history.go:29 | every key written for a valid date parses back to that date |
| Calendar.ParseThenFormat | history.go:94 | every string that parses is the canonical key of its date, so keys and dates correspond one to one |
| Calendar.DaysFromCivil | history.go:94-96 | days since 1970-01-01 of a date, fixed on every valid date by `CalendarAnchors` and `NextDateIsOneDayLater` |
| Calendar.DayStartUnix | history.go:94-96 | the start of the key's day in Unix seconds, always midnight UTC, and Go's zero time when `time.Parse` fails |
| Calendar.CalendarAnchors | history.go:94 | 1970-01-01 is day 0 and 0001-01-01 is Go's zero time, which a failed parse returns |
| Calendar.NextDateIsOneDayLater | history.go:96 | consecutive calendar days are exactly one day apart in the day count, across month, February and year ends |
| Values.Lookup | compress.go:140 | Go's `m[key]` on a decoded JSON object: the stored value, and nil for a missing key |
| Decimal.DecimalValueOfDigits | history.go:29 | reading back a zero-padded number gives the number |
| Decimal.DigitsOfDecimalValue | history.go:94 | writing out the value of a digit string gives the string back |
| Decimal.NatStringRoundTrip | compress.go:175 | the decimal spelling of a natural number reads back as that number and has no leading zero |
| Compress.TruncateTowardZero | compress.go:151 | `int64(f)` truncates toward zero: the result lies within one of f, on the side of zero |
| Compress.RoundHalfEven | compress.go:175 | "%.0f" rounds to the nearest integer, and an exact half goes to the even neighbour |
| Compress.FormatFixed0 | compress.go:175 | the text is '-' followed by the rounded magnitude for a negative number, otherwise the rounded value in decimal; no leading zero except the lone "0" |
| Compress.GetInt64 | compress.go:139-161 | an int64 as is, a float64 truncated toward zero, otherwise 0; warns exactly for a present non-null non-number when ignoreInvalid is off |
| Compress.GetString | compress.go:163-186 | a string as is, a float64 formatted only when tryFloat is set, otherwise ""; warns exactly for a present non-null value it could not read |
| Compress.GetBool | compress.go:188-202 | true exactly when the value is the boolean true; warns exactly for a present non-null non-boolean |
| Compress.GetMap | compress.go:204-221 | the nested object exactly when the value is an object, else nil; warns unless the value is absent, null, a boolean or an object |
| Compress.ReadersReadBackTypedValues | compress.go:139-221 | a value of the reader's own type is read back exactly and silently, whatever else the map holds |
| Compress.ReadersDefaultOnMissing | compress.go:139-221 | an absent key and an explicit null both give every reader's default without a warning |
| Compress.CompressPlayer | compress.go:44-75 | the character is present iff "character" is an object, and the vehicle iff "vehicle" is one; each of afk (read with ignoreInvalid on), flags, invisibleSince, name, source and steam comes from the named reader with the source's flags, and movement is passed through |
| Compress.CompressPlayers | compress.go:40-80 | the output has the input's length, and element i is the compact form of players[i] alone |
| Compress.CompressDutyPlayers | compress.go:82-94 | the output has the input's length, and each element copies the department, character id and Steam identifier at its index |
| History.RoundHalfAwayFromZero | history.go:60-62 | `math.Round` is within one half of its argument, and a half goes away from zero |
| History.RoundingExamples | history.go:60-62 | 3.14, -2.6 and 0.5 are stored as 3, -3 and 1 |
| History.Normalize | history.go:65 | same length, with ':' replaced by '_' at every position and nothing else changed |
| History.NormalizeIsSafeAndIdempotent | history.go:65 | a normalised identity has no ':' and normalising it again changes nothing |
| History.Accepted | history.go:43-58 | the filter: an object with non-nil object "coords", "character" not false, "invisible" not true, and a non-nil "steamIdentifier" (its meaning is fixed by `Extract` and `FlagsThatExclude`) |
| History.WellTyped | history.go:59-65 | the type assertions the source makes on an accepted record without checking: x, y and z are float64 and the identity a string |
| History.Extract | history.go:43-64 | a record yields an entry iff it passes the filter, and the entry's sample carries the cycle's timestamp |
| History.FlagsThatExclude | history.go:46-54 | each flag on its own decides acceptance: "character" excludes exactly when it is false, "invisible" exactly when it is true; true, false, absent or non-boolean values otherwise exclude nothing |
| History.LoadPlayer | history.go:123-134 | the stored day map when the file decodes, otherwise an empty map (corrected behaviour, see Findings) |
| History.LoadPlayerAsWritten | history.go:123-134 | the result is nil exactly when the file exists but does not decode |
| History.AppendPoints | history.go:73-78 | the bucket of the day is created if needed and gets the points at its end, and no other bucket changes |
| History.AppendAsWritten | history.go:73-78 | writing a bucket into the nil map that the loader returns fails |
| History.CorruptFileFirstAppend | history.go:73-78 | as written, an identity with an undecodable file panics on its first sample; corrected, it starts a history holding just that sample |
| History.Base | history.go:68-71 | the day map the first sample of a cycle extends: the resident one, else the loaded one (stated for the call in `AppendedContents` and `LoadedHistoryIsExtended`) |
| History.Step | history.go:67-82 | one record adds at most its own identity to the resident identities; what it does to each history is stated for the whole loop by `AppendedContents` |
| History.Touched | history.go:41-82 | the `identifiers` set: every identity in it is normalised (contains no ':') |
| History.IdPoints | history.go:59-78 | the samples a cycle gives one identity: no more samples than records, each carrying the timestamp `unix` |
| History.IdPointsSnoc | history.go:59-78 | one more record contributes at most one sample, placed after those of the records before it |
| History.Appended | history.go:43-85 | after the record loop, the resident identities are the earlier ones plus the touched ones |
| History.TouchedIffSampled | history.go:82 | an identity is marked as seen exactly when the cycle gives it a sample, and every sample of the cycle carries the timestamp `unix` |
| History.AppendedContents | history.go:68-78 | a touched identity's history is its resident (else loaded) day map with the cycle's samples appended in record order to today's bucket; other identities are unchanged |
| History.AfterIngestContents | history.go:27-121 | after a call, exactly the touched identities are resident, each holding its extended history minus the expired buckets |
| History.Expired | history.go:96 | more than 7 * 24 hours separate `now` from the start of the day the key names (see `RetentionBoundary`) |
| History.Pruned | history.go:93-101 | a day stays exactly when it is not expired, and every remaining bucket is unchanged |
| History.FlushDue | history.go:104-109 | more than five minutes since the last flush (see `AtMostOneFlushPerInterval` and `TwoCycles`) |
| History.AfterIngest | history.go:27-121 | the server's table after one call: the touched identities only, each with its extended history minus the expired buckets (see `AfterIngestContents`) |
| History.RetentionAfterIngest | history.go:93-101 | after a call, no expired bucket remains and every unexpired one is kept, with earlier samples before this cycle's |
| History.RejectedRecordIsInert | history.go:46-54 | dropping a record that the filter rejects does not change the outcome of the call |
| History.RetentionBoundary | history.go:96 | a bucket exactly seven days old is kept and one nanosecond later pruned; an unparseable key is pruned at any later clock reading |
| History.LoadedHistoryIsExtended | history.go:68-71 | for an identity that is not resident, every bucket of its stored file is kept unchanged and the new day's bucket holds exactly the cycle's samples: the stored history is extended, not replaced |
| History.AtMostOneFlushPerInterval | history.go:104-111 | two calls less than five minutes apart flush at most once |
| History.AppendPointsTwice | history.go:78 | two appends to one bucket are one append of both, in order |
| History.PrunedAll | history.go:88-102 | the sweep covers exactly the listed identities that the table holds |
| History.SavedAll | history.go:104-106 | every swept identity's file holds its day map as the sweep left it, and other files are unchanged |
| History.SweepThenEvict | history.go:87-120 | the sweep followed by the eviction leaves exactly the table `AfterIngest` specifies, and that is what was saved |
| History.Repository.constructor | history.go:123-134 | a repository holding the given files, with no saves yet |
| History.Repository.Save | history.go:136-140 | the identity's file holds the given day map afterwards, and one more save is counted |
| History.HistoryStore.constructor | history.go:20-25 | an empty table, and the last flush at the Unix epoch |
| History.HistoryStore.Ingest | history.go:27-121 | the server's table becomes `AfterIngest` of its old one and other servers are unchanged; when the gate is open, every touched identity is saved as it now stands and the last flush becomes `now`, otherwise nothing is saved |
| History.HistoryStore.TwoCycles | history.go:104-111 | two consecutive calls less than five minutes apart together save the touched identities of at most one of them |
| History.HistoryStore.AppendRecords | history.go:41-85 | the record loop returns the touched identities and leaves the table `Appended` describes |
| History.HistoryStore.AppendSample | history.go:67-80 | one accepted record: load on first sight, then append to today's bucket |
| History.HistoryStore.SweepTouched | history.go:87-107 | every touched identity holds its pruned history and untouched ones are as before; when the gate is open exactly those identities are saved with their pruned maps |
| History.HistoryStore.SweepNext | history.go:88-107 | one iteration of the sweep adds one identity to those pruned and, with the gate open, saved |
| History.HistoryStore.SweepIdentity | history.go:89-106 | one identity is pruned and, when the gate is open, saved with the pruned map |
| History.HistoryStore.PruneIdentity | history.go:90-102 | deletes exactly the expired buckets of one identity, in the table and in the returned map |
| History.HistoryStore.EvictUntouched | history.go:113-120 | only the identities the cycle touched stay resident for the server, unchanged |

## Left out

- Locking with `historyMutex` is not modelled. The model has a single sequential caller.
- The file system and JSON encoding are left out. The repository is a map from identity to `Snapshot(days)` or `Corrupt`. `Corrupt` covers every existing file that leaves Go's nil map: bytes that are not JSON, JSON whose top-level value is `null` or not an object, and a file that exists but cannot be read. `os.MkdirAll` and all write errors are left out, since the source ignores them.
- The history directory is keyed by identity alone, so several servers share one file per identity. The model keeps that: the repository is not split by server.
- The clock readings are parameters of `Ingest`:
  - `unix` in seconds;
  - the day key;
  - `now` in nanoseconds.
- The day key is the local date. Local time zones are not modelled, and the key is taken as given.
- `time.Parse` interprets the key in UTC. `Calendar.DayStartUnix` does that.
- History.HistoryStore.Ingest: one reading `now` stands for two comparisons that Go makes differently. After the first flush, the flush gate compares monotonic readings, because `lastSave` is then itself a `time.Now()` reading; before it, `lastSave` is `time.Unix(0, 0)`, which has no monotonic reading, so the gate compares wall-clock times as the model does. The expiry test compares the wall clock with a parsed date. The model treats both as the same reading, so it differs from the source only when the wall clock jumps between polling cycles.
- `now.Sub` saturates at the int64 range. This cannot change the outcome of the `>` comparisons, so it is not modelled.
- Go's `time.Format` for a year outside 0..9999 is not modelled. `Calendar.FormatDay` requires a year in 0..9999.
- float64 values are modelled as exact reals. Infinities, NaN, negative zero and the loss of precision on decoding are not modelled.
- Compress.FormatFixed0: JSON `-0` decodes to float64 negative zero, which `%.0f` prints as "-0". The model has only the real 0, which prints as "0".
- `Compress.TruncateTowardZero` does not model Go's result for floats outside the int64 range. The conversion is implementation-defined there.
- `Compress.GetInt64`: int64 values are unbounded integers.
- `History.Extract`: coordinates are rounded with `math.Round` on reals, so int64 overflow of the stored coordinates is not modelled.
- `History.HistoryStore.Ingest` requires that an accepted record's `x`, `y` and `z` are numbers and its `steamIdentifier` is a string. The source asserts these types without checking, so any other record makes it panic.
- The identity is only checked to be non-nil, as in the source. An empty identity string is stored like any other.
- `getMovementData` and `getFloat64` (the `%.1f` movement text) are not part of this model. `Compress.CompressPlayers` takes them as the parameter `movementOf`.
- `gzipBytes` is a wrapper over the gzip library and is not modelled.
- `OnDutyPlayer` is modelled with the three fields that the compact form copies. Its other fields are not read by `CompressDutyPlayers`.
- Log text is not modelled. A reader's warning is the boolean `warned`.
- History.Repository.Save: the repository counts saves (`saves`) instead of logging their order.
- The order in which Go iterates a map is left to the verifier. Each loop over identities or days picks any remaining element, so every proved outcome holds for every iteration order.

## Findings

| source | as written | input that shows it | evidently intended | confidence | as-written member | corrected member |
|---|---|---|---|---|---|---|
| history.go:123-134 | `loadPlayer` returns the nil map that `json.Unmarshal` leaves when an existing history file does not decode to an object, and line 75 then assigns into that nil map | a file `history/<id>.json` holding `null` or text that is not JSON, for an identity that is not resident, followed by a cycle that samples that identity | an unreadable history starts empty, as a missing file does | not executed | History.CorruptFileFirstAppend | History.LoadPlayer |
