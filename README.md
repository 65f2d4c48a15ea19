# apolpi organism cache, modelled in Dafny

apolpi is a small Flask service that answers `/organism/findAllOrganisms` for
an Apollo genome-annotation database. It runs one expensive aggregate query.
It turns each result row into a record by zipping a fixed list of sixteen
field names against the row's positions. It keeps the resulting list in a
single module-level cache slot, which it refreshes when the slot is more
than thirty seconds old.

This project models both parts of `apolpi.py`:

- `rows.dfy`, module `Rows`: the `columns` list and the `_fetch` loop. A
  row is a `seq<Value>` and a record is a `map<string, Value>`. Python's
  `zip` and `dict` are `Zip` and `DictOf`, and `dict(zip(columns, row))`
  is `ToRecord`. The loop that appends one record per row is the method
  `Fetch`, which is proved against the specification function `Records`.
- `cache.dfy`, module `Cache`: the globals `CACHED_RESULT`/`CACHED_TIME`
  and the handler `doit`. The class `SnapshotCache` holds the two fields.
  It also has a ghost counter of query executions. Its method `Get(now,
  fetch)` is `doit`. The pure function `Step` describes one call on a
  `CacheState` value, and `Run` describes a sequence of calls. `Get` is
  proved equal to `Step`, and the cache's properties are lemmas about
  `Step` and `Run`.

The cache invariant is the predicate `Consistent` on a `CacheState`. It has
two cases. Either nothing is held and the timestamp is 0, or a result is
held and the timestamp is above 30. The timestamp is above 30 in the
second case because the first refresh needs a clock reading more than 30
past the initial 0. The class's `Valid()` is stronger. A ghost field
`heldRows` records the rows of the last refresh, and `Valid()` says the held
result is exactly `Records` of those rows. The lemma `HeldIsLastRefresh`
proves the same fact over a run of calls.

The clock reading and the query's outcome are inputs. `now` is a `real`.
`fetch` is either the rows the query returns or the database error it
raises. A raised error propagates out of `doit` before either global is
assigned, so the model's `Err` reply leaves the state unchanged. The reply
is the value handed to `jsonify`: `None` (JSON `null`) before the first
refresh, otherwise the list of records.

The guard looks only at the timestamp. A refresh happens when
`now - CACHED_TIME > 30`, and nothing else is checked. In particular the
code never asks whether a result is held. A general description of such a
cache would also refresh whenever no snapshot exists, and would read the
threshold from configuration. This model follows the code: the threshold is
the constant `30`, and `EmptyBeforeFirstRefresh` shows that a first call
at a clock reading of 30 or less answers with the absent result.

## Model

| member | source | states |
|---|---|---|
| Rows.ColumnsDistinct | apolpi.py:87-92 | There are exactly sixteen field names and no two are equal. |
| Rows.Zip | apolpi.py:99 | `zip` pairs up the two sequences position by position: its length is the shorter length, and pair `i` is `(columns[i], row[i])`. |
| Rows.DictOfHasKey | apolpi.py:99 | A key is in the dictionary built from a list of pairs exactly when some pair carries that key. |
| Rows.DictOfLastWins | apolpi.py:99 | The value under a key is the value of the last pair that carries the key. |
| Rows.RecordShape | apolpi.py:87-99 | A row's record has exactly the first min(16, len(row)) field names as keys. Each `columns[i]` is bound to `row[i]`. |
| Rows.FullRowHasEveryField | apolpi.py:87-99 | A sixteen-value row gives a record whose keys are exactly the sixteen field names. |
| Rows.Records | apolpi.py:97-100 | The output of `_fetch` has one record per row, and record `i` is built from row `i`. |
| Rows.Fetch | apolpi.py:95-100 | The append loop returns one record per row, in row order, and the result equals `Records(rows)`. |
| Rows.RecordsArePositional | apolpi.py:97-100 | In record `i` of the output, field `columns[j]` holds `rows[i][j]` for every `j < min(16, len(rows[i]))`. |
| Cache.InitialIsEmpty | apolpi.py:7-10 | The initial state holds no result and has timestamp 0, and it satisfies the cache invariant `Consistent`. |
| Cache.StaleCall | apolpi.py:108-110 | When `now - CACHED_TIME > 30` and the query succeeds, the result becomes the fetched records, the timestamp becomes `now`, and the reply is the new result. When the query fails, the error propagates and both globals stay as they were. |
| Cache.FreshCall | apolpi.py:108 | When `now - CACHED_TIME <= 30`, the reply is the cached result and neither global changes. |
| Cache.ThresholdIsInclusive | apolpi.py:108 | A call exactly 30 seconds after the timestamp is not stale and changes nothing. |
| Cache.ReplyIsCachedResult | apolpi.py:112 | A successful reply is `CACHED_RESULT` as it stands after the possible refresh. |
| Cache.RefreshAdvancesTime | apolpi.py:108-110 | The state changes only on a successful refresh, which sets the timestamp to `now`, more than 30 past the old timestamp. |
| Cache.FilledStaysFilled | apolpi.py:108-112 | If a result is held, it is still held after one more call, and a successful reply to that call is not the absent result. |
| Cache.FilledStaysFilledInRun | apolpi.py:108-112 | Once a result is held, it stays held through any run of calls, and no successful reply in the run is the absent result. |
| Cache.EmptyBeforeFirstRefresh | apolpi.py:9-10 | From the initial state, a call with a clock reading of 30 or less replies with the absent result, changes nothing and does not use the query. |
| Cache.SecondCallWithinWindow | apolpi.py:107-112 | If a call succeeds and the next call's `now` is at most 30 past the timestamp the first call set or kept, the second call returns the identical reply and leaves the state as it was. |
| Cache.Run | apolpi.py:104-112 | A run of calls gives one reply per call. The timestamp never decreases, even when clock readings are not monotone. If the starting state satisfies the cache invariant `Consistent`, so does the final state. |
| Cache.RefreshTimes | apolpi.py:108-110 | Within a run, every refresh time is more than 30 past the starting timestamp and more than 30 past every earlier refresh time, even when clock readings are not monotone. Without a refresh the state is unchanged; otherwise the final timestamp is the last refresh time. |
| Cache.HeldIsLastRefresh | apolpi.py:104-112 | After a run of calls, the state is the starting state if no call refreshed. Otherwise the last refreshing call is one of the run's calls and its query succeeded. The held result is then `Records` of that call's rows, and the timestamp is that call's clock reading. |
| Cache.CallsWithinWindow | apolpi.py:107-112 | Any run of calls whose clock readings are all at most 30 past the timestamp leaves the state unchanged and gets the cached result on every call. |
| Cache.SnapshotCache.constructor | apolpi.py:9-10 | The cache starts with no result, timestamp 0, no held rows and no query executions. |
| Cache.SnapshotCache.Get | apolpi.py:104-112 | `doit`: the reply and new state are those of `Step`. The query runs exactly once if the call is stale and never otherwise. On a successful stale call, `CACHED_RESULT` becomes the fetched records and `CACHED_TIME` becomes `now`; on any other call both are unchanged. A change of timestamp moves it more than 30 forward. The reply is `CACHED_RESULT` after the call. `Valid()` is kept: after a successful refresh the held rows are the fetched rows, and the held result is `Records` of them. |

## Left out

- The Flask application, the route and `jsonify` (apolpi.py:1-2, 12, 103, 112). These are framework I/O; only the value handed to `jsonify` is modelled.
- The SQLAlchemy engine, the database URI and its environment lookup (apolpi.py:3-4, 14-20, 96). These are foreign calls. The result of `db.engine.execute` is the `fetch` input: the rows, or the raised error.
- The SQL text of `QUERY` (apolpi.py:22-85). Its joins and aggregates run inside PostgreSQL, so the values of `annotationCount` and `sequences` are not modelled. Rows are taken as given.
- `time.time()` (apolpi.py:5, 107). The clock is the parameter `now`. It is a `real`, so floating-point rounding of `now - CACHED_TIME` is not modelled.
- Concurrency. Under a threaded server the globals are updated without a lock; the model is sequential.
- Key order of the record dictionaries. Python dicts remember insertion order, but a record is modelled as a `map`, which has none. The keys and their values are modelled in full.
- The value types of the database driver. `Value` has NULL, booleans, integers and text; other column types (JSON, timestamps) would be further constructors and do not affect the mapping.
