/** The single-slot cache in front of the organism query: the module globals
    `CACHED_RESULT` and `CACHED_TIME` and the handler `doit`, which refreshes
    the slot when it is more than thirty seconds old and then answers with
    whatever the slot holds. */
module Cache {
  import opened Rows

  datatype Option<T> = None | Some(value: T)

  /** The failure the database raises while executing the query. */
  datatype DbError = DbError(message: string)

  /** The outcome of running the query, or of one call of the handler: a
      value, or the database's exception propagating to the caller. */
  datatype Result<T> = Ok(value: T) | Err(error: DbError)

  /** The cached result as `doit` hands it to `jsonify`: `None` before the
      first refresh. */
  type Snapshot = Option<seq<Record>>

  /** The staleness threshold, hard-coded in the handler. */
  const Threshold: real := 30.0

  /** The two globals, as a value. */
  datatype CacheState = CacheState(result: Snapshot, time: real)

  /** At module load: no result and timestamp zero. */
  const Initial: CacheState := CacheState(None, 0.0)

  /** One call of the handler, with the clock reading it takes and what the
      query would produce if it were executed during this call. */
  datatype Call = Call(now: real, fetch: Result<seq<Row>>)

  /** The refresh guard, with its strict inequality. */
  predicate Stale(s: CacheState, now: real) {
    now - s.time > Threshold
  }

  /** Whether a call replaces the slot: it is stale and the query succeeds. */
  predicate Refreshes(s: CacheState, c: Call) {
    Stale(s, c.now) && c.fetch.Ok?
  }

  /** One call of `doit` on the state `s`: its reply and the new state. A
      failing query raises before either global is assigned. */
  function Step(s: CacheState, c: Call): (Result<Snapshot>, CacheState) {
    if Stale(s, c.now) then
      match c.fetch
      case Ok(rows) =>
        var filled := Some(Records(rows));
        (Ok(filled), CacheState(filled, c.now))
      case Err(e) => (Err(e), s)
    else (Ok(s.result), s)
  }

  /** The states the globals can be in: never refreshed, or refreshed at a
      time after the threshold (the first refresh needs a clock reading above
      thirty, as the timestamp starts at zero). */
  ghost predicate Consistent(s: CacheState) {
    (s.result == None && s.time == 0.0) || (s.result.Some? && s.time > Threshold)
  }

  /** A sequence of calls, in order, from the state `s`: the replies and the
      final state. */
  function Run(s: CacheState, calls: seq<Call>): (out: (seq<Result<Snapshot>>, CacheState))
    ensures |out.0| == |calls|
    ensures out.1.time >= s.time
    ensures Consistent(s) ==> Consistent(out.1)
    decreases |calls|
  {
    if calls == [] then ([], s)
    else
      var (r, s1) := Step(s, calls[0]);
      var (rs, s2) := Run(s1, calls[1..]);
      ([r] + rs, s2)
  }

  /** Every time in `ts` is more than the threshold past `t` and past every
      time before it. */
  ghost predicate SpacedAfter(t: real, ts: seq<real>) {
    (forall i :: 0 <= i < |ts| ==> ts[i] > t + Threshold) &&
    (forall i, j :: 0 <= i < j < |ts| ==> ts[j] > ts[i] + Threshold)
  }

  /** A time more than the threshold past `t`, followed by times spaced
      after it, is a sequence spaced after `t`. */
  lemma SpacedAfterPrepend(t: real, first: real, rest: seq<real>)
    requires first > t + Threshold && SpacedAfter(first, rest)
    ensures SpacedAfter(t, [first] + rest)
  {
    var ts := [first] + rest;
    forall i, j | 0 <= i < j < |ts| ensures ts[j] > ts[i] + Threshold {
      assert ts[j] == rest[j - 1];
      if i > 0 { assert ts[i] == rest[i - 1]; }
    }
  }

  /** The clock readings at which a run of calls replaced the slot, in order.
      Each is more than the threshold past the starting timestamp and past
      every earlier one, whatever the order of the clock readings, and the
      last is the final timestamp. */
  function RefreshTimes(s: CacheState, calls: seq<Call>): (ts: seq<real>)
    ensures SpacedAfter(s.time, ts)
    ensures ts == [] ==> Run(s, calls).1 == s
    ensures ts != [] ==> Run(s, calls).1.time == ts[|ts| - 1]
    decreases |calls|
  {
    if calls == [] then []
    else
      var s1 := Step(s, calls[0]).1;
      var rest := RefreshTimes(s1, calls[1..]);
      assert Run(s, calls).1 == Run(s1, calls[1..]).1;
      if Refreshes(s, calls[0]) then
        assert s1.time == calls[0].now;
        var ts := [calls[0].now] + rest;
        SpacedAfterPrepend(s.time, calls[0].now, rest);
        ts
      else
        assert s1 == s;
        rest
  }

  /** The starting state: an absent result and timestamp zero. */
  lemma InitialIsEmpty()
    ensures Initial.result == None && Initial.time == 0.0 && Consistent(Initial)
  {
  }

  /** A stale call with a successful query replaces the result with the
      fetched records and the timestamp with the clock reading; with a
      failing query it raises and leaves both globals as they were. */
  lemma StaleCall(s: CacheState, c: Call)
    requires Stale(s, c.now)
    ensures c.fetch.Ok? ==> Step(s, c) == (Ok(Some(Records(c.fetch.value))), CacheState(Some(Records(c.fetch.value)), c.now))
    ensures c.fetch.Err? ==> Step(s, c) == (Err(c.fetch.error), s)
  {
  }

  /** A call at most thirty seconds after the timestamp, thirty included,
      does not use the query, answers with the cached result and changes
      nothing. */
  lemma FreshCall(s: CacheState, c: Call)
    requires c.now - s.time <= Threshold
    ensures Step(s, c) == (Ok(s.result), s)
  {
  }

  /** Exactly thirty seconds is still fresh. */
  lemma ThresholdIsInclusive(s: CacheState, fetch: Result<seq<Row>>)
    ensures !Stale(s, s.time + 30.0)
    ensures Step(s, Call(s.time + 30.0, fetch)) == (Ok(s.result), s)
  {
  }

  /** A successful reply is the result held after the call. */
  lemma ReplyIsCachedResult(s: CacheState, c: Call)
    ensures Step(s, c).0.Ok? ==> Step(s, c).0.value == Step(s, c).1.result
  {
  }

  /** The state changes only by a refresh, and a refresh moves the timestamp
      forward by more than the threshold. */
  lemma RefreshAdvancesTime(s: CacheState, c: Call)
    ensures Step(s, c).1 != s ==> Refreshes(s, c)
    ensures Refreshes(s, c) ==> Step(s, c).1.time == c.now > s.time + Threshold
  {
  }

  /** Once the slot has been filled, one more call keeps it filled and does
      not answer with an absent result. */
  lemma FilledStaysFilled(s: CacheState, c: Call)
    requires s.result.Some?
    ensures Step(s, c).1.result.Some?
    ensures Step(s, c).0.Ok? ==> Step(s, c).0.value.Some?
  {
  }

  /** The guard looks only at the timestamp, not at whether a result is
      held: a first call whose clock reads thirty or less answers with the
      absent result and does not use the query. */
  lemma EmptyBeforeFirstRefresh(c: Call)
    requires c.now <= Threshold
    ensures Step(Initial, c) == (Ok(None), Initial)
  {
  }

  /** Two consecutive calls, the second within the threshold of the
      timestamp the first set or kept: if the first answered, the second
      gives the identical answer and leaves the state as the first left it. */
  lemma SecondCallWithinWindow(s: CacheState, c1: Call, c2: Call)
    requires Step(s, c1).0.Ok?
    requires c2.now - Step(s, c1).1.time <= Threshold
    ensures Step(Step(s, c1).1, c2) == Step(s, c1)
  {
  }

  /** Any run of calls whose clock readings are all within the threshold of
      the timestamp leaves the state alone and answers every call with the
      cached result. */
  lemma {:induction false} CallsWithinWindow(s: CacheState, calls: seq<Call>)
    requires forall i :: 0 <= i < |calls| ==> calls[i].now - s.time <= Threshold
    ensures Run(s, calls).1 == s
    ensures forall i :: 0 <= i < |calls| ==> Run(s, calls).0[i] == Ok(s.result)
  {
    if calls != [] {
      assert Step(s, calls[0]) == (Ok(s.result), s);
      CallsWithinWindow(s, calls[1..]);
    }
  }

  /** Once the slot has been filled, it stays filled for any run of calls,
      and no call of the run answers with an absent result. */
  lemma {:induction false} FilledStaysFilledInRun(s: CacheState, calls: seq<Call>)
    requires s.result.Some?
    ensures Run(s, calls).1.result.Some?
    ensures forall i :: 0 <= i < |calls| && Run(s, calls).0[i].Ok? ==> Run(s, calls).0[i].value.Some?
    decreases |calls|
  {
    if calls != [] {
      var s1 := Step(s, calls[0]).1;
      FilledStaysFilled(s, calls[0]);
      FilledStaysFilledInRun(s1, calls[1..]);
      forall i | 0 <= i < |calls| && Run(s, calls).0[i].Ok? ensures Run(s, calls).0[i].value.Some? {
        if i > 0 { assert Run(s, calls).0[i] == Run(s1, calls[1..]).0[i - 1]; }
      }
    }
  }

  /** The last call of a run that replaced the slot, if any. */
  function LastRefresh(s: CacheState, calls: seq<Call>): Option<Call>
    decreases |calls|
  {
    if calls == [] then None
    else
      var later := LastRefresh(Step(s, calls[0]).1, calls[1..]);
      if later.Some? then later
      else if Refreshes(s, calls[0]) then Some(calls[0])
      else None
  }

  /** After a run the slot holds what the last refreshing call fetched,
      stamped with that call's clock reading; without a refreshing call the
      state is the one the run started from. */
  lemma {:induction false} HeldIsLastRefresh(s: CacheState, calls: seq<Call>)
    ensures LastRefresh(s, calls) == None ==> Run(s, calls).1 == s
    ensures LastRefresh(s, calls).Some? ==>
      var c := LastRefresh(s, calls).value;
      c in calls && c.fetch.Ok? &&
      Run(s, calls).1 == CacheState(Some(Records(c.fetch.value)), c.now)
    decreases |calls|
  {
    if calls != [] {
      var s1 := Step(s, calls[0]).1;
      HeldIsLastRefresh(s1, calls[1..]);
      assert Run(s, calls).1 == Run(s1, calls[1..]).1;
      if LastRefresh(s1, calls[1..]).Some? {
        assert LastRefresh(s1, calls[1..]).value in calls[1..];
      } else if !Refreshes(s, calls[0]) {
        assert s1 == s;
      }
    }
  }

  /** The two globals `CACHED_RESULT` and `CACHED_TIME`, with two ghost
      fields: the rows whose records the slot holds, and the count of the
      query executions `doit` has performed. */
  class SnapshotCache {
    var cachedResult: Snapshot
    var cachedTime: real
    ghost var heldRows: Option<seq<Row>>
    ghost var fetches: nat

    ghost function State(): CacheState
      reads this
    {
      CacheState(cachedResult, cachedTime)
    }

    /** The timestamp is zero while nothing is held; otherwise the slot
        holds the records of `heldRows`, stamped with a clock reading past
        the threshold. */
    ghost predicate Valid()
      reads this
    {
      match heldRows
      case None => cachedResult == None && cachedTime == 0.0
      case Some(rows) => cachedResult == Some(Records(rows)) && cachedTime > Threshold
    }

    constructor ()
      ensures Valid()
      ensures cachedResult == None && cachedTime == 0.0 && State() == Initial
      ensures heldRows == None && fetches == 0
    {
      cachedResult := None;
      cachedTime := 0.0;
      heldRows := None;
      fetches := 0;
    }

    /** `doit`: refresh the slot when the timestamp is more than thirty
        seconds behind `now`, then answer with the slot. `fetch` is what the
        query produces if it is executed now; it is used only on a refresh. */
    method Get(now: real, fetch: Result<seq<Row>>) returns (reply: Result<Snapshot>)
      requires Valid()
      modifies this
      ensures Valid() && Consistent(State())
      ensures heldRows == if now - old(cachedTime) > Threshold && fetch.Ok? then Some(fetch.value) else old(heldRows)
      ensures (reply, State()) == Step(old(State()), Call(now, fetch))
      ensures fetches == old(fetches) + (if now - old(cachedTime) > Threshold then 1 else 0)
      ensures now - old(cachedTime) > Threshold && fetch.Ok? ==>
        cachedResult == Some(Records(fetch.value)) && cachedTime == now
      ensures !(now - old(cachedTime) > Threshold && fetch.Ok?) ==>
        cachedResult == old(cachedResult) && cachedTime == old(cachedTime)
      ensures cachedTime != old(cachedTime) ==> cachedTime > old(cachedTime) + Threshold
      ensures reply.Ok? ==> reply.value == cachedResult
    {
      if now - cachedTime > Threshold {
        fetches := fetches + 1;
        match fetch {
          case Err(e) =>
            reply := Err(e);
            return;
          case Ok(rows) =>
            var records := Fetch(rows);
            cachedResult := Some(records);
            cachedTime := now;
            heldRows := Some(rows);
        }
      }
      reply := Ok(cachedResult);
    }
  }
}
