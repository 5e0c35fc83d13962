/** The first-kill refresh (`update_firstkill.py`): only the usernames whose
    `date` is still NULL are looked up; the writer only issues `UPDATE`, so
    it never adds or removes a username, and a row that gets a date leaves
    the next run's batch. */
module FirstKill {
  import opened Common
  import opened Fifo
  import Progress

  /** The columns `UPDATE firstkill` sets for a job: the entry's three fields,
      or NULL in all three when there is no data. */
  function KillRow(data: Option<Entry>): (row: EventRow)
    requires !Raises(data)
    ensures data.Some? && data.value.Truthy() ==>
              row == EventRow(data.value.fields["date"], data.value.fields["time"], data.value.fields["message"])
    ensures !(data.Some? && data.value.Truthy()) ==> row == NullRow
  {
    if data.Some? && data.value.Truthy() then
      EventRow(data.value.fields["date"], data.value.fields["time"], data.value.fields["message"])
    else NullRow
  }

  /** One job: `UPDATE ... WHERE username = ?` rewrites an existing row and
      does nothing for an unknown username. */
  function Update(t: Table<EventRow>, j: EventJob): (t': Table<EventRow>)
    requires !Raises(j.data)
    ensures t'.Keys == t.Keys
    ensures j.username in t ==> t'[j.username] == KillRow(j.data)
    ensures forall u :: u in t && u != j.username ==> t'[u] == t[u]
  {
    if j.username in t then t[j.username := KillRow(j.data)] else t
  }

  function Updates(t: Table<EventRow>, js: seq<EventJob>): Table<EventRow>
    requires forall k :: 0 <= k < |js| ==> !Raises(js[k].data)
    decreases |js|
  {
    if js == [] then t else Update(Updates(t, js[..|js| - 1]), js[|js| - 1])
  }

  lemma UpdatesSnoc(t: Table<EventRow>, done: seq<EventJob>, j: EventJob)
    requires forall k :: 0 <= k < |done| ==> !Raises(done[k].data)
    requires !Raises(j.data)
    ensures forall k :: 0 <= k < |done + [j]| ==> !Raises((done + [j])[k].data)
    ensures Updates(t, done + [j]) == Update(Updates(t, done), j)
  {
    assert (done + [j])[..|done|] == done;
  }

  /** `db_worker`: apply the jobs in FIFO order up to the sentinel, one
      update (and one progress increment) per job; a job whose entry lacks a
      key ends the thread. */
  method DbWorker(queue: seq<Item<EventJob>>, table: Table<EventRow>)
    returns (table': Table<EventRow>, usersUpdated: nat)
    ensures usersUpdated == |Writable(Pending(queue))|
    ensures table' == Updates(table, Writable(Pending(queue)))
  {
    table' := table;
    usersUpdated := 0;
    var i := 0;
    ghost var w := Writable(Pending(queue));
    while i < |queue| && queue[i].Job? && !Raises(queue[i].job.data)
      invariant 0 <= i <= |w|
      invariant usersUpdated == i
      invariant table' == Updates(table, w[..i])
      decreases |queue| - i
    {
      WritableAt(queue, i);
      PrefixSnoc(w, i);
      UpdatesSnoc(table, w[..i], w[i]);
      table' := Update(table', queue[i].job);
      usersUpdated := usersUpdated + 1;
      i := i + 1;
    }
    WritableEnd(queue, i);
    assert w[..i] == w;
  }

  /** Updates never add or remove a username, whatever the jobs name. */
  lemma {:induction false} UpdatesKeepKeys(t: Table<EventRow>, js: seq<EventJob>)
    requires forall k :: 0 <= k < |js| ==> !Raises(js[k].data)
    ensures Updates(t, js).Keys == t.Keys
  {
    if js != [] {
      UpdatesKeepKeys(t, js[..|js| - 1]);
    }
  }

  /** A row no job names keeps its columns. */
  lemma {:induction false} UpdatesUntouched(t: Table<EventRow>, js: seq<EventJob>, u: string)
    requires forall k :: 0 <= k < |js| ==> !Raises(js[k].data)
    requires u in t
    requires forall k :: 0 <= k < |js| ==> js[k].username != u
    ensures u in Updates(t, js) && Updates(t, js)[u] == t[u]
  {
    if js != [] {
      UpdatesUntouched(t, js[..|js| - 1], u);
      UpdatesKeepKeys(t, js[..|js| - 1]);
    }
  }

  /** For an existing username, the last job naming it decides its row. */
  lemma {:induction false} UpdatesLastWins(t: Table<EventRow>, js: seq<EventJob>, k: nat)
    requires forall m :: 0 <= m < |js| ==> !Raises(js[m].data)
    requires k < |js| && js[k].username in t
    requires forall m :: k < m < |js| ==> js[m].username != js[k].username
    ensures js[k].username in Updates(t, js)
    ensures Updates(t, js)[js[k].username] == KillRow(js[k].data)
  {
    UpdatesKeepKeys(t, js[..|js| - 1]);
    if k < |js| - 1 {
      UpdatesLastWins(t, js[..|js| - 1], k);
    }
  }

  /** The batch of a run over `table`: the usernames still without a date. */
  predicate InBatch(table: Table<EventRow>, u: string) {
    u in table && table[u].date.None?
  }

  /** The whole batch, as a set. */
  function Batch(table: Table<EventRow>): set<string> {
    set u | u in table && InBatch(table, u)
  }

  /** `load_usernames_without_data`: the usernames whose `date` is NULL, each once. */
  method LoadUsernamesWithoutData(table: Table<EventRow>) returns (usernames: seq<string>)
    ensures forall u :: u in usernames <==> InBatch(table, u)
    ensures Distinct(usernames)
    ensures |usernames| == |Batch(table)|
  {
    usernames := Select(table, (r: EventRow) => r.date.None?);
    DistinctCardinality(usernames);
    assert (set u | u in usernames) == Batch(table);
  }

  /** A batch whose lookups all have their keys: every row outside the batch
      is kept, every row in it becomes the one built from its own lookup. */
  lemma BatchRows(table: Table<EventRow>, usernames: seq<string>, fetch: string -> Response<seq<Entry>>)
    requires forall u :: u in usernames <==> InBatch(table, u)
    requires Distinct(usernames)
    requires forall u :: InBatch(table, u) ==> !Raises(FetchEvent(u, fetch(u)).data)
    ensures forall k :: 0 <= k < |Fetched(usernames, fetch)| ==> !Raises(Fetched(usernames, fetch)[k].data)
    ensures Updates(table, Fetched(usernames, fetch)).Keys == table.Keys
    ensures forall u :: u in table && !InBatch(table, u) ==> Updates(table, Fetched(usernames, fetch))[u] == table[u]
    ensures forall u :: InBatch(table, u) ==> Updates(table, Fetched(usernames, fetch))[u] == KillRow(FetchEvent(u, fetch(u)).data)
  {
    var jobs := Fetched(usernames, fetch);
    UpdatesKeepKeys(table, jobs);
    forall u | u in table && !InBatch(table, u) ensures Updates(table, jobs)[u] == table[u] {
      UpdatesUntouched(table, jobs, u);
    }
    forall u | InBatch(table, u) ensures Updates(table, jobs)[u] == KillRow(FetchEvent(u, fetch(u)).data) {
      var k :| 0 <= k < |usernames| && usernames[k] == u;
      UpdatesLastWins(table, jobs, k);
    }
  }

  /** What the writer leaves after the batch: the same usernames and at most
      one row written per selected username; when every lookup has its keys,
      every selected row written from its own lookup and every other row kept. */
  lemma BatchOutcome(table: Table<EventRow>, usernames: seq<string>, fetch: string -> Response<seq<Entry>>,
                     table': Table<EventRow>, updated: nat)
    requires forall u :: u in usernames <==> InBatch(table, u)
    requires Distinct(usernames)
    requires table' == Updates(table, Writable(Fetched(usernames, fetch)))
    requires updated == |Writable(Fetched(usernames, fetch))|
    ensures table'.Keys == table.Keys
    ensures updated <= |usernames|
    ensures (forall u :: InBatch(table, u) ==> !Raises(FetchEvent(u, fetch(u)).data)) ==>
              (forall u :: u in table && !InBatch(table, u) ==> table'[u] == table[u]) &&
              (forall u :: InBatch(table, u) ==> table'[u] == KillRow(FetchEvent(u, fetch(u)).data)) &&
              (forall u :: InBatch(table', u) <==> InBatch(table, u) && KillRow(FetchEvent(u, fetch(u)).data).date.None?) &&
              updated == |usernames|
  {
    UpdatesKeepKeys(table, Writable(Fetched(usernames, fetch)));
    if forall u :: InBatch(table, u) ==> !Raises(FetchEvent(u, fetch(u)).data) {
      BatchRows(table, usernames, fetch);
      WritableAll(Fetched(usernames, fetch));
    }
  }

  /** `update_firstkill_db`: `fetch` gives the response for each username,
      `early` how many of the writer's increments reach the progress queue
      before the main thread's sentinel. */
  method UpdateFirstKillDb(table: Table<EventRow>, fetch: string -> Response<seq<Entry>>, early: nat)
    returns (table': Table<EventRow>, processed: int)
    ensures table'.Keys == table.Keys
    ensures 0 <= processed <= |Batch(table)|
    ensures (forall u :: InBatch(table, u) ==> !Raises(FetchEvent(u, fetch(u)).data)) ==>
              (forall u :: u in table && !InBatch(table, u) ==> table'[u] == table[u]) &&
              (forall u :: InBatch(table, u) ==> table'[u] == KillRow(FetchEvent(u, fetch(u)).data)) &&
              processed == Progress.Min(early, |Batch(table)|)
    // The next run's batch: a username is selected again exactly when it was
    // selected this time and its lookup brought no date.
    ensures (forall u :: InBatch(table, u) ==> !Raises(FetchEvent(u, fetch(u)).data)) ==>
              forall u :: InBatch(table', u) <==> InBatch(table, u) && KillRow(FetchEvent(u, fetch(u)).data).date.None?
  {
    var usernames := LoadUsernamesWithoutData(table);
    if |usernames| == 0 {
      return table, 0;
    }

    // One job per submitted task, then the sentinel once every task is done.
    var jobs := Fetched(usernames, fetch);
    var updated;
    table', updated := DbWorker(Submitted(jobs), table);
    BatchOutcome(table, usernames, fetch, table', updated);
    processed := Progress.ProgressReporter(Progress.RacedQueue(updated, early), |usernames|);
    assert processed == Progress.Min(Progress.Min(early, updated), |usernames|) by {
      Progress.RacedCount(updated, early, |usernames|);
    }
  }
}
