/** The last-death refresh (`update_lastdeath.py`): every username already in
    the `lastdeath` table is looked up again; one writer thread replaces each
    row and puts one progress increment per row. */
module LastDeath {
  import opened Common
  import opened Fifo
  import Progress

  /** What the writer stores when there is no data: the string '0' in every
      column, not NULL. */
  const Placeholder := EventRow(Some("0"), Some("0"), Some("0"))

  /** The row `INSERT OR REPLACE INTO lastdeath` stores for a job. */
  function DeathRow(data: Option<Entry>): (row: EventRow)
    requires !Raises(data)
    ensures data.Some? && data.value.Truthy() ==>
              row == EventRow(data.value.fields["date"], data.value.fields["time"], data.value.fields["message"])
    ensures !(data.Some? && data.value.Truthy()) ==> row == Placeholder
  {
    if data.Some? && data.value.Truthy() then
      EventRow(data.value.fields["date"], data.value.fields["time"], data.value.fields["message"])
    else Placeholder
  }

  /** One job: the username's row is replaced, or created when absent;
      every other row is untouched. */
  function Upsert(t: Table<EventRow>, j: EventJob): (t': Table<EventRow>)
    requires !Raises(j.data)
    ensures t'.Keys == t.Keys + {j.username}
    ensures t'[j.username] == DeathRow(j.data)
    ensures forall u :: u in t && u != j.username ==> t'[u] == t[u]
  {
    t[j.username := DeathRow(j.data)]
  }

  function Upserts(t: Table<EventRow>, js: seq<EventJob>): Table<EventRow>
    requires forall k :: 0 <= k < |js| ==> !Raises(js[k].data)
    decreases |js|
  {
    if js == [] then t else Upsert(Upserts(t, js[..|js| - 1]), js[|js| - 1])
  }

  lemma UpsertsSnoc(t: Table<EventRow>, done: seq<EventJob>, j: EventJob)
    requires forall k :: 0 <= k < |done| ==> !Raises(done[k].data)
    requires !Raises(j.data)
    ensures forall k :: 0 <= k < |done + [j]| ==> !Raises((done + [j])[k].data)
    ensures Upserts(t, done + [j]) == Upsert(Upserts(t, done), j)
  {
    assert (done + [j])[..|done|] == done;
  }

  /** `db_worker`: write the jobs in FIFO order up to the sentinel, counting
      one update (and one progress increment) per row written; a job whose
      entry lacks a key ends the thread. */
  method DbWorker(queue: seq<Item<EventJob>>, table: Table<EventRow>)
    returns (table': Table<EventRow>, usersUpdated: nat)
    ensures usersUpdated == |Writable(Pending(queue))|
    ensures table' == Upserts(table, Writable(Pending(queue)))
  {
    table' := table;
    usersUpdated := 0;
    var i := 0;
    ghost var w := Writable(Pending(queue));
    while i < |queue| && queue[i].Job? && !Raises(queue[i].job.data)
      invariant 0 <= i <= |w|
      invariant usersUpdated == i
      invariant table' == Upserts(table, w[..i])
      decreases |queue| - i
    {
      WritableAt(queue, i);
      PrefixSnoc(w, i);
      UpsertsSnoc(table, w[..i], w[i]);
      table' := Upsert(table', queue[i].job);
      usersUpdated := usersUpdated + 1;
      i := i + 1;
    }
    WritableEnd(queue, i);
    assert w[..i] == w;
  }

  /** Upserts of existing usernames never change the table's set of usernames. */
  lemma {:induction false} UpsertsKeepKeys(t: Table<EventRow>, js: seq<EventJob>)
    requires forall k :: 0 <= k < |js| ==> !Raises(js[k].data) && js[k].username in t
    ensures Upserts(t, js).Keys == t.Keys
  {
    if js != [] {
      UpsertsKeepKeys(t, js[..|js| - 1]);
    }
  }

  /** The last job for a username decides its row. */
  lemma {:induction false} UpsertsLastWins(t: Table<EventRow>, js: seq<EventJob>, k: nat)
    requires forall m :: 0 <= m < |js| ==> !Raises(js[m].data)
    requires k < |js|
    requires forall m :: k < m < |js| ==> js[m].username != js[k].username
    ensures js[k].username in Upserts(t, js)
    ensures Upserts(t, js)[js[k].username] == DeathRow(js[k].data)
  {
    if k < |js| - 1 {
      UpsertsLastWins(t, js[..|js| - 1], k);
    }
  }

  /** `load_usernames`: every username of the table. */
  method LoadUsernames(table: Table<EventRow>) returns (usernames: seq<string>)
    ensures forall u :: u in usernames <==> u in table
    ensures Distinct(usernames)
    ensures |usernames| == |table|
  {
    usernames := Select(table, (r: EventRow) => true);
    DistinctCardinality(usernames);
    assert (set u | u in usernames) == table.Keys;
  }

  /** The rows a batch of existing usernames writes keep the set of
      usernames, however early the writer stops. */
  lemma BatchKeepsKeys(table: Table<EventRow>, usernames: seq<string>, fetch: string -> Response<seq<Entry>>)
    requires forall u :: u in usernames ==> u in table
    ensures Upserts(table, Writable(Fetched(usernames, fetch))).Keys == table.Keys
  {
    var jobs := Fetched(usernames, fetch);
    var written := Writable(jobs);
    WritablePrefix(jobs);
    forall k | 0 <= k < |written| ensures written[k].username in table {
      assert written[k] == jobs[k];
    }
    UpsertsKeepKeys(table, written);
  }

  /** A batch of every username of the table, each once, whose lookups all
      have their keys: every row is the one built from its own lookup. */
  lemma BatchRows(table: Table<EventRow>, usernames: seq<string>, fetch: string -> Response<seq<Entry>>)
    requires forall u :: u in usernames <==> u in table
    requires Distinct(usernames)
    requires forall u :: u in table ==> !Raises(FetchEvent(u, fetch(u)).data)
    ensures Writable(Fetched(usernames, fetch)) == Fetched(usernames, fetch)
    ensures forall u :: u in table ==>
              u in Upserts(table, Fetched(usernames, fetch)) &&
              Upserts(table, Fetched(usernames, fetch))[u] == DeathRow(FetchEvent(u, fetch(u)).data)
  {
    var jobs := Fetched(usernames, fetch);
    WritableAll(jobs);
    forall u | u in table ensures u in Upserts(table, jobs) && Upserts(table, jobs)[u] == DeathRow(FetchEvent(u, fetch(u)).data) {
      var k :| 0 <= k < |usernames| && usernames[k] == u;
      UpsertsLastWins(table, jobs, k);
    }
  }

  /** What the writer leaves after a batch of every username, each once:
      the same usernames and at most one row written per username; when every
      lookup has its keys, every row written, each from its own lookup. */
  lemma BatchOutcome(table: Table<EventRow>, usernames: seq<string>, fetch: string -> Response<seq<Entry>>,
                     table': Table<EventRow>, updated: nat)
    requires forall u :: u in usernames <==> u in table
    requires Distinct(usernames) && |usernames| == |table|
    requires table' == Upserts(table, Writable(Fetched(usernames, fetch)))
    requires updated == |Writable(Fetched(usernames, fetch))|
    ensures table'.Keys == table.Keys
    ensures updated <= |table|
    ensures (forall u :: u in table ==> !Raises(FetchEvent(u, fetch(u)).data)) ==>
              (forall u :: u in table ==> table'[u] == DeathRow(FetchEvent(u, fetch(u)).data)) &&
              updated == |table|
  {
    BatchKeepsKeys(table, usernames, fetch);
    if forall u :: u in table ==> !Raises(FetchEvent(u, fetch(u)).data) {
      BatchRows(table, usernames, fetch);
    }
  }

  /** `update_lastdeath_db`: `fetch` gives the response for each username,
      `early` how many of the writer's increments reach the progress queue
      before the main thread's sentinel. */
  method UpdateLastDeathDb(table: Table<EventRow>, fetch: string -> Response<seq<Entry>>, early: nat)
    returns (table': Table<EventRow>, processed: int)
    ensures table'.Keys == table.Keys
    ensures 0 <= processed <= |table|
    ensures (forall u :: u in table ==> !Raises(FetchEvent(u, fetch(u)).data)) ==>
              (forall u :: u in table ==> table'[u] == DeathRow(FetchEvent(u, fetch(u)).data)) &&
              processed == Progress.Min(early, |table|)
  {
    var usernames := LoadUsernames(table);
    if |usernames| == 0 {
      return table, 0;
    }

    // One job per submitted task, then the sentinel once every task is done.
    var jobs := Fetched(usernames, fetch);
    var updated;
    table', updated := DbWorker(Submitted(jobs), table);
    BatchOutcome(table, usernames, fetch, table', updated);
    processed := Progress.ProgressReporter(Progress.RacedQueue(updated, early), |usernames|);
    assert processed == Progress.Min(Progress.Min(early, updated), |usernames|) by {
      Progress.RacedCount(updated, early, |usernames|);
    }
  }
}
