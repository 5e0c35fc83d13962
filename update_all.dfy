/** The combined refresh job (`update_all.py`): select the stale players, look
    up each one's last-seen time and, when it is known, the four event
    categories; route every category result to the single writer of the
    category tables and every last-seen result to the single writer of the
    `players` table; count the successes on the progress queue. */
module UpdateAll {
  import opened Common
  import opened Fifo
  import Progress

  const DaysBetweenUpdates := 7
  const SecondsPerDay := 86400

  /** The four event categories, each kept in its own table and SQLite file. */
  datatype Category = LastKill | LastDeath | FirstKill | FirstDeath

  /** The remote lookups a worker can issue for one username. */
  datatype Endpoint = SeenEndpoint | StatsEndpoint(category: Category)

  /** The order in which the category jobs of one user are put on the queue. */
  const CategoryOrder: seq<Category> := [LastKill, LastDeath, FirstKill, FirstDeath]

  const StatsRequests: seq<Endpoint> :=
    [StatsEndpoint(LastKill), StatsEndpoint(LastDeath), StatsEndpoint(FirstKill), StatsEndpoint(FirstDeath)]

  /** The four category tables, by the name the writer's `connections` dict uses. */
  datatype Stores = Stores(lastkill: Table<EventRow>, lastdeath: Table<EventRow>,
                           firstkill: Table<EventRow>, firstdeath: Table<EventRow>)
  {
    function Get(c: Category): Table<EventRow> {
      match c
      case LastKill => lastkill
      case LastDeath => lastdeath
      case FirstKill => firstkill
      case FirstDeath => firstdeath
    }

    function Set(c: Category, t: Table<EventRow>): (s: Stores)
      ensures s.Get(c) == t
      ensures forall d :: d != c ==> s.Get(d) == Get(d)
    {
      match c
      case LastKill => this.(lastkill := t)
      case LastDeath => this.(lastdeath := t)
      case FirstKill => this.(firstkill := t)
      case FirstDeath => this.(firstdeath := t)
    }
  }

  // ---------------------------------------------------------------------
  // Staleness selection

  /** A timestamp printed as text: calendar date, separator, time of day.
      Both formats below are fixed-width, so comparing two of them as strings
      compares the dates first, then the separators, then the times. */
  datatype StampText = StampText(day: int, sep: char, time: int)

  predicate TextLess(a: StampText, b: StampText) {
    a.day < b.day || (a.day == b.day && (a.sep < b.sep || (a.sep == b.sep && a.time < b.time)))
  }

  /** The calendar day a timestamp falls on (days of 86400 seconds, one time zone). */
  function Day(t: Stamp): int {
    t / SecondsPerDay
  }

  /** SQLite's `datetime(x)`: `YYYY-MM-DD HH:MM:SS`, with a space before the time. */
  function SqliteDatetime(t: Stamp): StampText {
    StampText(Day(t), ' ', t % SecondsPerDay)
  }

  /** Python's `datetime.isoformat()`: `YYYY-MM-DDTHH:MM:SS[.ffffff]`, with a `T` before the time. */
  function IsoFormat(t: Stamp): StampText {
    StampText(Day(t), 'T', t % SecondsPerDay)
  }

  /** `lastupdated IS NULL OR datetime(lastupdated) < threshold.isoformat()`, with
      the threshold `DAYS_BETWEEN_UPDATES` days before now, compared as text. */
  predicate IsStale(p: Player, now: Stamp) {
    p.lastupdated.None?
    || TextLess(SqliteDatetime(p.lastupdated.value), IsoFormat(now - DaysBetweenUpdates * SecondsPerDay))
  }

  method GetUsersToUpdate(players: Table<Player>, now: Stamp) returns (users: seq<string>)
    ensures forall u :: u in users <==> u in players && IsStale(players[u], now)
    ensures Distinct(users)
  {
    users := Select(players, p => IsStale(p, now));
  }

  /** Since a space sorts before `T`, the text comparison decides by calendar
      day alone: a player is stale when its stamp is dated on or before the
      day seven days before the run, whatever the time of day. */
  lemma StaleByDay(p: Player, now: Stamp)
    ensures IsStale(p, now) <==> p.lastupdated.None? || Day(p.lastupdated.value) <= Day(now) - DaysBetweenUpdates
  {
  }

  /** A refresh exactly seven days old is selected; so is one six days and 22
      hours old when the run starts before 22:00, and one of the same age is
      not when the run starts later in the day. */
  lemma StaleBoundary(p: Player, now: Stamp)
    ensures p.lastupdated.None? ==> IsStale(p, now)
    ensures p.lastupdated == Some(now - 6 * SecondsPerDay) ==> !IsStale(p, now)
    ensures p.lastupdated == Some(now - 7 * SecondsPerDay) ==> IsStale(p, now)
    ensures p.lastupdated == Some(now - 8 * SecondsPerDay) ==> IsStale(p, now)
    ensures p.lastupdated == Some(now - 6 * SecondsPerDay - 22 * 3600) ==>
              (IsStale(p, now) <==> now % SecondsPerDay < 22 * 3600)
  {
    StaleByDay(p, now);
  }

  // ---------------------------------------------------------------------
  // Remote lookups, supplied as their outcomes

  /** What `requests.get` produced: None when it raised. */
  type Reply<B> = Option<Response<B>>

  /** `fetch_data`: the decoded body of a 200 response, None otherwise. */
  function FetchData<B>(r: Reply<B>): (body: Option<B>)
    ensures body.Some? <==> r.Some? && r.value.status == 200
    ensures body.Some? ==> body.value == r.value.body
  {
    if r.Some? && r.value.status == 200 then Some(r.value.body) else None
  }

  /** `fetch_last_seen`: `data[0].get('seen')` when the body is a non-empty
      list, None otherwise. */
  function FetchLastSeen(r: Reply<SeenBody>): (seen: Option<string>)
    ensures seen.Some? ==> FetchData(r).Some? && FetchData(r).value.SeenList?
    ensures (FetchData(r).Some? && FetchData(r).value.SeenList? && |FetchData(r).value.seen| > 0)
            ==> seen == FetchData(r).value.seen[0]
    ensures (FetchData(r).Some? && FetchData(r).value.SeenList? && |FetchData(r).value.seen| == 0)
            ==> seen.None?
  {
    match FetchData<SeenBody>(r)
    case Some(SeenList(s)) => if |s| > 0 then s[0] else None
    case _ => None
  }

  /** The five lookups one username may need. */
  datatype UserFetch = UserFetch(seen: Reply<SeenBody>,
                                 lastkill: Reply<seq<Entry>>, lastdeath: Reply<seq<Entry>>,
                                 firstkill: Reply<seq<Entry>>, firstdeath: Reply<seq<Entry>>)
  {
    function Stats(c: Category): Reply<seq<Entry>> {
      match c
      case LastKill => lastkill
      case LastDeath => lastdeath
      case FirstKill => firstkill
      case FirstDeath => firstdeath
    }
  }

  /** `x[0] if x else None` over the result of `fetch_data`. */
  function Payload(r: Reply<seq<Entry>>): (data: Option<Entry>)
    ensures data.Some? <==> FetchData(r).Some? && |FetchData(r).value| > 0
    ensures data.Some? ==> data.value == FetchData(r).value[0]
  {
    match FetchData(r)
    case Some(list) => if |list| > 0 then Some(list[0]) else None
    case None => None
  }

  /** The gate of `update_user_data`: the last-seen value is truthy. */
  predicate Active(f: UserFetch) {
    TruthyText(FetchLastSeen(f.seen))
  }

  // ---------------------------------------------------------------------
  // Job emission

  /** `(db_name, username, data)` on the category queue. */
  datatype CategoryJob = CategoryJob(category: Category, username: string, data: Option<Entry>)

  /** `(username, new_last_seen)` on the finalize queue. */
  datatype FinalJob = FinalJob(username: string, lastseen: string)

  /** The category jobs `update_user_data` puts for one user: four, in the
      order lastkill, lastdeath, firstkill, firstdeath, when the gate opens;
      none otherwise. */
  function Emitted(u: string, f: UserFetch): (jobs: seq<CategoryJob>)
    ensures |jobs| == if Active(f) then 4 else 0
    ensures forall k :: 0 <= k < |jobs| ==>
              jobs[k] == CategoryJob(CategoryOrder[k], u, Payload(f.Stats(CategoryOrder[k])))
  {
    if Active(f) then
      [CategoryJob(LastKill, u, Payload(f.lastkill)), CategoryJob(LastDeath, u, Payload(f.lastdeath)),
       CategoryJob(FirstKill, u, Payload(f.firstkill)), CategoryJob(FirstDeath, u, Payload(f.firstdeath))]
    else []
  }

  /** The finalize job `update_user_data` puts for one user: one exactly when
      the gate opens, carrying the last-seen value. */
  function Finalize(u: string, f: UserFetch): (jobs: seq<FinalJob>)
    ensures |jobs| == if Active(f) then 1 else 0
    ensures Active(f) ==> jobs[0] == FinalJob(u, FetchLastSeen(f.seen).value) && jobs[0].lastseen != ""
  {
    if Active(f) then [FinalJob(u, FetchLastSeen(f.seen).value)] else []
  }

  /** The three queues of one run; the worker pool is their only producer. */
  class Queues {
    var db: seq<Item<CategoryJob>>
    var finals: seq<Item<FinalJob>>
    var progress: seq<Item<int>>

    constructor ()
      ensures db == [] && finals == [] && progress == []
    {
      db, finals, progress := [], [], [];
    }

    /** `update_user_data`: look up last-seen; only when it is truthy look up
        the four categories, put their four jobs and then the finalize job. */
    method UpdateUserData(username: string, f: UserFetch) returns (ok: bool, requests: seq<Endpoint>)
      modifies this
      ensures ok == Active(f)
      ensures requests == [SeenEndpoint] + (if ok then StatsRequests else [])
      ensures db == old(db) + Wrap(Emitted(username, f))
      ensures finals == old(finals) + Wrap(Finalize(username, f))
      ensures progress == old(progress)
    {
      var newLastSeen := FetchLastSeen(f.seen);
      requests := [SeenEndpoint];
      if TruthyText(newLastSeen) {
        requests := requests + StatsRequests;
        db := db + [Job(CategoryJob(LastKill, username, Payload(f.lastkill)))];
        db := db + [Job(CategoryJob(LastDeath, username, Payload(f.lastdeath)))];
        db := db + [Job(CategoryJob(FirstKill, username, Payload(f.firstkill)))];
        db := db + [Job(CategoryJob(FirstDeath, username, Payload(f.firstdeath)))];
        finals := finals + [Job(FinalJob(username, newLastSeen.value))];
        ok := true;
      } else {
        ok := false;
      }
    }

    /** The main thread's `put(None)` on each queue once every task is done. */
    method Close()
      modifies this
      ensures db == old(db) + [Stop]
      ensures finals == old(finals) + [Stop]
      ensures progress == old(progress) + [Stop]
    {
      db := db + [Stop];
      finals := finals + [Stop];
      progress := progress + [Stop];
    }
  }

  // ---------------------------------------------------------------------
  // The category writer (`db_worker`)

  /** The row `INSERT OR REPLACE` stores: the three fields of a truthy entry
      (`data.get(...)`, so a missing key gives NULL), all NULL otherwise. */
  function RowOf(data: Option<Entry>): (row: EventRow)
    ensures data.Some? && data.value.Truthy() ==>
              row == EventRow(data.value.Get("date"), data.value.Get("time"), data.value.Get("message"))
    ensures !(data.Some? && data.value.Truthy()) ==> row == NullRow
  {
    if data.Some? && data.value.Truthy() then
      EventRow(data.value.Get("date"), data.value.Get("time"), data.value.Get("message"))
    else NullRow
  }

  /** One job: upsert one row of the named table; every other table is untouched. */
  function ApplyJob(s: Stores, j: CategoryJob): (s': Stores)
    ensures j.username in s'.Get(j.category)
    ensures s'.Get(j.category) == s.Get(j.category)[j.username := RowOf(j.data)]
    ensures forall c :: c != j.category ==> s'.Get(c) == s.Get(c)
  {
    s.Set(j.category, s.Get(j.category)[j.username := RowOf(j.data)])
  }

  /** The jobs applied one after the other, in queue order. */
  function ApplyJobs(s: Stores, js: seq<CategoryJob>): Stores
    decreases |js|
  {
    if js == [] then s else ApplyJob(ApplyJobs(s, js[..|js| - 1]), js[|js| - 1])
  }

  lemma ApplyJobsSnoc(s: Stores, js: seq<CategoryJob>, i: nat)
    requires i < |js|
    ensures ApplyJobs(s, js[..i + 1]) == ApplyJob(ApplyJobs(s, js[..i]), js[i])
  {
    assert js[..i + 1][..i] == js[..i];
  }

  /** The writer loop: apply every job up to the first sentinel, in FIFO order. */
  method DbWorker(queue: seq<Item<CategoryJob>>, stores: Stores) returns (stores': Stores)
    ensures stores' == ApplyJobs(stores, Pending(queue))
  {
    stores' := stores;
    var i := 0;
    ghost var p := Pending(queue);
    while i < |queue| && queue[i].Job?
      invariant 0 <= i <= |p|
      invariant stores' == ApplyJobs(stores, p[..i])
      decreases |queue| - i
    {
      PendingAt(queue, i);
      ApplyJobsSnoc(stores, p, i);
      stores' := ApplyJob(stores', queue[i].job);
      i := i + 1;
    }
    PendingDone(queue, i);
    assert p[..i] == p;
  }

  /** The last job for a (table, username) pair decides that row. */
  lemma {:induction false} LastWriteWins(s: Stores, js: seq<CategoryJob>, k: nat)
    requires k < |js|
    requires forall m :: k < m < |js| ==> !(js[m].category == js[k].category && js[m].username == js[k].username)
    ensures js[k].username in ApplyJobs(s, js).Get(js[k].category)
    ensures ApplyJobs(s, js).Get(js[k].category)[js[k].username] == RowOf(js[k].data)
  {
    var n := |js| - 1;
    var mid := ApplyJobs(s, js[..n]);
    assert ApplyJobs(s, js) == ApplyJob(mid, js[n]);
    if k < n {
      LastWriteWins(s, js[..n], k);
      assert js[..n][k] == js[k];
    }
  }

  /** A row that no job names keeps its presence and its value. */
  lemma {:induction false} UntouchedRow(s: Stores, js: seq<CategoryJob>, c: Category, u: string)
    requires forall m :: 0 <= m < |js| ==> !(js[m].category == c && js[m].username == u)
    ensures (u in ApplyJobs(s, js).Get(c)) == (u in s.Get(c))
    ensures u in s.Get(c) ==> ApplyJobs(s, js).Get(c)[u] == s.Get(c)[u]
  {
    if js != [] {
      UntouchedRow(s, js[..|js| - 1], c, u);
    }
  }

  /** The usernames the jobs name in table `c`. */
  function Named(js: seq<CategoryJob>, c: Category): set<string> {
    set m | 0 <= m < |js| && js[m].category == c :: js[m].username
  }

  lemma NamedSnoc(js: seq<CategoryJob>, c: Category)
    requires js != []
    ensures Named(js, c)
         == Named(js[..|js| - 1], c) + (if js[|js| - 1].category == c then {js[|js| - 1].username} else {})
  {
    var n := |js| - 1;
    var before := js[..n];
    forall u | u in Named(js, c)
      ensures u in Named(before, c) || (js[n].category == c && u == js[n].username)
    {
      var m :| 0 <= m < |js| && js[m].category == c && js[m].username == u;
      if m < n {
        assert before[m] == js[m];
      }
    }
    forall u | u in Named(before, c) ensures u in Named(js, c) {
      var m :| 0 <= m < n && before[m].category == c && before[m].username == u;
      assert js[m] == before[m];
    }
  }

  /** The usernames of a table after the jobs: the old ones plus those the jobs name. */
  lemma {:induction false} WrittenKeys(s: Stores, js: seq<CategoryJob>, c: Category)
    ensures ApplyJobs(s, js).Get(c).Keys == s.Get(c).Keys + Named(js, c)
  {
    if js == [] {
      assert Named(js, c) == {};
    } else {
      var n := |js| - 1;
      WrittenKeys(s, js[..n], c);
      NamedSnoc(js, c);
    }
  }

  lemma {:induction false} ApplyJobsAppend(s: Stores, a: seq<CategoryJob>, b: seq<CategoryJob>)
    ensures ApplyJobs(s, a + b) == ApplyJobs(ApplyJobs(s, a), b)
  {
    if b == [] {
      assert a + b == a;
    } else {
      var n := |b| - 1;
      assert (a + b)[..|a + b| - 1] == a + b[..n];
      ApplyJobsAppend(s, a, b[..n]);
    }
  }

  /** The four jobs of one active user write that user's row in every table. */
  lemma EmittedWrites(t: Stores, u: string, f: UserFetch, c: Category)
    ensures ApplyJobs(t, Emitted(u, f)).Get(c)
         == if Active(f) then t.Get(c)[u := RowOf(Payload(f.Stats(c)))] else t.Get(c)
  {
    var e := Emitted(u, f);
    if Active(f) {
      var t1 := ApplyJob(t, e[0]);
      var t2 := ApplyJob(t1, e[1]);
      var t3 := ApplyJob(t2, e[2]);
      assert ApplyJobs(t, e[..1]) == t1 by {
        assert e[..1][..0] == [];
      }
      assert ApplyJobs(t, e[..2]) == t2 by {
        assert e[..2][..1] == e[..1];
      }
      assert ApplyJobs(t, e[..3]) == t3 by {
        assert e[..3][..2] == e[..2];
      }
      assert ApplyJobs(t, e) == ApplyJob(t3, e[3]);
    }
  }

  // ---------------------------------------------------------------------
  // The finalize writer (`final_update_worker`)

  /** `UPDATE players SET lastseen, lastupdated WHERE username`: one existing
      row gets the two columns, nothing is inserted, nothing else changes. */
  function ApplyFinal(players: Table<Player>, j: FinalJob, clock: Stamp): (p': Table<Player>)
    ensures p'.Keys == players.Keys
    ensures j.username in players ==>
              p'[j.username] == players[j.username].(lastseen := Some(j.lastseen), lastupdated := Some(clock))
    ensures forall u :: u in players && u != j.username ==> p'[u] == players[u]
  {
    if j.username in players then
      players[j.username := players[j.username].(lastseen := Some(j.lastseen), lastupdated := Some(clock))]
    else players
  }

  function ApplyFinals(players: Table<Player>, js: seq<FinalJob>, clock: Stamp): Table<Player>
    decreases |js|
  {
    if js == [] then players else ApplyFinal(ApplyFinals(players, js[..|js| - 1], clock), js[|js| - 1], clock)
  }

  lemma ApplyFinalsSnoc(players: Table<Player>, js: seq<FinalJob>, i: nat, clock: Stamp)
    requires i < |js|
    ensures ApplyFinals(players, js[..i + 1], clock) == ApplyFinal(ApplyFinals(players, js[..i], clock), js[i], clock)
  {
    assert js[..i + 1][..i] == js[..i];
  }

  /** The finalize loop; `clock` is the time `datetime.now()` reads while it runs. */
  method FinalUpdateWorker(queue: seq<Item<FinalJob>>, players: Table<Player>, clock: Stamp)
    returns (players': Table<Player>)
    ensures players' == ApplyFinals(players, Pending(queue), clock)
  {
    players' := players;
    var i := 0;
    ghost var p := Pending(queue);
    while i < |queue| && queue[i].Job?
      invariant 0 <= i <= |p|
      invariant players' == ApplyFinals(players, p[..i], clock)
      decreases |queue| - i
    {
      PendingAt(queue, i);
      ApplyFinalsSnoc(players, p, i, clock);
      players' := ApplyFinal(players', queue[i].job, clock);
      i := i + 1;
    }
    PendingDone(queue, i);
    assert p[..i] == p;
  }

  /** The finalize writer never inserts or deletes a player. */
  lemma {:induction false} FinalsKeepKeys(players: Table<Player>, js: seq<FinalJob>, clock: Stamp)
    ensures ApplyFinals(players, js, clock).Keys == players.Keys
  {
    if js != [] {
      FinalsKeepKeys(players, js[..|js| - 1], clock);
    }
  }

  lemma {:induction false} ApplyFinalsAppend(p: Table<Player>, a: seq<FinalJob>, b: seq<FinalJob>, clock: Stamp)
    ensures ApplyFinals(p, a + b, clock) == ApplyFinals(ApplyFinals(p, a, clock), b, clock)
  {
    if b == [] {
      assert a + b == a;
    } else {
      var n := |b| - 1;
      assert (a + b)[..|a + b| - 1] == a + b[..n];
      ApplyFinalsAppend(p, a, b[..n], clock);
    }
  }

  // ---------------------------------------------------------------------
  // What the worker pool hands the writers for a whole batch

  /** The category queue's jobs after the users were processed in this order. */
  function Produced(users: seq<string>, fetch: string -> UserFetch): seq<CategoryJob>
    decreases |users|
  {
    if users == [] then []
    else Produced(users[..|users| - 1], fetch) + Emitted(users[|users| - 1], fetch(users[|users| - 1]))
  }

  /** The finalize queue's jobs after the users were processed in this order. */
  function FinalJobs(users: seq<string>, fetch: string -> UserFetch): seq<FinalJob>
    decreases |users|
  {
    if users == [] then []
    else FinalJobs(users[..|users| - 1], fetch) + Finalize(users[|users| - 1], fetch(users[|users| - 1]))
  }

  /** The number of tasks that returned True. */
  function Successes(users: seq<string>, fetch: string -> UserFetch): nat
    decreases |users|
  {
    if users == [] then 0
    else Successes(users[..|users| - 1], fetch) + (if Active(fetch(users[|users| - 1])) then 1 else 0)
  }

  /** The users of the batch whose last-seen lookup was truthy. */
  function ActiveSet(users: seq<string>, fetch: string -> UserFetch): set<string> {
    set k | 0 <= k < |users| && Active(fetch(users[k])) :: users[k]
  }

  lemma ActiveSetSnoc(users: seq<string>, fetch: string -> UserFetch)
    requires users != []
    ensures ActiveSet(users, fetch)
         == ActiveSet(users[..|users| - 1], fetch)
            + (if Active(fetch(users[|users| - 1])) then {users[|users| - 1]} else {})
  {
    var n := |users| - 1;
    var before := users[..n];
    forall x | x in ActiveSet(users, fetch)
      ensures x in ActiveSet(before, fetch) || (x == users[n] && Active(fetch(users[n])))
    {
      var k :| 0 <= k < |users| && Active(fetch(users[k])) && users[k] == x;
      if k < n {
        assert before[k] == x;
      }
    }
    forall x | x in ActiveSet(before, fetch) ensures x in ActiveSet(users, fetch) {
      var k :| 0 <= k < n && Active(fetch(before[k])) && before[k] == x;
      assert users[k] == x;
    }
  }

  /** The rows a batch writes into table `c`: one per active user. */
  function NewRows(c: Category, refreshed: set<string>, fetch: string -> UserFetch): Table<EventRow> {
    map u | u in refreshed :: RowOf(Payload(fetch(u).Stats(c)))
  }

  /** The `players` table after the finalize writer has drained a batch. */
  function Stamped(players: Table<Player>, refreshed: set<string>, fetch: string -> UserFetch, clock: Stamp)
    : Table<Player>
  {
    map u | u in players ::
      if u in refreshed then players[u].(lastseen := FetchLastSeen(fetch(u).seen), lastupdated := Some(clock))
      else players[u]
  }

  /** Whatever order the users were processed in, each table ends as the old
      one overwritten by one row per active user (the row of that user's own
      lookup); users whose last-seen was empty leave no trace. */
  lemma {:induction false} ProducedWrites(s: Stores, users: seq<string>, fetch: string -> UserFetch, c: Category)
    ensures ApplyJobs(s, Produced(users, fetch)).Get(c) == s.Get(c) + NewRows(c, ActiveSet(users, fetch), fetch)
  {
    if users == [] {
      assert ActiveSet(users, fetch) == {};
      assert s.Get(c) + NewRows(c, {}, fetch) == s.Get(c);
    } else {
      var n := |users| - 1;
      var before := users[..n];
      var u := users[n];
      ProducedWrites(s, before, fetch, c);
      var mid := ApplyJobs(s, Produced(before, fetch));
      assert Produced(users, fetch) == Produced(before, fetch) + Emitted(u, fetch(u));
      ApplyJobsAppend(s, Produced(before, fetch), Emitted(u, fetch(u)));
      EmittedWrites(mid, u, fetch(u), c);
      ActiveSetSnoc(users, fetch);
      var earlier := NewRows(c, ActiveSet(before, fetch), fetch);
      if Active(fetch(u)) {
        var row := RowOf(Payload(fetch(u).Stats(c)));
        assert ActiveSet(users, fetch) == ActiveSet(before, fetch) + {u};
        NewRowsAdd(c, ActiveSet(before, fetch), u, fetch);
        UnionUpdate(s.Get(c), earlier, u, row);
        calc {
          ApplyJobs(s, Produced(users, fetch)).Get(c);
          ApplyJobs(mid, Emitted(u, fetch(u))).Get(c);
          mid.Get(c)[u := row];
          (s.Get(c) + earlier)[u := row];
          s.Get(c) + earlier[u := row];
          s.Get(c) + NewRows(c, ActiveSet(users, fetch), fetch);
        }
      } else {
        assert ActiveSet(users, fetch) == ActiveSet(before, fetch);
        calc {
          ApplyJobs(s, Produced(users, fetch)).Get(c);
          ApplyJobs(mid, Emitted(u, fetch(u))).Get(c);
          mid.Get(c);
          s.Get(c) + NewRows(c, ActiveSet(users, fetch), fetch);
        }
      }
    }
  }

  lemma NewRowsAdd(c: Category, refreshed: set<string>, u: string, fetch: string -> UserFetch)
    ensures NewRows(c, refreshed + {u}, fetch) == NewRows(c, refreshed, fetch)[u := RowOf(Payload(fetch(u).Stats(c)))]
  {
  }

  lemma UnionUpdate<K, V>(a: map<K, V>, b: map<K, V>, k: K, v: V)
    ensures (a + b)[k := v] == a + b[k := v]
  {
  }

  /** Stamping one more active user is one more finalize job. */
  lemma StampedAdd(players: Table<Player>, refreshed: set<string>, u: string, fetch: string -> UserFetch, clock: Stamp)
    requires Active(fetch(u))
    ensures Stamped(players, refreshed + {u}, fetch, clock)
         == ApplyFinal(Stamped(players, refreshed, fetch, clock), FinalJob(u, FetchLastSeen(fetch(u).seen).value), clock)
  {
  }

  /** Whatever order the users were processed in, exactly the active users
      that exist in `players` get their last-seen value and the clock. */
  lemma {:induction false} FinalsStamp(players: Table<Player>, users: seq<string>, fetch: string -> UserFetch, clock: Stamp)
    ensures ApplyFinals(players, FinalJobs(users, fetch), clock) == Stamped(players, ActiveSet(users, fetch), fetch, clock)
  {
    if users == [] {
      assert ActiveSet(users, fetch) == {};
      assert Stamped(players, {}, fetch, clock) == players;
    } else {
      var n := |users| - 1;
      var before := users[..n];
      var u := users[n];
      FinalsStamp(players, before, fetch, clock);
      ApplyFinalsAppend(players, FinalJobs(before, fetch), Finalize(u, fetch(u)), clock);
      ActiveSetSnoc(users, fetch);
      var mid := ApplyFinals(players, FinalJobs(before, fetch), clock);
      if Active(fetch(u)) {
        var j := Finalize(u, fetch(u));
        assert j[..0] == [];
        assert ApplyFinals(mid, j, clock) == ApplyFinal(mid, j[0], clock);
        StampedAdd(players, ActiveSet(before, fetch), u, fetch, clock);
      } else {
        assert Finalize(u, fetch(u)) == [];
      }
    }
  }

  /** With no username processed twice, the successes are the active users. */
  lemma {:induction false} SuccessesCount(users: seq<string>, fetch: string -> UserFetch)
    requires Distinct(users)
    ensures Successes(users, fetch) == |ActiveSet(users, fetch)| <= |users|
  {
    if users == [] {
      assert ActiveSet(users, fetch) == {};
    } else {
      var n := |users| - 1;
      SuccessesCount(users[..n], fetch);
      ActiveSetSnoc(users, fetch);
      assert users[n] !in ActiveSet(users[..n], fetch);
    }
  }

  // ---------------------------------------------------------------------
  // The whole run (`update_all_data`)

  /** The worker pool: every submitted `update_user_data` task runs once, in
      the order `users` lists them, and the main thread puts one progress
      increment for each task that returned True. */
  method SubmitAll(queues: Queues, users: seq<string>, fetch: string -> UserFetch)
    requires queues.db == [] && queues.finals == [] && queues.progress == []
    modifies queues
    ensures queues.db == Wrap(Produced(users, fetch))
    ensures queues.finals == Wrap(FinalJobs(users, fetch))
    ensures queues.progress == Wrap(Progress.Ticks(Successes(users, fetch)))
  {
    var i := 0;
    while i < |users|
      invariant 0 <= i <= |users|
      invariant queues.db == Wrap(Produced(users[..i], fetch))
      invariant queues.finals == Wrap(FinalJobs(users[..i], fetch))
      invariant queues.progress == Wrap(Progress.Ticks(Successes(users[..i], fetch)))
    {
      SubmitStep(users, i, fetch);
      var ok, _ := queues.UpdateUserData(users[i], fetch(users[i]));
      if ok {
        queues.progress := queues.progress + [Job(1)];
      }
      i := i + 1;
    }
    assert users[..i] == users;
  }

  /** One more submission: its jobs and its increment follow those of the earlier ones. */
  lemma SubmitStep(users: seq<string>, i: nat, fetch: string -> UserFetch)
    requires i < |users|
    ensures Wrap(Produced(users[..i + 1], fetch)) == Wrap(Produced(users[..i], fetch)) + Wrap(Emitted(users[i], fetch(users[i])))
    ensures Wrap(FinalJobs(users[..i + 1], fetch)) == Wrap(FinalJobs(users[..i], fetch)) + Wrap(Finalize(users[i], fetch(users[i])))
    ensures Wrap(Progress.Ticks(Successes(users[..i + 1], fetch)))
         == Wrap(Progress.Ticks(Successes(users[..i], fetch))) + (if Active(fetch(users[i])) then [Job(1)] else [])
  {
    assert users[..i + 1][..i] == users[..i];
    WrapAppend(Produced(users[..i], fetch), Emitted(users[i], fetch(users[i])));
    WrapAppend(FinalJobs(users[..i], fetch), Finalize(users[i], fetch(users[i])));
    var n := Successes(users[..i], fetch);
    if Active(fetch(users[i])) {
      assert Progress.Ticks(n + 1) == Progress.Ticks(n) + [1];
      WrapAppend(Progress.Ticks(n), [1]);
    }
  }

  datatype RunResult = NothingToDo | Completed(processed: int)

  /** The stale players whose last-seen lookup is truthy. */
  function Refreshable(players: Table<Player>, now: Stamp, fetch: string -> UserFetch): set<string> {
    set u | u in players && IsStale(players[u], now) && Active(fetch(u))
  }

  /** The batch's active users are the stale players with a truthy last-seen. */
  lemma BatchIsRefreshable(players: Table<Player>, now: Stamp, users: seq<string>, fetch: string -> UserFetch)
    requires forall u :: u in users <==> u in players && IsStale(players[u], now)
    ensures ActiveSet(users, fetch) == Refreshable(players, now, fetch)
  {
    forall u | u in Refreshable(players, now, fetch) ensures u in ActiveSet(users, fetch) {
      var k :| 0 <= k < |users| && users[k] == u;
    }
  }

  /** One run over the `players` table after the bulk import. `now` is the
      selection time, `clock` the time the finalize writer stamps, `fetch`
      the outcome of every remote lookup. The workers' completion order does
      not show in the result. */
  method UpdateAllData(players: Table<Player>, stores: Stores, now: Stamp, clock: Stamp, fetch: string -> UserFetch)
    returns (result: RunResult, players': Table<Player>, stores': Stores)
    ensures result == NothingToDo <==> forall u :: u in players ==> !IsStale(players[u], now)
    ensures result == NothingToDo ==> players' == players && stores' == stores
    ensures result.Completed? ==>
              && (forall c :: stores'.Get(c) == stores.Get(c) + NewRows(c, Refreshable(players, now, fetch), fetch))
              && players' == Stamped(players, Refreshable(players, now, fetch), fetch, clock)
              && result.processed == |Refreshable(players, now, fetch)|
  {
    var users := GetUsersToUpdate(players, now);
    if |users| == 0 {
      return NothingToDo, players, stores;
    }

    var queues := new Queues();
    SubmitAll(queues, users, fetch);
    queues.Close();
    var db, finals, progress := queues.db, queues.finals, queues.progress;

    stores' := DbWorker(db, stores);
    players' := FinalUpdateWorker(finals, players, clock);
    var processed := Progress.ProgressReporter(progress, |users|);
    result := Completed(processed);

    var refreshed := Refreshable(players, now, fetch);
    BatchIsRefreshable(players, now, users, fetch);
    assert forall c :: stores'.Get(c) == stores.Get(c) + NewRows(c, refreshed, fetch) by {
      assert db == Wrap(Produced(users, fetch)) + [Stop] + [];
      WrappedPending(Produced(users, fetch), []);
      forall c ensures stores'.Get(c) == stores.Get(c) + NewRows(c, refreshed, fetch) {
        ProducedWrites(stores, users, fetch, c);
      }
    }
    assert players' == Stamped(players, refreshed, fetch, clock) by {
      assert finals == Wrap(FinalJobs(users, fetch)) + [Stop] + [];
      WrappedPending(FinalJobs(users, fetch), []);
      FinalsStamp(players, users, fetch, clock);
    }
    assert processed == |refreshed| by {
      var n := Successes(users, fetch);
      assert progress == Wrap(Progress.Ticks(n)) + [Stop] + [];
      WrappedPending(Progress.Ticks(n), []);
      SuccessesCount(users, fetch);
      Progress.TicksBounded(n, |users|);
    }
  }

  /** A refreshed player is selected again by exactly the runs dated seven or
      more calendar days after its finalize stamp; in particular, by none that
      starts less than six days after it. */
  lemma RefreshedReselection(players: Table<Player>, refreshed: set<string>, fetch: string -> UserFetch,
                             clock: Stamp, later: Stamp, u: string)
    requires u in players && u in refreshed
    ensures IsStale(Stamped(players, refreshed, fetch, clock)[u], later) <==> Day(later) >= Day(clock) + DaysBetweenUpdates
    ensures later < clock + (DaysBetweenUpdates - 1) * SecondsPerDay ==> !IsStale(Stamped(players, refreshed, fetch, clock)[u], later)
  {
    StaleByDay(Stamped(players, refreshed, fetch, clock)[u], later);
  }

  /** A stale player whose last-seen lookup was empty keeps its row and is
      selected again on every later run. */
  lemma SilentPlayerReselected(players: Table<Player>, now: Stamp, clock: Stamp, later: Stamp,
                               fetch: string -> UserFetch, u: string)
    requires u in players && IsStale(players[u], now) && !Active(fetch(u))
    requires now <= later
    ensures Stamped(players, Refreshable(players, now, fetch), fetch, clock)[u] == players[u]
    ensures IsStale(Stamped(players, Refreshable(players, now, fetch), fetch, clock)[u], later)
  {
  }
}
