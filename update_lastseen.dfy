/** The last-seen refresh (`update_lastseen.py`): every player is looked up
    on `/seen`; one writer thread sets the `lastseen` column of each row with
    `UPDATE`, so no player is added or removed and no other column moves. */
module LastSeen {
  import opened Common
  import opened Fifo
  import Progress

  /** `(username, seen_date)` on the queue. */
  datatype SeenJob = SeenJob(username: string, seen: Option<string>)

  /** `fetch_last_seen`: the `seen` value of the first object of a non-empty
      list body of a 200 response, when that value is truthy; None otherwise. */
  function FetchSeen(username: string, r: Response<SeenBody>): (j: SeenJob)
    ensures j.username == username
    ensures j.seen.Some? <==>
              r.status == 200 && r.body.SeenList? && |r.body.seen| > 0 && TruthyText(r.body.seen[0])
    ensures j.seen.Some? ==> j.seen == r.body.seen[0] && j.seen.value != ""
  {
    if r.status == 200 && r.body.SeenList? && |r.body.seen| > 0 && TruthyText(r.body.seen[0]) then
      SeenJob(username, r.body.seen[0])
    else SeenJob(username, None)
  }

  /** One job: `UPDATE players SET lastseen = ? WHERE username = ?`. An
      unknown username changes nothing; a known one gets the new value (NULL
      when there is none) and keeps every other column. */
  function SetLastSeen(players: Table<Player>, j: SeenJob): (p': Table<Player>)
    ensures p'.Keys == players.Keys
    ensures j.username in players ==>
              p'[j.username] == players[j.username].(lastseen := j.seen)
    ensures forall u :: u in players && u != j.username ==> p'[u] == players[u]
  {
    if j.username in players then players[j.username := players[j.username].(lastseen := j.seen)]
    else players
  }

  function SetAll(players: Table<Player>, js: seq<SeenJob>): Table<Player>
    decreases |js|
  {
    if js == [] then players else SetLastSeen(SetAll(players, js[..|js| - 1]), js[|js| - 1])
  }

  lemma SetAllSnoc(players: Table<Player>, done: seq<SeenJob>, j: SeenJob)
    ensures SetAll(players, done + [j]) == SetLastSeen(SetAll(players, done), j)
  {
    assert (done + [j])[..|done|] == done;
  }

  /** `db_worker`: apply every job up to the sentinel in FIFO order, one
      update (and one progress increment) per job. */
  method DbWorker(queue: seq<Item<SeenJob>>, players: Table<Player>)
    returns (players': Table<Player>, usersUpdated: nat)
    ensures usersUpdated == |Pending(queue)|
    ensures players' == SetAll(players, Pending(queue))
  {
    players' := players;
    usersUpdated := 0;
    var i := 0;
    ghost var p := Pending(queue);
    while i < |queue| && queue[i].Job?
      invariant 0 <= i <= |p|
      invariant usersUpdated == i
      invariant players' == SetAll(players, p[..i])
      decreases |queue| - i
    {
      PendingAt(queue, i);
      PrefixSnoc(p, i);
      SetAllSnoc(players, p[..i], p[i]);
      players' := SetLastSeen(players', queue[i].job);
      usersUpdated := usersUpdated + 1;
      i := i + 1;
    }
    PendingDone(queue, i);
    assert p[..i] == p;
  }

  /** The writer never adds or removes a player. */
  lemma {:induction false} SetAllKeepKeys(players: Table<Player>, js: seq<SeenJob>)
    ensures SetAll(players, js).Keys == players.Keys
  {
    if js != [] {
      SetAllKeepKeys(players, js[..|js| - 1]);
    }
  }

  /** A player no job names keeps its row. */
  lemma {:induction false} SetAllUntouched(players: Table<Player>, js: seq<SeenJob>, u: string)
    requires u in players
    requires forall k :: 0 <= k < |js| ==> js[k].username != u
    ensures u in SetAll(players, js) && SetAll(players, js)[u] == players[u]
  {
    if js != [] {
      SetAllUntouched(players, js[..|js| - 1], u);
      SetAllKeepKeys(players, js[..|js| - 1]);
    }
  }

  /** Whatever the jobs, a player's statistics and refresh stamp stay as they were. */
  lemma {:induction false} SetAllKeepsColumns(players: Table<Player>, js: seq<SeenJob>, u: string)
    requires u in players
    ensures u in SetAll(players, js)
    ensures SetAll(players, js)[u].profile == players[u].profile
    ensures SetAll(players, js)[u].lastupdated == players[u].lastupdated
  {
    if js != [] {
      SetAllKeepsColumns(players, js[..|js| - 1], u);
    }
  }

  /** For a known player, the last job naming it decides `lastseen`, and the
      other columns are those it had before the run. */
  lemma {:induction false} SetAllLastWins(players: Table<Player>, js: seq<SeenJob>, k: nat)
    requires k < |js| && js[k].username in players
    requires forall m :: k < m < |js| ==> js[m].username != js[k].username
    ensures js[k].username in SetAll(players, js)
    ensures SetAll(players, js)[js[k].username] == players[js[k].username].(lastseen := js[k].seen)
  {
    var u := js[k].username;
    SetAllKeepKeys(players, js[..|js| - 1]);
    if k < |js| - 1 {
      SetAllLastWins(players, js[..|js| - 1], k);
    } else {
      SetAllKeepsColumns(players, js[..|js| - 1], u);
    }
  }

  /** `load_usernames`: every username of `players`. */
  method LoadUsernames(players: Table<Player>) returns (usernames: seq<string>)
    ensures forall u :: u in usernames <==> u in players
    ensures Distinct(usernames)
    ensures |usernames| == |players|
  {
    usernames := Select(players, (p: Player) => true);
    DistinctCardinality(usernames);
    assert (set u | u in usernames) == players.Keys;
  }

  /** One job per username of the batch, in the order the pool ran the lookups. */
  function Looked(users: seq<string>, fetch: string -> Response<SeenBody>): (js: seq<SeenJob>)
    ensures |js| == |users|
    ensures forall k :: 0 <= k < |users| ==> js[k] == FetchSeen(users[k], fetch(users[k]))
  {
    seq(|users|, k requires 0 <= k < |users| => FetchSeen(users[k], fetch(users[k])))
  }

  /** A batch of every player, each once: every row gets its own lookup's
      value in `lastseen` and keeps its other columns. */
  lemma BatchRows(players: Table<Player>, usernames: seq<string>, look: string -> Response<SeenBody>)
    requires forall u :: u in usernames <==> u in players
    requires Distinct(usernames)
    ensures SetAll(players, Looked(usernames, look)).Keys == players.Keys
    ensures forall u :: u in players ==>
              SetAll(players, Looked(usernames, look))[u] == players[u].(lastseen := FetchSeen(u, look(u)).seen)
  {
    var jobs := Looked(usernames, look);
    SetAllKeepKeys(players, jobs);
    forall u | u in players ensures SetAll(players, jobs)[u] == players[u].(lastseen := FetchSeen(u, look(u)).seen) {
      var k :| 0 <= k < |usernames| && usernames[k] == u;
      SetAllLastWins(players, jobs, k);
    }
  }

  /** `update_lastseen_data`: `fetch` gives the `/seen` response for each
      username, `early` how many of the writer's increments reach the
      progress queue before the main thread's sentinel. */
  method UpdateLastSeenData(players: Table<Player>, fetch: string -> Response<SeenBody>, early: nat)
    returns (players': Table<Player>, processed: int)
    ensures players'.Keys == players.Keys
    ensures forall u :: u in players ==> players'[u] == players[u].(lastseen := FetchSeen(u, fetch(u)).seen)
    ensures processed == Progress.Min(early, |players|)
  {
    var usernames := LoadUsernames(players);
    if |usernames| == 0 {
      return players, 0;
    }

    // One job per submitted task, then the sentinel once every task is done.
    var jobs := Looked(usernames, fetch);
    var updated;
    players', updated := DbWorker(Submitted(jobs), players);
    BatchRows(players, usernames, fetch);
    processed := Progress.ProgressReporter(Progress.RacedQueue(updated, early), |usernames|);
    assert processed == Progress.Min(Progress.Min(early, updated), |usernames|) by {
      Progress.RacedCount(updated, early, |usernames|);
    }
  }
}
