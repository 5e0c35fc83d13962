/** Values shared by the five refresh scripts: optional values, HTTP responses,
    the JSON objects the remote API returns, the rows of the SQLite tables,
    the `SELECT username ...` batch loaders and the worker-count heuristic. */
module Common {
  import opened Fifo

  datatype Option<+T> = None | Some(value: T)

  /** A response that arrived: its status code and its decoded JSON body. */
  datatype Response<B> = Response(status: int, body: B)

  /** One JSON object of an event list (`{date, time, message}`): field name to
      value, a JSON null being `None`. */
  datatype Entry = Entry(fields: map<string, Option<string>>)
  {
    /** `dict.get(key)`: the value, or None when the key is missing. */
    function Get(key: string): Option<string> {
      if key in fields then fields[key] else None
    }

    /** Python truthiness of a dict: it is not empty. */
    predicate Truthy() {
      |fields| > 0
    }

    /** `dict[key]` succeeds (no KeyError) for every one of the three event keys. */
    predicate HasEventKeys() {
      "date" in fields && "time" in fields && "message" in fields
    }
  }

  /** The JSON body of `/seen`: a list of objects, of which only the value of
      `seen` matters (None when the key is missing or null), or anything else. */
  datatype SeenBody = SeenList(seen: seq<Option<string>>) | NotAList

  /** Python truthiness of an optional string: present and not empty. */
  predicate TruthyText(s: Option<string>) {
    s.Some? && s.value != ""
  }

  /** A row of an event table (`lastkill`, `lastdeath`, `firstkill`,
      `firstdeath`) without its key: `date`, `time`, `message`, all nullable. */
  datatype EventRow = EventRow(date: Option<string>, time: Option<string>, message: Option<string>)

  const NullRow := EventRow(None, None, None)

  /** A SQLite table keyed by its `username TEXT PRIMARY KEY` column. */
  type Table<R> = map<string, R>

  /** Timestamps are whole seconds. */
  type Stamp = int

  /** The statistics columns of a `players` row, as the remote API reports them. */
  datatype Profile = Profile(id: int, uuid: string, kills: int, deaths: int, joins: int, leaves: int, adminlevel: int)

  /** A row of the `players` table without its key. */
  datatype Player = Player(profile: Profile, lastseen: Option<string>, lastupdated: Option<Stamp>)

  predicate Distinct<T(==)>(s: seq<T>) {
    forall i, j :: 0 <= i < j < |s| ==> s[i] != s[j]
  }

  /** A list without repetitions has as many elements as its set. */
  lemma {:induction false} DistinctCardinality<T>(s: seq<T>)
    requires Distinct(s)
    ensures |set x | x in s| == |s|
  {
    if s != [] {
      var n := |s| - 1;
      DistinctCardinality(s[..n]);
      assert (set x | x in s) == (set x | x in s[..n]) + {s[n]};
    }
  }

  /** `[row[0] for row in cursor.fetchall()]` after `SELECT username FROM t WHERE keep`:
      every username whose row satisfies `keep`, each once, in the store's own
      (unspecified) order. */
  method Select<R>(table: Table<R>, keep: R -> bool) returns (rows: seq<string>)
    ensures forall u :: u in rows <==> u in table && keep(table[u])
    ensures Distinct(rows)
  {
    rows := [];
    var rest := table.Keys;
    while rest != {}
      invariant rest <= table.Keys
      invariant forall u :: u in rows <==> u in table && u !in rest && keep(table[u])
      invariant Distinct(rows)
      decreases rest
    {
      var u :| u in rest;
      if keep(table[u]) {
        rows := rows + [u];
      }
      rest := rest - {u};
    }
  }

  /** `min(32, (os.cpu_count() or 1) + 4)`; `cpu` is `os.cpu_count()`, which
      is None when the count cannot be determined. */
  function WorkerCount(cpu: Option<nat>): (n: nat)
    ensures 5 <= n <= 32
    ensures cpu.Some? && 0 < cpu.value <= 28 ==> n == cpu.value + 4
    ensures cpu.Some? && cpu.value >= 28 ==> n == 32
    ensures (cpu.None? || cpu == Some(0)) ==> n == 5
  {
    var cores := if cpu.Some? && cpu.value != 0 then cpu.value else 1;
    if cores + 4 < 32 then cores + 4 else 32
  }

  // ---------------------------------------------------------------------
  // The single-category scripts (`update_lastdeath.py`, `update_firstkill.py`)

  /** `(username, data)` on a single-category queue. */
  datatype EventJob = EventJob(username: string, data: Option<Entry>)

  /** `fetch_last_death` / `fetch_first_kill`: the first object of a non-empty
      200 body, None for any other status or an empty list. */
  function FetchEvent(username: string, r: Response<seq<Entry>>): (j: EventJob)
    ensures j.username == username
    ensures j.data.Some? <==> r.status == 200 && |r.body| > 0
    ensures j.data.Some? ==> j.data.value == r.body[0]
  {
    if r.status == 200 && |r.body| > 0 then EventJob(username, Some(r.body[0])) else EventJob(username, None)
  }

  /** The writer of a single-category script subscripts `data['date']`,
      `data['time']` and `data['message']` of a truthy entry: a missing key
      raises KeyError, which ends the writer thread. */
  predicate Raises(data: Option<Entry>) {
    data.Some? && data.value.Truthy() && !data.value.HasEventKeys()
  }

  /** The jobs such a writer gets through: those before the first that raises. */
  function Writable(js: seq<EventJob>): (r: seq<EventJob>)
    ensures |r| <= |js|
    ensures forall k :: 0 <= k < |r| ==> !Raises(r[k].data)
    ensures |r| < |js| ==> Raises(js[|r|].data)
  {
    if js == [] || Raises(js[0].data) then [] else [js[0]] + Writable(js[1..])
  }

  /** `update_user` for a batch: exactly one job per username, whatever the
      lookup returned, in the order the pool ran the lookups. */
  function Fetched(users: seq<string>, fetch: string -> Response<seq<Entry>>): (js: seq<EventJob>)
    ensures |js| == |users|
    ensures forall k :: 0 <= k < |users| ==> js[k].username == users[k]
    ensures forall k :: 0 <= k < |users| ==> js[k] == FetchEvent(users[k], fetch(users[k]))
  {
    seq(|users|, k requires 0 <= k < |users| => FetchEvent(users[k], fetch(users[k])))
  }

  /** The writer gets through a prefix of its jobs. */
  lemma {:induction false} WritablePrefix(js: seq<EventJob>)
    ensures Writable(js) == js[..|Writable(js)|]
  {
    if js != [] && !Raises(js[0].data) {
      WritablePrefix(js[1..]);
    }
  }

  /** While the writer's loop goes on at slot `i`, slot `i` is the next job it gets through. */
  lemma WritableAt(queue: seq<Item<EventJob>>, i: nat)
    requires i <= |Writable(Pending(queue))|
    requires i < |queue| && queue[i].Job? && !Raises(queue[i].job.data)
    ensures i < |Writable(Pending(queue))|
    ensures Writable(Pending(queue))[i] == queue[i].job
  {
    WritablePrefix(Pending(queue));
  }

  /** When the writer's loop stops at slot `i`, it has got through `i` jobs. */
  lemma WritableEnd(queue: seq<Item<EventJob>>, i: nat)
    requires i <= |Writable(Pending(queue))|
    requires !(i < |queue| && queue[i].Job? && !Raises(queue[i].job.data))
    ensures i == |Writable(Pending(queue))|
  {
    WritablePrefix(Pending(queue));
  }

  /** When no entry is missing a key, the writer gets through every job. */
  lemma {:induction false} WritableAll(js: seq<EventJob>)
    requires forall k :: 0 <= k < |js| ==> !Raises(js[k].data)
    ensures Writable(js) == js
  {
    if js != [] {
      WritableAll(js[1..]);
    }
  }
}
