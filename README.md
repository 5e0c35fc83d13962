# 2b2t player database refresh — a Dafny model

The repository keeps a local SQLite copy of player data from the 2b2t
statistics API. This project models its five refresh scripts:

- `update_players.py` merges the full player list into `players`. A listed
  player that already has a row gets new statistics. A new player is
  inserted.
- `update_all.py` selects the stale players. For each one it looks up the
  last-seen time and, when that is truthy, the last kill, last death, first
  kill and first death. A thread pool sends every category result to one
  writer thread for the four event tables. Every truthy last-seen result
  goes to a second writer, for `players`; an empty one is dropped. A third
  thread counts progress.
- `update_lastdeath.py`, `update_firstkill.py` and `update_lastseen.py`
  each refresh one table. A thread pool does the lookups. One writer thread
  applies the results. The writer itself puts the progress increments.

Modules:

| file | module | models |
|---|---|---|
| `common.dfy` | `Common` | responses, JSON entries, table rows, the `SELECT username` loaders, the worker-count heuristic, the single-category lookup, and the writer that stops at a `KeyError` |
| `fifo.dfy` | `Fifo` | a single-consumer queue with the `None` sentinel |
| `progress.dfy` | `Progress` | the integer part of `progress_reporter`, and the sentinel race of the single-category scripts |
| `update_all.dfy` | `UpdateAll` | `update_all.py` |
| `update_lastdeath.dfy` | `LastDeath` | `update_lastdeath.py` |
| `update_firstkill.dfy` | `FirstKill` | `update_firstkill.py` |
| `update_lastseen.dfy` | `LastSeen` | `update_lastseen.py` |
| `update_players.dfy` | `Players` | `update_players.py` |

How the model is built:

- **Tables.** A table is a `map` from username (the primary key) to the rest
  of the row.
- **Queues.** A queue is the sequence of items put on it. Each consumer
  thread is a `method` with a `while` loop over that sequence. It is proved
  equal to a fold (`ApplyJobs`, `ApplyFinals`, `Upserts`, `Updates`,
  `SetAll`) over the jobs before the first sentinel (`Fifo.Pending`).
- **Lookups.** Every remote lookup is a function parameter `fetch` that gives
  the response for each username.
- **The thread pool.** The pool runs each submitted task once. The model
  runs them in the order the usernames were loaded.
- **Producers in `update_all.py`.** The three queues are a `class Queues`.
  `update_user_data` is its method `UpdateUserData`.

What is proved:

- **`update_all.py` does not depend on the order of the users.** Whatever
  order the pool handles the users in, every event table ends as the old table overwritten by one row
  per stale player whose last-seen lookup was truthy. `players` gets that
  player's last-seen value and the finalize time (`ProducedWrites`,
  `FinalsStamp`, `UpdateAllData`). The progress count equals the number of
  those players.
- **Staleness goes by calendar day.** The selection compares SQLite's
  `datetime(lastupdated)` (`YYYY-MM-DD HH:MM:SS`) with the threshold's
  `isoformat()` (`YYYY-MM-DDTHH:MM:SS`) as text. On equal dates the space
  sorts before the `T`, so every stamp dated on the threshold's day is
  stale, whatever its time (`StaleByDay`). A refresh exactly seven days old
  is therefore selected, and one six days and 22 hours old is selected or
  not depending on the hour of the run (`StaleBoundary`).
- **Silent players come back.** A stale player whose last-seen lookup is
  empty gets no job, so its row stays stale. It is selected again on every
  later run (`SilentPlayerReselected`).
- **The single-category writers stop at the first bad entry.** They read
  `data['date']`, `data['time']` and `data['message']`. A truthy entry
  without one of those keys raises `KeyError` and ends the writer thread.
  The model's writer therefore gets through exactly the jobs before the
  first such entry (`Common.Writable`), and what it writes is proved for
  that prefix.
- **Progress can be undercounted.** In the single-category scripts the
  main thread puts the progress sentinel as soon as the lookups are done.
  It does not wait for the writer, so increments the writer puts later are
  never read. The parameter `early` says how many increments beat the
  sentinel. The reported count is `min(early, rows written, batch size)`
  (`Progress.RacedCount`).
- **`lastdeath` placeholder.** A lookup without data stores the string
  `'0'` in all three columns of `lastdeath`. In `firstkill` it stores NULL,
  so that username stays in the next `firstkill` batch.

## Model

| member | source | states |
|---|---|---|
| Common.Select | update_lastdeath.py:65-67 | the loaded usernames are exactly those whose row passes the filter, each once |
| Common.WorkerCount | update_lastdeath.py:62-63 | the pool size is between 5 and 32: the core count plus four, capped at 32, with an unknown or zero count taken as one core |
| Common.FetchEvent | update_lastdeath.py:11-18 | a job carries data exactly when the status is 200 and the list is non-empty, and the data is then the list's first object; the username is kept |
| Common.Fetched | update_lastdeath.py:20-23 | the batch puts exactly one job per username, in order, each the job built from that username's own lookup |
| Common.Writable | update_lastdeath.py:25-45 | the writer gets through no more jobs than it is given, each of them has every key it reads, and the job after them, if any, is a truthy entry missing a key |
| Common.WritablePrefix | update_lastdeath.py:27-36 | what the writer gets through is a prefix of its queue, in queue order |
| Common.WritableAll | update_lastdeath.py:32-36 | when no entry misses a key, the writer gets through every job |
| Fifo.Pending | update_all.py:155-159 | the consumer takes, in order, the jobs in the slots before the first sentinel, and the slot after them holds the sentinel |
| Fifo.NothingAfterStop | update_lastdeath.py:28-30 | nothing put after a sentinel is ever consumed |
| Fifo.WrappedPending | update_all.py:277-286 | a producer that puts some jobs and then the sentinel hands its consumer exactly those jobs, whatever follows |
| Fifo.Submitted | update_lastdeath.py:110-116 | the queue left by the pool's lookups and the sentinel yields exactly their jobs |
| Progress.ProgressReporter | update_all.py:209-225 | the loop's final count is the fold that adds the increments up to the sentinel and stops once the batch size is reached |
| Progress.CountTicks | update_lastdeath.py:50-55 | counting unit increments from a start value stops at the batch size or when the increments run out, whichever comes first |
| Progress.TicksBounded | update_all.py:213-218 | the count from zero never exceeds the increments received or the batch size, and equals the increments when they fit |
| Progress.RacedCount | update_lastdeath.py:110-119 | when the sentinel lands after the first `early` increments, the count is the least of `early`, the rows written and the batch size |
| UpdateAll.Stores.Set | update_all.py:137-142 | writing one category's table leaves the other three untouched |
| UpdateAll.GetUsersToUpdate | update_all.py:227-240 | the batch is exactly the players whose `lastupdated` is NULL or, as SQLite `datetime` text, sorts before the ISO text of the time seven days back, each once |
| UpdateAll.StaleByDay | update_all.py:231-235 | that text comparison selects a player exactly when `lastupdated` is NULL or dated on or before the calendar day seven days before the run |
| UpdateAll.StaleBoundary | update_all.py:231-235 | NULL is stale; a refresh six days old is fresh; one exactly seven or eight days old is stale; one six days and 22 hours old is stale exactly when the run starts before 22:00 |
| UpdateAll.FetchData | update_all.py:23-30 | a body comes back exactly when the request did not raise and the status is 200 |
| UpdateAll.FetchLastSeen | update_all.py:108-113 | the `seen` value of the first object of a non-empty list body; None for an empty list and for anything but a list |
| UpdateAll.Payload | update_all.py:124-127 | the first object of a non-empty list, None otherwise |
| UpdateAll.Emitted | update_all.py:115-134 | an active user emits four category jobs, in the order lastkill, lastdeath, firstkill, firstdeath, each with its own payload; an inactive user emits none |
| UpdateAll.Finalize | update_all.py:117-130 | an active user emits one finalize job with its non-empty last-seen value; an inactive user emits none |
| UpdateAll.Queues.constructor | update_all.py:253-255 | the three queues start empty |
| UpdateAll.Queues.UpdateUserData | update_all.py:115-134 | `update_user_data` returns True exactly when last-seen is truthy, looks up the four categories only then, appends that user's jobs to the category and finalize queues, and leaves the progress queue alone |
| UpdateAll.Queues.Close | update_all.py:284-286 | the main thread appends one sentinel to each queue |
| UpdateAll.RowOf | update_all.py:161-171 | a truthy entry gives its three fields, a missing key giving NULL; anything else gives NULL in all three columns |
| UpdateAll.ApplyJob | update_all.py:161-173 | one job upserts the user's row in the named table, and the other tables are unchanged |
| UpdateAll.DbWorker | update_all.py:155-177 | the writer leaves the tables as the fold of its jobs up to the sentinel, in FIFO order |
| UpdateAll.LastWriteWins | update_all.py:161-171 | the last job for a (table, username) pair decides that row |
| UpdateAll.UntouchedRow | update_all.py:161-171 | a row that no job names keeps its presence and its value |
| UpdateAll.WrittenKeys | update_all.py:163-171 | after the jobs, a table holds its old usernames plus those the jobs name for it |
| UpdateAll.ApplyJobsAppend | update_all.py:155-177 | draining two stretches of jobs one after the other is draining them together |
| UpdateAll.EmittedWrites | update_all.py:124-127 | one active user's four jobs write that user's row in every table; an inactive user's jobs change nothing |
| UpdateAll.ApplyFinal | update_all.py:193-199 | the finalize `UPDATE` sets `lastseen` and `lastupdated` of an existing row, inserts nothing and leaves every other row as it was |
| UpdateAll.FinalUpdateWorker | update_all.py:187-202 | the finalize writer leaves `players` as the fold of its jobs up to the sentinel, in FIFO order |
| UpdateAll.FinalsKeepKeys | update_all.py:195-199 | the finalize writer never inserts or deletes a player |
| UpdateAll.ApplyFinalsAppend | update_all.py:187-202 | draining two stretches of finalize jobs one after the other is draining them together |
| UpdateAll.ProducedWrites | update_all.py:277-281 | whatever the order of the users, each table ends as the old table overwritten by one row per active user, that user's own lookup row |
| UpdateAll.FinalsStamp | update_all.py:277-281 | whatever the order of the users, exactly the active users that have a row get their last-seen value and the finalize time |
| UpdateAll.SuccessesCount | update_all.py:279-281 | with no username twice, the number of tasks that returned True is the number of active users, at most the batch size |
| UpdateAll.SubmitAll | update_all.py:277-281 | after every user was handled, the queues hold the jobs in the order of the users, and the progress queue holds one increment per call that returned True |
| UpdateAll.BatchIsRefreshable | update_all.py:245-281 | the batch's active users are exactly the stale players whose last-seen is truthy |
| UpdateAll.UpdateAllData | update_all.py:242-296 | the run does nothing exactly when no player is stale; otherwise the tables and `players` end as described above, and the progress count is the number of refreshed players |
| UpdateAll.RefreshedReselection | update_all.py:227-240 | a refreshed player is selected again by exactly the runs dated seven or more calendar days after its finalize stamp, so by none less than six days after it |
| UpdateAll.SilentPlayerReselected | update_all.py:117-131 | a stale player whose last-seen is empty keeps its row and is selected again by every later run |
| LastDeath.DeathRow | update_lastdeath.py:32-41 | a truthy entry gives its three fields; no data or an empty entry gives `'0'` in every column |
| LastDeath.Upsert | update_lastdeath.py:32-41 | `INSERT OR REPLACE` sets the username's row, creating it if absent, and leaves every other row alone |
| LastDeath.DbWorker | update_lastdeath.py:25-45 | the writer's row count and table are those of the jobs before the sentinel, up to the first entry missing a key |
| LastDeath.UpsertsKeepKeys | update_lastdeath.py:32-41 | upserts of usernames already in the table never change its set of usernames |
| LastDeath.UpsertsLastWins | update_lastdeath.py:32-41 | the last job for a username decides its row |
| LastDeath.LoadUsernames | update_lastdeath.py:65-67 | every username of the table, each once |
| LastDeath.BatchKeepsKeys | update_lastdeath.py:85-118 | however early the writer stops, a batch of the table's own usernames leaves the same usernames |
| LastDeath.BatchRows | update_lastdeath.py:110-116 | when every lookup has its keys, every row becomes the one built from its own lookup |
| LastDeath.BatchOutcome | update_lastdeath.py:85-118 | the writer keeps the usernames and writes at most one row per username; when every lookup has its keys it writes all of them, each from its own lookup |
| LastDeath.UpdateLastDeathDb | update_lastdeath.py:69-121 | the run keeps the usernames and reports at most the table size; when every lookup has its keys, every row is rebuilt from its lookup and the report is the smaller of `early` and the table size |
| FirstKill.KillRow | update_firstkill.py:32-42 | a truthy entry gives its three fields; no data or an empty entry gives NULL in all three |
| FirstKill.Update | update_firstkill.py:32-42 | `UPDATE ... WHERE username` rewrites an existing row, does nothing for an unknown username, and leaves every other row alone |
| FirstKill.DbWorker | update_firstkill.py:25-47 | the writer's row count and table are those of the jobs before the sentinel, up to the first entry missing a key |
| FirstKill.UpdatesKeepKeys | update_firstkill.py:32-42 | the writer never adds or removes a username |
| FirstKill.UpdatesUntouched | update_firstkill.py:32-42 | a row that no job names keeps its columns |
| FirstKill.UpdatesLastWins | update_firstkill.py:32-42 | for an existing username, the last job naming it decides its row |
| FirstKill.LoadUsernamesWithoutData | update_firstkill.py:67-69 | exactly the usernames whose `date` is NULL, each once |
| FirstKill.BatchRows | update_firstkill.py:101-107 | when every lookup has its keys, the rows outside the batch are kept and every batch row is built from its own lookup |
| FirstKill.BatchOutcome | update_firstkill.py:76-109 | the writer keeps the usernames and writes at most one row per selected username; when every lookup has its keys, a username is in the next batch exactly when it was in this one and its lookup brought no date |
| FirstKill.UpdateFirstKillDb | update_firstkill.py:71-112 | the run keeps the usernames and reports at most the batch size; when every lookup has its keys, the other rows are kept, batch rows are rebuilt, the report is the smaller of `early` and the batch size, and the next batch is the usernames still without a date |
| LastSeen.FetchSeen | update_lastseen.py:11-20 | a value is returned exactly when the status is 200, the body is a non-empty list and the first object's `seen` is truthy, and it is then that value |
| LastSeen.SetLastSeen | update_lastseen.py:33-40 | `UPDATE players SET lastseen` changes only that column of an existing row; an unknown username changes nothing |
| LastSeen.DbWorker | update_lastseen.py:27-45 | the writer counts and applies every job before the sentinel, in FIFO order |
| LastSeen.SetAllKeepKeys | update_lastseen.py:33-40 | the writer never adds or removes a player |
| LastSeen.SetAllUntouched | update_lastseen.py:33-40 | a player no job names keeps its row |
| LastSeen.SetAllKeepsColumns | update_lastseen.py:33-40 | a player's statistics and `lastupdated` never change |
| LastSeen.SetAllLastWins | update_lastseen.py:33-40 | for a known player, the last job naming it decides `lastseen` |
| LastSeen.LoadUsernames | update_lastseen.py:65-67 | every username of `players`, each once |
| LastSeen.Looked | update_lastseen.py:22-25 | one job per username, in order, each from its own lookup |
| LastSeen.BatchRows | update_lastseen.py:99-105 | a batch of every player, each once, gives every row its own lookup's `lastseen` and keeps the other columns |
| LastSeen.UpdateLastSeenData | update_lastseen.py:69-110 | the run keeps the players and gives each one its own lookup's `lastseen` (NULL when the lookup brought nothing); the report is the smaller of `early` and the player count |
| Players.Import | update_players.py:40-75 | a listed player with a row gets the new statistics and keeps `lastseen` and `lastupdated`; a new player is inserted with both NULL; the table gains exactly that username; every other row is unchanged |
| Players.ImportedKeys | update_players.py:40-75 | after the loop, the table holds its old usernames plus the listed ones |
| Players.InsertsCount | update_players.py:44-75 | the inserts are the distinct listed usernames the table did not hold |
| Players.UpdateDatabase | update_players.py:15-80 | the loop leaves the table as the fold of the list, its two counters add up to the list length, and the insert count is the number of new distinct usernames |
| Players.ImportedLastWins | update_players.py:40-59 | the last occurrence of a username in the list decides its statistics |
| Players.ImportedUntouched | update_players.py:40-75 | rows of players the list does not name are unchanged |
| Players.ImportedStamps | update_players.py:44-75 | a player that had a row keeps `lastseen` and `lastupdated`; a new one has both NULL |
| Players.ImportPlayers | update_players.py:82-92 | a status other than 200 leaves the table unchanged and reports the failure; a 200 merges the list and reports the two counts |

## Left out

- HTTP exceptions in the single-category scripts: `requests.get` raising inside a task is not modelled. There the exception reaches `future.result()` in the main thread, and the sentinel is never put.
- HTTP exceptions in `update_all.py` are caught inside the task; the model covers them, as a `None` reply.
- HTTP exceptions in `update_players.py`: `main` catches a raising `requests.get` in the same handler as a non-200 status, so the table is left as it was. The model gives that failure only in its status form (`ImportPlayers` with a status other than 200).
- JSON bodies of an unexpected shape are not modelled: a dict where a list is expected, or objects with missing fields in `update_players.py`. The exception is the `/seen` body, which may be any non-list value.
- `update_main_database` (called at the start of `update_all_data`) is not part of this model. The model starts from the `players` table it leaves.
- Thread interleaving is not modelled. The pool handles the users one after the other, in load order, so the puts for one user stay together. In `update_all.py` the proved final state is the same for every such order. Puts of different users interleaved with each other are not covered.
- UpdateAll.FinalUpdateWorker: stamps every job of one drain with the same `clock`, while the source reads `datetime.now()` once per job.
- UpdateAll.GetUsersToUpdate: a timestamp is a whole number of seconds in one time zone, a calendar day is 86400 of them, and its text is abstracted to (date, separator, time of day); daylight-saving shifts, fractions of a second and years outside four digits are not modelled.
- `get_optimal_worker_count` in `update_all.py` returns `os.cpu_count()`, which may be None. The pool size does not affect any modelled result, so this function is not modelled. The heuristic of the other scripts is modelled, as `Common.WorkerCount`.
- Not modelled: the exception handlers that print and carry on in the `update_all.py` writers. The modelled jobs always hold a known category name and well-formed fields, so those handlers are never reached.
- SQLite mechanics are not modelled: `CREATE TABLE IF NOT EXISTS`, connections, commits, and `conn.close()`. `update_firstkill.py` assumes its table exists. `update_players.py` commits once after the loop, so an exception inside the loop loses the whole batch, and that is not modelled.
- Printing, `tqdm` and the floating-point rate and ETA of `progress_reporter` are not modelled. Only the integer count is.
- Progress.RacedCount: the race between the single-category writer and the main thread's sentinel is a parameter, `early`, and not a schedule of threads.
