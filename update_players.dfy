/** The bulk import (`update_players.py`): the full player list from the
    remote API is merged into `players`, one `SELECT` then `UPDATE` or
    `INSERT` per listed player, counting the two kinds of write. */
module Players {
  import opened Common

  /** One object of the `/stats?username=all` list. */
  datatype ApiPlayer = ApiPlayer(username: string, profile: Profile)

  /** The usernames a list names. */
  function Usernames(data: seq<ApiPlayer>): set<string> {
    set p | p in data :: p.username
  }

  /** One loop iteration of `update_database`: an existing row gets the
      listed statistics and keeps `lastseen` and `lastupdated`; a new row is
      inserted with both of those NULL; every other row is untouched. */
  function Import(players: Table<Player>, p: ApiPlayer): (p': Table<Player>)
    ensures p'.Keys == players.Keys + {p.username}
    ensures p.username in players ==> p'[p.username] == players[p.username].(profile := p.profile)
    ensures p.username !in players ==> p'[p.username] == Player(p.profile, None, None)
    ensures forall u :: u in players && u != p.username ==> p'[u] == players[u]
  {
    if p.username in players then players[p.username := players[p.username].(profile := p.profile)]
    else players[p.username := Player(p.profile, None, None)]
  }

  /** The table after the loop has handled the players `data`, in list order. */
  function Imported(players: Table<Player>, data: seq<ApiPlayer>): Table<Player>
    decreases |data|
  {
    if data == [] then players else Import(Imported(players, data[..|data| - 1]), data[|data| - 1])
  }

  lemma UsernamesSnoc(data: seq<ApiPlayer>, i: nat)
    requires i < |data|
    ensures Usernames(data[..i + 1]) == Usernames(data[..i]) + {data[i].username}
  {
    assert data[..i + 1] == data[..i] + [data[i]];
  }

  lemma ImportedSnoc(players: Table<Player>, data: seq<ApiPlayer>, i: nat)
    requires i < |data|
    ensures Imported(players, data[..i + 1]) == Import(Imported(players, data[..i]), data[i])
  {
    assert data[..i + 1][..i] == data[..i];
  }

  /** The usernames new to `known` among the first `i + 1` players: one more
      than among the first `i` exactly when player `i` is not yet known. */
  lemma NewNamesSnoc(known: set<string>, data: seq<ApiPlayer>, i: nat)
    requires i < |data|
    ensures data[i].username in known + Usernames(data[..i]) ==>
              Usernames(data[..i + 1]) - known == Usernames(data[..i]) - known
    ensures data[i].username !in known + Usernames(data[..i]) ==>
              |Usernames(data[..i + 1]) - known| == |Usernames(data[..i]) - known| + 1
  {
    UsernamesSnoc(data, i);
    if data[i].username !in known + Usernames(data[..i]) {
      assert Usernames(data[..i + 1]) - known == (Usernames(data[..i]) - known) + {data[i].username};
    }
  }

  /** After the loop every listed username has a row, and no row was removed. */
  lemma {:induction false} ImportedKeys(players: Table<Player>, data: seq<ApiPlayer>)
    ensures Imported(players, data).Keys == players.Keys + Usernames(data)
  {
    if data != [] {
      var n := |data| - 1;
      ImportedKeys(players, data[..n]);
      UsernamesSnoc(data, n);
      assert data[..n + 1] == data;
    }
  }

  /** How many of the players `data` are inserted into a table that already
      holds `known`: those whose username is neither known nor earlier in the
      list. */
  function Inserts(known: set<string>, data: seq<ApiPlayer>): nat
    decreases |data|
  {
    if data == [] then 0
    else
      var n := |data| - 1;
      Inserts(known, data[..n]) + if data[n].username in known + Usernames(data[..n]) then 0 else 1
  }

  /** The inserts are the distinct usernames the table did not know. */
  lemma {:induction false} InsertsCount(known: set<string>, data: seq<ApiPlayer>)
    ensures Inserts(known, data) == |Usernames(data) - known|
  {
    if data != [] {
      var n := |data| - 1;
      InsertsCount(known, data[..n]);
      NewNamesSnoc(known, data, n);
      assert data[..n + 1] == data;
    }
  }

  /** One iteration of the loop: the row written and the insert counted. */
  lemma ImportStep(players: Table<Player>, data: seq<ApiPlayer>, i: nat)
    requires i < |data|
    ensures data[i].username in Imported(players, data[..i]) ==>
              Imported(players, data[..i + 1]) ==
                Imported(players, data[..i])[data[i].username := Imported(players, data[..i])[data[i].username].(profile := data[i].profile)] &&
              Inserts(players.Keys, data[..i + 1]) == Inserts(players.Keys, data[..i])
    ensures data[i].username !in Imported(players, data[..i]) ==>
              Imported(players, data[..i + 1]) ==
                Imported(players, data[..i])[data[i].username := Player(data[i].profile, None, None)] &&
              Inserts(players.Keys, data[..i + 1]) == Inserts(players.Keys, data[..i]) + 1
  {
    ImportedSnoc(players, data, i);
    ImportedKeys(players, data[..i]);
    assert data[..i + 1][..i] == data[..i];
  }

  /** `update_database`: the loop over `data`; `updated` and `inserted` are
      `players_updated` and `players_inserted`. */
  method UpdateDatabase(players: Table<Player>, data: seq<ApiPlayer>)
    returns (players': Table<Player>, updated: nat, inserted: nat)
    ensures players' == Imported(players, data)
    ensures updated + inserted == |data|
    ensures inserted == |Usernames(data) - players.Keys|
  {
    players' := players;
    updated := 0;
    inserted := 0;
    for i := 0 to |data|
      invariant players' == Imported(players, data[..i])
      invariant updated + inserted == i
      invariant inserted == Inserts(players.Keys, data[..i])
    {
      var p := data[i];
      ImportStep(players, data, i);
      if p.username in players' {
        players' := players'[p.username := players'[p.username].(profile := p.profile)];
        updated := updated + 1;
      } else {
        players' := players'[p.username := Player(p.profile, None, None)];
        inserted := inserted + 1;
      }
    }
    assert data[..|data|] == data;
    InsertsCount(players.Keys, data);
  }

  /** The last occurrence of a username in the list decides its statistics. */
  lemma {:induction false} ImportedLastWins(players: Table<Player>, data: seq<ApiPlayer>, k: nat)
    requires k < |data|
    requires forall m :: k < m < |data| ==> data[m].username != data[k].username
    ensures data[k].username in Imported(players, data)
    ensures Imported(players, data)[data[k].username].profile == data[k].profile
  {
    var n := |data| - 1;
    ImportedKeys(players, data[..n]);
    if k < n {
      ImportedLastWins(players, data[..n], k);
    }
  }

  /** Rows of players the list does not name are unchanged. */
  lemma {:induction false} ImportedUntouched(players: Table<Player>, data: seq<ApiPlayer>, u: string)
    requires u in players && u !in Usernames(data)
    ensures u in Imported(players, data) && Imported(players, data)[u] == players[u]
  {
    if data != [] {
      var n := |data| - 1;
      assert data == data[..n] + [data[n]];
      assert Usernames(data[..n]) <= Usernames(data);
      ImportedUntouched(players, data[..n], u);
    }
  }

  /** A player that already had a row keeps its `lastseen` and `lastupdated`;
      a player new to the table has both NULL. */
  lemma {:induction false} ImportedStamps(players: Table<Player>, data: seq<ApiPlayer>, u: string)
    requires u in players.Keys + Usernames(data)
    ensures u in Imported(players, data)
    ensures u in players ==>
              Imported(players, data)[u].lastseen == players[u].lastseen &&
              Imported(players, data)[u].lastupdated == players[u].lastupdated
    ensures u !in players ==>
              Imported(players, data)[u].lastseen.None? && Imported(players, data)[u].lastupdated.None?
  {
    ImportedKeys(players, data);
    if data != [] {
      var n := |data| - 1;
      ImportedKeys(players, data[..n]);
      if u in players.Keys + Usernames(data[..n]) {
        ImportedStamps(players, data[..n], u);
      }
    }
  }

  /** What `main` reports. */
  datatype Outcome = Failed(status: int) | Done(updated: nat, inserted: nat)

  /** `main`: `fetch_data` raises on any status but 200, before the database
      is opened, and `main` catches it; otherwise the list is merged. */
  method ImportPlayers(players: Table<Player>, r: Response<seq<ApiPlayer>>)
    returns (players': Table<Player>, outcome: Outcome)
    ensures r.status != 200 ==> players' == players && outcome == Failed(r.status)
    ensures r.status == 200 ==>
              players' == Imported(players, r.body) && outcome.Done? &&
              outcome.updated + outcome.inserted == |r.body| &&
              outcome.inserted == |Usernames(r.body) - players.Keys|
  {
    if r.status != 200 {
      return players, Failed(r.status);
    }
    var updated, inserted;
    players', updated, inserted := UpdateDatabase(players, r.body);
    outcome := Done(updated, inserted);
  }
}
