/**
  The database of the club: the `players`, `weeks` and `week_player_games`
  tables and the id sequences of the first two. `Tables` is one state of the
  database as a value; the functions over it say what each write of app.py
  (seeding, creating a week, replacing the roster, toggling a cell) leaves
  behind, and the lemmas prove what those writes keep. `ClubDb` is the live
  database: its methods perform the writes step by step and are proved to
  reach the state the functions describe.
 */
module Club {
  import opened Wrappers
  import opened Text
  import opened Roster
  import opened Schema

  /** The rows of the three tables and the next value of each id sequence. */
  datatype Tables = Tables(
    players: seq<PlayerRow>,
    weeks: seq<WeekRow>,
    cells: map<CellKey, bool>,
    nextPlayerId: nat,
    nextWeekId: nat)
  {
    function PlayerIds(): set<nat> {
      Elems(PlayerIdsOf(players))
    }

    function WeekIds(): set<nat> {
      Elems(WeekIdsOf(weeks))
    }

    /** `players_text` of app.py:311-317: the names in sort order, one per line. */
    function RosterText(): string {
      JoinLines(NamesOf(players))
    }
  }

  /** The JSON reply of `/toggle`: 404 `{"ok": false}`, or `{"ok": true, "played": 1 | 0}`. */
  datatype ToggleReply = NotFound | Toggled(played: int)

  /** What `init_db` did with the default roster. */
  datatype InitOutcome =
    | NotSeeded        // players already present, or nothing to seed
    | Seeded           // the default roster was inserted
    | IntegrityError   // two default names are equal: `unique=True` rejects the insert

  /** The constraints of app.py:47-72 and the order the application keeps:
      ids are unique and were drawn from their sequences, player names and
      week dates are unique, `sort_order` numbers the players from 1 in
      table order, and every cell belongs to an existing week, an existing
      player and a game from 1 to `GamesPerWeek`. */
  predicate Consistent(t: Tables) {
    && Distinct(PlayerIdsOf(t.players))
    && Distinct(NamesOf(t.players))
    && (forall i | 0 <= i < |t.players| :: t.players[i].sortOrder == i + 1 && t.players[i].id < t.nextPlayerId)
    && Distinct(WeekIdsOf(t.weeks))
    && UniqueDates(t.weeks)
    && (forall i | 0 <= i < |t.weeks| :: t.weeks[i].id < t.nextWeekId)
    && t.cells.Keys <= GridKeys(t.WeekIds(), t.PlayerIds())
  }

  /** Every week has a cell for every player and every game. */
  predicate Complete(t: Tables) {
    t.cells.Keys == GridKeys(t.WeekIds(), t.PlayerIds())
  }

  // ---------------------------------------------------------------------
  // Toggling a cell (app.py:345-368)
  // ---------------------------------------------------------------------

  /** The cell map after flipping the cell at `k`; a missing cell stays missing. */
  function Flip(cells: map<CellKey, bool>, k: CellKey): (r: map<CellKey, bool>)
    ensures r.Keys == cells.Keys
    ensures k in cells ==> r[k] != cells[k]
    ensures forall k' | k' in cells && k' != k :: r[k'] == cells[k']
  {
    if k in cells then cells[k := !cells[k]] else cells
  }

  /** Toggling the same cell twice restores the sheet. */
  lemma {:induction false} FlipTwice(cells: map<CellKey, bool>, k: CellKey)
    ensures Flip(Flip(cells, k), k) == cells
  {
  }

  /** A toggle changes no key, so it keeps every constraint and a complete
      sheet stays complete. */
  lemma {:induction false} ToggleKeeps(t: Tables, k: CellKey)
    requires Consistent(t)
    ensures Consistent(t.(cells := Flip(t.cells, k)))
    ensures Complete(t) ==> Complete(t.(cells := Flip(t.cells, k)))
  {
  }

  // ---------------------------------------------------------------------
  // The week page (app.py:224-243)
  // ---------------------------------------------------------------------

  /** `played_map` of app.py:235-243: (player, game) to played, for one week. */
  function PlayedMap(cells: map<CellKey, bool>, weekId: int): (m: map<(int, int), bool>)
    ensures forall pg | pg in m :: CellKey(weekId, pg.0, pg.1) in cells && m[pg] == cells[CellKey(weekId, pg.0, pg.1)]
    ensures forall k | k in cells && k.weekId == weekId :: (k.playerId, k.gameNo) in m
  {
    map k | k in cells && k.weekId == weekId :: (k.playerId, k.gameNo) := cells[k]
  }

  /** `range(1, GAMES_PER_WEEK + 1)`. */
  function Games(): (gs: seq<int>)
    ensures |gs| == GamesPerWeek && forall i | 0 <= i < GamesPerWeek :: gs[i] == i + 1
  {
    seq(GamesPerWeek, i => i + 1)
  }

  /** What the week page renders. */
  datatype WeekPage = WeekPage(
    week: WeekRow,
    weeks: seq<WeekRow>,
    players: seq<PlayerRow>,
    games: seq<int>,
    played: map<(int, int), bool>)

  /** app.py:224-243: no page (a redirect to the index) for an unknown week;
      otherwise the week, all weeks newest first, the players in sort order,
      the game numbers and the week's played map. */
  function WeekView(t: Tables, weekId: int): (r: Option<WeekPage>)
    ensures r.None? <==> forall i | 0 <= i < |t.weeks| :: t.weeks[i].id != weekId
    ensures r.Some? ==> r.value.week in t.weeks && r.value.week.id == weekId && r.value.players == t.players
    ensures r.Some? ==> NewestFirst(r.value.weeks) && multiset(r.value.weeks) == multiset(t.weeks)
    ensures r.Some? ==> |r.value.games| == GamesPerWeek && forall i | 0 <= i < GamesPerWeek :: r.value.games[i] == i + 1
    ensures r.Some? ==> forall pg | pg in r.value.played ::
              CellKey(weekId, pg.0, pg.1) in t.cells && r.value.played[pg] == t.cells[CellKey(weekId, pg.0, pg.1)]
    ensures r.Some? ==> forall k | k in t.cells && k.weekId == weekId :: (k.playerId, k.gameNo) in r.value.played
  {
    match FindWeekById(t.weeks, weekId)
    case None => None
    case Some(w) =>
      WeeksNewestFirstSpec(t.weeks);
      Some(WeekPage(w, WeeksNewestFirst(t.weeks), t.players, Games(), PlayedMap(t.cells, weekId)))
  }

  /** On a complete sheet the week page has a value for exactly every player
      and every game of the week, which is every box the page draws. */
  lemma {:induction false} WeekViewComplete(t: Tables, weekId: nat)
    requires Complete(t)
    requires WeekView(t, weekId).Some?
    ensures forall p, g :: (p, g) in WeekView(t, weekId).value.played <==>
                             (p in PlayerIdsOf(t.players) && 1 <= g <= GamesPerWeek)
  {
    var page := WeekView(t, weekId).value;
    assert weekId in WeekIdsOf(t.weeks) by {
      var i :| 0 <= i < |t.weeks| && t.weeks[i] == page.week;
    }
    forall p, g ensures (p, g) in page.played <==> (p in PlayerIdsOf(t.players) && 1 <= g <= GamesPerWeek) {
      if p in PlayerIdsOf(t.players) && 1 <= g <= GamesPerWeek {
        var pn: nat := p;
        assert CellKey(weekId, pn, g) in GridKeys(t.WeekIds(), t.PlayerIds());
      }
    }
  }

  // ---------------------------------------------------------------------
  // Inserting players (app.py:95-107 and 275-309)
  // ---------------------------------------------------------------------

  /** The rows that inserting `names` creates: ids drawn from the sequence
      starting at `start`, `sort_order` counting from 1. */
  function NewPlayers(start: nat, names: seq<string>): seq<PlayerRow> {
    seq(|names|, i requires 0 <= i < |names| => PlayerRow(start + i, names[i], i + 1))
  }

  /** Freshly inserted distinct names satisfy every player constraint, and the
      roster has one id per name. */
  lemma {:induction false} NewPlayersConsistent(start: nat, names: seq<string>)
    requires Distinct(names)
    ensures Distinct(PlayerIdsOf(NewPlayers(start, names)))
    ensures NamesOf(NewPlayers(start, names)) == names
    ensures forall i | 0 <= i < |names| ::
              NewPlayers(start, names)[i].sortOrder == i + 1 && NewPlayers(start, names)[i].id < start + |names|
    ensures |Elems(PlayerIdsOf(NewPlayers(start, names)))| == |names|
  {
    var ps := NewPlayers(start, names);
    assert NamesOf(ps) == names;
    DistinctCard(PlayerIdsOf(ps));
  }

  /** The list of rows of app.py:103-106 and 283-286: one per name, ids drawn
      from the sequence starting at `start`, `sort_order` counting from 1. */
  method NumberPlayers(start: nat, names: seq<string>) returns (rows: seq<PlayerRow>)
    ensures rows == NewPlayers(start, names)
  {
    rows := [];
    for idx := 0 to |names|
      invariant rows == NewPlayers(start, names[..idx])
    {
      rows := rows + [PlayerRow(start + idx, names[idx], idx + 1)];
    }
    assert names[..|names|] == names;
  }

  // ---------------------------------------------------------------------
  // Seeding (app.py:95-107)
  // ---------------------------------------------------------------------

  /** `init_db`: when `players` is empty the default roster is inserted in one
      statement; equal names make the statement fail and the transaction
      leaves everything as it was. */
  function Seeding(t: Tables, defaults: seq<string>): (InitOutcome, Tables) {
    if |t.players| != 0 || defaults == [] then (NotSeeded, t)
    else if !Distinct(defaults) then (IntegrityError, t)
    else (Seeded, t.(players := NewPlayers(t.nextPlayerId, defaults),
                     nextPlayerId := t.nextPlayerId + |defaults|))
  }

  /** Seeding keeps every constraint and inserts exactly the default names.
      It creates no cells, so after seeding the sheet is complete exactly
      when there is no week yet. */
  lemma {:induction false} SeedKeeps(t: Tables, defaults: seq<string>)
    requires Consistent(t)
    ensures Consistent(Seeding(t, defaults).1)
    ensures Seeding(t, defaults).0 != Seeded ==> Seeding(t, defaults).1 == t
    ensures Seeding(t, defaults).0 == Seeded ==>
              && NamesOf(Seeding(t, defaults).1.players) == defaults
              && Seeding(t, defaults).1.weeks == t.weeks
              && Seeding(t, defaults).1.cells == t.cells == map[]
              && (Complete(Seeding(t, defaults).1) <==> t.weeks == [])
  {
    var (outcome, t') := Seeding(t, defaults);
    if outcome == Seeded {
      var ps := t'.players;
      assert PlayerIdsOf([]) == [];
      assert Elems([]) == {};
      assert t.cells.Keys == {};
      NewPlayersConsistent(t.nextPlayerId, defaults);
      var p := ps[0].id;
      assert p in t'.PlayerIds() by { assert PlayerIdsOf(ps)[0] == p; }
      if t.weeks != [] {
        var w := t.weeks[0].id;
        assert w in t'.WeekIds() by { assert WeekIdsOf(t.weeks)[0] == w; }
        assert CellKey(w, p, 1) in GridKeys(t'.WeekIds(), t'.PlayerIds());
      }
    }
  }

  // ---------------------------------------------------------------------
  // Creating a week (app.py:111-144)
  // ---------------------------------------------------------------------

  /** The write of `ensure_week` for a date without a week: the week is
      appended with the next id and the caller's clock as creation time, and
      one unplayed cell is added per player and game. */
  function AddWeek(t: Tables, d: Date, now: Timestamp): Tables {
    t.(weeks := t.weeks + [WeekRow(t.nextWeekId, d, now)],
       cells := t.cells + FreshGrid({t.nextWeekId}, t.PlayerIds()),
       nextWeekId := t.nextWeekId + 1)
  }

  /** `ensure_week`: the state afterwards and the id returned. A date that
      already has a week gives that week's id and changes nothing. */
  function WeekFor(t: Tables, d: Date, now: Timestamp): (Tables, nat) {
    match FindWeek(t.weeks, d)
    case Some(id) => (t, id)
    case None => (AddWeek(t, d, now), t.nextWeekId)
  }

  /** The number of cells after adding cells under new keys. */
  lemma {:induction false} CellCount(cells: map<CellKey, bool>, added: map<CellKey, bool>)
    requires cells.Keys !! added.Keys
    ensures |cells + added| == |cells| + |added|
  {
    assert (cells + added).Keys == cells.Keys + added.Keys;
    assert |cells.Keys + added.Keys| == |cells.Keys| + |added.Keys|;
  }

  /** A week appended with the next id has an id no existing week has, and
      its lookup by date finds it. */
  lemma {:induction false} AddWeekFresh(weeks: seq<WeekRow>, nextWeekId: nat, d: Date, now: Timestamp)
    requires forall i | 0 <= i < |weeks| :: weeks[i].id < nextWeekId
    requires FindWeek(weeks, d).None?
    ensures nextWeekId !in Elems(WeekIdsOf(weeks))
    ensures Elems(WeekIdsOf(weeks + [WeekRow(nextWeekId, d, now)])) == Elems(WeekIdsOf(weeks)) + {nextWeekId}
    ensures FindWeek(weeks + [WeekRow(nextWeekId, d, now)], d) == Some(nextWeekId)
  {
    var weeks' := weeks + [WeekRow(nextWeekId, d, now)];
    assert WeekIdsOf(weeks') == WeekIdsOf(weeks) + [nextWeekId];
    FindWeekAppend(weeks, WeekRow(nextWeekId, d, now), d);
  }

  /** Adding a week for a date that has none keeps every constraint. */
  lemma {:induction false} AddWeekKeeps(t: Tables, d: Date, now: Timestamp)
    requires Consistent(t)
    requires FindWeek(t.weeks, d).None?
    ensures Consistent(AddWeek(t, d, now))
  {
    var t' := AddWeek(t, d, now);
    AddWeekCellKeys(t, d, now);
    AddWeekGridKeys(t, d, now);
    assert t'.cells.Keys <= GridKeys(t'.WeekIds(), t'.PlayerIds());
    AppendWeekUnique(t.weeks, WeekRow(t.nextWeekId, d, now));
  }

  /** Adding a week for a date that has none keeps a complete sheet complete. */
  lemma {:induction false} AddWeekComplete(t: Tables, d: Date, now: Timestamp)
    requires Consistent(t)
    requires FindWeek(t.weeks, d).None?
    requires Complete(t)
    ensures Complete(AddWeek(t, d, now))
  {
    AddWeekCellKeys(t, d, now);
    AddWeekGridKeys(t, d, now);
  }

  /** Adding a week adds exactly that week's fresh cells to the table. */
  lemma {:induction false} AddWeekCellKeys(t: Tables, d: Date, now: Timestamp)
    ensures AddWeek(t, d, now).cells.Keys == t.cells.Keys + GridKeys({t.nextWeekId}, t.PlayerIds())
  {
    var added := FreshGrid({t.nextWeekId}, t.PlayerIds());
    assert added.Keys == GridKeys({t.nextWeekId}, t.PlayerIds());
    assert (t.cells + added).Keys == t.cells.Keys + added.Keys;
  }

  /** The cells of the new week start unplayed, and every cell already on the
      sheet keeps its value. */
  lemma {:induction false} AddWeekCellValues(t: Tables, d: Date, now: Timestamp)
    requires forall i | 0 <= i < |t.weeks| :: t.weeks[i].id < t.nextWeekId
    requires t.cells.Keys <= GridKeys(t.WeekIds(), t.PlayerIds())
    ensures forall k | k in t.cells :: AddWeek(t, d, now).cells[k] == t.cells[k]
    ensures forall k | k in AddWeek(t, d, now).cells && k !in t.cells ::
              k.weekId == t.nextWeekId && !AddWeek(t, d, now).cells[k]
  {
    var added := FreshGrid({t.nextWeekId}, t.PlayerIds());
    forall k | k in t.cells ensures k !in added {
      var i :| 0 <= i < |t.weeks| && WeekIdsOf(t.weeks)[i] == k.weekId;
    }
  }

  /** Adding a week with a new id adds exactly that week's keys to the grid. */
  lemma {:induction false} AddWeekGridKeys(t: Tables, d: Date, now: Timestamp)
    requires forall i | 0 <= i < |t.weeks| :: t.weeks[i].id < t.nextWeekId
    requires FindWeek(t.weeks, d).None?
    ensures GridKeys(AddWeek(t, d, now).WeekIds(), AddWeek(t, d, now).PlayerIds())
            == GridKeys(t.WeekIds(), t.PlayerIds()) + GridKeys({t.nextWeekId}, t.PlayerIds())
  {
    var t' := AddWeek(t, d, now);
    AddWeekFresh(t.weeks, t.nextWeekId, d, now);
    GridKeysAddWeek(t.WeekIds(), t.PlayerIds(), t.nextWeekId);
    assert t'.WeekIds() == t.WeekIds() + {t.nextWeekId};
  }

  /** A week with a larger id than every week and a date no week has keeps
      ids and dates unique. */
  lemma {:induction false} AppendWeekUnique(weeks: seq<WeekRow>, w: WeekRow)
    requires Distinct(WeekIdsOf(weeks)) && UniqueDates(weeks)
    requires forall i | 0 <= i < |weeks| :: weeks[i].id < w.id
    requires FindWeek(weeks, w.weekDate).None?
    ensures Distinct(WeekIdsOf(weeks + [w])) && UniqueDates(weeks + [w])
  {
    var weeks' := weeks + [w];
    var ids, ids' := WeekIdsOf(weeks), WeekIdsOf(weeks');
    forall i, j | 0 <= i < j < |weeks'| ensures Differ(ids', i, j) && DateDiffers(weeks', i, j) {
      if j < |weeks| {
        assert Differ(ids, i, j) && DateDiffers(weeks, i, j);
      }
    }
  }

  /** The new week gets `|players| * GamesPerWeek` cells the sheet did not have. */
  lemma {:induction false} AddWeekCellCount(t: Tables, d: Date, now: Timestamp)
    requires forall i | 0 <= i < |t.weeks| :: t.weeks[i].id < t.nextWeekId
    requires FindWeek(t.weeks, d).None?
    requires t.cells.Keys <= GridKeys(t.WeekIds(), t.PlayerIds())
    requires Distinct(PlayerIdsOf(t.players))
    ensures |AddWeek(t, d, now).cells| == |t.cells| + |t.players| * GamesPerWeek
  {
    var w, pids := t.nextWeekId, t.PlayerIds();
    var added := FreshGrid({w}, pids);
    AddWeekFresh(t.weeks, w, d, now);
    GridKeysAddWeek(t.WeekIds(), pids, w);
    assert added.Keys == GridKeys({w}, pids);
    CellCount(t.cells, added);
    GridKeysCard({w}, pids);
    assert |{w}| == 1;
    DistinctCard(PlayerIdsOf(t.players));
  }

  /** After `ensure_week` the date has a week, and it is the id returned; a
      new week has an id no week had before, all other weeks are kept, and
      the players are untouched. */
  lemma {:induction false} WeekForFinds(t: Tables, d: Date, now: Timestamp)
    requires Consistent(t)
    ensures FindWeek(WeekFor(t, d, now).0.weeks, d) == Some(WeekFor(t, d, now).1)
    ensures WeekFor(t, d, now).0.players == t.players
    ensures FindWeek(t.weeks, d).None? ==>
              && WeekFor(t, d, now).1 !in t.WeekIds()
              && WeekFor(t, d, now).0.weeks == t.weeks + [WeekRow(WeekFor(t, d, now).1, d, now)]
  {
    if FindWeek(t.weeks, d).None? {
      AddWeekFresh(t.weeks, t.nextWeekId, d, now);
    }
  }

  /** Calling `ensure_week` again for the same date, at any time, returns the
      same week and changes nothing. */
  lemma {:induction false} WeekForIdempotent(t: Tables, d: Date, now: Timestamp, later: Timestamp)
    requires Consistent(t)
    ensures WeekFor(WeekFor(t, d, now).0, d, later) == WeekFor(t, d, now)
  {
    WeekForFinds(t, d, now);
  }

  /** The inner loops of app.py:129-139 and 294-304: one unplayed row per
      player, in the given order, and game. */
  method WeekInserts(weekId: nat, playerIds: seq<nat>) returns (inserts: seq<CellRow>)
    ensures inserts == WeekRows(weekId, playerIds)
  {
    inserts := [];
    for i := 0 to |playerIds|
      invariant inserts == WeekRows(weekId, playerIds[..i])
    {
      var playerId := playerIds[i];
      for gameNo := 1 to GamesPerWeek + 1
        invariant inserts == WeekRows(weekId, playerIds[..i]) + GameRows(weekId, playerId, gameNo - 1)
      {
        inserts := inserts + [CellRow(weekId, playerId, gameNo, false)];
      }
      assert playerIds[..i + 1][..i] == playerIds[..i];
    }
    assert playerIds[..|playerIds|] == playerIds;
  }

  /** app.py:124-142: builds the batch of a new week and executes it when it
      is not empty; the table gains exactly the week's fresh cells. */
  method AddWeekCells(cells: map<CellKey, bool>, weekId: nat, playerIds: seq<nat>) returns (cells': map<CellKey, bool>)
    ensures cells' == cells + FreshGrid({weekId}, Elems(playerIds))
  {
    var inserts := WeekInserts(weekId, playerIds);
    cells' := if inserts != [] then cells + RowsToMap(inserts) else cells;
    WeekRowsIsGridRows(weekId, playerIds);
    GridRowsInsertFreshGrid([weekId], playerIds);
    assert Elems([weekId]) == {weekId};
    if inserts == [] {
      assert cells + RowsToMap(inserts) == cells;
    }
  }

  // ---------------------------------------------------------------------
  // Replacing the roster (app.py:262-309)
  // ---------------------------------------------------------------------

  /** The transaction of app.py:275-307 for the normalised `names`: all cells
      and players are deleted, the names are inserted in order with fresh ids
      and `sort_order` from 1, and every week gets one unplayed cell per new
      player and game. With no name left nothing is written. */
  function ReplaceRoster(t: Tables, names: seq<string>): Tables {
    if names == [] then t
    else
      var players := NewPlayers(t.nextPlayerId, names);
      t.(players := players,
         cells := FreshGrid(t.WeekIds(), Elems(PlayerIdsOf(players))),
         nextPlayerId := t.nextPlayerId + |names|)
  }

  /** An empty list changes nothing. Otherwise every cell starts unplayed and
      belongs to one of the new players. With ids that are never reused, no
      cell carries the id of a removed player. */
  lemma {:induction false} ReplaceRosterCells(t: Tables, names: seq<string>)
    requires forall i | 0 <= i < |t.players| :: t.players[i].id < t.nextPlayerId
    ensures names == [] ==> ReplaceRoster(t, names) == t
    ensures names != [] ==>
              forall k | k in ReplaceRoster(t, names).cells ::
                && !ReplaceRoster(t, names).cells[k]
                && k.playerId in ReplaceRoster(t, names).PlayerIds()
                && k.playerId !in t.PlayerIds()
  {
    if names != [] {
      var ps := NewPlayers(t.nextPlayerId, names);
      forall k | k in ReplaceRoster(t, names).cells ensures k.playerId !in t.PlayerIds() {
        var j :| 0 <= j < |ps| && PlayerIdsOf(ps)[j] == k.playerId;
      }
    }
  }

  /** Replacing the roster by distinct names keeps every constraint and the
      weeks; afterwards the players carry exactly the given names and the
      sheet is complete with `|weeks| * |names| * GamesPerWeek` cells. */
  lemma {:induction false} ReplaceRosterKeeps(t: Tables, names: seq<string>)
    requires Consistent(t)
    requires Distinct(names)
    ensures Consistent(ReplaceRoster(t, names))
    ensures ReplaceRoster(t, names).weeks == t.weeks
    ensures names != [] ==>
              && NamesOf(ReplaceRoster(t, names).players) == names
              && Complete(ReplaceRoster(t, names))
              && |ReplaceRoster(t, names).cells| == |t.weeks| * |names| * GamesPerWeek
  {
    if names != [] {
      var t' := ReplaceRoster(t, names);
      NewPlayersConsistent(t.nextPlayerId, names);
      DistinctCard(WeekIdsOf(t.weeks));
      GridKeysCard(t.WeekIds(), t'.PlayerIds());
    }
  }

  /** Names with distinct lower-case keys are distinct. */
  lemma {:induction false} RosterDistinct(names: seq<string>)
    requires DistinctKeys(names)
    ensures Distinct(names)
  {
    forall i, j | 0 <= i < j < |names| ensures Differ(names, i, j) {
      assert Lower(names[i]) != Lower(names[j]);
    }
  }

  /** The normalised names are pairwise distinct, as the `unique=True` of
      `players.name` requires of the rows inserted. */
  lemma {:induction false} NormalisedDistinct(raw: string)
    ensures Distinct(Normalised(raw))
  {
    NormalisedProperties(raw);
    RosterDistinct(Normalised(raw));
  }

  /** After a replacement the players page shows a roster text that
      normalises back to the names that were stored. */
  lemma {:induction false} ReplaceShowsRoster(t: Tables, raw: string)
    requires Consistent(t)
    requires Normalised(raw) != []
    ensures Normalised(ReplaceRoster(t, Normalised(raw)).RosterText()) == Normalised(raw)
  {
    var names := Normalised(raw);
    NormalisedProperties(raw);
    RosterDistinct(names);
    ReplaceRosterKeeps(t, names);
    RosterTextRoundTrip(names);
  }

  /** The triple loop of app.py:291-304: the rows of every week, week after week. */
  method GridInserts(weekIds: seq<nat>, playerIds: seq<nat>) returns (inserts: seq<CellRow>)
    ensures inserts == GridRows(weekIds, playerIds)
  {
    inserts := [];
    for i := 0 to |weekIds|
      invariant inserts == GridRows(weekIds[..i], playerIds)
    {
      var rows := WeekInserts(weekIds[i], playerIds);
      inserts := inserts + rows;
      assert weekIds[..i + 1][..i] == weekIds[..i];
    }
    assert weekIds[..|weekIds|] == weekIds;
  }

  /** app.py:278 and 289-307: empties the table, builds the batch of every
      week and player and executes it when it is not empty; the table is then
      exactly the fresh grid. */
  method RebuildCells(weekIds: seq<nat>, playerIds: seq<nat>) returns (cells: map<CellKey, bool>)
    ensures cells == FreshGrid(Elems(weekIds), Elems(playerIds))
  {
    cells := map[];
    var inserts := GridInserts(weekIds, playerIds);
    cells := if inserts != [] then cells + RowsToMap(inserts) else cells;
    GridRowsInsertFreshGrid(weekIds, playerIds);
    assert map[] + RowsToMap(inserts) == RowsToMap(inserts);
  }

  // ---------------------------------------------------------------------
  // The live database
  // ---------------------------------------------------------------------

  class ClubDb {
    var players: seq<PlayerRow>
    var weeks: seq<WeekRow>
    var cells: map<CellKey, bool>
    /** The next value of the `players.id` sequence. */
    var nextPlayerId: nat
    /** The next value of the `weeks.id` sequence. */
    var nextWeekId: nat

    function State(): Tables
      reads this
    {
      Tables(players, weeks, cells, nextPlayerId, nextWeekId)
    }

    predicate Valid()
      reads this
    {
      Consistent(State())
    }

    predicate GridComplete()
      reads this
    {
      Complete(State())
    }

    /** The empty database that `create_all` leaves; both sequences start at 1. */
    constructor ()
      ensures Valid() && GridComplete()
      ensures players == [] && weeks == [] && cells == map[]
    {
      players := [];
      weeks := [];
      cells := map[];
      nextPlayerId := 1;
      nextWeekId := 1;
    }

    /** `init_db` (app.py:95-107). */
    method InitDb(defaults: seq<string>) returns (outcome: InitOutcome)
      requires Valid()
      modifies this
      ensures Valid()
      ensures (outcome, State()) == Seeding(old(State()), defaults)
    {
      if |players| != 0 || defaults == [] {
        return NotSeeded;
      }
      if !Distinct(defaults) {
        return IntegrityError;
      }
      ghost var t := State();
      SeedKeeps(t, defaults);
      ghost var t' := Seeding(t, defaults).1;
      var rows := NumberPlayers(nextPlayerId, defaults);
      players, nextPlayerId := rows, nextPlayerId + |defaults|;
      outcome := Seeded;
      assert players == t'.players && nextPlayerId == t'.nextPlayerId;
      assert weeks == t'.weeks && cells == t'.cells && nextWeekId == t'.nextWeekId;
      assert State() == t';
    }

    /** `ensure_week` (app.py:111-144): looks the date up, and when it has no
        week appends one and inserts its cells. */
    method EnsureWeek(d: Date, now: Timestamp) returns (weekId: nat)
      requires Valid()
      modifies this
      ensures Valid()
      ensures (State(), weekId) == WeekFor(old(State()), d, now)
      ensures old(GridComplete()) ==> GridComplete()
    {
      var found := FindWeek(weeks, d);
      if found.Some? {
        return found.value;
      }
      weekId := nextWeekId;
      var newCells := AddWeekCells(cells, weekId, PlayerIdsOf(players));
      ghost var t := State();
      AddWeekKeeps(t, d, now);
      if Complete(t) {
        AddWeekComplete(t, d, now);
      }
      weeks, cells, nextWeekId := weeks + [WeekRow(weekId, d, now)], newCells, nextWeekId + 1;
      assert State() == AddWeek(t, d, now);
    }

    /** The roster form of app.py:262-309: the submitted text is normalised
        and, when a name is left, the roster is replaced in one transaction. */
    method ReplacePlayers(raw: string) returns (names: seq<string>)
      requires Valid()
      modifies this
      ensures Valid()
      ensures names == Normalised(raw)
      ensures State() == ReplaceRoster(old(State()), names)
    {
      names := NormaliseRoster(raw);
      NormalisedDistinct(raw);
      ghost var t := State();
      ReplaceRosterKeeps(t, names);
      if names == [] {
        return;
      }
      // delete every cell and player, insert the new roster and its cells
      var rows := NumberPlayers(nextPlayerId, names);
      var newCells := RebuildCells(WeekIdsOf(weeks), PlayerIdsOf(rows));
      ghost var t' := ReplaceRoster(t, names);
      assert t'.players == rows && t'.cells == newCells;
      players, cells, nextPlayerId := rows, newCells, nextPlayerId + |names|;
      assert players == t'.players && cells == t'.cells && nextPlayerId == t'.nextPlayerId;
      assert weeks == t'.weeks && nextWeekId == t'.nextWeekId;
      assert State() == t';
    }

    /** `/toggle` (app.py:345-368): a cell that does not exist gives 404 and
        changes nothing; otherwise its `played` flag is flipped and the reply
        carries the new flag as 1 or 0. */
    method Toggle(weekId: int, playerId: int, gameNo: int) returns (reply: ToggleReply)
      requires Valid()
      modifies this
      ensures Valid()
      ensures State() == old(State()).(cells := Flip(old(cells), CellKey(weekId, playerId, gameNo)))
      ensures reply == NotFound <==> CellKey(weekId, playerId, gameNo) !in old(cells)
      ensures reply.Toggled? ==> reply.played == (if cells[CellKey(weekId, playerId, gameNo)] then 1 else 0)
    {
      var key := CellKey(weekId, playerId, gameNo);
      ToggleKeeps(State(), key);
      if key !in cells {
        return NotFound;
      }
      var newValue := !cells[key];
      cells := cells[key := newValue];
      reply := Toggled(if newValue then 1 else 0);
    }
  }

  /** Creating a week twice for the same date returns the same week. */
  method CreateWeekTwice(db: ClubDb, d: Date, now: Timestamp, later: Timestamp) returns (first: nat, second: nat)
    requires db.Valid()
    modifies db
    ensures first == second
    ensures FindWeek(db.weeks, d) == Some(first)
  {
    ghost var t := db.State();
    first := db.EnsureWeek(d, now);
    second := db.EnsureWeek(d, later);
    WeekForIdempotent(t, d, now, later);
    WeekForFinds(t, d, now);
  }
}
