/**
  The three tables of app.py:47-72 as rows, the full attendance grid, the
  batch of rows the application builds before inserting cells
  (app.py:128-142, 291-304), the lookup of a week by date (app.py:113-117)
  and the listing of weeks newest first (app.py:158-161).
 */
module Schema {
  import opened Wrappers

  /** `GAMES_PER_WEEK` (app.py:38). */
  const GamesPerWeek: nat := 16

  /** A calendar date, only ever compared and ordered. */
  type Date = int
  /** The creation time of a week, taken from the caller's clock. */
  type Timestamp = int

  /** A row of `players`. */
  datatype PlayerRow = PlayerRow(id: nat, name: string, sortOrder: int)

  /** A row of `weeks`. */
  datatype WeekRow = WeekRow(id: nat, weekDate: Date, createdAt: Timestamp)

  /** The composite primary key of `week_player_games`. */
  datatype CellKey = CellKey(weekId: int, playerId: int, gameNo: int)

  /** A row of `week_player_games`, as the application builds it for an insert. */
  datatype CellRow = CellRow(weekId: int, playerId: int, gameNo: int, played: bool) {
    function Key(): CellKey {
      CellKey(weekId, playerId, gameNo)
    }
  }

  function Elems(s: seq<nat>): set<nat> {
    set x | x in s
  }

  /** Every element of `s` occurs once. */
  predicate Distinct<T(==)>(s: seq<T>) {
    forall i, j | 0 <= i < j < |s| :: Differ(s, i, j)
  }

  /** Positions `i` and `j` of `s` hold different elements. `Distinct` and
      `UniqueDates` quantify over this predicate rather than over the two
      elements, so their pairs are only compared where a proof names them. */
  predicate Differ<T(==)>(s: seq<T>, i: int, j: int)
    requires 0 <= i < |s| && 0 <= j < |s|
  {
    s[i] != s[j]
  }

  /** A list without repetitions has as many elements as its set. */
  lemma {:induction false} DistinctCard(s: seq<nat>)
    requires Distinct(s)
    ensures |Elems(s)| == |s|
  {
    if s != [] {
      var init := s[..|s| - 1];
      var last := s[|s| - 1];
      assert Distinct(init) by {
        forall i, j | 0 <= i < j < |init| ensures Differ(init, i, j) {
          assert Differ(s, i, j);
        }
      }
      DistinctCard(init);
      assert s == init + [last];
      assert Elems(s) == Elems(init) + {last};
      assert last !in Elems(init) by {
        forall x | x in init ensures x != last {
          var i :| 0 <= i < |init| && init[i] == x;
          assert Differ(s, i, |s| - 1);
        }
      }
    }
  }

  /** The ids of the player rows, in table order. */
  function PlayerIdsOf(ps: seq<PlayerRow>): (ids: seq<nat>)
    ensures |ids| == |ps|
    ensures forall i | 0 <= i < |ps| :: ids[i] == ps[i].id
  {
    if ps == [] then [] else PlayerIdsOf(ps[..|ps| - 1]) + [ps[|ps| - 1].id]
  }

  /** The ids of the week rows, in table order. */
  function WeekIdsOf(ws: seq<WeekRow>): (ids: seq<nat>)
    ensures |ids| == |ws|
    ensures forall i | 0 <= i < |ws| :: ids[i] == ws[i].id
  {
    if ws == [] then [] else WeekIdsOf(ws[..|ws| - 1]) + [ws[|ws| - 1].id]
  }

  /** The names of the player rows, in table order. */
  function NamesOf(ps: seq<PlayerRow>): (names: seq<string>)
    ensures |names| == |ps|
    ensures forall i | 0 <= i < |ps| :: names[i] == ps[i].name
  {
    if ps == [] then [] else NamesOf(ps[..|ps| - 1]) + [ps[|ps| - 1].name]
  }

  // ---------------------------------------------------------------- the full grid

  /** Every key of the grid: each week, each player, games 1 to `GamesPerWeek`. */
  function GridKeys(weekIds: set<nat>, playerIds: set<nat>): set<CellKey> {
    set w, p, g | w in weekIds && p in playerIds && 1 <= g <= GamesPerWeek :: CellKey(w, p, g)
  }

  /** The grid with nothing played yet. */
  function FreshGrid(weekIds: set<nat>, playerIds: set<nat>): map<CellKey, bool> {
    map k | k in GridKeys(weekIds, playerIds) :: false
  }

  /** The keys of one (week, player) pair, games 1 to `n`. */
  function GameKeys(w: nat, p: nat, n: nat): set<CellKey> {
    set g | 1 <= g <= n :: CellKey(w, p, g)
  }

  /** The keys of one week, every player. */
  function WeekKeys(w: nat, playerIds: set<nat>): set<CellKey> {
    set p, g | p in playerIds && 1 <= g <= GamesPerWeek :: CellKey(w, p, g)
  }

  lemma {:induction false} GameKeysCard(w: nat, p: nat, n: nat)
    ensures |GameKeys(w, p, n)| == n
  {
    if n > 0 {
      GameKeysCard(w, p, n - 1);
      assert GameKeys(w, p, n) == GameKeys(w, p, n - 1) + {CellKey(w, p, n)};
    }
  }

  lemma {:induction false} WeekKeysCard(w: nat, playerIds: set<nat>)
    ensures |WeekKeys(w, playerIds)| == |playerIds| * GamesPerWeek
    decreases |playerIds|
  {
    if playerIds != {} {
      var p :| p in playerIds;
      var rest := playerIds - {p};
      WeekKeysCard(w, rest);
      GameKeysCard(w, p, GamesPerWeek);
      assert WeekKeys(w, playerIds) == WeekKeys(w, rest) + GameKeys(w, p, GamesPerWeek);
      assert WeekKeys(w, rest) !! GameKeys(w, p, GamesPerWeek);
      assert |playerIds| == |rest| + 1;
    }
  }

  /** The grid of `|weeks|` weeks and `|players|` players has exactly
      `|weeks| * |players| * GamesPerWeek` cells. */
  lemma {:induction false} GridKeysCard(weekIds: set<nat>, playerIds: set<nat>)
    ensures |GridKeys(weekIds, playerIds)| == |weekIds| * |playerIds| * GamesPerWeek
    decreases |weekIds|
  {
    if weekIds != {} {
      var w :| w in weekIds;
      var rest := weekIds - {w};
      GridKeysCard(rest, playerIds);
      WeekKeysCard(w, playerIds);
      assert GridKeys(weekIds, playerIds) == GridKeys(rest, playerIds) + WeekKeys(w, playerIds);
      assert GridKeys(rest, playerIds) !! WeekKeys(w, playerIds);
      assert |weekIds| == |rest| + 1;
      assert |weekIds| * |playerIds| * GamesPerWeek
          == |rest| * |playerIds| * GamesPerWeek + |playerIds| * GamesPerWeek;
    }
  }

  /** Adding a week adds exactly that week's cells to the grid; when the week
      is new they are cells the grid did not have. */
  lemma GridKeysAddWeek(weekIds: set<nat>, playerIds: set<nat>, w: nat)
    ensures GridKeys(weekIds + {w}, playerIds) == GridKeys(weekIds, playerIds) + GridKeys({w}, playerIds)
    ensures w !in weekIds ==> GridKeys(weekIds, playerIds) !! GridKeys({w}, playerIds)
  {
  }

  /** For each (week, player) pair of the grid the game numbers present are
      exactly 1 to `GamesPerWeek`, so the pair has `GamesPerWeek` cells. */
  lemma GridPairGames(weekIds: set<nat>, playerIds: set<nat>, w: nat, p: nat)
    requires w in weekIds && p in playerIds
    ensures (set k | k in GridKeys(weekIds, playerIds) && k.weekId == w && k.playerId == p) == GameKeys(w, p, GamesPerWeek)
    ensures |GameKeys(w, p, GamesPerWeek)| == GamesPerWeek
  {
    GameKeysCard(w, p, GamesPerWeek);
  }

  // ---------------------------------------------------------------- the batch of inserted rows

  /** The rows the innermost loop appends for one (week, player) pair, games 1 to `n`. */
  function GameRows(w: nat, p: nat, n: nat): seq<CellRow> {
    if n == 0 then [] else GameRows(w, p, n - 1) + [CellRow(w, p, n, false)]
  }

  /** The rows appended for one week, player after player. */
  function WeekRows(w: nat, playerIds: seq<nat>): seq<CellRow> {
    if playerIds == [] then []
    else WeekRows(w, playerIds[..|playerIds| - 1]) + GameRows(w, playerIds[|playerIds| - 1], GamesPerWeek)
  }

  /** The rows appended for every week, week after week. */
  function GridRows(weekIds: seq<nat>, playerIds: seq<nat>): seq<CellRow> {
    if weekIds == [] then []
    else GridRows(weekIds[..|weekIds| - 1], playerIds) + WeekRows(weekIds[|weekIds| - 1], playerIds)
  }

  lemma {:induction false} GameRowsMember(w: nat, p: nat, n: nat, r: CellRow)
    ensures r in GameRows(w, p, n) <==> r.weekId == w && r.playerId == p && 1 <= r.gameNo <= n && !r.played
  {
    if n > 0 {
      GameRowsMember(w, p, n - 1, r);
    }
  }

  lemma {:induction false} WeekRowsMember(w: nat, playerIds: seq<nat>, r: CellRow)
    ensures r in WeekRows(w, playerIds) <==>
              r.weekId == w && r.playerId in playerIds && 1 <= r.gameNo <= GamesPerWeek && !r.played
  {
    if playerIds != [] {
      var init := playerIds[..|playerIds| - 1];
      var last := playerIds[|playerIds| - 1];
      WeekRowsMember(w, init, r);
      GameRowsMember(w, last, GamesPerWeek, r);
      assert playerIds == init + [last];
    }
  }

  /** The batch holds a row for exactly the keys of the grid, none of them played. */
  lemma {:induction false} GridRowsMember(weekIds: seq<nat>, playerIds: seq<nat>, r: CellRow)
    ensures r in GridRows(weekIds, playerIds) <==>
              r.weekId in weekIds && r.playerId in playerIds && 1 <= r.gameNo <= GamesPerWeek && !r.played
  {
    if weekIds != [] {
      var init := weekIds[..|weekIds| - 1];
      var last := weekIds[|weekIds| - 1];
      GridRowsMember(init, playerIds, r);
      WeekRowsMember(last, playerIds, r);
      assert weekIds == init + [last];
    }
  }

  /** The batch holds `|weeks| * |players| * GamesPerWeek` rows. */
  lemma {:induction false} GridRowsLength(weekIds: seq<nat>, playerIds: seq<nat>)
    ensures |GridRows(weekIds, playerIds)| == |weekIds| * |playerIds| * GamesPerWeek
  {
    if weekIds != [] {
      GridRowsLength(weekIds[..|weekIds| - 1], playerIds);
      WeekRowsLength(weekIds[|weekIds| - 1], playerIds);
      assert |weekIds| * |playerIds| * GamesPerWeek
          == (|weekIds| - 1) * |playerIds| * GamesPerWeek + |playerIds| * GamesPerWeek;
    }
  }

  lemma {:induction false} WeekRowsLength(w: nat, playerIds: seq<nat>)
    ensures |WeekRows(w, playerIds)| == |playerIds| * GamesPerWeek
  {
    if playerIds != [] {
      WeekRowsLength(w, playerIds[..|playerIds| - 1]);
      GameRowsLength(w, playerIds[|playerIds| - 1], GamesPerWeek);
    }
  }

  lemma {:induction false} GameRowsLength(w: nat, p: nat, n: nat)
    ensures |GameRows(w, p, n)| == n
  {
    if n > 0 {
      GameRowsLength(w, p, n - 1);
    }
  }

  /** Inserting a batch of rows into `week_player_games`: each row's key gets its `played`. */
  function RowsToMap(rows: seq<CellRow>): map<CellKey, bool> {
    if rows == [] then map[]
    else RowsToMap(rows[..|rows| - 1])[rows[|rows| - 1].Key() := rows[|rows| - 1].played]
  }

  /** The keys a batch of rows inserts. */
  function RowKeys(rows: seq<CellRow>): set<CellKey> {
    set r | r in rows :: r.Key()
  }

  /** A batch of unplayed rows inserts exactly its keys, all unplayed. */
  lemma {:induction false} RowsToMapUnplayed(rows: seq<CellRow>)
    requires forall r | r in rows :: !r.played
    ensures RowsToMap(rows) == map k | k in RowKeys(rows) :: false
  {
    if rows != [] {
      var init := rows[..|rows| - 1];
      var last := rows[|rows| - 1];
      assert rows == init + [last];
      RowsToMapUnplayed(init);
      assert RowKeys(rows) == RowKeys(init) + {last.Key()};
    }
  }

  /** The batch the application builds inserts the fresh grid of its weeks and players. */
  lemma GridRowsInsertFreshGrid(weekIds: seq<nat>, playerIds: seq<nat>)
    ensures RowsToMap(GridRows(weekIds, playerIds)) == FreshGrid(Elems(weekIds), Elems(playerIds))
  {
    var rows := GridRows(weekIds, playerIds);
    forall r | r in rows ensures !r.played {
      GridRowsMember(weekIds, playerIds, r);
    }
    RowsToMapUnplayed(rows);
    var keys := RowKeys(rows);
    forall k ensures k in keys <==> k in GridKeys(Elems(weekIds), Elems(playerIds)) {
      var r := CellRow(k.weekId, k.playerId, k.gameNo, false);
      GridRowsMember(weekIds, playerIds, r);
      if k in keys {
        var r' :| r' in rows && r'.Key() == k;
        GridRowsMember(weekIds, playerIds, r');
      }
    }
    assert keys == GridKeys(Elems(weekIds), Elems(playerIds));
  }

  /** A single week's batch is the same as the grid batch for that one week. */
  lemma WeekRowsIsGridRows(w: nat, playerIds: seq<nat>)
    ensures WeekRows(w, playerIds) == GridRows([w], playerIds)
  {
    assert [w][..0] == [];
  }

  // ---------------------------------------------------------------- weeks

  /** `SELECT id FROM weeks WHERE week_date = d`, first row (app.py:113-117). */
  function FindWeek(weeks: seq<WeekRow>, d: Date): (r: Option<nat>)
    ensures r.None? <==> forall i | 0 <= i < |weeks| :: weeks[i].weekDate != d
    ensures r.Some? ==> exists i | 0 <= i < |weeks| :: weeks[i].id == r.value && weeks[i].weekDate == d
  {
    if weeks == [] then None
    else if weeks[0].weekDate == d then Some(weeks[0].id)
    else
      var r := FindWeek(weeks[1..], d);
      assert forall i | 1 <= i < |weeks| :: weeks[1..][i - 1] == weeks[i];
      r
  }

  /** When no row has date `d`, appending a row makes the lookup find exactly that row. */
  lemma {:induction false} FindWeekAppend(weeks: seq<WeekRow>, w: WeekRow, d: Date)
    requires FindWeek(weeks, d).None?
    ensures FindWeek(weeks + [w], d) == if w.weekDate == d then Some(w.id) else None
  {
    if weeks == [] {
      assert weeks + [w] == [w] && [w][1..] == [];
    } else {
      assert (weeks + [w])[1..] == weeks[1..] + [w];
      FindWeekAppend(weeks[1..], w, d);
    }
  }

  /** `SELECT * FROM weeks WHERE id = weekId`, first row (app.py:225). */
  function FindWeekById(weeks: seq<WeekRow>, weekId: int): (r: Option<WeekRow>)
    ensures r.None? <==> forall i | 0 <= i < |weeks| :: weeks[i].id != weekId
    ensures r.Some? ==> r.value in weeks && r.value.id == weekId
  {
    if weeks == [] then None
    else if weeks[0].id == weekId then Some(weeks[0])
    else
      var r := FindWeekById(weeks[1..], weekId);
      assert forall i | 1 <= i < |weeks| :: weeks[1..][i - 1] == weeks[i];
      r
  }

  /** Dates are pairwise distinct (the `unique=True` of `week_date`). */
  predicate UniqueDates(weeks: seq<WeekRow>) {
    forall i, j | 0 <= i < j < |weeks| :: DateDiffers(weeks, i, j)
  }

  /** Weeks `i` and `j` have different dates. */
  predicate DateDiffers(weeks: seq<WeekRow>, i: int, j: int)
    requires 0 <= i < |weeks| && 0 <= j < |weeks|
  {
    weeks[i].weekDate != weeks[j].weekDate
  }

  predicate NewestFirst(weeks: seq<WeekRow>) {
    forall i, j | 0 <= i < j < |weeks| :: weeks[i].weekDate >= weeks[j].weekDate
  }

  /** Inserts a week into a list that is newest first. */
  function InsertByDate(w: WeekRow, sorted: seq<WeekRow>): seq<WeekRow> {
    if sorted == [] then [w]
    else if w.weekDate >= sorted[0].weekDate then [w] + sorted
    else [sorted[0]] + InsertByDate(w, sorted[1..])
  }

  /** `SELECT * FROM weeks ORDER BY week_date DESC` (app.py:160). */
  function WeeksNewestFirst(weeks: seq<WeekRow>): seq<WeekRow> {
    if weeks == [] then [] else InsertByDate(weeks[0], WeeksNewestFirst(weeks[1..]))
  }

  lemma {:induction false} InsertByDatePermutes(w: WeekRow, sorted: seq<WeekRow>)
    ensures multiset(InsertByDate(w, sorted)) == multiset(sorted) + multiset{w}
  {
    if sorted != [] && w.weekDate < sorted[0].weekDate {
      InsertByDatePermutes(w, sorted[1..]);
      assert sorted == [sorted[0]] + sorted[1..];
    }
  }

  lemma {:induction false} InsertByDateSorted(w: WeekRow, sorted: seq<WeekRow>)
    requires NewestFirst(sorted)
    ensures NewestFirst(InsertByDate(w, sorted))
  {
    if sorted != [] && w.weekDate < sorted[0].weekDate {
      var tail := sorted[1..];
      InsertByDateSorted(w, tail);
      InsertByDatePermutes(w, tail);
      var ins := InsertByDate(w, tail);
      forall i | 0 <= i < |ins| ensures ins[i].weekDate <= sorted[0].weekDate {
        assert ins[i] in multiset(ins);
        assert ins[i] == w || ins[i] in multiset(tail);
      }
    }
  }

  /** The listing holds the same weeks, newest first. */
  lemma {:induction false} WeeksNewestFirstSpec(weeks: seq<WeekRow>)
    ensures NewestFirst(WeeksNewestFirst(weeks))
    ensures multiset(WeeksNewestFirst(weeks)) == multiset(weeks)
  {
    if weeks != [] {
      WeeksNewestFirstSpec(weeks[1..]);
      InsertByDateSorted(weeks[0], WeeksNewestFirst(weeks[1..]));
      InsertByDatePermutes(weeks[0], WeeksNewestFirst(weeks[1..]));
      assert weeks == [weeks[0]] + weeks[1..];
    }
  }

  /** The week the index page opens (app.py:212-216): none when there are no
      weeks, otherwise the first of the listing. */
  function LatestWeek(weeks: seq<WeekRow>): Option<WeekRow> {
    var listing := WeeksNewestFirst(weeks);
    if listing == [] then None else Some(listing[0])
  }

  /** The index page opens a week of the table with the most recent date. */
  lemma LatestWeekIsNewest(weeks: seq<WeekRow>)
    ensures LatestWeek(weeks).None? <==> weeks == []
    ensures LatestWeek(weeks).Some? ==>
              LatestWeek(weeks).value in weeks &&
              forall w | w in weeks :: w.weekDate <= LatestWeek(weeks).value.weekDate
  {
    WeeksNewestFirstSpec(weeks);
    var listing := WeeksNewestFirst(weeks);
    assert |listing| == |multiset(listing)| == |multiset(weeks)| == |weeks|;
    if listing != [] {
      assert listing[0] in multiset(listing);
      forall w | w in weeks ensures w.weekDate <= listing[0].weekDate {
        assert w in multiset(weeks);
        assert w in listing;
        var i :| 0 <= i < |listing| && listing[i] == w;
        if i > 0 {
          assert listing[0].weekDate >= listing[i].weekDate;
        }
      }
    }
  }
}
