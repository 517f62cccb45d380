# Badminton week sheet: a verified model of its bookkeeping

`app.py` is a small web application for a badminton club. An administrator keeps
the club's roster. For each week of play the application shows a sheet with a
box for every player and every one of the 16 games of that week, and the
administrator ticks a box when a player played that game. Underneath the web
pages sit three database tables:

- `players`: a unique id, a unique name and a `sort_order`;
- `weeks`: a unique id, a unique `week_date` and a creation time;
- `week_player_games`: one boolean `played` per (week id, player id, game number).

The application writes to these tables in a handful of places, each inside one
transaction:

- `init_db` may seed a default roster;
- `ensure_week` finds the week of a date, or creates it with its unplayed cells;
- the players page normalises the submitted roster text and, when names remain,
  replaces every player and rebuilds every cell;
- `/toggle` flips one cell.

Around these writes sit a few pure decisions: the login check, the database URL
rewrite, and the newest-first order of the weeks list.

The model has six modules:

- `Wrappers` is the `Option` type.
- `Text` covers the Python string operations the application uses: `isspace`,
  `strip`, `splitlines`, `"\n".join`, ASCII `lower`, `startswith`, and
  `replace(old, new, 1)`.
- `Roster` is the roster normalisation of the players page. It has a
  specification function `Normalised`, the imperative loop `DedupNames` with its
  `seen` set, and the lemmas for what normalisation promises.
- `Config` holds the engine URL, the URL rewrite and the login decision.
- `Schema` holds:
  - the rows of the three tables;
  - the grid of cell keys that a full sheet holds;
  - the `inserts` lists that the application builds;
  - the lookups of a week by date and by id;
  - the newest-first ordering of `get_weeks`.
- `Club` holds:
  - `Tables`, one state of the database as a value;
  - the integrity constraints `Consistent` and the 16-cells invariant `Complete`;
  - one specification function per write: `Seeding`, `AddWeek` and `WeekFor`,
    `ReplaceRoster`, and `Flip`;
  - the lemmas proving that each write keeps the constraints and the invariant;
  - the class `ClubDb`. Its fields are the three tables and the two id
    sequences. Its methods `InitDb`, `EnsureWeek`, `ReplacePlayers` and `Toggle`
    do the writes step by step, running the same nested insert loops as the
    source. Each method is proved to reach exactly the state its function
    describes.

The central invariant is `Complete`. It holds when every existing
(week, player) pair has exactly the cells for games 1 to 16 (`GAMES_PER_WEEK`,
app.py:38) and there is no other cell. Creating a week, replacing the roster
and toggling a cell all preserve it. Seeding preserves it only while no week
exists, because seeding inserts players without cells. `SeedKeeps` states this
exactly. The shipped default roster is empty, so seeding never happens in the
application as shipped.

## Model

| member | source | states |
|---|---|---|
| Text.IsSpace | app.py:264 | the characters `str.isspace()` accepts and `strip()` removes; `TrimStartDropsSpace`, `TrimEndDropsSpace` and `StripEmpty` are stated in terms of it |
| Text.IsLineBreak | app.py:264 | the characters at which `splitlines()` ends a line; `LineBreakIsSpace` relates them to `IsSpace` |
| Text.TrimStart | app.py:264 | the leading strip returns a suffix of its input that is empty or starts with a non-whitespace character; `TrimStartDropsSpace` states that it drops only whitespace |
| Text.TrimEnd | app.py:264 | the trailing strip returns a prefix of its input that is empty or ends with a non-whitespace character; `TrimEndDropsSpace` states that it drops only whitespace |
| Text.Strip | app.py:264 | `line.strip()` is no longer than the line and either is empty or starts and ends with a non-whitespace character |
| Text.TrimStartDropsSpace | app.py:264 | every character that the leading strip drops is whitespace |
| Text.TrimEndDropsSpace | app.py:264 | every character that the trailing strip drops is whitespace |
| Text.StripEmpty | app.py:264 | a line strips to the empty string exactly when every character of it is whitespace, so the comprehension drops exactly the blank lines |
| Text.StripChars | app.py:264 | stripping introduces no character that the line does not contain |
| Text.StripTrimmed | app.py:264 | a string with no whitespace at either end strips to itself |
| Text.StripIdempotent | app.py:264 | stripping twice is the same as stripping once |
| Text.StripPadded | app.py:185 | a user name that is empty or has no whitespace at either end, padded with a whitespace character on each side, strips back to itself |
| Text.SplitLines | app.py:264 | `splitlines` as a left-to-right scan; what it promises is stated by `SplitLinesNoBreak` and `SplitJoinRoundTrip` |
| Text.LinesFrom | app.py:264 | the scan behind `SplitLines`: `\r\n` counts as one boundary, and a boundary at the very end of the text does not open a further, empty line; `LinesFromNoBreak` and `LinesFromText` state its behaviour |
| Text.LinesFromNoBreak | app.py:264 | scanning from a current line without boundaries yields only lines without boundaries |
| Text.LinesFromText | app.py:264 | scanning past text without boundaries only extends the current line |
| Text.LineBreakIsSpace | app.py:264 | every `splitlines` boundary character is whitespace for `strip` |
| Text.SplitLinesNoBreak | app.py:264 | no line produced by `splitlines` contains a line boundary |
| Text.JoinLines | app.py:317 | joining no lines gives the empty text; `SplitJoinRoundTrip` states that splitting the joined text gives the lines back |
| Text.SplitJoinRoundTrip | app.py:317 | splitting `"\n".join(lines)` returns the lines, for non-empty lines without boundaries |
| Text.LowerChar | app.py:270 | lower-casing leaves no upper-case ASCII letter and changes only upper-case ASCII letters, each by the fixed offset |
| Text.Lower | app.py:270 | the ASCII model of `name.lower()` keeps the length; each character is folded by `LowerChar` |
| Text.StartsWith | app.py:84-86 | `url.startswith(prefix)`; `Config.RewriteDbUrlSpec` and `Config.EngineUrl` are stated with it |
| Text.ReplaceFirst | app.py:85 | `replace(pat, rep, 1)` as a left-to-right search; what it does is stated by `ReplaceFirstAt` and `ReplaceFirstAbsent` |
| Text.ReplaceFirstAt | app.py:85 | `replace(pat, rep, 1)` replaces the first occurrence of `pat` and keeps the text on both sides of it |
| Text.ReplaceFirstAbsent | app.py:85 | without an occurrence of `pat`, `replace` returns its input unchanged |
| Roster.KeptOf | app.py:264 | what the comprehension keeps of one line: its stripped form unless that is empty; `CleanedNames` states the result |
| Roster.KeySet | app.py:267-272 | the `seen` set: the lower-cased forms of the names kept so far; `KeySetSnoc` and `DedupKeys` state how it grows |
| Roster.Cleaned | app.py:264 | the comprehension `[line.strip() for line in lines if line.strip()]`; its promises are stated by `CleanedNames`, `CleanedOfClean` and `CleanedAppend` |
| Roster.Dedup | app.py:267-273 | the `seen` loop as a function of the whole list; its promises are stated by `DedupKeys`, `DedupDistinct`, `DedupSubsequence`, `DedupKeepsFirst`, `DedupInOrder` and `DedupOfDistinct` |
| Roster.Normalised | app.py:263-273 | the names the players page keeps; `NormalisedProperties` states what they are |
| Roster.NormaliseRoster | app.py:263-273 | the players page's normalisation returns exactly the specified `Normalised(raw)` |
| Roster.DedupNames | app.py:267-273 | the loop with its `seen` set and `unique_names` list returns `Dedup(names)`: a name is kept exactly when its lower-cased form has not been seen |
| Roster.KeySetSnoc | app.py:272 | adding a name adds its lower-cased form to the seen set |
| Roster.DedupKeys | app.py:267-273 | de-duplication keeps every lower-cased form of the input and adds none |
| Roster.DedupDistinct | app.py:270-273 | the kept names are pairwise distinct once lower-cased |
| Roster.DedupSubsequence | app.py:267-273 | the kept names are a subsequence of the input: they appear in it in the same relative order |
| Roster.SubsequenceElements | app.py:267-273 | every element of a subsequence occurs in the sequence |
| Roster.FirstWithKeySnoc | app.py:269-273 | appending a name changes the first spelling of a lower-cased form only when that form was new |
| Roster.DedupKeepsFirst | app.py:269-273 | every kept name is the first spelling of its lower-cased form in the input |
| Roster.FirstIndex | app.py:269-273 | the position of the first name with a given lower-cased form: no earlier name has that form, and the name found there has it |
| Roster.FirstIndexFound | app.py:269-273 | a lower-cased form has a first position inside the list exactly when some name of the list has it |
| Roster.FirstIndexSnoc | app.py:269-273 | appending a name keeps the first position of every form already present, and gives a new form the position of the appended name |
| Roster.DedupInOrder | app.py:267-273 | the kept names are in the order of their forms' first occurrences in the input: an earlier kept name's form occurs first strictly earlier |
| Roster.DedupOfDistinct | app.py:267-273 | names that are already distinct under lower-casing are kept unchanged |
| Roster.CleanedNames | app.py:264 | the comprehension yields at most one name per line, each non-empty with no whitespace at either end, and without line boundaries when the lines have none |
| Roster.CleanedOfClean | app.py:264 | lines that are already clean names pass through the comprehension unchanged |
| Roster.NormalisedProperties | app.py:264-273 | normalised names are clean, contain no line boundary and are distinct under lower-casing; they are a subsequence of the cleaned lines, cover every lower-cased form of them, keep each form's first spelling, and come in the order of their forms' first occurrences |
| Roster.RosterTextRoundTrip | app.py:317 | normalising the shown roster text (`"\n".join` of the names) gives the same roster back |
| Roster.NormalisedIdempotent | app.py:264-317 | re-submitting the text of a normalised roster gives the same roster |
| Roster.StripTrailingBlank | app.py:264 | a clean name followed by a blank (as in `bob `) strips back to the name |
| Roster.CleanedAppend | app.py:264 | the comprehension processes the lines one by one, in order: cleaning two blocks of lines concatenates their cleaned forms |
| Roster.ExampleDedup | app.py:267-273 | the stripped lines `Bob`, `bob`, `Alice` keep `Bob` and `Alice` |
| Config.RewriteDbUrl | app.py:84-87 | the two `startswith`/`replace` steps; `RewriteDbUrlSpec` and `RewriteDbUrlIdempotent` state what they do |
| Config.ReplaceLeading | app.py:84-87 | when the URL starts with the scheme, the single replacement swaps that leading scheme |
| Config.SchemesDisjoint | app.py:84-87 | no URL starts with both `postgres://` and `postgresql://`, and a psycopg URL starts with neither |
| Config.RewriteDbUrlSpec | app.py:84-87 | a `postgres://` or `postgresql://` prefix becomes `postgresql+psycopg://` and the rest of the URL is kept; any other URL is unchanged |
| Config.RewriteDbUrlIdempotent | app.py:84-87 | rewriting a rewritten URL changes nothing |
| Config.EngineUrl | app.py:75-89 | without a non-empty `DATABASE_URL` the engine URL is `sqlite:///` followed by the database path; a `postgres://` or `postgresql://` URL becomes `postgresql+psycopg://` with the rest kept, any other URL is used as given, and the engine never receives a bare PostgreSQL scheme |
| Config.FormField | app.py:185-186 | `request.form.get(field, "")`; `Login` is stated in terms of it |
| Config.Login | app.py:177-196 | with no admin password the result is always the configuration error; otherwise a POST logs in exactly when the stripped user name and the unstripped password match, is rejected exactly when either differs, and a GET shows the form |
| Config.LoginStripsOnlyUsername | app.py:185-188 | blanks around the user name are ignored; a blank after the password makes the login fail |
| Schema.DistinctCard | app.py:52 | a list of distinct ids has as many elements as its set |
| Schema.PlayerIdsOf | app.py:290 | the player id column lists one id per row, in row order |
| Schema.WeekIdsOf | app.py:289 | the week id column lists one id per row, in row order |
| Schema.NamesOf | app.py:317 | the name column lists one name per row, in row order |
| Schema.GridKeys | app.py:38 | the cell keys of a full sheet: each week, each player, games 1 to 16; `GridKeysCard`, `GridKeysAddWeek` and `GridPairGames` state its size and shape |
| Schema.FreshGrid | app.py:128-142 | the full sheet with nothing played; `GridRowsInsertFreshGrid` and `Club.AddWeekCells` show that the insert loops build it |
| Schema.GameKeysCard | app.py:131 | one (week, player) pair has one cell per game: `n` keys for games 1 to `n` |
| Schema.WeekKeysCard | app.py:129-139 | a week has 16 cells per player |
| Schema.GridKeysCard | app.py:292-304 | the full grid has weeks × players × 16 cells |
| Schema.GridKeysAddWeek | app.py:119-142 | the grid with an added week is the old grid plus that week's cells, and the two are disjoint when the week is new |
| Schema.GridPairGames | app.py:38 | in the grid each (week, player) pair has exactly the games 1 to 16 |
| Schema.GameRows | app.py:131-139 | the innermost insert loop for one pair; `GameRowsMember` and `GameRowsLength` state what it builds |
| Schema.WeekRows | app.py:129-139 | the insert loops for one week; `WeekRowsMember` and `WeekRowsLength` state what they build |
| Schema.GridRows | app.py:292-304 | the triple insert loop of the roster replace; `GridRowsMember` and `GridRowsLength` state what it builds |
| Schema.GameRowsMember | app.py:131-139 | the rows built for one pair are exactly games 1 to `n` of that pair, all unplayed |
| Schema.WeekRowsMember | app.py:129-139 | the rows built for one week are exactly its 16 games for each listed player, all unplayed |
| Schema.GridRowsMember | app.py:292-304 | the rows built for the roster replace are exactly every week × player × game, all unplayed |
| Schema.GameRowsLength | app.py:131-139 | one pair contributes `n` rows |
| Schema.WeekRowsLength | app.py:129-139 | one week contributes 16 rows per player |
| Schema.GridRowsLength | app.py:292-304 | the replace builds weeks × players × 16 rows |
| Schema.RowsToMap | app.py:142 | inserting a batch of rows; `RowsToMapUnplayed` and `GridRowsInsertFreshGrid` state its result |
| Schema.RowsToMapUnplayed | app.py:142 | inserting only unplayed rows gives a table in which every key is unplayed |
| Schema.GridRowsInsertFreshGrid | app.py:306-307 | inserting the built rows gives the fully unplayed grid |
| Schema.WeekRowsIsGridRows | app.py:128-139 | the rows of one week are the grid rows for that single week |
| Schema.FindWeek | app.py:113-117 | the lookup by date returns nothing exactly when no week has that date, and otherwise the id of a week with that date |
| Schema.FindWeekAppend | app.py:119-122 | appending a week to a table without the date makes the lookup find exactly that week for its own date |
| Schema.FindWeekById | app.py:225-228 | the lookup by id returns nothing exactly when no week has that id, and otherwise a stored week with that id |
| Schema.InsertByDate | app.py:160 | one step of the newest-first ordering; `InsertByDatePermutes` and `InsertByDateSorted` state it |
| Schema.InsertByDatePermutes | app.py:160 | inserting a week into the ordered list keeps every week |
| Schema.InsertByDateSorted | app.py:160 | inserting a week into a newest-first list keeps it newest first |
| Schema.WeeksNewestFirst | app.py:158-161 | `get_weeks` as an insertion sort by date; `WeeksNewestFirstSpec` states its result |
| Schema.WeeksNewestFirstSpec | app.py:158-161 | `get_weeks` lists the same weeks, newest date first |
| Schema.LatestWeek | app.py:212-216 | the week the index page opens; `LatestWeekIsNewest` states which one it is |
| Schema.LatestWeekIsNewest | app.py:212-216 | the index page opens a week exactly when one exists, and that week has the latest date |
| Club.Consistent | app.py:49-72 | the table constraints: unique ids below their sequences, unique names and dates, `sort_order` 1..n, and every cell on an existing week, player and game; `ToggleKeeps`, `SeedKeeps`, `AddWeekKeeps` and `ReplaceRosterKeeps` prove each write keeps them |
| Club.Complete | app.py:38 | every (week, player) pair has exactly the cells of games 1 to 16; `GridPairGames` states the per-pair reading. `ToggleKeeps`, `AddWeekComplete` and `ReplaceRosterKeeps` (with `ReplaceRosterCells` for an empty list) prove that toggling, creating a week and replacing the roster keep it; `SeedKeeps` shows that seeding keeps it only while no week exists |
| Club.Flip | app.py:357-366 | a toggle keeps the set of cells, negates the named cell if it exists, and leaves every other cell alone |
| Club.FlipTwice | app.py:357-366 | toggling the same cell twice restores the sheet |
| Club.ToggleKeeps | app.py:345-366 | a toggle keeps every constraint and keeps a complete sheet complete |
| Club.PlayedMap | app.py:243 | `played_map` has one entry per cell of the week, holding that cell's value |
| Club.WeekView | app.py:224-252 | an unknown week id gives no page (redirect). Otherwise the page shows that stored week, all weeks newest first, the players in sort order, games 1 to 16 in order, and a played map holding exactly the week's cells with their values |
| Club.WeekViewComplete | app.py:230-243 | on a complete sheet the week page has a value for exactly every (player, game 1..16) box |
| Club.NewPlayers | app.py:281-287 | the rows a roster insert creates; `NewPlayersConsistent` states what they carry |
| Club.NewPlayersConsistent | app.py:281-287 | the inserted rows carry the names in order, distinct fresh ids, and `sort_order` 1..n |
| Club.NumberPlayers | app.py:281-287 | the enumerated insert list is exactly `NewPlayers` |
| Club.Seeding | app.py:95-107 | the effect of `init_db`; `SeedKeeps` states it |
| Club.SeedKeeps | app.py:98-107 | seeding keeps every constraint. When it does not seed, nothing changes. When it seeds, the players are exactly the defaults, the weeks are unchanged, no cell is created, and the sheet is complete exactly when no week exists |
| Club.ClubDb.InitDb | app.py:95-107 | the database ends in exactly the state `Seeding` describes, with the constraints kept |
| Club.AddWeek | app.py:119-142 | the write that creates a week; `AddWeekFresh`, `AddWeekKeeps`, `AddWeekComplete`, `AddWeekCellKeys`, `AddWeekCellValues` and `AddWeekCellCount` state it |
| Club.WeekFor | app.py:111-144 | the effect and result of `ensure_week`; `WeekForFinds` and `WeekForIdempotent` state them |
| Club.CellCount | app.py:142 | adding cells under new keys adds their number to the table size |
| Club.AddWeekFresh | app.py:119-122 | the new week's id is not used by any stored week, the set of week ids grows by exactly that id, and the date lookup then finds it |
| Club.AddWeekKeeps | app.py:119-144 | creating a week for a new date keeps every constraint, including unique dates and unique ids |
| Club.AddWeekComplete | app.py:119-142 | creating a week keeps a complete sheet complete |
| Club.AddWeekCellKeys | app.py:128-142 | the new cells are exactly the new week's grid |
| Club.AddWeekGridKeys | app.py:119-142 | the grid after creating a week is the old grid plus the new week's cells |
| Club.AppendWeekUnique | app.py:60-61 | appending a week with a larger id and a new date keeps ids and dates unique |
| Club.AddWeekCellCount | app.py:128-142 | creating a week adds exactly players × 16 cells |
| Club.AddWeekCellValues | app.py:128-142 | the new week's cells start unplayed, and every existing cell keeps its value |
| Club.WeekForFinds | app.py:111-144 | after `ensure_week` the returned id is the week of the date. The players are unchanged. For a new date, exactly one week is appended, with a fresh id |
| Club.WeekForIdempotent | app.py:113-117 | calling `ensure_week` again for the same date returns the same id and changes nothing |
| Club.ClubDb.EnsureWeek | app.py:111-144 | the method returns the id and reaches the state that `WeekFor` describes. It keeps the constraints and keeps a complete sheet complete |
| Club.WeekInserts | app.py:128-139 | the nested loop builds exactly `WeekRows` |
| Club.AddWeekCells | app.py:128-142 | inserting the built list, if it is non-empty, adds exactly the new week's unplayed grid |
| Club.ReplaceRoster | app.py:275-307 | the write of the roster replace; `ReplaceRosterKeeps` and `ReplaceRosterCells` state it |
| Club.ReplaceRosterKeeps | app.py:275-307 | replacing the roster with distinct names keeps every constraint and the weeks. After a non-empty replace the players carry exactly the names and the sheet is complete, with weeks × names × 16 cells |
| Club.ReplaceRosterCells | app.py:275-307 | an empty list changes nothing. Otherwise every cell is unplayed and belongs to one of the new players, and (with ids never reused) no cell of a removed player survives |
| Club.RosterDistinct | app.py:53 | names distinct under lower-casing are distinct, so the unique name constraint cannot reject them |
| Club.NormalisedDistinct | app.py:264-287 | the normalised names are distinct, so the insert of the replace never breaks `unique=True` |
| Club.Tables.RosterText | app.py:311-317 | the text of the players page, the names in sort order one per line; `ReplaceShowsRoster` and `Roster.RosterTextRoundTrip` state what it gives back |
| Club.ReplaceShowsRoster | app.py:311-317 | after a replace, the players page shows a text that normalises back to the stored names |
| Club.GridInserts | app.py:291-304 | the triple loop builds exactly `GridRows` |
| Club.RebuildCells | app.py:289-307 | the rebuilt cell table is exactly the unplayed grid of weeks × new players |
| Club.ClubDb.ReplacePlayers | app.py:262-309 | the method returns the normalised names and reaches exactly the state that `ReplaceRoster` describes, with the constraints kept |
| Club.ClubDb.Toggle | app.py:345-368 | a missing cell gives not-found and changes nothing. Otherwise only that cell flips, and the reply carries its new value as 1 or 0. The constraints are kept |
| Club.ClubDb.constructor | app.py:47-72 | the freshly created tables are empty, consistent and complete |
| Club.CreateWeekTwice | app.py:113-117 | two `ensure_week` calls for one date return the same id, and it is the id of that date's week |

## Left out

- Flask routing, templates, redirects, `jsonify` and the session cookie of `login_required` (app.py:165-172) are web plumbing; only the login decision and each route's effect on the tables are modelled.
- `logout` (app.py:201-205) only clears the session; the session is not modelled.
- The SQLAlchemy engine, connections and `metadata.create_all` are library calls; the tables are in-memory values and fields.
- `row_to_dict`'s fallback (app.py:148-155) converts rows to dictionaries; rows are records here.
- Transactions and concurrent requests: each write is one atomic method, as `engine.begin()` makes it for a single request.
- `datetime.utcnow()`, `date.today()` and `datetime.fromisoformat` (app.py:120, 330-331) are the clock and a date parser; the time and the date are parameters, and dates are abstract integers ordered like the dates.
- Reading the environment and `app.run` (app.py:40-45, 371-374): the configured values are parameters of `Login` and `EngineUrl`.
- `int()` parsing of the `/toggle` JSON (app.py:340-343): the three numbers are taken as already parsed; a malformed body is not modelled.
- `connect_args` and `pool_pre_ping` (app.py:81, 89) only tune the driver; `EngineUrl` returns only the URL. The path `APP_DIR / "badminton.db"` is joined by `pathlib` and comes in as the parameter `dbPath`.
- Ids come from sequences that never reuse a value, as PostgreSQL's serial columns do. On SQLite, the engine used when `DATABASE_URL` is unset, the ids are rowids without `AUTOINCREMENT`: after the roster replace deletes every player, the new players are numbered 1 to n again, reusing the old ids. The model does not capture that reuse.
- `Club.ReplaceRosterCells`: its clause that no new cell carries a removed player's id holds only for ids that are never reused, so it does not hold on SQLite; the clauses that every cell is unplayed and belongs to a new player hold on either engine.
- The order of rows returned by a `select` without `order_by`: the weeks are kept in insertion order, and the cells are a map, whose order plays no part because both `played_map` and the batch insert are keyed by (week, player, game).
- `Text.LowerChar`: folds only the ASCII letters, because Unicode case mapping is outside the model. Python's full `lower()` can change the length (`"\u0130".lower()` has two characters); the ASCII `Lower` keeps it. The de-duplication lemmas do not rely on the length; they hold for any key function.
- `Club.ClubDb.InitDb`: a database error other than the unique-name constraint is not modelled; duplicate default names give `IntegrityError` and change nothing, as the rolled-back transaction does.
- `Roster.ExampleDedup`: the players-page example is proved for the stage after stripping; stripping `bob ` is covered by `Roster.StripTrailingBlank`, not by a lemma on the literal text.
