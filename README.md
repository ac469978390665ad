# PRStats match ingest, modelled in Dafny

This project models the deterministic core of a scoreboard bot for a
multiplayer game. A user uploads screenshots of the two teams' scoreboards.
The server then does the following:

- It cuts each stats image into a 5 x 3 grid and reads every cell through OCR.
- It cleans each OCR token with a table of replacements, and asks a digit classifier for a second opinion on "6" and "9".
- It turns the tokens into integer stats, pairs them with the OCR'd name lines, and normalises the names.
- It lets the user correct names and stats through Discord, using an in-memory store.
- It commits the match to a relational database: Players, Maps, Match_Types, Matches, Player_Stats, Player_Aggregate_Stats and H2H_Records.

Uploads are guarded by one-off access codes that expire after five minutes.
On the read side, the bot pages the player list, orients head-to-head records
to the order the caller named the players in, and formats a team's stats.

How the Python is represented:

- **Modules.** Each Python file is a Dafny module of the same role: `Scan`, `Utilities`, `Manager` (stats_manager.py), `Write`, `FastApp`, `Bot` and `BotUtils`. Three helper modules sit beside them:
  - `Wrappers` holds `Option` and `Result`. Python exceptions are values of `Error`.
  - `Strings` holds the Python `str` operations the code uses: `replace`, `strip`, `lower`, `split`, `join`, `int()` and `str()`.
  - `Teams` holds Python's insertion-ordered dict from a player name to their stats list. A team is a sequence of entries with distinct names. Assigning an existing key keeps its position, a new key goes last, and `pop` removes the entry.
- **Loops.** Code that works by looping and mutating is an imperative method, proved against a function that specifies it. The mutable objects are classes:
  - `StatsManager`;
  - the database connection (`Write.Store`, one map per table);
  - the `codes` dict of the upload server (`FastApp.CodeRegistry`).
- **Outside services.** OCR, the classifier, the fuzzy scorer `extractOne` and the upload's processing pipeline are function parameters.
- **Time.** Time is an integer number of seconds passed in as `now`.

Where the Python behaves unexpectedly, the model keeps the behaviour as written:

- Stats can be negative.
- A tie is recorded as a loss in Player_Stats but counts as neither a win nor a loss in the aggregates.
- An exact roster match keeps the extracted spelling.
- `write_match_data` has no transaction, so a failure part-way leaves everything written before it.
- At the instant of expiry, a code is neither swept nor accepted.
- `update_stat` honours Python's negative list indices.
- `fetch_h2h_record` keys its rows by lower-cased name. Two players whose names differ only in case therefore collapse onto one row. The orientation lemmas state their guarantee for names that differ beyond case.

## Model

| member | source | states |
|---|---|---|
| Scan.CorrectMismatches | scan.py:16-33 | The loop over the table yields the text after each of the eleven replacements in dict order, each replacing every occurrence. |
| Scan.DigitTokenUnchanged | scan.py:18-32 | A token made only of digits comes out unchanged, since no key starts with a digit. |
| Scan.NoLOrN | scan.py:19-32 | A corrected token never contains 'L' (first entry) or 'N' (last entry), because no replacement value brings them back. |
| Scan.NoTextFoundBecomesZero | scan.py:21-32 | The OCR sentinel "No text found" becomes "0": the 'o' entry turns it into "N0 text f0und", which a later entry maps to "0". |
| Scan.CellRegion | scan.py:42-56 | Cell (i, j) lies inside row band i and column j. Its margins are symmetric. It never reaches past 5*(H/5) rows or 3*(W/3) columns. It is empty when the row band is shorter than 10 pixels. |
| Scan.SecondOpinion | scan.py:70-73 | Only "6" and "9" are re-decided: class 0 gives "6", any other class gives "9". Every other token passes through. |
| Scan.ReadCell | scan.py:56-75 | A cell's token is OCR, then the corrections, then the second opinion. The classifier is asked iff the corrected token is "6" or "9". |
| Scan.ProcessStats | scan.py:36-78 | Returns five rows of three tokens in row-major order, each the token of its cell. The classifier is consulted for exactly the cells whose corrected token is "6" or "9". |
| Strings.Strip | utilities.py:134 | `strip()` leaves no whitespace at either end. |
| Strings.StripTrims | utilities.py:134 | `strip()` keeps one slice `s[i..j]` of its input, and everything before `i` and from `j` on is whitespace. |
| Strings.ReplaceDeletes | utilities.py:134 | `replace('\n', '')` deletes exactly the newlines and keeps every other character in order (`Without`, whose multiset is the input's minus that character). |
| Strings.StripKeeps | utilities.py:134 | `strip()` adds no character: everything it keeps was in its input. |
| Strings.ParseIntOfString | utilities.py:95 | `int(str(i)) == i` for every integer, negative ones included. |
| Strings.ParseIntNoMinus | write.py:6 | Text without '-' never parses to a negative number. |
| Strings.SplitPair | write.py:6 | Splitting `a-b`, where neither side holds '-', gives exactly `[a, b]`. |
| Utilities.ConvertPath | utilities.py:85-86 | Every backslash becomes '/', every other character is unchanged, and no backslash is left. |
| Utilities.KeepDigitsAndMinus | utilities.py:92 | The regex substitution keeps only digits and '-', and never lengthens the text. |
| Utilities.KeepConcat | utilities.py:92 | The substitution works character by character: cleaning `a + b` is cleaning `a`, then `b`. |
| Utilities.KeepChar | utilities.py:92 | A single character is kept iff it is a digit or '-'. |
| Utilities.CleanAndConvertStats | utilities.py:88-100 | One integer per token, in position order. Each is the parse of the kept characters, or 0 when `int()` raises. |
| Utilities.StatValueOfInt | utilities.py:92-99 | Cleaning the decimal form of any integer gives that integer back. |
| Utilities.StatValueNegative | utilities.py:91-95 | A negative stat arises only when the kept characters start with '-'. |
| Utilities.EmptyIsZero | utilities.py:94-99 | Nothing left after cleaning, or a lone '-', falls back to 0. |
| Utilities.InnerMinusIsZero | utilities.py:92-99 | A '-' anywhere but first in the kept characters (as in "3-4" or "--1") makes the stat 0. |
| Utilities.ProcessTeam | utilities.py:102-112 | Name line k gets the cleaned stats of row k, and the last line of a repeated name wins. Names not on any line are untouched. Rows past the last line are ignored. More lines than rows raises IndexError. |
| Utilities.CleanName | utilities.py:134 | A cleaned key has no newline and no whitespace at either end. |
| Utilities.CleanNameTrims | utilities.py:134 | The cleaned key is the name with its newlines deleted, trimmed of whitespace at both ends and nowhere else. |
| Utilities.CleanBoard | utilities.py:130-137 | The loop builds `CleanedBoard`: every entry is stored under its cleaned name, and the last entry wins on a collision. No other key appears. The board never grows, and its keys stay distinct. |
| Utilities.CleanedBoardKeys | utilities.py:130-137 | Over the whole board, each cleaned name is a key, every key is some entry's cleaned name, and a key holds the stats of the last entry that cleans to it. |
| Utilities.ExactMatch | utilities.py:173-179 | Returns the extracted name itself iff some roster name equals it ignoring case, and None otherwise. |
| Utilities.FuzzyMatch | utilities.py:159-168 | Three bands: a score of 90 or more accepts the best match, 50 to 89 escalates to the user, and below 50 gives nothing. |
| Utilities.FuzzyMonotone | utilities.py:159-168 | A higher score never lands in a lower band. |
| Utilities.ResolveStepRekeys | utilities.py:149-155 | An accepted fuzzy match moves the stats list, unchanged, to the roster name. The extracted name disappears and every other name keeps its stats. |
| Utilities.ResolveStepKeeps | utilities.py:146-155 | Each step keeps the names distinct and keeps every name still to visit, so `pop` never raises. |
| Utilities.ProcessNames | utilities.py:140-155 | An empty roster changes nothing. Otherwise the loop yields the names resolved one by one, first name first, and the names stay distinct. |
| Teams.Put | stats_manager.py:20 | `team[n] = v`: `n` then maps to `v` and no other key changes. An existing key keeps its position, and a new key is appended. |
| Teams.Pop | stats_manager.py:26 | `team.pop(n)` removes exactly `n` and leaves the others. An absent name leaves the team as it is. |
| Manager.Rename | stats_manager.py:22-28 | With `old_name` present, `new_name` gets the old stats, `old_name` is gone unless it equals `new_name`, and other names are unchanged. An absent `old_name` changes nothing. Names stay distinct and the team never grows. |
| Manager.RenameOntoExisting | stats_manager.py:26-28 | Renaming onto a name the team already holds overwrites it, and the team loses one player. |
| Manager.RenameToFresh | stats_manager.py:26-28 | Renaming onto a fresh name keeps the size and moves the player to the end. |
| Manager.SetStat | stats_manager.py:30-38 | Only that player's stat at that index changes; negative indices count from the end. An absent player or an index past the end changes nothing. An index below -len raises IndexError. |
| Manager.SetStatKeepsSize | stats_manager.py:30-35 | A stat correction never changes the number of players. |
| Manager.StatsManager.constructor | stats_manager.py:2-4 | Both teams start empty. |
| Manager.StatsManager.TeamInfo | stats_manager.py:6-10 | 'team1' and 'team2' give the two teams, and any other label gives None. |
| Manager.StatsManager.SetTeams | stats_manager.py:12-14 | Both teams are replaced by the arguments. |
| Manager.StatsManager.UpdateTeamInfo | stats_manager.py:17-20 | Sets one player's stats on the labelled team only. An unknown label changes nothing. |
| Manager.StatsManager.UpdateName | stats_manager.py:22-28 | Renames on the labelled team only. An unknown label raises TypeError (a membership test on None) and changes nothing. |
| Manager.StatsManager.UpdateStat | stats_manager.py:30-38 | Applies `SetStat` to the labelled team only. An unknown label raises TypeError, and any error leaves both teams unchanged. |
| Write.ParseScore | write.py:6 | Succeeds iff the score splits on '-' into exactly two integers, and then gives them as (team1, team2). Otherwise raises ValueError. |
| Write.ScoreRoundTrip | write.py:6 | The score text "a-b" of two natural numbers parses back to (a, b). |
| Write.ScoreNonNegative | write.py:6 | A parsed score is never negative, because '-' is the separator. |
| Write.EnsurePlayer | write.py:23-35 | A known name returns its id with no insert. A new name gets the next serial id. Existing ids and other tables are untouched, and the schema invariant is kept. |
| Write.EnsurePlayerIdempotent | write.py:23-35 | Resolving a name twice gives the same id and no second row. |
| Write.Lookup | write.py:25-34 | Maps and match types are looked up only. A missing value raises ValueError and inserts nothing. |
| Write.MatchInserted | write.py:39-46 | A new Matches row under the next serial id, with no other table touched. |
| Write.ResultOf | write.py:50 | 'w' iff the team scored strictly more, otherwise 'l'. |
| Write.Delta | write.py:65-79 | The inserted aggregate row counts one match played. It counts a win iff the team scored more and a loss iff it scored less. |
| Write.AggregateUpserted | write.py:67-77 | Insert-or-add on the player's aggregate row; every other player's row is unchanged. |
| Write.TieIsLossInStatsOnly | write.py:50-79 | A draw is an 'l' in Player_Stats but neither a win nor a loss in the aggregates. |
| Write.H2HUpserted | write.py:96-108 | The row keyed (one, two) exists afterwards, and every other row is unchanged. `H2HPairOneWin` states how its counters grow. |
| Write.H2HPair | write.py:89-94 | A pair writes the row keyed (smaller id, larger id), and no other table changes. |
| Write.H2HPairOneWin | write.py:89-108 | Exactly one win counter of that row grows by one: the team1 player's side iff team1 won. |
| Write.H2HPairMirror | write.py:91-94 | Swapping the two players and the outcome updates the same row the same way. |
| Write.H2HPairAt | write.py:89-108 | Row by row: the pair's row (smaller id first) gains one win on the team1 player's side iff team1 won. Every other row is unchanged. |
| Write.H2HPairCanonical | write.py:89-94 | A pair keeps every H2H row keyed with the smaller id first. |
| Write.PlayerStep | write.py:51-55 | The player row exists even when unpacking fails, and a failure happens iff the stats list does not hold three values. On success, one Player_Stats row is appended and the player's aggregate grows by the delta. |
| Write.TeamStatsFrame | write.py:48-55 | The team stage touches only Players, Player_Stats and the aggregates. Player_Stats only gains rows of this match. |
| Write.TeamStatsPlayers | write.py:48-55 | Existing ids are kept and only this team's names are added. After a full run every player of the team has a row. |
| Write.TeamStatsFails | write.py:53 | The stage raises iff some stats list does not hold three values. |
| Write.TeamStatsRows | write.py:48-63 | With every list a triple, Player_Stats gains one row per player, in team order. Each row carries the player's id, the match, the three stats and the result. |
| Write.RowsOfAt | write.py:54 | Row k of the team's rows is entry k's id, stats and result. |
| Write.TeamStatsLeaveOthers | write.py:51-55 | Entries of other players never touch a player's aggregate row. |
| Write.TeamStatsAggregates | write.py:48-79 | After a full team run, each player's aggregate is the old row (zeros if none) plus that match's delta. |
| Write.H2HInnerFrame | write.py:87-94 | One team1 player's inner loop adds missing team2 players and keeps existing ids and H2H rows. It touches no other table. |
| Write.H2HWrittenFrame | write.py:82-94 | The H2H stage adds only the teams' players, keeps existing ids and rows, and touches no other table. |
| Write.H2HCreatesNoPlayer | write.py:85-88 | Once both teams' players exist, the H2H stage creates no player. |
| Write.H2HRecordsAllPairs | write.py:82-94 | Afterwards there is a row for every cross-team pair, keyed smaller id first. |
| Write.H2HWrittenCanonical | write.py:82-94 | The H2H stage keeps every row keyed with the smaller id first. |
| Write.H2HWrittenHit | write.py:82-108 | For two teams with distinct, disjoint names whose players exist, each cross-team pair's row gains exactly one win over the whole stage, on the team1 player's side iff team1 won. |
| Write.H2HWrittenMiss | write.py:82-108 | For the same teams, a row of no cross-team pair is unchanged by the stage. |
| Write.StatsAndH2HFrame | write.py:17-21 | After the match row, the schema invariant holds and Matches is untouched. Player_Stats only gains rows of this match, and existing players keep their ids. |
| Write.StatsAndH2HPlayers | write.py:17-21 | A full run leaves exactly the old players plus every player named on either team. |
| Write.RejectedBeforeWriting | write.py:3-11 | A bad score, an unknown map or an unknown match type (lowercased) raises before anything is written. |
| Write.MatchRowFirst | write.py:9-18 | Once the lookups pass, the match row exists whatever fails later. Every Player_Stats row written points at it, and older rows are kept. |
| Write.CommitRegistersPlayers | write.py:2-21 | After a full commit every player of both teams exists, and earlier players keep their ids. |
| Write.MatchKeepsWF | write.py:2-21 | Whatever step fails, the schema invariant holds afterwards. |
| Write.MatchWrittenCanonical | write.py:2-21 | Whatever step fails, a commit keeps every H2H row keyed with the smaller id first. |
| Write.CommitBeforeH2H | write.py:2-21 | A successful commit is its H2H stage applied to a valid state where both teams' players exist and H2H_Records is as before. |
| Write.MatchH2HCounts | write.py:2-21 | A successful commit of two teams with no player in common adds exactly one result to each cross-team pair's row (the team1 player's side iff team1 won), and leaves every other row alone. |
| Write.Store.EnsureExists | write.py:23-35 | The store's new state and result are those of `ensure_exists` on the chosen table. |
| Write.Store.InsertMatch | write.py:39-46 | The new state is the old plus the match row, under the returned id. |
| Write.Store.InsertPlayerStats | write.py:57-63 | Player_Stats gains exactly the given row. |
| Write.Store.UpdatePlayerAggregateStats | write.py:65-79 | The aggregates are the old ones upserted with the delta. |
| Write.Store.ProcessTeamStats | write.py:48-55 | The loop's final state and error are `TeamStatsWritten` of the old state. |
| Write.Store.UpdateIndividualH2HRecord | write.py:96-108 | Only H2H_Records changes: the keyed row is upserted. The store stays valid when the ids come smaller first. |
| Write.Store.UpdateH2HRecords | write.py:82-94 | The nested loops leave the state `H2HWritten` gives. |
| Write.Store.WriteMatchData | write.py:2-21 | The new state and error are `MatchWritten` of the old state. The schema invariant and the smaller-id-first order of H2H rows are kept. |
| FastApp.Swept | fastapp.py:38-40 | A sweep keeps exactly the codes whose expiry is not before now, with their entries unchanged. |
| FastApp.Stored | fastapp.py:46-47 | The code maps to its user and now + 300 s, overwriting any earlier entry. Other codes are unchanged. |
| FastApp.StoredCodeLifetime | fastapp.py:46-63 | A freshly stored code is accepted exactly until 300 seconds after it was stored, and it carries the user it was stored with. |
| FastApp.ExpiryInstant | fastapp.py:38-63 | At the instant of expiry the sweep keeps the code but an upload rejects it. |
| FastApp.SweepKeepsLiveCodes | fastapp.py:38-63 | A sweep never removes a code that an upload would accept now or later. |
| FastApp.SweepPreservesAuthorization | fastapp.py:38-63 | Sweeping first changes no upload's outcome. |
| FastApp.SweepIdempotent | fastapp.py:38-40 | Sweeping twice at the same time removes nothing more. |
| FastApp.SweptHasNoStaleCode | fastapp.py:38-40 | After a sweep, no remaining code expired before now. |
| FastApp.CodeRegistry.constructor | fastapp.py:18 | The registry starts empty. |
| FastApp.CodeRegistry.StoreAccessCode | fastapp.py:44-48 | The registry becomes `Stored` of the old one. |
| FastApp.CodeRegistry.CleanupCodes | fastapp.py:35-41 | Collecting the expired keys, then deleting them one by one, leaves `Swept` of the old registry. |
| FastApp.CodeRegistry.UploadImage | fastapp.py:63-114 | An absent or expired code raises 403 and changes nothing. Otherwise the pipeline runs with the stored user id. The code is deleted only if the pipeline completes; an error leaves it in place. |
| BotUtils.Line | botutils.py:9 | A player's line starts with their name and ends with "\n". |
| BotUtils.FormatPlayerStats | botutils.py:6-10 | The loop's text is each player's line in team order. A stats list shorter than three raises IndexError. |
| BotUtils.EmptyTeamIsEmpty | botutils.py:7-10 | An empty team formats to "". |
| BotUtils.LinesAppend | botutils.py:8-9 | Formatting two parts of a team one after the other gives the text of the whole. |
| BotUtils.NoNewlineInNumber | botutils.py:9 | A printed stat contains no newline. |
| BotUtils.LineHasOneNewline | botutils.py:9 | A line holds exactly one newline when the name holds none. |
| BotUtils.OneLinePerPlayer | botutils.py:8-10 | The text has exactly as many newlines as the team has players. |
| Bot.PageAt | bot.py:125-130 | A page shows between 1 and 25 names. |
| Bot.ListPlayers | bot.py:121-131 | The loop builds one embed per step of 25, in order. |
| Bot.PageCount | bot.py:124 | There are ceil(n / 25) pages. |
| Bot.PagesShowAllNames | bot.py:124-127 | Read in order, the pages show every name exactly once, in query order. |
| Bot.PageFooter | bot.py:130 | Page p starts at 25p and reports names 25p + 1 to min(25p + 25, n) of n. |
| Bot.RowFor | bot.py:286-288 | The lower-cased lookup finds a row iff some row's lower-cased name matches, and the row found is one of those. |
| Bot.BothFound | bot.py:282-288 | With two rows fetched, both players' rows are found. |
| Bot.StoredRecord | bot.py:291-300 | The H2H row for the pair in either order, if any. |
| Bot.FetchH2H | bot.py:276-320 | The response carries the caller's two names. |
| Bot.FetchNone | bot.py:282-300 | None exactly when fewer than two rows were found, or when no H2H row exists for the pair in either order. |
| Bot.RowOfPlayer | bot.py:286-288 | With names that differ beyond case, a player's data is the row with their exact name. |
| Bot.FetchOriented | bot.py:303-318 | The wins are copied when player1 is the stored player one and swapped otherwise, and each picture comes from that player's row. |
| Bot.FetchMirror | bot.py:276-320 | Asking for (B, A) gives the mirror of (A, B). |
| Bot.FetchMirrorCanonical | bot.py:276-320 | For two distinct players of a store the writer produced (rows smaller id first), asking for (B, A) gives the mirror of (A, B). |
| Bot.PlayerOptions | bot.py:537-541 | There is one option per player of either team. |
| Bot.OptionsInTeamOrder | bot.py:537-541 | The labels are team1's names then team2's, described "Team 1" and "Team 2". |
| Bot.StatIndex | bot.py:495 | Any stat index is below 3, so it is always a position inside a stats triple. |
| Bot.StatOrderAgrees | bot.py:495 | The stat labels in display order name the indices 0, 1 and 2. |
| Bot.Corrected | bot.py:491-503 | Fails iff a stat field's value is not an integer. Only the player's team changes: team1 if it holds the name, else team2. An unknown player or another field changes nothing. A stat correction keeps the names. |
| Bot.StatCorrectionSetsOneStat | bot.py:497-500 | A stat correction sets exactly that stat of the player to `int(value)`. |
| Bot.NameCorrectionKeepsStats | bot.py:501-503 | A name correction moves the player's stats to the new name. |
| Bot.OnSubmit | bot.py:491-503 | The manager's teams become `Corrected` of the old ones. When `int()` raises, they stay as they were. |

## Left out

- OCR (Google Vision), Cloudinary, cv2 image I/O, temp files, the torch classifier and the fuzzy scorer are outside services. They appear as function parameters, or are not part of this model.
- The upload's processing between authorisation and deletion is one pipeline parameter. That covers saving files, OCR, the confirmation session, the match summary and the database write.
- Discord UI and concurrency are not modelled: embeds and messages, views and timeouts, the shared event, and the async loop and sleep of `cleanup_codes`. This includes the reply `on_submit` sends and the correction view it re-opens.
- Database plumbing (pools, connections, `create_connection`, raw SQL) is not modelled; tables are maps.
- Write.AggregateUpserted: the model assumes the Player_Aggregate_Stats unique key on (player_id, map_id, match_type_id) is declared NULLS NOT DISTINCT, so that rows with NULL map and match type conflict and aggregates are keyed by player id alone. Under PostgreSQL's default (NULLS DISTINCT) the two NULL columns never conflict: each call to `update_player_aggregate_stats` inserts a fresh one-match row, and nothing accumulates. The schema is not part of this model.
- `NOW()` on Matches is not modelled, and neither are floating-point ratios, image merging and timestamps in bot.py, or configuration loading.
- The Discord limit of 25 options per select menu is not modelled.
- Character classes are ASCII. `\d`, `str.strip`, `str.lower` and `int()` follow their ASCII behaviour. Unicode digits, Unicode whitespace and underscores in `int()` are not modelled.
- Team dictionaries are values. The aliasing between the upload handler's locals, the views and the manager is not modelled.
- Scan.CellRegion: `int(0.1 * x)` is modelled as `x / 10`, which agrees for any realistic image size but not for every float.
- Scan.ProcessStats: the image is reduced to its height and width, and the cropped files written to disk are not modelled. When a crop is empty (a row band under 10 pixels, so the margin is 0 and `[0:-0]` selects nothing, or an image under 3 pixels wide), `cv2.imwrite` raises; the model returns a token for that cell instead.
- Utilities.ProcessTeam: the name lines and stat rows come in as parameters. The OCR, `splitlines` and image preprocessing that produce them are not part of this model.
- Utilities.ProcessNames: the loop runs over a snapshot of the team's names. Python would iterate the live `dict.keys()` while popping, but every call site is commented out. The 50-89 band re-keys the entry under an un-awaited coroutine object; the model moves it to a separate `escalated` list.
- FastApp.CodeRegistry.CleanupCodes: the expired keys are collected as a set, so the order of deletion, which the result does not depend on, is not modelled.
- FastApp.CodeRegistry.UploadImage: a sweep running while the pipeline awaits could delete the code, so that the final `del` raises KeyError. That interleaving is not modelled.
- Bot.FetchH2H: when H2H rows exist for both orders of a pair, the database's choice of which row to return is modelled as the (player1, player2) row.
- Bot.FetchOriented: stated only for player names that differ beyond case. When they differ only in case, both lookups return the same row, as the code does.
- Bot.FetchMirror: stated only when the pair is stored in one order. Bot.FetchMirrorCanonical discharges this from the order the writer keeps (Write.MatchWrittenCanonical, Write.Store.Valid).
- Bot.OnSubmit: formatting the updated teams for the reply, which can raise IndexError on a short stats list, is not part of this operation. BotUtils.FormatPlayerStats models it separately.
