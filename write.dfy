/**
 * write.py: committing a confirmed match. The relational tables are maps (or,
 * for the append-only Player_Stats table, a sequence); every
 * `INSERT ... ON CONFLICT DO UPDATE` is an insert-or-add on a map. Serial ids
 * are handed out by two counters that start at 1.
 *
 * Each statement is first given as a function on a snapshot `Db` of all the
 * tables; the `Store` class below performs the same steps in place, and each
 * of its methods promises that its new snapshot is that function of the old.
 */
module Write {
  import opened Wrappers
  import opened Strings
  import opened Teams

  datatype Table = Players | Maps | MatchTypes

  datatype MatchRow = MatchRow(mapId: nat, matchTypeId: nat, score: string)

  /** One Player_Stats row; `result` is 'w' or 'l'. */
  datatype StatRow = StatRow(playerId: nat, matchId: nat, kills: int, deaths: int, assists: int, result: char)

  datatype Aggregate = Aggregate(kills: int, deaths: int, assists: int, played: int, won: int, lost: int)

  /** An H2H_Records row, keyed by `(player_one_id, player_two_id)`. */
  datatype H2H = H2H(oneWins: int, twoWins: int)

  datatype Db = Db(
    players: map<string, nat>,
    maps: map<string, nat>,
    matchTypes: map<string, nat>,
    matches: map<nat, MatchRow>,
    playerStats: seq<StatRow>,
    aggregates: map<nat, Aggregate>,
    h2h: map<(nat, nat), H2H>,
    nextPlayerId: nat,
    nextMatchId: nat)

  /**
   * What the schema guarantees: serial ids start at 1 and are handed out in
   * increasing order, player names are unique, so no two names share an id.
   */
  predicate WF(db: Db) {
    && db.nextPlayerId >= 1 && db.nextMatchId >= 1
    && (forall n :: n in db.players ==> 1 <= db.players[n] < db.nextPlayerId)
    && (forall a, b :: a in db.players && b in db.players && a != b ==> db.players[a] != db.players[b])
    && (forall m :: m in db.matches ==> 1 <= m < db.nextMatchId)
  }

  // ------------------------------------------------------------- final score

  /**
   * `map(int, final_score.split('-'))` unpacked into two scores: exactly two
   * parts, each an integer; anything else raises ValueError.
   */
  function ParseScore(finalScore: string): (r: Result<(int, int)>)
    ensures r.Success? <==> (|Split(finalScore, '-')| == 2
      && ParseInt(Split(finalScore, '-')[0]).Some? && ParseInt(Split(finalScore, '-')[1]).Some?)
    ensures r.Success? ==> r.value == (ParseInt(Split(finalScore, '-')[0]).value, ParseInt(Split(finalScore, '-')[1]).value)
  {
    var parts := Split(finalScore, '-');
    if |parts| < 2 then Failure(ValueError("not enough values to unpack"))
    else if |parts| > 2 then Failure(ValueError("too many values to unpack"))
    else match (ParseInt(parts[0]), ParseInt(parts[1]))
      case (Some(a), Some(b)) => Success((a, b))
      case _ => Failure(ValueError("invalid literal for int()"))
  }

  /** The score string the bot stores, "<team1>-<team2>", reads back as the two scores. */
  lemma ScoreRoundTrip(a: nat, b: nat)
    ensures ParseScore(NatToString(a) + "-" + NatToString(b)) == Success((a, b))
  {
    var sa, sb := NatToString(a), NatToString(b);
    assert '-' !in sa by { assert forall k :: 0 <= k < |sa| ==> IsDigit(sa[k]); }
    assert '-' !in sb by { assert forall k :: 0 <= k < |sb| ==> IsDigit(sb[k]); }
    SplitPair(sa, sb, '-');
    assert sa + "-" + sb == sa + ['-'] + sb;
    ParseIntOfString(a);
    ParseIntOfString(b);
  }

  /** A '-' is the separator, so a parsed score is never negative. */
  lemma ScoreNonNegative(finalScore: string)
    requires ParseScore(finalScore).Success?
    ensures ParseScore(finalScore).value.0 >= 0 && ParseScore(finalScore).value.1 >= 0
  {
    var parts := Split(finalScore, '-');
    ParseIntNoMinus(parts[0]);
    ParseIntNoMinus(parts[1]);
  }

  // --------------------------------------------------------- ensure_exists

  /** `ensure_exists` on Players: the existing id, or a new row with the next serial id. */
  function EnsurePlayer(db: Db, name: string): (r: (Db, nat))
    ensures name in r.0.players && r.0.players[name] == r.1
    ensures name in db.players ==> r.0 == db
    ensures name !in db.players ==> r.1 == db.nextPlayerId && r.0.nextPlayerId == db.nextPlayerId + 1
    ensures r.0.players.Keys == db.players.Keys + {name}
    ensures forall n :: n in db.players ==> r.0.players[n] == db.players[n]
    ensures r.0.maps == db.maps && r.0.matchTypes == db.matchTypes && r.0.matches == db.matches
    ensures r.0.playerStats == db.playerStats && r.0.aggregates == db.aggregates && r.0.h2h == db.h2h && r.0.nextMatchId == db.nextMatchId
    ensures WF(db) ==> WF(r.0) && r.1 >= 1
  {
    if name in db.players then (db, db.players[name])
    else
      var id := db.nextPlayerId;
      (db.(players := db.players[name := id], nextPlayerId := id + 1), id)
  }

  /** Resolving a name twice gives the same id and adds no second row. */
  lemma EnsurePlayerIdempotent(db: Db, name: string)
    ensures var (d, id) := EnsurePlayer(db, name); EnsurePlayer(d, name) == (d, id)
  {
  }

  /** `ensure_exists` on Maps or Match_Types: a missing value raises and nothing is inserted. */
  function Lookup(table: map<string, nat>, value: string): (r: Result<nat>)
    ensures r.Success? <==> value in table
    ensures r.Success? ==> r.value == table[value]
  {
    if value in table then Success(table[value])
    else Failure(ValueError("Expected entity not found"))
  }

  function Ensured(db: Db, table: Table, value: string): (Db, Result<nat>) {
    match table
    case Players => var (d, id) := EnsurePlayer(db, value); (d, Success(id))
    case Maps => (db, Lookup(db.maps, value))
    case MatchTypes => (db, Lookup(db.matchTypes, value))
  }

  // ------------------------------------------------------ single statements

  /** `insert_match`: a new Matches row under the next serial id. */
  function MatchInserted(db: Db, mapId: nat, matchTypeId: nat, score: string): (r: (Db, nat))
    ensures WF(db) ==> WF(r.0) && r.1 !in db.matches && r.1 >= 1
    ensures r.1 == db.nextMatchId && r.0.nextMatchId == db.nextMatchId + 1
    ensures r.0.matches == db.matches[r.1 := MatchRow(mapId, matchTypeId, score)]
    ensures r.0.players == db.players && r.0.nextPlayerId == db.nextPlayerId
    ensures r.0.maps == db.maps && r.0.matchTypes == db.matchTypes
    ensures r.0.playerStats == db.playerStats && r.0.aggregates == db.aggregates && r.0.h2h == db.h2h
  {
    var id := db.nextMatchId;
    (db.(matches := db.matches[id := MatchRow(mapId, matchTypeId, score)], nextMatchId := id + 1), id)
  }

  /** `insert_player_stats`: Player_Stats only grows. */
  function StatInserted(db: Db, row: StatRow): Db {
    db.(playerStats := db.playerStats + [row])
  }

  /** 'w' iff the team scored strictly more; a tie is an 'l' for both teams. */
  function ResultOf(teamScore: int, opponentScore: int): (c: char)
    ensures c == 'w' || c == 'l'
    ensures c == 'w' <==> teamScore > opponentScore
  {
    if teamScore > opponentScore then 'w' else 'l'
  }

  /** The row `update_player_aggregate_stats` tries to insert; with `wins`/`losses` the two scores. */
  function Delta(kills: int, deaths: int, assists: int, wins: int, losses: int): (a: Aggregate)
    ensures a.played == 1
    ensures a.won == 1 <==> wins > losses
    ensures a.lost == 1 <==> losses > wins
    ensures a.won + a.lost == (if wins == losses then 0 else 1)
  {
    Aggregate(kills, deaths, assists, 1, if wins > losses then 1 else 0, if losses > wins then 1 else 0)
  }

  function Plus(a: Aggregate, b: Aggregate): Aggregate {
    Aggregate(a.kills + b.kills, a.deaths + b.deaths, a.assists + b.assists,
              a.played + b.played, a.won + b.won, a.lost + b.lost)
  }

  /** A player's aggregate row, with an absent row reading as all zeros. */
  function AggregateOf(aggregates: map<nat, Aggregate>, id: nat): Aggregate {
    if id in aggregates then aggregates[id] else Aggregate(0, 0, 0, 0, 0, 0)
  }

  /** The upsert on Player_Aggregate_Stats: insert the delta, or add it to the existing row. */
  function AggregateUpserted(db: Db, id: nat, delta: Aggregate): (r: Db)
    ensures r.aggregates.Keys == db.aggregates.Keys + {id}
    ensures r.aggregates[id] == Plus(AggregateOf(db.aggregates, id), delta)
    ensures forall j :: j != id ==> AggregateOf(r.aggregates, j) == AggregateOf(db.aggregates, j)
    ensures r.players == db.players && r.nextPlayerId == db.nextPlayerId && r.nextMatchId == db.nextMatchId
    ensures r.maps == db.maps && r.matchTypes == db.matchTypes && r.matches == db.matches
    ensures r.playerStats == db.playerStats && r.h2h == db.h2h
  {
    db.(aggregates := db.aggregates[id := if id in db.aggregates then Plus(db.aggregates[id], delta) else delta])
  }

  /**
   * The tie asymmetry: a drawn match is recorded as a loss in Player_Stats but
   * counts as neither a win nor a loss in the aggregates.
   */
  lemma TieIsLossInStatsOnly(kills: int, deaths: int, assists: int, score: int)
    ensures ResultOf(score, score) == 'l'
    ensures Delta(kills, deaths, assists, score, score).won == 0
    ensures Delta(kills, deaths, assists, score, score).lost == 0
  {
  }

  /** `update_individual_h2h_record`: add one win to player one or to player two. */
  function H2HUpserted(h: map<(nat, nat), H2H>, one: nat, two: nat, team1Won: bool): (r: map<(nat, nat), H2H>)
    ensures r.Keys == h.Keys + {(one, two)}
    ensures forall k :: k in h && k != (one, two) ==> r[k] == h[k]
  {
    var winsForOne := if team1Won then 1 else 0;
    var winsForTwo := if !team1Won then 1 else 0;
    h[(one, two) := if (one, two) in h then H2H(h[(one, two)].oneWins + winsForOne, h[(one, two)].twoWins + winsForTwo)
                    else H2H(winsForOne, winsForTwo)]
  }

  function H2HOf(h: map<(nat, nat), H2H>, key: (nat, nat)): H2H {
    if key in h then h[key] else H2H(0, 0)
  }

  function Min(a: nat, b: nat): nat { if a < b then a else b }
  function Max(a: nat, b: nat): nat { if a < b then b else a }

  /** The body of the inner loop of `update_h2h_records` for the ids of a team1 player and a team2 player. */
  function H2HPair(db: Db, id1: nat, id2: nat, team1Won: bool): (r: Db)
    ensures r.players == db.players && r.nextPlayerId == db.nextPlayerId && r.nextMatchId == db.nextMatchId
    ensures r.maps == db.maps && r.matchTypes == db.matchTypes && r.matches == db.matches
    ensures r.playerStats == db.playerStats && r.aggregates == db.aggregates
    ensures r.h2h.Keys == db.h2h.Keys + {(Min(id1, id2), Max(id1, id2))}
  {
    if id1 < id2 then db.(h2h := H2HUpserted(db.h2h, id1, id2, team1Won))
    else db.(h2h := H2HUpserted(db.h2h, id2, id1, !team1Won))
  }

  /**
   * The row is keyed with the smaller id first, no other row changes, and
   * exactly one win counter grows by one: the team1 player's iff team1 won.
   */
  lemma H2HPairOneWin(db: Db, id1: nat, id2: nat, team1Won: bool)
    ensures var r := H2HPair(db, id1, id2, team1Won);
      var key := (Min(id1, id2), Max(id1, id2));
      var was := H2HOf(db.h2h, key);
      var now := r.h2h[key];
      && (forall k :: k in db.h2h && k != key ==> r.h2h[k] == db.h2h[k])
      && now.oneWins + now.twoWins == was.oneWins + was.twoWins + 1
      && now.oneWins >= was.oneWins && now.twoWins >= was.twoWins
      && (id1 < id2 ==> (now.oneWins == was.oneWins + 1 <==> team1Won))
      && (id1 > id2 ==> (now.twoWins == was.twoWins + 1 <==> team1Won))
      && (id1 == id2 ==> (now.oneWins == was.oneWins + 1 <==> !team1Won))
  {
  }

  /** Swapping the two players and the outcome updates the same row the same way. */
  lemma H2HPairMirror(db: Db, id1: nat, id2: nat, team1Won: bool)
    requires id1 != id2
    ensures H2HPair(db, id1, id2, team1Won) == H2HPair(db, id2, id1, !team1Won)
  {
  }

  // ------------------------------------------------------ process_team_stats

  /** One player of `process_team_stats`: resolve the name, unpack three stats, write two rows. */
  function PlayerWritten(db: Db, matchId: nat, e: Entry, teamScore: int, opponentScore: int): (r: (Db, Option<Error>))
  {
    var (d, id) := EnsurePlayer(db, e.name);
    if |e.stats| != 3 then (d, Some(ValueError("wrong number of values to unpack")))
    else
      var row := StatRow(id, matchId, e.stats[0], e.stats[1], e.stats[2], ResultOf(teamScore, opponentScore));
      (AggregateUpserted(StatInserted(d, row), id, Delta(e.stats[0], e.stats[1], e.stats[2], teamScore, opponentScore)), None)
  }

  /**
   * One player's step: the player row exists afterwards whether or not the
   * unpacking fails; on success exactly one Player_Stats row is appended and
   * the player's aggregate grows by the match's delta.
   */
  lemma PlayerStep(db: Db, matchId: nat, e: Entry, teamScore: int, opponentScore: int)
    ensures var (d, err) := PlayerWritten(db, matchId, e, teamScore, opponentScore);
      var (p, id) := EnsurePlayer(db, e.name);
      && (err.Some? <==> |e.stats| != 3)
      && d.players == p.players && d.nextPlayerId == p.nextPlayerId
      && d.maps == db.maps && d.matchTypes == db.matchTypes && d.matches == db.matches
      && d.h2h == db.h2h && d.nextMatchId == db.nextMatchId
      && (err.Some? ==> d.playerStats == db.playerStats)
      && (err.None? ==> (d.playerStats == db.playerStats
            + [StatRow(id, matchId, e.stats[0], e.stats[1], e.stats[2], ResultOf(teamScore, opponentScore))]))
      && (err.None? ==> AggregateOf(d.aggregates, id) == Plus(AggregateOf(db.aggregates, id),
            Delta(e.stats[0], e.stats[1], e.stats[2], teamScore, opponentScore)))
      && forall j :: j != id ==> AggregateOf(d.aggregates, j) == AggregateOf(db.aggregates, j)
  {
  }

  /**
   * `process_team_stats` over the team's entries in order. There is no
   * transaction: a stats list that does not hold three values raises after its
   * player row was created, and everything written before stays written.
   */
  function TeamStatsWritten(db: Db, matchId: nat, entries: seq<Entry>, teamScore: int, opponentScore: int): (Db, Option<Error>)
    decreases |entries|
  {
    if entries == [] then (db, None)
    else
      var (d, err) := PlayerWritten(db, matchId, entries[0], teamScore, opponentScore);
      if err.Some? then (d, err)
      else TeamStatsWritten(d, matchId, entries[1..], teamScore, opponentScore)
  }

  /** `b` is `a` followed by rows of match `matchId` only. */
  predicate AppendedFor(a: seq<StatRow>, b: seq<StatRow>, matchId: nat) {
    && |b| >= |a| && b[..|a|] == a
    && forall k :: |a| <= k < |b| ==> b[k].matchId == matchId
  }

  lemma AppendedTrans(a: seq<StatRow>, b: seq<StatRow>, c: seq<StatRow>, matchId: nat)
    requires AppendedFor(a, b, matchId) && AppendedFor(b, c, matchId)
    ensures AppendedFor(a, c, matchId)
  {
    assert c[..|a|] == c[..|b|][..|a|];
    forall k | |a| <= k < |b| ensures c[k].matchId == matchId {
      assert c[k] == c[..|b|][k];
    }
  }

  /**
   * The stage touches Players, Player_Stats and the aggregates only;
   * Player_Stats only grows, and every row it gains points at `matchId`.
   */
  lemma {:induction false} TeamStatsFrame(db: Db, matchId: nat, entries: seq<Entry>, teamScore: int, opponentScore: int)
    ensures var r := TeamStatsWritten(db, matchId, entries, teamScore, opponentScore).0;
      && r.maps == db.maps && r.matchTypes == db.matchTypes && r.matches == db.matches
      && r.h2h == db.h2h && r.nextMatchId == db.nextMatchId
      && AppendedFor(db.playerStats, r.playerStats, matchId)
    decreases |entries|
  {
    if entries != [] {
      var step := PlayerWritten(db, matchId, entries[0], teamScore, opponentScore);
      PlayerStep(db, matchId, entries[0], teamScore, opponentScore);
      if step.1.None? {
        var d := step.0;
        TeamStatsFrame(d, matchId, entries[1..], teamScore, opponentScore);
        var r := TeamStatsWritten(d, matchId, entries[1..], teamScore, opponentScore).0;
        assert r == TeamStatsWritten(db, matchId, entries, teamScore, opponentScore).0;
        assert AppendedFor(db.playerStats, d.playerStats, matchId);
        AppendedTrans(db.playerStats, d.playerStats, r.playerStats, matchId);
      }
    }
  }

  /**
   * Players: existing ids are kept, the schema invariant is kept, only names
   * of the team are added, and after a full run every name of the team has a row.
   */
  lemma TeamStatsPlayers(db: Db, matchId: nat, entries: seq<Entry>, teamScore: int, opponentScore: int)
    ensures var (r, err) := TeamStatsWritten(db, matchId, entries, teamScore, opponentScore);
      && (WF(db) ==> WF(r))
      && (forall n :: n in db.players ==> n in r.players && r.players[n] == db.players[n])
      && (forall n :: n in r.players ==> n in db.players || n in Names(entries))
      && (err.None? ==> forall k :: 0 <= k < |entries| ==> entries[k].name in r.players)
  {
    TeamStatsIds(db, matchId, entries, teamScore, opponentScore);
    TeamStatsNewNames(db, matchId, entries, teamScore, opponentScore);
    TeamStatsAllNames(db, matchId, entries, teamScore, opponentScore);
  }

  lemma {:induction false} TeamStatsIds(db: Db, matchId: nat, entries: seq<Entry>, teamScore: int, opponentScore: int)
    ensures var r := TeamStatsWritten(db, matchId, entries, teamScore, opponentScore).0;
      && (WF(db) ==> WF(r))
      && (forall n :: n in db.players ==> n in r.players && r.players[n] == db.players[n])
    decreases |entries|
  {
    if entries != [] {
      var step := PlayerWritten(db, matchId, entries[0], teamScore, opponentScore);
      PlayerStep(db, matchId, entries[0], teamScore, opponentScore);
      var d := step.0;
      assert WF(db) ==> WF(d);
      if step.1.None? {
        TeamStatsIds(d, matchId, entries[1..], teamScore, opponentScore);
        assert TeamStatsWritten(db, matchId, entries, teamScore, opponentScore)
            == TeamStatsWritten(d, matchId, entries[1..], teamScore, opponentScore);
      }
    }
  }

  lemma {:induction false} TeamStatsNewNames(db: Db, matchId: nat, entries: seq<Entry>, teamScore: int, opponentScore: int)
    ensures forall n :: n in TeamStatsWritten(db, matchId, entries, teamScore, opponentScore).0.players ==>
      n in db.players || n in Names(entries)
    decreases |entries|
  {
    if entries != [] {
      var step := PlayerWritten(db, matchId, entries[0], teamScore, opponentScore);
      PlayerStep(db, matchId, entries[0], teamScore, opponentScore);
      var d := step.0;
      assert entries[0].name in Names(entries);
      if step.1.None? {
        var rest := entries[1..];
        TeamStatsNewNames(d, matchId, rest, teamScore, opponentScore);
        assert TeamStatsWritten(db, matchId, entries, teamScore, opponentScore)
            == TeamStatsWritten(d, matchId, rest, teamScore, opponentScore);
        NamesOfTail(entries);
      }
    }
  }

  lemma {:induction false} TeamStatsAllNames(db: Db, matchId: nat, entries: seq<Entry>, teamScore: int, opponentScore: int)
    ensures var (r, err) := TeamStatsWritten(db, matchId, entries, teamScore, opponentScore);
      err.None? ==> forall k :: 0 <= k < |entries| ==> entries[k].name in r.players
    decreases |entries|
  {
    if entries != [] {
      var step := PlayerWritten(db, matchId, entries[0], teamScore, opponentScore);
      PlayerStep(db, matchId, entries[0], teamScore, opponentScore);
      var d := step.0;
      if step.1.None? {
        var rest := entries[1..];
        TeamStatsAllNames(d, matchId, rest, teamScore, opponentScore);
        TeamStatsIds(d, matchId, rest, teamScore, opponentScore);
        assert TeamStatsWritten(db, matchId, entries, teamScore, opponentScore)
            == TeamStatsWritten(d, matchId, rest, teamScore, opponentScore);
        assert forall k :: 1 <= k < |entries| ==> entries[k] == rest[k - 1];
      }
    }
  }

  lemma NamesOfTail(t: Team)
    requires t != []
    ensures forall n :: n in Names(t) <==> n == t[0].name || n in Names(t[1..])
  {
    assert Names(t) == [t[0].name] + Names(t[1..]);
  }

  /** The stage fails exactly when some stats list does not hold three values. */
  lemma {:induction false} TeamStatsFails(db: Db, matchId: nat, entries: seq<Entry>, teamScore: int, opponentScore: int)
    ensures TeamStatsWritten(db, matchId, entries, teamScore, opponentScore).1.Some?
        <==> exists k :: 0 <= k < |entries| && |entries[k].stats| != 3
    decreases |entries|
  {
    if entries != [] {
      var step := PlayerWritten(db, matchId, entries[0], teamScore, opponentScore);
      PlayerStep(db, matchId, entries[0], teamScore, opponentScore);
      TeamStatsFails(step.0, matchId, entries[1..], teamScore, opponentScore);
      assert forall k :: 1 <= k < |entries| ==> entries[k] == entries[1..][k - 1];
      if step.1.Some? {
        assert |entries[0].stats| != 3;
      }
    }
  }

  /** Every stats list of the team holds kills, deaths and assists. */
  predicate AllTriples(entries: seq<Entry>) {
    forall k :: 0 <= k < |entries| ==> |entries[k].stats| == 3
  }

  /** The Player_Stats rows of a team's entries, in team order, given the players' ids. */
  function RowsOf(players: map<string, nat>, matchId: nat, entries: seq<Entry>, result: char): (rows: seq<StatRow>)
    requires AllTriples(entries) && forall k :: 0 <= k < |entries| ==> entries[k].name in players
    ensures |rows| == |entries|
    decreases |entries|
  {
    if entries == [] then []
    else
      var e := entries[0];
      assert forall k :: 0 <= k < |entries| - 1 ==> entries[1..][k] == entries[k + 1];
      [StatRow(players[e.name], matchId, e.stats[0], e.stats[1], e.stats[2], result)]
        + RowsOf(players, matchId, entries[1..], result)
  }

  /** Row `k` belongs to entry `k`: its player's id, the match, the three stats and the result. */
  lemma {:induction false} RowsOfAt(players: map<string, nat>, matchId: nat, entries: seq<Entry>, result: char, k: nat)
    requires AllTriples(entries) && forall k :: 0 <= k < |entries| ==> entries[k].name in players
    requires k < |entries|
    ensures RowsOf(players, matchId, entries, result)[k]
         == StatRow(players[entries[k].name], matchId, entries[k].stats[0], entries[k].stats[1], entries[k].stats[2], result)
    decreases k
  {
    if k > 0 {
      var rest := entries[1..];
      assert forall j :: 0 <= j < |rest| ==> rest[j] == entries[j + 1];
      RowsOfAt(players, matchId, rest, result, k - 1);
    }
  }

  lemma AppendThenExtend(a: seq<StatRow>, b: seq<StatRow>, row: StatRow, tail: seq<StatRow>)
    requires b == a + [row]
    ensures b + tail == a + ([row] + tail)
  {
  }

  /**
   * When every stats list holds three values, Player_Stats gains one row per
   * player, in team order, carrying the player's id, the match id, the three
   * stats and 'w' iff the team scored more.
   */
  lemma {:induction false} TeamStatsRows(db: Db, matchId: nat, entries: seq<Entry>, teamScore: int, opponentScore: int)
    requires AllTriples(entries)
    ensures var r := TeamStatsWritten(db, matchId, entries, teamScore, opponentScore).0;
      && (forall k :: 0 <= k < |entries| ==> entries[k].name in r.players)
      && r.playerStats == db.playerStats + RowsOf(r.players, matchId, entries, ResultOf(teamScore, opponentScore))
    decreases |entries|
  {
    TeamStatsFails(db, matchId, entries, teamScore, opponentScore);
    TeamStatsPlayers(db, matchId, entries, teamScore, opponentScore);
    if entries != [] {
      var e := entries[0];
      var step := PlayerWritten(db, matchId, e, teamScore, opponentScore);
      PlayerStep(db, matchId, e, teamScore, opponentScore);
      var d := step.0;
      var rest := entries[1..];
      assert forall k :: 0 <= k < |rest| ==> rest[k] == entries[k + 1];
      assert AllTriples(rest);
      TeamStatsRows(d, matchId, rest, teamScore, opponentScore);
      TeamStatsPlayers(d, matchId, rest, teamScore, opponentScore);
      var r := TeamStatsWritten(d, matchId, rest, teamScore, opponentScore).0;
      assert r == TeamStatsWritten(db, matchId, entries, teamScore, opponentScore).0;
      var res := ResultOf(teamScore, opponentScore);
      var row := StatRow(r.players[e.name], matchId, e.stats[0], e.stats[1], e.stats[2], res);
      assert r.players[e.name] == EnsurePlayer(db, e.name).1;
      assert d.playerStats == db.playerStats + [row];
      var tail := RowsOf(r.players, matchId, rest, res);
      assert RowsOf(r.players, matchId, entries, res) == [row] + tail;
      AppendThenExtend(db.playerStats, d.playerStats, row, tail);
    }
  }

  /** Entries of other players never touch the aggregate row of `n`. */
  lemma {:induction false} TeamStatsLeaveOthers(db: Db, matchId: nat, entries: seq<Entry>, teamScore: int, opponentScore: int, n: string)
    requires WF(db) && n in db.players
    requires forall k :: 0 <= k < |entries| ==> entries[k].name != n
    ensures AggregateOf(TeamStatsWritten(db, matchId, entries, teamScore, opponentScore).0.aggregates, db.players[n])
         == AggregateOf(db.aggregates, db.players[n])
    decreases |entries|
  {
    if entries != [] {
      var (d, err) := PlayerWritten(db, matchId, entries[0], teamScore, opponentScore);
      PlayerStep(db, matchId, entries[0], teamScore, opponentScore);
      var (_, id) := EnsurePlayer(db, entries[0].name);
      assert id != db.players[n];
      if err.None? {
        assert forall k :: 0 <= k < |entries[1..]| ==> entries[1..][k] == entries[k + 1];
        TeamStatsLeaveOthers(d, matchId, entries[1..], teamScore, opponentScore, n);
      }
    }
  }

  /**
   * Accumulation: when the team commits in full, each player's aggregate row
   * is the old one (zeros if none) plus their kills, deaths and assists, one
   * match played, and a win or a loss only when the scores differ.
   */
  lemma {:induction false} TeamStatsAggregates(db: Db, matchId: nat, entries: seq<Entry>, teamScore: int, opponentScore: int, k: nat)
    requires WF(db) && UniqueNames(entries) && AllTriples(entries) && k < |entries|
    ensures var r := TeamStatsWritten(db, matchId, entries, teamScore, opponentScore).0;
      && entries[k].name in r.players
      && var id := r.players[entries[k].name];
         AggregateOf(r.aggregates, id) == Plus(AggregateOf(db.aggregates, id),
           Delta(entries[k].stats[0], entries[k].stats[1], entries[k].stats[2], teamScore, opponentScore))
    decreases |entries|
  {
    var e := entries[0];
    var id0 := EnsurePlayer(db, e.name).1;
    var d := PlayerWritten(db, matchId, e, teamScore, opponentScore).0;
    PlayerStep(db, matchId, e, teamScore, opponentScore);
    assert WF(d);
    var rest := entries[1..];
    assert forall j :: 0 <= j < |rest| ==> rest[j] == entries[j + 1];
    assert AllTriples(rest);
    TeamStatsPlayers(d, matchId, rest, teamScore, opponentScore);
    TeamStatsFails(d, matchId, rest, teamScore, opponentScore);
    var r := TeamStatsWritten(d, matchId, rest, teamScore, opponentScore).0;
    assert r == TeamStatsWritten(db, matchId, entries, teamScore, opponentScore).0;
    if k == 0 {
      TeamStatsLeaveOthers(d, matchId, rest, teamScore, opponentScore, e.name);
    } else {
      assert UniqueNames(rest);
      TeamStatsAggregates(d, matchId, rest, teamScore, opponentScore, k - 1);
      var id := r.players[entries[k].name];
      assert r.players[e.name] == id0;
      assert id != id0;
    }
  }

  // ------------------------------------------------------ update_h2h_records

  lemma MemberOfTail(s: seq<string>)
    requires s != []
    ensures forall x :: x in s <==> x == s[0] || x in s[1..]
  {
    assert s == [s[0]] + s[1..];
  }

  /** Every table other than Players and H2H_Records is the same in `a` and `b`. */
  predicate OnlyPlayersAndH2HChanged(a: Db, b: Db) {
    && a.maps == b.maps && a.matchTypes == b.matchTypes && a.matches == b.matches
    && a.playerStats == b.playerStats && a.aggregates == b.aggregates && a.nextMatchId == b.nextMatchId
  }

  /** The inner loop of `update_h2h_records` for one team1 player against the rest of team2. */
  function H2HInner(db: Db, id1: nat, names2: seq<string>, team1Won: bool): Db
    decreases |names2|
  {
    if names2 == [] then db
    else
      var (d, id2) := EnsurePlayer(db, names2[0]);
      var d' := if id1 != 0 && id2 != 0 then H2HPair(d, id1, id2, team1Won) else d;
      H2HInner(d', id1, names2[1..], team1Won)
  }

  /** `update_h2h_records`: every team1 player against every team2 player, team1 order outermost. */
  function H2HWritten(db: Db, names1: seq<string>, names2: seq<string>, team1Won: bool): Db
    decreases |names1|
  {
    if names1 == [] then db
    else
      var (d, id1) := EnsurePlayer(db, names1[0]);
      H2HWritten(H2HInner(d, id1, names2, team1Won), names1[1..], names2, team1Won)
  }

  /** One iteration of the inner loop, at position `j`. */
  lemma H2HInnerStep(db: Db, id1: nat, names2: seq<string>, team1Won: bool, j: nat)
    requires j < |names2|
    ensures var (d, id2) := EnsurePlayer(db, names2[j]);
      H2HInner(db, id1, names2[j..], team1Won)
        == H2HInner(if id1 != 0 && id2 != 0 then H2HPair(d, id1, id2, team1Won) else d, id1, names2[j + 1..], team1Won)
  {
    assert names2[j..][0] == names2[j] && names2[j..][1..] == names2[j + 1..];
  }

  /** One iteration of the outer loop, at position `i`. */
  lemma H2HWrittenStep(db: Db, names1: seq<string>, names2: seq<string>, team1Won: bool, i: nat)
    requires i < |names1|
    ensures var (d, id1) := EnsurePlayer(db, names1[i]);
      H2HWritten(db, names1[i..], names2, team1Won)
        == H2HWritten(H2HInner(d, id1, names2, team1Won), names1[i + 1..], names2, team1Won)
  {
    assert names1[i..][0] == names1[i] && names1[i..][1..] == names1[i + 1..];
  }

  /**
   * The inner loop touches only Players (creating team2 players that are
   * missing, keeping every existing id) and H2H_Records (keeping every row).
   */
  lemma H2HInnerFrame(db: Db, id1: nat, names2: seq<string>, team1Won: bool)
    ensures var r := H2HInner(db, id1, names2, team1Won);
      && (WF(db) ==> WF(r))
      && (forall n :: n in names2 ==> n in r.players)
      && (forall n :: n in r.players ==> n in db.players || n in names2)
      && (forall n :: n in db.players ==> n in r.players && r.players[n] == db.players[n])
      && r.h2h.Keys >= db.h2h.Keys
      && OnlyPlayersAndH2HChanged(db, r)
  {
    H2HInnerShape(db, id1, names2, team1Won);
    H2HInnerPlayers(db, id1, names2, team1Won);
  }

  lemma {:induction false} H2HInnerShape(db: Db, id1: nat, names2: seq<string>, team1Won: bool)
    ensures var r := H2HInner(db, id1, names2, team1Won);
      && r.h2h.Keys >= db.h2h.Keys
      && OnlyPlayersAndH2HChanged(db, r)
    decreases |names2|
  {
    if names2 != [] {
      var (d, id2) := EnsurePlayer(db, names2[0]);
      var d' := if id1 != 0 && id2 != 0 then H2HPair(d, id1, id2, team1Won) else d;
      H2HInnerShape(d', id1, names2[1..], team1Won);
    }
  }

  lemma H2HInnerPlayers(db: Db, id1: nat, names2: seq<string>, team1Won: bool)
    ensures var r := H2HInner(db, id1, names2, team1Won);
      && (WF(db) ==> WF(r))
      && (forall n :: n in names2 ==> n in r.players)
      && (forall n :: n in r.players ==> n in db.players || n in names2)
      && (forall n :: n in db.players ==> n in r.players && r.players[n] == db.players[n])
  {
    H2HInnerIds(db, id1, names2, team1Won);
    H2HInnerNames(db, id1, names2, team1Won);
  }

  lemma {:induction false} H2HInnerIds(db: Db, id1: nat, names2: seq<string>, team1Won: bool)
    ensures var r := H2HInner(db, id1, names2, team1Won);
      && (WF(db) ==> WF(r))
      && (forall n :: n in db.players ==> n in r.players && r.players[n] == db.players[n])
    decreases |names2|
  {
    if names2 != [] {
      var (d, id2) := EnsurePlayer(db, names2[0]);
      var d' := if id1 != 0 && id2 != 0 then H2HPair(d, id1, id2, team1Won) else d;
      assert d'.players == d.players && d'.nextPlayerId == d.nextPlayerId && d'.matches == d.matches && d'.nextMatchId == d.nextMatchId;
      assert WF(d) ==> WF(d');
      H2HInnerIds(d', id1, names2[1..], team1Won);
      assert H2HInner(db, id1, names2, team1Won) == H2HInner(d', id1, names2[1..], team1Won);
    }
  }

  lemma {:induction false} H2HInnerNames(db: Db, id1: nat, names2: seq<string>, team1Won: bool)
    ensures var r := H2HInner(db, id1, names2, team1Won);
      && (forall n :: n in names2 ==> n in r.players)
      && (forall n :: n in r.players ==> n in db.players || n in names2)
    decreases |names2|
  {
    if names2 != [] {
      var (d, id2) := EnsurePlayer(db, names2[0]);
      var d' := if id1 != 0 && id2 != 0 then H2HPair(d, id1, id2, team1Won) else d;
      assert d'.players == d.players;
      H2HInnerNames(d', id1, names2[1..], team1Won);
      H2HInnerIds(d', id1, names2[1..], team1Won);
      assert H2HInner(db, id1, names2, team1Won) == H2HInner(d', id1, names2[1..], team1Won);
      MemberOfTail(names2);
    }
  }

  /** The same for the whole H2H stage. */
  lemma {:induction false} H2HWrittenFrame(db: Db, names1: seq<string>, names2: seq<string>, team1Won: bool)
    ensures var r := H2HWritten(db, names1, names2, team1Won);
      && (WF(db) ==> WF(r))
      && (forall n :: n in names1 ==> n in r.players)
      && (names1 != [] ==> forall n :: n in names2 ==> n in r.players)
      && (forall n :: n in r.players ==> n in db.players || n in names1 || n in names2)
      && (forall n :: n in db.players ==> n in r.players && r.players[n] == db.players[n])
      && r.h2h.Keys >= db.h2h.Keys
      && OnlyPlayersAndH2HChanged(db, r)
    decreases |names1|
  {
    if names1 != [] {
      var (d, id1) := EnsurePlayer(db, names1[0]);
      var inner := H2HInner(d, id1, names2, team1Won);
      H2HInnerFrame(d, id1, names2, team1Won);
      H2HWrittenFrame(inner, names1[1..], names2, team1Won);
    }
  }

  /** Once both teams' players exist, the H2H stage creates no player. */
  lemma H2HCreatesNoPlayer(db: Db, names1: seq<string>, names2: seq<string>, team1Won: bool)
    requires forall n :: n in names1 ==> n in db.players
    requires forall n :: n in names2 ==> n in db.players
    ensures H2HWritten(db, names1, names2, team1Won).players == db.players
  {
    H2HWrittenFrame(db, names1, names2, team1Won);
    var r := H2HWritten(db, names1, names2, team1Won);
    assert r.players.Keys == db.players.Keys;
  }

  /** After the H2H stage there is a row for every cross-team pair, keyed smaller id first. */
  lemma {:induction false} H2HInnerRecords(db: Db, id1: nat, names2: seq<string>, team1Won: bool)
    requires WF(db) && id1 >= 1
    ensures var r := H2HInner(db, id1, names2, team1Won);
      forall n :: n in names2 ==> n in r.players && (Min(id1, r.players[n]), Max(id1, r.players[n])) in r.h2h
    decreases |names2|
  {
    if names2 != [] {
      var (d, id2) := EnsurePlayer(db, names2[0]);
      var d' := H2HPair(d, id1, id2, team1Won);
      H2HInnerRecords(d', id1, names2[1..], team1Won);
      H2HInnerFrame(d', id1, names2[1..], team1Won);
    }
  }

  lemma {:induction false} H2HRecordsAllPairs(db: Db, names1: seq<string>, names2: seq<string>, team1Won: bool)
    requires WF(db)
    ensures var r := H2HWritten(db, names1, names2, team1Won);
      forall a, b :: a in names1 && b in names2 ==>
        a in r.players && b in r.players && (Min(r.players[a], r.players[b]), Max(r.players[a], r.players[b])) in r.h2h
    decreases |names1|
  {
    if names1 != [] {
      var (d, id1) := EnsurePlayer(db, names1[0]);
      var inner := H2HInner(d, id1, names2, team1Won);
      H2HInnerRecords(d, id1, names2, team1Won);
      H2HInnerFrame(d, id1, names2, team1Won);
      H2HRecordsAllPairs(inner, names1[1..], names2, team1Won);
      H2HWrittenFrame(inner, names1[1..], names2, team1Won);
      var r := H2HWritten(db, names1, names2, team1Won);
      assert r == H2HWritten(inner, names1[1..], names2, team1Won);
      forall a, b | a in names1 && b in names2
        ensures a in r.players && b in r.players && (Min(r.players[a], r.players[b]), Max(r.players[a], r.players[b])) in r.h2h
      {
        if a != names1[0] {
          assert a in names1[1..];
        } else {
          assert b in inner.players;
          var key := (Min(id1, inner.players[b]), Max(id1, inner.players[b]));
          assert key in inner.h2h;
          assert r.players[a] == id1 && r.players[b] == inner.players[b];
          assert key in r.h2h;
        }
      }
    }
  }

  /** Every H2H_Records key has the smaller id first, so no pair is ever stored in both orders. */
  predicate CanonicalH2H(h: map<(nat, nat), H2H>) {
    forall k :: k in h ==> k.0 <= k.1
  }

  /** The key a pair of player ids is stored under. */
  function PairKey(id1: nat, id2: nat): (nat, nat) {
    (Min(id1, id2), Max(id1, id2))
  }

  /** A row after one more match between the pair: the team1 player's side gains the win iff team1 won. */
  function Won(h: H2H, id1: nat, id2: nat, team1Won: bool): H2H {
    if (id1 < id2) == team1Won then H2H(h.oneWins + 1, h.twoWins) else H2H(h.oneWins, h.twoWins + 1)
  }

  /** One pair's upsert in terms of `Won`: only the pair's row changes. */
  lemma H2HPairAt(db: Db, id1: nat, id2: nat, team1Won: bool, key: (nat, nat))
    ensures H2HOf(H2HPair(db, id1, id2, team1Won).h2h, key)
         == if key == PairKey(id1, id2) then Won(H2HOf(db.h2h, key), id1, id2, team1Won) else H2HOf(db.h2h, key)
  {
    if id1 < id2 {
      assert H2HPair(db, id1, id2, team1Won).h2h == H2HUpserted(db.h2h, id1, id2, team1Won);
    } else {
      assert H2HPair(db, id1, id2, team1Won).h2h == H2HUpserted(db.h2h, id2, id1, !team1Won);
    }
  }

  lemma H2HPairCanonical(db: Db, id1: nat, id2: nat, team1Won: bool)
    requires CanonicalH2H(db.h2h)
    ensures CanonicalH2H(H2HPair(db, id1, id2, team1Won).h2h)
  {
    var r := H2HPair(db, id1, id2, team1Won);
    forall k | k in r.h2h
      ensures k.0 <= k.1
    {
      if k !in db.h2h {
        assert k == (Min(id1, id2), Max(id1, id2));
      }
    }
  }

  lemma {:induction false} H2HInnerCanonical(db: Db, id1: nat, names2: seq<string>, team1Won: bool)
    requires CanonicalH2H(db.h2h)
    ensures CanonicalH2H(H2HInner(db, id1, names2, team1Won).h2h)
    decreases |names2|
  {
    if names2 != [] {
      var (d, id2) := EnsurePlayer(db, names2[0]);
      var d' := if id1 != 0 && id2 != 0 then H2HPair(d, id1, id2, team1Won) else d;
      if id1 != 0 && id2 != 0 {
        H2HPairCanonical(d, id1, id2, team1Won);
      }
      H2HInnerCanonical(d', id1, names2[1..], team1Won);
    }
  }

  /** `update_h2h_records` keeps every stored key in canonical order. */
  lemma {:induction false} H2HWrittenCanonical(db: Db, names1: seq<string>, names2: seq<string>, team1Won: bool)
    requires CanonicalH2H(db.h2h)
    ensures CanonicalH2H(H2HWritten(db, names1, names2, team1Won).h2h)
    decreases |names1|
  {
    if names1 != [] {
      var (d, id1) := EnsurePlayer(db, names1[0]);
      H2HInnerCanonical(d, id1, names2, team1Won);
      H2HWrittenCanonical(H2HInner(d, id1, names2, team1Won), names1[1..], names2, team1Won);
    }
  }

  /** Two pairs that share no player name are stored under different keys. */
  lemma PairKeysApart(db: Db, a: string, b: string, a2: string, b2: string)
    requires WF(db) && a in db.players && b in db.players && a2 in db.players && b2 in db.players
    requires a != a2 && a != b2
    ensures PairKey(db.players[a], db.players[b]) != PairKey(db.players[a2], db.players[b2])
  {
    assert db.players[a] != db.players[a2] && db.players[a] != db.players[b2];
  }

  predicate Distinct(s: seq<string>) {
    forall i, j :: 0 <= i < j < |s| ==> s[i] != s[j]
  }

  /** In a sequence without repeats, nothing after the head equals the head, and the tail has no repeats. */
  lemma DistinctTail(s: seq<string>)
    requires Distinct(s) && s != []
    ensures Distinct(s[1..]) && s[0] !in s[1..]
  {
    forall j | 0 <= j < |s[1..]|
      ensures s[1..][j] != s[0]
    {
      assert s[1..][j] == s[j + 1];
    }
  }

  /** Once every team2 player exists, the inner loop creates no player. */
  lemma {:induction false} H2HInnerSamePlayers(db: Db, id1: nat, names2: seq<string>, team1Won: bool)
    requires WF(db) && forall n :: n in names2 ==> n in db.players
    ensures H2HInner(db, id1, names2, team1Won).players == db.players
    ensures WF(H2HInner(db, id1, names2, team1Won))
    decreases |names2|
  {
    if names2 != [] {
      var (d, id2) := EnsurePlayer(db, names2[0]);
      var d' := if id1 != 0 && id2 != 0 then H2HPair(d, id1, id2, team1Won) else d;
      MemberOfTail(names2);
      H2HInnerSamePlayers(d', id1, names2[1..], team1Won);
    }
  }

  /**
   * One team1 player `a` against distinct team2 players that all exist: the
   * row of each pair gains one result, and every other row is unchanged.
   */
  lemma {:induction false} H2HInnerAt(db: Db, a: string, names2: seq<string>, team1Won: bool, key: (nat, nat))
    requires WF(db) && a in db.players && a !in names2
    requires (forall n :: n in names2 ==> n in db.players) && Distinct(names2)
    ensures var r := H2HInner(db, db.players[a], names2, team1Won);
      && (forall b :: b in names2 && key == PairKey(db.players[a], db.players[b]) ==>
            H2HOf(r.h2h, key) == Won(H2HOf(db.h2h, key), db.players[a], db.players[b], team1Won))
      && ((forall b :: b in names2 ==> key != PairKey(db.players[a], db.players[b])) ==>
            H2HOf(r.h2h, key) == H2HOf(db.h2h, key))
    decreases |names2|
  {
    if names2 != [] {
      var id1 := db.players[a];
      var b0 := names2[0];
      var id2 := db.players[b0];
      var rest := names2[1..];
      var d := H2HPair(db, id1, id2, team1Won);
      assert H2HInner(db, id1, names2, team1Won) == H2HInner(d, id1, rest, team1Won);
      H2HPairAt(db, id1, id2, team1Won, key);
      DistinctTail(names2);
      MemberOfTail(names2);
      H2HInnerAt(d, a, rest, team1Won, key);
      if key == PairKey(id1, id2) {
        forall b | b in rest
          ensures key != PairKey(id1, db.players[b])
        {
          PairKeysApart(db, b, a, b0, a);
        }
      }
    }
  }

  /** The H2H stage's shared assumptions: both teams' players exist, no repeats, no player on both teams. */
  predicate KnownDisjointTeams(db: Db, names1: seq<string>, names2: seq<string>) {
    && (forall n :: n in names1 ==> n in db.players) && (forall n :: n in names2 ==> n in db.players)
    && Distinct(names1) && Distinct(names2) && (forall n :: n in names1 ==> n !in names2)
  }

  /** `update_h2h_records` leaves alone every row that no cross-team pair is stored under. */
  lemma {:induction false} H2HWrittenMiss(db: Db, names1: seq<string>, names2: seq<string>, team1Won: bool, key: (nat, nat))
    requires WF(db) && KnownDisjointTeams(db, names1, names2)
    requires forall a, b :: a in names1 && b in names2 ==> key != PairKey(db.players[a], db.players[b])
    ensures H2HOf(H2HWritten(db, names1, names2, team1Won).h2h, key) == H2HOf(db.h2h, key)
    decreases |names1|
  {
    if names1 != [] {
      var a0 := names1[0];
      var id1 := db.players[a0];
      var d := H2HInner(db, id1, names2, team1Won);
      assert H2HWritten(db, names1, names2, team1Won) == H2HWritten(d, names1[1..], names2, team1Won);
      H2HInnerSamePlayers(db, id1, names2, team1Won);
      H2HInnerAt(db, a0, names2, team1Won, key);
      DistinctTail(names1);
      MemberOfTail(names1);
      H2HWrittenMiss(d, names1[1..], names2, team1Won, key);
    }
  }

  /**
   * `update_h2h_records` for two teams with no player in common, once every
   * player exists: the row of a cross-team pair gains exactly one result, on
   * the team1 player's side iff team1 won.
   */
  lemma {:induction false} H2HWrittenHit(db: Db, names1: seq<string>, names2: seq<string>, team1Won: bool, a: string, b: string)
    requires WF(db) && KnownDisjointTeams(db, names1, names2)
    requires a in names1 && b in names2
    ensures var key := PairKey(db.players[a], db.players[b]);
      H2HOf(H2HWritten(db, names1, names2, team1Won).h2h, key)
        == Won(H2HOf(db.h2h, key), db.players[a], db.players[b], team1Won)
    decreases |names1|
  {
    var key := PairKey(db.players[a], db.players[b]);
    var a0 := names1[0];
    var id1 := db.players[a0];
    var rest := names1[1..];
    var d := H2HInner(db, id1, names2, team1Won);
    assert H2HWritten(db, names1, names2, team1Won) == H2HWritten(d, rest, names2, team1Won);
    H2HInnerSamePlayers(db, id1, names2, team1Won);
    H2HInnerAt(db, a0, names2, team1Won, key);
    DistinctTail(names1);
    MemberOfTail(names1);
    if a == a0 {
      forall a2, b2 | a2 in rest && b2 in names2
        ensures key != PairKey(db.players[a2], db.players[b2])
      {
        PairKeysApart(db, a2, b2, a0, b);
      }
      H2HWrittenMiss(d, rest, names2, team1Won, key);
    } else {
      forall b2 | b2 in names2
        ensures key != PairKey(id1, db.players[b2])
      {
        PairKeysApart(db, a, b, a0, b2);
      }
      H2HWrittenHit(d, rest, names2, team1Won, a, b);
    }
  }

  // ------------------------------------------------------- write_match_data

  /**
   * The part of `write_match_data` after the match row: team1's stats, then
   * team2's (each team's result from its own point of view), then the H2H rows.
   */
  function StatsAndH2HWritten(db: Db, matchId: nat, team1: Team, team2: Team, score1: int, score2: int): (Db, Option<Error>)
  {
    var (d2, e2) := TeamStatsWritten(db, matchId, team1, score1, score2);
    if e2.Some? then (d2, e2)
    else
      var (d3, e3) := TeamStatsWritten(d2, matchId, team2, score2, score1);
      if e3.Some? then (d3, e3)
      else (H2HWritten(d3, Names(team1), Names(team2), score1 > score2), None)
  }

  /**
   * After the match row, the schema invariant holds, Matches is untouched,
   * Player_Stats only grows by rows of this match, and existing players keep their ids.
   */
  lemma StatsAndH2HFrame(db: Db, matchId: nat, team1: Team, team2: Team, score1: int, score2: int)
    ensures var r := StatsAndH2HWritten(db, matchId, team1, team2, score1, score2).0;
      && (WF(db) ==> WF(r))
      && r.matches == db.matches && r.nextMatchId == db.nextMatchId
      && AppendedFor(db.playerStats, r.playerStats, matchId)
      && (forall n :: n in db.players ==> n in r.players && r.players[n] == db.players[n])
  {
    var (d2, e2) := TeamStatsWritten(db, matchId, team1, score1, score2);
    TeamStatsFrame(db, matchId, team1, score1, score2);
    TeamStatsPlayers(db, matchId, team1, score1, score2);
    if e2.None? {
      var (d3, e3) := TeamStatsWritten(d2, matchId, team2, score2, score1);
      TeamStatsFrame(d2, matchId, team2, score2, score1);
      TeamStatsPlayers(d2, matchId, team2, score2, score1);
      AppendedTrans(db.playerStats, d2.playerStats, d3.playerStats, matchId);
      if e3.None? {
        H2HWrittenFrame(d3, Names(team1), Names(team2), score1 > score2);
      }
    }
  }

  /** A full run leaves exactly the old players plus every player named on either team. */
  lemma StatsAndH2HPlayers(db: Db, matchId: nat, team1: Team, team2: Team, score1: int, score2: int)
    requires StatsAndH2HWritten(db, matchId, team1, team2, score1, score2).1.None?
    ensures var r := StatsAndH2HWritten(db, matchId, team1, team2, score1, score2).0;
      forall n :: n in r.players <==> n in db.players || n in Names(team1) || n in Names(team2)
  {
    var (d2, e2) := TeamStatsWritten(db, matchId, team1, score1, score2);
    TeamStatsPlayers(db, matchId, team1, score1, score2);
    var (d3, e3) := TeamStatsWritten(d2, matchId, team2, score2, score1);
    TeamStatsPlayers(d2, matchId, team2, score2, score1);
    forall n | n in Names(team1) ensures n in d3.players {
      var k :| 0 <= k < |team1| && Names(team1)[k] == n;
    }
    forall n | n in Names(team2) ensures n in d3.players {
      var k :| 0 <= k < |team2| && Names(team2)[k] == n;
    }
    H2HCreatesNoPlayer(d3, Names(team1), Names(team2), score1 > score2);
  }

  /**
   * `write_match_data`: parse the score, look up the lowercased map and match
   * type, insert the match, then write the stats and H2H rows. The first error
   * stops the run with everything before it kept.
   */
  function MatchWritten(db: Db, team1: Team, team2: Team, mapName: string, matchType: string, finalScore: string): (Db, Option<Error>)
  {
    match ParseScore(finalScore)
    case Failure(e) => (db, Some(e))
    case Success((score1, score2)) =>
      match (Lookup(db.maps, Lower(mapName)), Lookup(db.matchTypes, Lower(matchType)))
      case (Failure(e), _) => (db, Some(e))
      case (_, Failure(e)) => (db, Some(e))
      case (Success(mapId), Success(matchTypeId)) =>
        var (d1, matchId) := MatchInserted(db, mapId, matchTypeId, finalScore);
        StatsAndH2HWritten(d1, matchId, team1, team2, score1, score2)
  }

  /** A bad score, an unknown map or an unknown match type raises before anything is written. */
  lemma RejectedBeforeWriting(db: Db, team1: Team, team2: Team, mapName: string, matchType: string, finalScore: string)
    requires ParseScore(finalScore).Failure? || Lower(mapName) !in db.maps || Lower(matchType) !in db.matchTypes
    ensures MatchWritten(db, team1, team2, mapName, matchType, finalScore).0 == db
    ensures MatchWritten(db, team1, team2, mapName, matchType, finalScore).1.Some?
  {
  }

  /**
   * Write order and the missing transaction: once the lookups pass, the match
   * row exists afterwards whatever fails later, every Player_Stats row written
   * points at it, and the rows already in the table are kept.
   */
  lemma MatchRowFirst(db: Db, team1: Team, team2: Team, mapName: string, matchType: string, finalScore: string)
    requires WF(db)
    requires ParseScore(finalScore).Success? && Lower(mapName) in db.maps && Lower(matchType) in db.matchTypes
    ensures var r := MatchWritten(db, team1, team2, mapName, matchType, finalScore).0;
      && r.matches.Keys == db.matches.Keys + {db.nextMatchId}
      && db.nextMatchId !in db.matches
      && r.matches[db.nextMatchId] == MatchRow(db.maps[Lower(mapName)], db.matchTypes[Lower(matchType)], finalScore)
      && AppendedFor(db.playerStats, r.playerStats, db.nextMatchId)
  {
    var (score1, score2) := ParseScore(finalScore).value;
    var (d1, matchId) := MatchInserted(db, db.maps[Lower(mapName)], db.matchTypes[Lower(matchType)], finalScore);
    assert MatchWritten(db, team1, team2, mapName, matchType, finalScore)
        == StatsAndH2HWritten(d1, matchId, team1, team2, score1, score2);
    StatsAndH2HFrame(d1, matchId, team1, team2, score1, score2);
  }

  /** After a full commit every player of both teams exists; earlier players keep their ids. */
  lemma CommitRegistersPlayers(db: Db, team1: Team, team2: Team, mapName: string, matchType: string, finalScore: string)
    requires WF(db)
    requires MatchWritten(db, team1, team2, mapName, matchType, finalScore).1.None?
    ensures var r := MatchWritten(db, team1, team2, mapName, matchType, finalScore).0;
      && WF(r)
      && (forall n :: n in r.players <==> n in db.players || n in Names(team1) || n in Names(team2))
      && forall n :: n in db.players ==> r.players[n] == db.players[n]
  {
    var (score1, score2) := ParseScore(finalScore).value;
    var (d1, matchId) := MatchInserted(db, db.maps[Lower(mapName)], db.matchTypes[Lower(matchType)], finalScore);
    assert MatchWritten(db, team1, team2, mapName, matchType, finalScore)
        == StatsAndH2HWritten(d1, matchId, team1, team2, score1, score2);
    StatsAndH2HFrame(d1, matchId, team1, team2, score1, score2);
    StatsAndH2HPlayers(d1, matchId, team1, team2, score1, score2);
  }

  /** Whatever step fails, the schema invariant holds afterwards. */
  lemma MatchKeepsWF(db: Db, team1: Team, team2: Team, mapName: string, matchType: string, finalScore: string)
    requires WF(db)
    ensures WF(MatchWritten(db, team1, team2, mapName, matchType, finalScore).0)
  {
    if ParseScore(finalScore).Success? && Lower(mapName) in db.maps && Lower(matchType) in db.matchTypes {
      var (score1, score2) := ParseScore(finalScore).value;
      var (d1, matchId) := MatchInserted(db, db.maps[Lower(mapName)], db.matchTypes[Lower(matchType)], finalScore);
      assert MatchWritten(db, team1, team2, mapName, matchType, finalScore)
          == StatsAndH2HWritten(d1, matchId, team1, team2, score1, score2);
      StatsAndH2HFrame(d1, matchId, team1, team2, score1, score2);
    }
  }

  /** A commit keeps H2H_Records in canonical order whichever step fails. */
  lemma MatchWrittenCanonical(db: Db, team1: Team, team2: Team, mapName: string, matchType: string, finalScore: string)
    requires CanonicalH2H(db.h2h)
    ensures CanonicalH2H(MatchWritten(db, team1, team2, mapName, matchType, finalScore).0.h2h)
  {
    if ParseScore(finalScore).Success? && Lower(mapName) in db.maps && Lower(matchType) in db.matchTypes {
      var (score1, score2) := ParseScore(finalScore).value;
      var (d1, matchId) := MatchInserted(db, db.maps[Lower(mapName)], db.matchTypes[Lower(matchType)], finalScore);
      assert MatchWritten(db, team1, team2, mapName, matchType, finalScore)
          == StatsAndH2HWritten(d1, matchId, team1, team2, score1, score2);
      var (d2, e2) := TeamStatsWritten(d1, matchId, team1, score1, score2);
      TeamStatsFrame(d1, matchId, team1, score1, score2);
      if e2.None? {
        var (d3, e3) := TeamStatsWritten(d2, matchId, team2, score2, score1);
        TeamStatsFrame(d2, matchId, team2, score2, score1);
        if e3.None? {
          H2HWrittenCanonical(d3, Names(team1), Names(team2), score1 > score2);
        }
      }
    }
  }

  /**
   * Both team-stats stages succeeded: the schema invariant holds, H2H_Records
   * is as it was, both teams' players exist, and the H2H stage alone produces
   * the final state.
   */
  lemma StatsBeforeH2H(d1: Db, matchId: nat, team1: Team, team2: Team, score1: int, score2: int) returns (d3: Db)
    requires WF(d1)
    requires StatsAndH2HWritten(d1, matchId, team1, team2, score1, score2).1.None?
    ensures WF(d3) && d3.h2h == d1.h2h
    ensures forall n :: n in Names(team1) ==> n in d3.players
    ensures forall n :: n in Names(team2) ==> n in d3.players
    ensures StatsAndH2HWritten(d1, matchId, team1, team2, score1, score2).0
         == H2HWritten(d3, Names(team1), Names(team2), score1 > score2)
  {
    var (d2, e2) := TeamStatsWritten(d1, matchId, team1, score1, score2);
    assert e2.None?;
    TeamStatsFrame(d1, matchId, team1, score1, score2);
    TeamStatsIds(d1, matchId, team1, score1, score2);
    TeamStatsNamesExist(d1, matchId, team1, score1, score2);
    var e3;
    d3, e3 := TeamStatsWritten(d2, matchId, team2, score2, score1).0, TeamStatsWritten(d2, matchId, team2, score2, score1).1;
    assert e3.None?;
    TeamStatsFrame(d2, matchId, team2, score2, score1);
    TeamStatsIds(d2, matchId, team2, score2, score1);
    TeamStatsNamesExist(d2, matchId, team2, score2, score1);
  }

  /** A team-stats stage that succeeded leaves every name of its team in Players. */
  lemma TeamStatsNamesExist(db: Db, matchId: nat, entries: seq<Entry>, teamScore: int, opponentScore: int)
    requires TeamStatsWritten(db, matchId, entries, teamScore, opponentScore).1.None?
    ensures forall n :: n in Names(entries) ==> n in TeamStatsWritten(db, matchId, entries, teamScore, opponentScore).0.players
  {
    TeamStatsPlayers(db, matchId, entries, teamScore, opponentScore);
    forall n | n in Names(entries)
      ensures n in TeamStatsWritten(db, matchId, entries, teamScore, opponentScore).0.players
    {
      var k :| 0 <= k < |entries| && Names(entries)[k] == n;
    }
  }

  /** A successful commit, seen just before its H2H stage. */
  lemma CommitBeforeH2H(db: Db, team1: Team, team2: Team, mapName: string, matchType: string, finalScore: string)
    returns (d3: Db, score1: int, score2: int)
    requires WF(db)
    requires MatchWritten(db, team1, team2, mapName, matchType, finalScore).1.None?
    ensures WF(d3) && d3.h2h == db.h2h
    ensures ParseScore(finalScore) == Success((score1, score2))
    ensures forall n :: n in Names(team1) ==> n in d3.players
    ensures forall n :: n in Names(team2) ==> n in d3.players
    ensures MatchWritten(db, team1, team2, mapName, matchType, finalScore).0
         == H2HWritten(d3, Names(team1), Names(team2), score1 > score2)
  {
    score1, score2 := ParseScore(finalScore).value.0, ParseScore(finalScore).value.1;
    var (d1, matchId) := MatchInserted(db, db.maps[Lower(mapName)], db.matchTypes[Lower(matchType)], finalScore);
    assert MatchWritten(db, team1, team2, mapName, matchType, finalScore)
        == StatsAndH2HWritten(d1, matchId, team1, team2, score1, score2);
    d3 := StatsBeforeH2H(d1, matchId, team1, team2, score1, score2);
  }

  lemma NamesDistinct(t: Team)
    requires UniqueNames(t)
    ensures Distinct(Names(t))
  {
  }

  /**
   * A successful commit of two teams with no player in common: the H2H row of
   * each cross-team pair gains exactly one result, on the team1 player's side
   * iff team1 won, and every other H2H row is unchanged.
   */
  lemma MatchH2HCounts(db: Db, team1: Team, team2: Team, mapName: string, matchType: string, finalScore: string,
                       key: (nat, nat))
    requires WF(db) && UniqueNames(team1) && UniqueNames(team2)
    requires forall n :: n in Names(team1) ==> n !in Names(team2)
    requires MatchWritten(db, team1, team2, mapName, matchType, finalScore).1.None?
    ensures var r := MatchWritten(db, team1, team2, mapName, matchType, finalScore).0;
      var (score1, score2) := ParseScore(finalScore).value;
      && (forall n :: n in Names(team1) || n in Names(team2) ==> n in r.players)
      && (forall a, b :: a in Names(team1) && b in Names(team2) && key == PairKey(r.players[a], r.players[b]) ==>
            H2HOf(r.h2h, key) == Won(H2HOf(db.h2h, key), r.players[a], r.players[b], score1 > score2))
      && ((forall a, b :: a in Names(team1) && b in Names(team2) ==> key != PairKey(r.players[a], r.players[b])) ==>
            H2HOf(r.h2h, key) == H2HOf(db.h2h, key))
  {
    var d3, score1, score2 := CommitBeforeH2H(db, team1, team2, mapName, matchType, finalScore);
    var names1, names2 := Names(team1), Names(team2);
    NamesDistinct(team1);
    NamesDistinct(team2);
    assert KnownDisjointTeams(d3, names1, names2);
    H2HCreatesNoPlayer(d3, names1, names2, score1 > score2);
    var r := H2HWritten(d3, names1, names2, score1 > score2);
    forall a, b | a in names1 && b in names2 && key == PairKey(r.players[a], r.players[b])
      ensures H2HOf(r.h2h, key) == Won(H2HOf(db.h2h, key), r.players[a], r.players[b], score1 > score2)
    {
      H2HWrittenHit(d3, names1, names2, score1 > score2, a, b);
    }
    if forall a, b :: a in names1 && b in names2 ==> key != PairKey(r.players[a], r.players[b]) {
      H2HWrittenMiss(d3, names1, names2, score1 > score2, key);
    }
  }

  // ------------------------------------------------------------- the store

  /** The database connection as a mutable store. */
  class Store {
    var players: map<string, nat>
    var maps: map<string, nat>
    var matchTypes: map<string, nat>
    var matches: map<nat, MatchRow>
    var playerStats: seq<StatRow>
    var aggregates: map<nat, Aggregate>
    var h2h: map<(nat, nat), H2H>
    var nextPlayerId: nat
    var nextMatchId: nat

    ghost function Snapshot(): Db
      reads this
    {
      Db(players, maps, matchTypes, matches, playerStats, aggregates, h2h, nextPlayerId, nextMatchId)
    }

    /** The schema invariant, and every H2H row stored with the smaller id first. */
    ghost predicate Valid()
      reads this
    {
      WF(Snapshot()) && CanonicalH2H(h2h)
    }

    /** A store with the preloaded maps and match types and no other rows. */
    constructor (preloadedMaps: map<string, nat>, preloadedMatchTypes: map<string, nat>)
      ensures Valid()
      ensures Snapshot() == Db(map[], preloadedMaps, preloadedMatchTypes, map[], [], map[], map[], 1, 1)
    {
      players, maps, matchTypes := map[], preloadedMaps, preloadedMatchTypes;
      matches, playerStats, aggregates, h2h := map[], [], map[], map[];
      nextPlayerId, nextMatchId := 1, 1;
    }

    /** `ensure_exists`. */
    method EnsureExists(table: Table, value: string) returns (r: Result<nat>)
      requires Valid()
      modifies this
      ensures Valid()
      ensures (Snapshot(), r) == Ensured(old(Snapshot()), table, value)
      ensures table == Players ==> r.Success? && (Snapshot(), r.value) == EnsurePlayer(old(Snapshot()), value)
    {
      var known := match table
        case Players => players
        case Maps => maps
        case MatchTypes => matchTypes;
      if value !in known {
        if table == Players {
          r := Success(nextPlayerId);
          players := players[value := nextPlayerId];
          nextPlayerId := nextPlayerId + 1;
        } else {
          r := Failure(ValueError("Expected entity not found"));
        }
      } else {
        r := Success(known[value]);
      }
    }

    /** `insert_match`. */
    method InsertMatch(mapId: nat, matchTypeId: nat, score: string) returns (matchId: nat)
      requires Valid()
      modifies this
      ensures Valid()
      ensures (Snapshot(), matchId) == MatchInserted(old(Snapshot()), mapId, matchTypeId, score)
    {
      matchId := nextMatchId;
      matches := matches[matchId := MatchRow(mapId, matchTypeId, score)];
      nextMatchId := nextMatchId + 1;
    }

    /** `insert_player_stats`. */
    method InsertPlayerStats(playerId: nat, matchId: nat, kills: int, deaths: int, assists: int, result: char)
      requires Valid()
      modifies this
      ensures Valid()
      ensures Snapshot() == StatInserted(old(Snapshot()), StatRow(playerId, matchId, kills, deaths, assists, result))
    {
      playerStats := playerStats + [StatRow(playerId, matchId, kills, deaths, assists, result)];
    }

    /** `update_player_aggregate_stats`; `wins` and `losses` carry the two scores. */
    method UpdatePlayerAggregateStats(playerId: nat, kills: int, deaths: int, assists: int, wins: int, losses: int)
      requires Valid()
      modifies this
      ensures Valid()
      ensures Snapshot() == AggregateUpserted(old(Snapshot()), playerId, Delta(kills, deaths, assists, wins, losses))
    {
      var excluded := Aggregate(kills, deaths, assists, 1, if wins > losses then 1 else 0, if losses > wins then 1 else 0);
      if playerId in aggregates {
        aggregates := aggregates[playerId := Plus(aggregates[playerId], excluded)];
      } else {
        aggregates := aggregates[playerId := excluded];
      }
    }

    /** `process_team_stats`. */
    method ProcessTeamStats(matchId: nat, team: Team, teamScore: int, opponentScore: int) returns (err: Option<Error>)
      requires Valid()
      modifies this
      ensures Valid()
      ensures (Snapshot(), err) == TeamStatsWritten(old(Snapshot()), matchId, team, teamScore, opponentScore)
    {
      var result := if teamScore > opponentScore then 'w' else 'l';
      ghost var target := TeamStatsWritten(Snapshot(), matchId, team, teamScore, opponentScore);
      for i := 0 to |team|
        invariant Valid()
        invariant TeamStatsWritten(Snapshot(), matchId, team[i..], teamScore, opponentScore) == target
      {
        assert team[i..][0] == team[i] && team[i..][1..] == team[i + 1..];
        var found := EnsureExists(Players, team[i].name);
        var playerId := found.value;
        var stats := team[i].stats;
        if |stats| != 3 {
          return Some(ValueError("wrong number of values to unpack"));
        }
        InsertPlayerStats(playerId, matchId, stats[0], stats[1], stats[2], result);
        UpdatePlayerAggregateStats(playerId, stats[0], stats[1], stats[2], teamScore, opponentScore);
      }
      err := None;
    }

    /** `update_individual_h2h_record`; the store stays canonical when the ids come in order. */
    method UpdateIndividualH2HRecord(playerOneId: nat, playerTwoId: nat, team1Won: bool)
      requires Valid()
      modifies this
      ensures playerOneId <= playerTwoId ==> Valid()
      ensures Snapshot() == old(Snapshot()).(h2h := H2HUpserted(old(h2h), playerOneId, playerTwoId, team1Won))
    {
      var winsForPlayerOne := if team1Won then 1 else 0;
      var winsForPlayerTwo := if !team1Won then 1 else 0;
      var key := (playerOneId, playerTwoId);
      if key in h2h {
        h2h := h2h[key := H2H(h2h[key].oneWins + winsForPlayerOne, h2h[key].twoWins + winsForPlayerTwo)];
      } else {
        h2h := h2h[key := H2H(winsForPlayerOne, winsForPlayerTwo)];
      }
    }

    /** `update_h2h_records`. */
    method UpdateH2HRecords(team1: Team, team2: Team, team1Score: int, team2Score: int)
      requires Valid()
      modifies this
      ensures Valid()
      ensures Snapshot() == H2HWritten(old(Snapshot()), Names(team1), Names(team2), team1Score > team2Score)
    {
      var team1Won := team1Score > team2Score;
      var names1, names2 := Names(team1), Names(team2);
      ghost var target := H2HWritten(Snapshot(), names1, names2, team1Won);
      for i := 0 to |names1|
        invariant Valid()
        invariant H2HWritten(Snapshot(), names1[i..], names2, team1Won) == target
      {
        H2HWrittenStep(Snapshot(), names1, names2, team1Won, i);
        var found1 := EnsureExists(Players, names1[i]);
        var player1Id := found1.value;
        ghost var innerTarget := H2HInner(Snapshot(), player1Id, names2, team1Won);
        assert H2HWritten(innerTarget, names1[i + 1..], names2, team1Won) == target;
        for j := 0 to |names2|
          invariant Valid()
          invariant H2HInner(Snapshot(), player1Id, names2[j..], team1Won) == innerTarget
        {
          H2HInnerStep(Snapshot(), player1Id, names2, team1Won, j);
          var found2 := EnsureExists(Players, names2[j]);
          var player2Id := found2.value;
          ghost var s1 := Snapshot();
          if player1Id != 0 && player2Id != 0 {
            if player1Id < player2Id {
              UpdateIndividualH2HRecord(player1Id, player2Id, team1Won);
            } else {
              UpdateIndividualH2HRecord(player2Id, player1Id, !team1Won);
            }
            assert Snapshot() == H2HPair(s1, player1Id, player2Id, team1Won);
          }
        }
        assert names2[|names2|..] == [];
      }
      assert names1[|names1|..] == [];
    }

    /** `write_match_data`. */
    method WriteMatchData(team1: Team, team2: Team, mapName: string, matchType: string, finalScore: string)
      returns (err: Option<Error>)
      requires Valid()
      modifies this
      ensures Valid()
      ensures (Snapshot(), err) == MatchWritten(old(Snapshot()), team1, team2, mapName, matchType, finalScore)
    {
      var lowerMap := Lower(mapName);
      var lowerType := Lower(matchType);
      var scores := ParseScore(finalScore);
      if scores.Failure? {
        return Some(scores.error);
      }
      var (team1Score, team2Score) := scores.value;
      var mapId := EnsureExists(Maps, lowerMap);
      if mapId.Failure? {
        return Some(mapId.error);
      }
      var matchTypeId := EnsureExists(MatchTypes, lowerType);
      if matchTypeId.Failure? {
        return Some(matchTypeId.error);
      }
      var matchId := InsertMatch(mapId.value, matchTypeId.value, finalScore);
      err := ProcessTeamStats(matchId, team1, team1Score, team2Score);
      if err.Some? {
        return;
      }
      err := ProcessTeamStats(matchId, team2, team2Score, team1Score);
      if err.Some? {
        return;
      }
      UpdateH2HRecords(team1, team2, team1Score, team2Score);
    }
  }
}
