/**
 * bot.py, the parts of the Discord bot that compute rather than talk:
 * paging the player list, orienting a head-to-head row to the order the
 * caller named the players in, the options of the player picker, and the
 * correction a submitted modal applies to the in-memory store.
 */
module Bot {
  import opened Wrappers
  import opened Strings
  import opened Teams
  import opened Manager
  import Write
  import BotUtils

  // ------------------------------------------------------------ list_players

  /** `names_per_embed`. */
  const NamesPerEmbed: nat := 25

  /** One embed of the `!list` reply: the names it shows, its description and its footer. */
  datatype Embed = Embed(shown: seq<string>, description: string, footer: string)

  function Min(a: int, b: int): int { if a < b then a else b }

  /** "Showing names <first> to <last> of <total>". */
  function Footer(first: nat, last: nat, total: nat): string {
    "Showing names " + NatToString(first) + " to " + NatToString(last) + " of " + NatToString(total)
  }

  /** The embed of the page that starts at index `i`. */
  function PageAt(names: seq<string>, i: nat): (e: Embed)
    requires i < |names|
    ensures 1 <= |e.shown| <= NamesPerEmbed
  {
    var last := Min(i + NamesPerEmbed, |names|);
    Embed(names[i..last], Join(names[i..last], "\n"), Footer(i + 1, last, |names|))
  }

  /** The pages from index `i` on, one every `NamesPerEmbed` names. */
  function PagesFrom(names: seq<string>, i: nat): seq<Embed>
    decreases |names| - i
  {
    if i >= |names| then [] else [PageAt(names, i)] + PagesFrom(names, i + NamesPerEmbed)
  }

  /** `list_players` after the query: `range(0, len(names), 25)` builds one embed per step. */
  method ListPlayers(playerNames: seq<string>) returns (embeds: seq<Embed>)
    ensures embeds == PagesFrom(playerNames, 0)
  {
    embeds := [];
    var i := 0;
    while i < |playerNames|
      invariant embeds + PagesFrom(playerNames, i) == PagesFrom(playerNames, 0)
      decreases |playerNames| - i
    {
      var last := Min(i + NamesPerEmbed, |playerNames|);
      var embed := Embed(playerNames[i..last], Join(playerNames[i..last], "\n"), Footer(i + 1, last, |playerNames|));
      assert PagesFrom(playerNames, i) == [embed] + PagesFrom(playerNames, i + NamesPerEmbed);
      embeds := embeds + [embed];
      i := i + NamesPerEmbed;
    }
  }

  /** There are ceil(n / 25) pages: the last one starts before the end and holds at most 25 names. */
  lemma {:induction false} PageCount(names: seq<string>, i: nat)
    ensures var p := |PagesFrom(names, i)|;
      && (i >= |names| ==> p == 0)
      && (i < |names| ==> (p - 1) * 25 < |names| - i <= p * 25)
    decreases |names| - i
  {
    if i < |names| {
      PageCount(names, i + NamesPerEmbed);
    }
  }

  /** The names the pages show, one page after the other. */
  function Shown(pages: seq<Embed>): seq<string> {
    if pages == [] then [] else pages[0].shown + Shown(pages[1..])
  }

  /** Read in order, the pages show every name exactly once, in the query's order. */
  lemma {:induction false} PagesShowAllNames(names: seq<string>, i: nat)
    requires i <= |names|
    ensures Shown(PagesFrom(names, i)) == names[i..]
    decreases |names| - i
  {
    if i < |names| {
      var last := Min(i + NamesPerEmbed, |names|);
      var pages := PagesFrom(names, i);
      assert pages[1..] == PagesFrom(names, i + NamesPerEmbed);
      if last < |names| {
        PagesShowAllNames(names, last);
      } else {
        assert PagesFrom(names, i + NamesPerEmbed) == [];
      }
      assert names[i..last] + names[last..] == names[i..];
    }
  }

  /** Page `p` of those starting at `i` begins at `i + 25p` and reports names i + 25p + 1 to min(i + 25p + 25, n) of n. */
  lemma {:induction false} PageFooter(names: seq<string>, i: nat, p: nat, start: nat)
    requires p < |PagesFrom(names, i)| && start == i + p * 25
    ensures start < |names|
    ensures PagesFrom(names, i)[p] == PageAt(names, start)
    ensures PagesFrom(names, i)[p].footer == Footer(start + 1, Min(start + NamesPerEmbed, |names|), |names|)
    decreases p
  {
    var pages := PagesFrom(names, i);
    if p > 0 {
      assert pages[p] == PagesFrom(names, i + NamesPerEmbed)[p - 1];
      PageFooter(names, i + NamesPerEmbed, p - 1, start);
    }
  }

  // -------------------------------------------------------- fetch_h2h_record

  /** A Players row as `fetch_h2h_record` selects it. */
  datatype PlayerRow = PlayerRow(playerId: nat, name: string, profilePicUrl: string)

  /** The dictionary `fetch_h2h_record` returns. */
  datatype H2HView = H2HView(
    playerOneName: string, playerTwoName: string,
    playerOneWins: int, playerTwoWins: int,
    playerOnePic: string, playerTwoPic: string)

  /**
   * What `WHERE name = $1 OR name = $2` can return: rows named after one of
   * the two players, at most one per name since names are unique.
   */
  predicate FetchedFor(rows: seq<PlayerRow>, player1: string, player2: string) {
    && (forall k :: 0 <= k < |rows| ==> rows[k].name == player1 || rows[k].name == player2)
    && (forall a, b :: 0 <= a < b < |rows| ==> rows[a].name != rows[b].name)
  }

  /** `{p['name'].lower(): p for p in players}.get(key)`: the last row whose lowercased name is `key`. */
  function RowFor(rows: seq<PlayerRow>, key: string): (r: Option<PlayerRow>)
    ensures r.Some? <==> exists k :: 0 <= k < |rows| && Lower(rows[k].name) == key
    ensures r.Some? ==> r.value in rows && Lower(r.value.name) == key
  {
    if rows == [] then None
    else if Lower(rows[|rows| - 1].name) == key then Some(rows[|rows| - 1])
    else
      var r := RowFor(rows[..|rows| - 1], key);
      assert forall k :: 0 <= k < |rows| - 1 ==> rows[..|rows| - 1][k] == rows[k];
      r
  }

  /** With two rows fetched, both players' rows are found. */
  lemma BothFound(rows: seq<PlayerRow>, player1: string, player2: string)
    requires FetchedFor(rows, player1, player2) && |rows| >= 2
    ensures RowFor(rows, Lower(player1)).Some? && RowFor(rows, Lower(player2)).Some?
  {
    assert rows[0].name != rows[1].name;
    if rows[0].name == player1 {
      assert Lower(rows[1].name) == Lower(player2);
    } else {
      assert Lower(rows[0].name) == Lower(player2);
      assert Lower(rows[1].name) == Lower(player1);
    }
  }

  /** The H2H_Records row for the pair, if one is stored in either order. */
  function StoredRecord(h2h: map<(nat, nat), Write.H2H>, id1: nat, id2: nat): (r: Option<((nat, nat), Write.H2H)>)
    ensures r.None? <==> (id1, id2) !in h2h && (id2, id1) !in h2h
    ensures r.Some? ==> (r.value.0 == (id1, id2) || r.value.0 == (id2, id1)) && r.value.0 in h2h && h2h[r.value.0] == r.value.1
  {
    if (id1, id2) in h2h then Some(((id1, id2), h2h[(id1, id2)]))
    else if (id2, id1) in h2h then Some(((id2, id1), h2h[(id2, id1)]))
    else None
  }

  /**
   * `fetch_h2h_record` after the two queries: None unless both players were
   * found and a record exists; the wins are copied when player1 is the
   * stored player one and swapped otherwise.
   */
  function FetchH2H(rows: seq<PlayerRow>, player1: string, player2: string, h2h: map<(nat, nat), Write.H2H>): (r: Option<H2HView>)
    requires FetchedFor(rows, player1, player2)
    ensures r.Some? ==> r.value.playerOneName == player1 && r.value.playerTwoName == player2
  {
    if |rows| < 2 then None
    else
      BothFound(rows, player1, player2);
      var one := RowFor(rows, Lower(player1)).value;
      var two := RowFor(rows, Lower(player2)).value;
      match StoredRecord(h2h, one.playerId, two.playerId)
      case None => None
      case Some((key, record)) =>
        var copied := one.playerId == key.0;
        Some(H2HView(player1, player2,
                     if copied then record.oneWins else record.twoWins,
                     if copied then record.twoWins else record.oneWins,
                     one.profilePicUrl, two.profilePicUrl))
  }

  /** The two ways `fetch_h2h_record` returns None: a player is missing, or the pair has no record. */
  lemma FetchNone(rows: seq<PlayerRow>, player1: string, player2: string, h2h: map<(nat, nat), Write.H2H>)
    requires FetchedFor(rows, player1, player2)
    ensures |rows| >= 2 ==> RowFor(rows, Lower(player1)).Some? && RowFor(rows, Lower(player2)).Some?
    ensures FetchH2H(rows, player1, player2, h2h).None? <==>
      |rows| < 2 ||
      (RowFor(rows, Lower(player1)).Some? && RowFor(rows, Lower(player2)).Some? &&
       StoredRecord(h2h, RowFor(rows, Lower(player1)).value.playerId, RowFor(rows, Lower(player2)).value.playerId).None?)
  {
    if |rows| >= 2 {
      BothFound(rows, player1, player2);
    }
  }

  /** With names that differ beyond case, a player's row is the one carrying their exact name. */
  lemma RowOfPlayer(rows: seq<PlayerRow>, player1: string, player2: string, k: nat)
    requires FetchedFor(rows, player1, player2) && Lower(player1) != Lower(player2)
    requires k < |rows| && rows[k].name == player1
    ensures RowFor(rows, Lower(player1)) == Some(rows[k])
  {
    var r := RowFor(rows, Lower(player1)).value;
    var j :| 0 <= j < |rows| && rows[j] == r;
    assert rows[j].name == player1;
    assert j == k;
  }

  /**
   * Orientation: the returned wins are the stored counters when player1 is
   * the stored player one, and the same counters swapped otherwise; each
   * picture comes from that player's own row.
   */
  lemma FetchOriented(rows: seq<PlayerRow>, player1: string, player2: string, h2h: map<(nat, nat), Write.H2H>, k1: nat, k2: nat)
    requires FetchedFor(rows, player1, player2) && Lower(player1) != Lower(player2)
    requires k1 < |rows| && rows[k1].name == player1 && k2 < |rows| && rows[k2].name == player2
    ensures var id1, id2 := rows[k1].playerId, rows[k2].playerId;
      var r := FetchH2H(rows, player1, player2, h2h);
      && (r.Some? <==> (id1, id2) in h2h || (id2, id1) in h2h)
      && ((id1, id2) in h2h ==> r == Some(H2HView(player1, player2, h2h[(id1, id2)].oneWins, h2h[(id1, id2)].twoWins,
                                                  rows[k1].profilePicUrl, rows[k2].profilePicUrl)))
      && ((id1, id2) !in h2h && (id2, id1) in h2h && id1 != id2 ==>
            r == Some(H2HView(player1, player2, h2h[(id2, id1)].twoWins, h2h[(id2, id1)].oneWins,
                              rows[k1].profilePicUrl, rows[k2].profilePicUrl)))
  {
    assert k1 != k2;
    assert |rows| >= 2;
    RowOfPlayer(rows, player1, player2, k1);
    RowOfPlayer(rows, player2, player1, k2);
  }

  /** Asking for (B, A) gives the mirror of (A, B) when the pair is stored in only one order. */
  lemma FetchMirror(rows: seq<PlayerRow>, player1: string, player2: string, h2h: map<(nat, nat), Write.H2H>, k1: nat, k2: nat)
    requires FetchedFor(rows, player1, player2) && Lower(player1) != Lower(player2)
    requires k1 < |rows| && rows[k1].name == player1 && k2 < |rows| && rows[k2].name == player2
    requires rows[k1].playerId != rows[k2].playerId
    requires !((rows[k1].playerId, rows[k2].playerId) in h2h && (rows[k2].playerId, rows[k1].playerId) in h2h)
    ensures FetchedFor(rows, player2, player1)
    ensures var ab, ba := FetchH2H(rows, player1, player2, h2h), FetchH2H(rows, player2, player1, h2h);
      && (ab.Some? <==> ba.Some?)
      && (ab.Some? ==> ba.value == H2HView(player2, player1, ab.value.playerTwoWins, ab.value.playerOneWins,
                                             ab.value.playerTwoPic, ab.value.playerOnePic))
  {
    FetchOriented(rows, player1, player2, h2h, k1, k2);
    FetchOriented(rows, player2, player1, h2h, k2, k1);
  }

  /**
   * The mirror holds for every pair of distinct players of a store the writer
   * produced: it keeps each H2H row with the smaller id first, so no pair is
   * stored in both orders.
   */
  lemma FetchMirrorCanonical(rows: seq<PlayerRow>, player1: string, player2: string, h2h: map<(nat, nat), Write.H2H>,
                             k1: nat, k2: nat)
    requires FetchedFor(rows, player1, player2) && Lower(player1) != Lower(player2)
    requires k1 < |rows| && rows[k1].name == player1 && k2 < |rows| && rows[k2].name == player2
    requires rows[k1].playerId != rows[k2].playerId
    requires Write.CanonicalH2H(h2h)
    ensures FetchedFor(rows, player2, player1)
    ensures var ab, ba := FetchH2H(rows, player1, player2, h2h), FetchH2H(rows, player2, player1, h2h);
      && (ab.Some? <==> ba.Some?)
      && (ab.Some? ==> ba.value == H2HView(player2, player1, ab.value.playerTwoWins, ab.value.playerOneWins,
                                             ab.value.playerTwoPic, ab.value.playerOnePic))
  {
    FetchMirror(rows, player1, player2, h2h, k1, k2);
  }

  // ------------------------------------------------------------ PlayerSelect

  datatype SelectOption = SelectOption(optionLabel: string, description: string)

  /** The options of `PlayerSelect`: every team1 player, then every team2 player. */
  function PlayerOptions(team1: Team, team2: Team): (r: seq<SelectOption>)
    ensures |r| == |team1| + |team2|
  {
    seq(|team1|, k requires 0 <= k < |team1| => SelectOption(team1[k].name, "Team 1"))
      + seq(|team2|, k requires 0 <= k < |team2| => SelectOption(team2[k].name, "Team 2"))
  }

  /** The picker lists team1's names then team2's, one option each, labelled with their team. */
  lemma OptionsInTeamOrder(team1: Team, team2: Team)
    ensures var r := PlayerOptions(team1, team2);
      && seq(|r|, k requires 0 <= k < |r| => r[k].optionLabel) == Names(team1) + Names(team2)
      && (forall k :: 0 <= k < |team1| ==> r[k].description == "Team 1")
      && (forall k :: |team1| <= k < |r| ==> r[k].description == "Team 2")
  {
    var r := PlayerOptions(team1, team2);
    var labels := seq(|r|, k requires 0 <= k < |r| => r[k].optionLabel);
    forall k | 0 <= k < |r| ensures labels[k] == (Names(team1) + Names(team2))[k] {
      if k < |team1| {
        assert r[k] == SelectOption(team1[k].name, "Team 1");
      } else {
        assert r[k] == SelectOption(team2[k - |team1|].name, "Team 2");
      }
    }
  }

  // ---------------------------------------------------- ConfirmationModal

  /** `stat_indices` in `on_submit`. */
  function StatIndex(stat: string): (r: Option<nat>)
    ensures r.Some? ==> r.value < 3
  {
    if stat == "Kills" then Some(0)
    else if stat == "Deaths" then Some(1)
    else if stat == "Assists" then Some(2)
    else None
  }

  /** The labels of `STAT_TYPE_ORDER` name exactly the indices `on_submit` writes. */
  lemma StatOrderAgrees()
    ensures forall k :: 0 <= k < 3 ==> StatIndex(BotUtils.StatTypeOrder[k]) == Some(k)
  {
  }

  /**
   * The effect of one submitted correction on the two teams: the player's
   * team is team1 if team1 holds the name and team2 otherwise; a stat field
   * sets that stat to `int(value)`, which raises before anything changes; the
   * "Name" field renames the player; any other field changes nothing.
   */
  function Corrected(team1: Team, team2: Team, player: string, stat: string, value: string): (r: Result<(Team, Team)>)
    requires UniqueNames(team1) && UniqueNames(team2)
    ensures r.Failure? <==> StatIndex(stat).Some? && ParseInt(value).None?
    ensures r.Success? ==> UniqueNames(r.value.0) && UniqueNames(r.value.1)
    ensures r.Success? && player in Names(team1) ==> r.value.1 == team2
    ensures r.Success? && player !in Names(team1) ==> r.value.0 == team1
    ensures r.Success? && player !in Names(team1) && player !in Names(team2) ==> r.value == (team1, team2)
    ensures r.Success? && StatIndex(stat).Some? ==> Names(r.value.0) == Names(team1) && Names(r.value.1) == Names(team2)
    ensures StatIndex(stat).None? && stat != "Name" ==> r == Success((team1, team2))
  {
    var inTeam1 := player in Names(team1);
    match StatIndex(stat)
    case Some(index) =>
      (match ParseInt(value)
       case None => Failure(ValueError("invalid literal for int()"))
       case Some(v) =>
         if inTeam1 then Success((SetStat(team1, player, index, v).value, team2))
         else Success((team1, SetStat(team2, player, index, v).value)))
    case None =>
      if stat == "Name" then
        if inTeam1 then Success((Rename(team1, player, value), team2))
        else Success((team1, Rename(team2, player, value)))
      else Success((team1, team2))
  }

  /** A stat correction for a player with a full stats list sets exactly that stat. */
  lemma StatCorrectionSetsOneStat(team1: Team, team2: Team, player: string, stat: string, value: string)
    requires UniqueNames(team1) && UniqueNames(team2)
    requires StatIndex(stat).Some? && ParseInt(value).Some?
    requires player in Names(team1) || player in Names(team2)
    ensures var t := if player in Names(team1) then team1 else team2;
      var r := Corrected(team1, team2, player, stat, value).value;
      var now := if player in Names(team1) then r.0 else r.1;
      var was := Get(t, player).value;
      StatIndex(stat).value < |was| ==> Get(now, player) == Some(was[StatIndex(stat).value := ParseInt(value).value])
  {
    var t := if player in Names(team1) then team1 else team2;
    var index, v := StatIndex(stat).value, ParseInt(value).value;
    var was := Get(t, player).value;
    if index < |was| {
      var now := Get(SetStat(t, player, index, v).value, player).value;
      assert now == was[index := v];
    }
  }

  /** A name correction moves the player's stats to the new name on the player's own team. */
  lemma NameCorrectionKeepsStats(team1: Team, team2: Team, player: string, value: string)
    requires UniqueNames(team1) && UniqueNames(team2)
    requires player in Names(team1) || player in Names(team2)
    ensures var t := if player in Names(team1) then team1 else team2;
      var r := Corrected(team1, team2, player, "Name", value).value;
      var now := if player in Names(team1) then r.0 else r.1;
      Get(now, value) == Get(t, player)
  {
  }

  /**
   * `ConfirmationModal.on_submit` up to the point where it reports back: the
   * correction is applied through the manager, so the teams become the ones
   * `Corrected` describes, or stay as they were when `int()` raises.
   */
  method OnSubmit(m: StatsManager, player: string, selectedStat: string, correctedValue: string)
    returns (err: Option<Error>)
    requires m.Valid()
    modifies m
    ensures m.Valid()
    ensures match Corrected(old(m.team1), old(m.team2), player, selectedStat, correctedValue)
      case Success((t1, t2)) => err.None? && m.team1 == t1 && m.team2 == t2
      case Failure(e) => err == Some(e) && m.team1 == old(m.team1) && m.team2 == old(m.team2)
  {
    var team := if player in Names(m.TeamInfo("team1").value) then "team1" else "team2";
    var index := StatIndex(selectedStat);
    if index.Some? {
      var parsed := ParseInt(correctedValue);
      if parsed.None? {
        return Some(ValueError("invalid literal for int()"));
      }
      err := m.UpdateStat(team, player, index.value, parsed.value);
    } else if selectedStat == "Name" {
      err := m.UpdateName(team, correctedValue, player);
    } else {
      err := None;
    }
  }
}
