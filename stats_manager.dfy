/**
 * stats_manager.py: the in-memory correction store. Two teams, each a dict
 * from player name to `[kills, deaths, assists]`, that the confirmation UI
 * renames and patches in place before the match is committed.
 */
module Manager {
  import opened Wrappers
  import opened Teams

  /**
   * `update_name` on one team: pop `oldName` and store its stats under
   * `newName`. A `newName` already present is overwritten where it stands;
   * otherwise (including `newName == oldName`) the entry moves to the end.
   */
  function Rename(t: Team, oldName: string, newName: string): (r: Team)
    requires UniqueNames(t)
    ensures UniqueNames(r) && |r| <= |t|
    ensures oldName !in Names(t) ==> r == t
    ensures oldName in Names(t) ==> Get(r, newName) == Get(t, oldName)
    ensures oldName in Names(t) && oldName != newName ==> Get(r, oldName) == None
    ensures forall m :: m != oldName && m != newName ==> Get(r, m) == Get(t, m)
  {
    if oldName in Names(t) then
      var stats := Get(t, oldName).value;
      var popped := Pop(t, oldName);
      var r := Put(popped, newName, stats);
      assert |r| <= |popped| + 1;
      r
    else t
  }

  /**
   * `team_info[player][index] = value` behind the guard `index < len(stats)`:
   * a missing player or an index at or past the end changes nothing; a
   * negative index counts from the end, as Python lists do, and one below
   * `-len(stats)` raises IndexError.
   */
  function SetStat(t: Team, player: string, index: int, value: int): (r: Result<Team>)
    requires UniqueNames(t)
    ensures r.Failure? <==> player in Names(t) && index < -|Get(t, player).value|
    ensures r.Failure? ==> r.error == IndexError
    ensures r.Success? ==> UniqueNames(r.value) && Names(r.value) == Names(t)
    ensures r.Success? ==> forall m :: m != player ==> Get(r.value, m) == Get(t, m)
    ensures r.Success? && (player !in Names(t) || index >= |Get(t, player).value|) ==> r.value == t
    ensures r.Success? && player in Names(t) ==>
      var was := Get(t, player).value;
      var now := Get(r.value, player).value;
      && |now| == |was|
      && forall k :: 0 <= k < |was| ==>
           now[k] == (if k == index || k == |was| + index then value else was[k])
  {
    if player !in Names(t) then Success(t)
    else
      var stats := Get(t, player).value;
      if index >= |stats| then Success(t)
      else if index < -|stats| then Failure(IndexError)
      else
        var pos := if index >= 0 then index else |stats| + index;
        Success(Put(t, player, stats[pos := value]))
  }

  /** A correction never changes how many players a team has. */
  lemma SetStatKeepsSize(t: Team, player: string, index: int, value: int)
    requires UniqueNames(t) && SetStat(t, player, index, value).Success?
    ensures |SetStat(t, player, index, value).value| == |t|
  {
    assert |Names(SetStat(t, player, index, value).value)| == |Names(t)|;
  }

  /** Renaming onto a name the team already holds loses one player. */
  lemma RenameOntoExisting(t: Team, oldName: string, newName: string)
    requires UniqueNames(t) && oldName in Names(t) && newName in Names(t) && oldName != newName
    ensures |Rename(t, oldName, newName)| == |t| - 1
    ensures Get(Rename(t, oldName, newName), newName) == Get(t, oldName)
  {
    var popped := Pop(t, oldName);
    assert Get(popped, newName) == Get(t, newName);
    assert newName in Names(popped);
  }

  /** Renaming onto a fresh name keeps the team's size and puts the player last. */
  lemma RenameToFresh(t: Team, oldName: string, newName: string)
    requires UniqueNames(t) && oldName in Names(t) && newName !in Names(t)
    ensures |Rename(t, oldName, newName)| == |t|
    ensures var r := Rename(t, oldName, newName);
      r[|r| - 1] == Entry(newName, Get(t, oldName).value)
  {
    var popped := Pop(t, oldName);
    assert Get(popped, newName) == None;
  }

  class StatsManager {
    var team1: Team
    var team2: Team

    ghost predicate Valid()
      reads this
    {
      UniqueNames(team1) && UniqueNames(team2)
    }

    constructor ()
      ensures Valid() && team1 == [] && team2 == []
    {
      team1 := [];
      team2 := [];
    }

    /** `get_team_info`: 'team1' and 'team2' name the two teams; any other label gives None. */
    function TeamInfo(which: string): (r: Option<Team>)
      reads this
      ensures r.Some? <==> which == "team1" || which == "team2"
      ensures r.Some? ==> r.value == (if which == "team1" then team1 else team2)
    {
      if which == "team1" then Some(team1)
      else if which == "team2" then Some(team2)
      else None
    }

    /** `set_teams`: both teams are replaced. */
    method SetTeams(t1: Team, t2: Team)
      requires UniqueNames(t1) && UniqueNames(t2)
      modifies this
      ensures Valid() && team1 == t1 && team2 == t2
    {
      team1 := t1;
      team2 := t2;
    }

    /** `update_team_info`: `team[player] = stats` on the labelled team; an unknown label does nothing. */
    method UpdateTeamInfo(which: string, player: string, stats: seq<int>)
      requires Valid()
      modifies this
      ensures Valid()
      ensures which == "team1" ==> team1 == Put(old(team1), player, stats) && team2 == old(team2)
      ensures which == "team2" ==> team2 == Put(old(team2), player, stats) && team1 == old(team1)
      ensures which != "team1" && which != "team2" ==> team1 == old(team1) && team2 == old(team2)
    {
      if which == "team1" {
        team1 := Put(team1, player, stats);
      } else if which == "team2" {
        team2 := Put(team2, player, stats);
      }
    }

    /**
     * `update_name`: renames `oldName` to `newName` on the labelled team. The
     * membership test on the None an unknown label yields raises TypeError.
     */
    method UpdateName(which: string, newName: string, oldName: string) returns (err: Option<Error>)
      requires Valid()
      modifies this
      ensures Valid()
      ensures err.Some? <==> which != "team1" && which != "team2"
      ensures err.Some? ==> err.value == TypeError
      ensures which == "team1" ==> team1 == Rename(old(team1), oldName, newName) && team2 == old(team2)
      ensures which == "team2" ==> team2 == Rename(old(team2), oldName, newName) && team1 == old(team1)
      ensures err.Some? ==> team1 == old(team1) && team2 == old(team2)
    {
      if which == "team1" {
        team1 := Rename(team1, oldName, newName);
        err := None;
      } else if which == "team2" {
        team2 := Rename(team2, oldName, newName);
        err := None;
      } else {
        err := Some(TypeError);
      }
    }

    /**
     * `update_stat`: sets one stat of one player on the labelled team. An
     * unknown label raises TypeError; an index below `-len` raises IndexError;
     * either way nothing changes.
     */
    method UpdateStat(which: string, player: string, index: int, value: int) returns (err: Option<Error>)
      requires Valid()
      modifies this
      ensures Valid()
      ensures which != "team1" && which != "team2" ==> err == Some(TypeError)
      ensures which == "team1" ==> match SetStat(old(team1), player, index, value)
        case Success(t) => err.None? && team1 == t && team2 == old(team2)
        case Failure(e) => err == Some(e) && team1 == old(team1) && team2 == old(team2)
      ensures which == "team2" ==> match SetStat(old(team2), player, index, value)
        case Success(t) => err.None? && team2 == t && team1 == old(team1)
        case Failure(e) => err == Some(e) && team1 == old(team1) && team2 == old(team2)
      ensures err.Some? ==> team1 == old(team1) && team2 == old(team2)
    {
      var info := TeamInfo(which);
      if info.None? {
        return Some(TypeError);
      }
      match SetStat(info.value, player, index, value)
      case Success(t) =>
        if which == "team1" { team1 := t; } else { team2 := t; }
        err := None;
      case Failure(e) =>
        err := Some(e);
    }
  }
}
