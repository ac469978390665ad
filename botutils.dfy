/**
 * botutils.py: the text block the bot shows for a team, one line per player
 * in the team's order, e.g. "Ana: Kills - 12, Deaths - 3, Assists - 7\n".
 */
module BotUtils {
  import opened Wrappers
  import opened Strings
  import opened Teams

  /** The stat labels, in the order of the stat indices 0, 1 and 2. */
  const StatTypeOrder: seq<string> := ["Kills", "Deaths", "Assists"]

  /** One player's line; `str()` of each of the first three stats. */
  function Line(e: Entry): (r: string)
    requires |e.stats| >= 3
    ensures |r| > |e.name| && r[..|e.name|] == e.name && r[|r| - 1] == '\n'
  {
    e.name + ": " + StatTypeOrder[0] + " - " + IntToString(e.stats[0])
      + ", " + StatTypeOrder[1] + " - " + IntToString(e.stats[1])
      + ", " + StatTypeOrder[2] + " - " + IntToString(e.stats[2]) + "\n"
  }

  /** Every entry carries at least the three stats a line reads. */
  predicate Printable(t: Team) {
    forall k :: 0 <= k < |t| ==> |t[k].stats| >= 3
  }

  /** The lines of a printable team, concatenated in order. */
  function Lines(t: Team): string
    requires Printable(t)
  {
    if t == [] then "" else Lines(t[..|t| - 1]) + Line(t[|t| - 1])
  }

  /**
   * `format_player_stats`: the lines of every player in order; `stats[k]` on a
   * list shorter than three raises IndexError part-way, discarding the text.
   */
  method FormatPlayerStats(team: Team) returns (r: Result<string>)
    ensures r.Failure? <==> !Printable(team)
    ensures r.Failure? ==> r.error == IndexError
    ensures r.Success? ==> r.value == Lines(team)
  {
    var formattedMessage := "";
    for i := 0 to |team|
      invariant forall k :: 0 <= k < i ==> |team[k].stats| >= 3
      invariant formattedMessage == Lines(team[..i])
    {
      var stats := team[i].stats;
      if |stats| < 3 {
        return Failure(IndexError);
      }
      assert team[..i + 1][..i] == team[..i];
      formattedMessage := formattedMessage + Line(team[i]);
    }
    assert team[..|team|] == team;
    r := Success(formattedMessage);
  }

  /** An empty team formats to the empty string. */
  lemma EmptyTeamIsEmpty()
    ensures Lines([]) == ""
  {
  }

  /** Formatting two parts of a team one after the other gives the lines of the whole, in order. */
  lemma {:induction false} LinesAppend(a: Team, b: Team)
    requires Printable(a) && Printable(b)
    ensures Printable(a + b)
    ensures Lines(a + b) == Lines(a) + Lines(b)
    decreases |b|
  {
    if b != [] {
      var b' := b[..|b| - 1];
      assert (a + b)[..|a + b| - 1] == a + b';
      LinesAppend(a, b');
    } else {
      assert a + b == a;
    }
  }

  /** The number of occurrences of `c` in `s`. */
  function Count(s: string, c: char): nat {
    if s == [] then 0 else Count(s[..|s| - 1], c) + (if s[|s| - 1] == c then 1 else 0)
  }

  lemma {:induction false} CountAppend(a: string, b: string, c: char)
    ensures Count(a + b, c) == Count(a, c) + Count(b, c)
    decreases |b|
  {
    if b == [] {
      assert a + b == a;
    } else {
      assert (a + b)[..|a + b| - 1] == a + b[..|b| - 1];
      CountAppend(a, b[..|b| - 1], c);
    }
  }

  lemma {:induction false} CountAbsent(s: string, c: char)
    requires c !in s
    ensures Count(s, c) == 0
    decreases |s|
  {
    if s != [] {
      CountAbsent(s[..|s| - 1], c);
    }
  }

  lemma NoNewlineInNumber(i: int)
    ensures '\n' !in IntToString(i)
  {
    var digits := NatToString(if i < 0 then -i else i);
    assert '\n' !in digits by {
      forall k | 0 <= k < |digits| ensures digits[k] != '\n' {
        assert IsDigit(digits[k]);
      }
    }
  }

  /** A line holds exactly one newline, at its end, when the name holds none. */
  lemma LineHasOneNewline(e: Entry)
    requires |e.stats| >= 3 && '\n' !in e.name
    ensures Count(Line(e), '\n') == 1
  {
    NoNewlineInNumber(e.stats[0]);
    NoNewlineInNumber(e.stats[1]);
    NoNewlineInNumber(e.stats[2]);
    var body := e.name + ": " + StatTypeOrder[0] + " - " + IntToString(e.stats[0])
      + ", " + StatTypeOrder[1] + " - " + IntToString(e.stats[1])
      + ", " + StatTypeOrder[2] + " - " + IntToString(e.stats[2]);
    assert Line(e) == body + "\n";
    assert '\n' !in body;
    CountAbsent(body, '\n');
    CountAppend(body, "\n", '\n');
    assert Count("\n", '\n') == 1 by {
      assert "\n"[..0] == "";
    }
  }

  /** One output line per player: the text has as many newlines as the team has players. */
  lemma {:induction false} OneLinePerPlayer(t: Team)
    requires Printable(t)
    requires forall k :: 0 <= k < |t| ==> '\n' !in t[k].name
    ensures Count(Lines(t), '\n') == |t|
    decreases |t|
  {
    if t != [] {
      var init := t[..|t| - 1];
      assert forall k :: 0 <= k < |init| ==> init[k] == t[k];
      OneLinePerPlayer(init);
      CountAppend(Lines(init), Line(t[|t| - 1]), '\n');
      LineHasOneNewline(t[|t| - 1]);
    }
  }
}
