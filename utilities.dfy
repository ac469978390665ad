/**
 * utilities.py: turning OCR tokens into integer stats, pairing name lines
 * with stat rows, cleaning the names, and reconciling names with the roster
 * of known players (exact match, then a fuzzy score in three bands).
 */
module Utilities {
  import opened Wrappers
  import opened Strings
  import opened Teams

  /** Fuzzy scores at or above this are accepted. */
  const HighConfidence: int := 90
  /** Fuzzy scores from here up to HighConfidence are sent to the user. */
  const LowConfidence: int := 50

  // ------------------------------------------------------------ convert_path

  /** `convert_path`: every backslash becomes a forward slash, nothing else changes. */
  function ConvertPath(path: string): (r: string)
    ensures |r| == |path|
    ensures forall k :: 0 <= k < |path| ==> r[k] == (if path[k] == '\\' then '/' else path[k])
    ensures '\\' !in r
  {
    ReplaceCharAt(path, '\\', '/');
    Replace(path, "\\", "/")
  }

  // --------------------------------------------------- clean_and_convert_stats

  /** `re.sub(r'[^\d-]', '', s)`: keep only digits and '-'. */
  function KeepDigitsAndMinus(s: string): (r: string)
    ensures |r| <= |s|
    ensures forall k :: 0 <= k < |r| ==> IsDigit(r[k]) || r[k] == '-'
  {
    if s == [] then []
    else if IsDigit(s[0]) || s[0] == '-' then [s[0]] + KeepDigitsAndMinus(s[1..])
    else KeepDigitsAndMinus(s[1..])
  }

  /** Cleaning works character by character: it distributes over concatenation. */
  lemma {:induction false} KeepConcat(a: string, b: string)
    ensures KeepDigitsAndMinus(a + b) == KeepDigitsAndMinus(a) + KeepDigitsAndMinus(b)
  {
    if a == [] {
      assert a + b == b;
    } else {
      var ab := a + b;
      assert ab[0] == a[0] && ab[1..] == a[1..] + b;
      KeepConcat(a[1..], b);
      var head := if IsDigit(a[0]) || a[0] == '-' then [a[0]] else [];
      assert KeepDigitsAndMinus(a) == head + KeepDigitsAndMinus(a[1..]);
      assert KeepDigitsAndMinus(ab) == head + (KeepDigitsAndMinus(a[1..]) + KeepDigitsAndMinus(b));
    }
  }

  /** A single character is kept iff it is a digit or '-'. */
  lemma KeepChar(c: char)
    ensures KeepDigitsAndMinus([c]) == (if IsDigit(c) || c == '-' then [c] else [])
  {
    assert [c][1..] == [];
  }

  lemma {:induction false} KeepAll(s: string)
    requires forall k :: 0 <= k < |s| ==> IsDigit(s[k]) || s[k] == '-'
    ensures KeepDigitsAndMinus(s) == s
  {
    if s != [] {
      KeepAll(s[1..]);
      assert [s[0]] + s[1..] == s;
    }
  }

  /** One cleaned stat: the integer the kept characters spell, or 0 when `int()` raises. */
  function StatValue(token: string): int {
    match ParseInt(KeepDigitsAndMinus(token))
    case Some(v) => v
    case None => 0
  }

  /** A token that is the decimal form of an integer, sign included, reads back as that integer. */
  lemma StatValueOfInt(i: int)
    ensures StatValue(IntToString(i)) == i
  {
    var s := IntToString(i);
    if i < 0 {
      assert IntToString(-i) == NatToString(-i);
    }
    assert forall k :: 0 <= k < |s| ==> IsDigit(s[k]) || s[k] == '-';
    KeepAll(s);
    ParseIntOfString(i);
  }

  /** Stats can be negative, but only when the kept characters start with '-'. */
  lemma StatValueNegative(token: string)
    requires StatValue(token) < 0
    ensures KeepDigitsAndMinus(token) != [] && KeepDigitsAndMinus(token)[0] == '-'
  {
    var kept := KeepDigitsAndMinus(token);
    StripUnchanged(kept);
    ParseIntNegative(kept);
  }

  /** Nothing left after cleaning, or a lone '-', falls back to 0. */
  lemma EmptyIsZero(token: string)
    requires KeepDigitsAndMinus(token) == [] || KeepDigitsAndMinus(token) == ['-']
    ensures StatValue(token) == 0
  {
  }

  /** A '-' anywhere but first (as in "3-4" or "--1") makes `int()` raise, so the stat is 0. */
  lemma InnerMinusIsZero(token: string, k: nat)
    requires 0 < k < |KeepDigitsAndMinus(token)| && KeepDigitsAndMinus(token)[k] == '-'
    ensures StatValue(token) == 0
  {
    var kept := KeepDigitsAndMinus(token);
    ParseIntInnerMinus(kept, k);
  }

  /** `clean_and_convert_stats`: one integer per token, position for position. */
  method CleanAndConvertStats(statsText: seq<string>) returns (cleaned: seq<int>)
    ensures |cleaned| == |statsText|
    ensures forall k :: 0 <= k < |statsText| ==> cleaned[k] == StatValue(statsText[k])
  {
    cleaned := [];
    for k := 0 to |statsText|
      invariant |cleaned| == k
      invariant forall j :: 0 <= j < k ==> cleaned[j] == StatValue(statsText[j])
    {
      var v := match ParseInt(KeepDigitsAndMinus(statsText[k]))
        case Some(n) => n
        case None => 0;
      assert v == StatValue(statsText[k]);
      cleaned := cleaned + [v];
    }
  }

  // ------------------------------------------------------------ process_team

  function CleanRow(row: seq<string>): (r: seq<int>)
    ensures |r| == |row| && forall k :: 0 <= k < |row| ==> r[k] == StatValue(row[k])
  {
    seq(|row|, k requires 0 <= k < |row| => StatValue(row[k]))
  }

  /** Line `k` is the last line carrying its name. */
  predicate LastLine(lines: seq<string>, k: nat)
    requires k < |lines|
  {
    forall j :: k < j < |lines| ==> lines[j] != lines[k]
  }

  /**
   * The alignment in `process_team`: name line `k` gets the cleaned stats of
   * row `k`; later lines with the same name overwrite earlier ones; rows past
   * the last line are ignored; more lines than rows raises IndexError.
   */
  method ProcessTeam(lines: seq<string>, rows: seq<seq<string>>, team: Team) returns (r: Result<Team>)
    requires UniqueNames(team)
    ensures |lines| > |rows| <==> r == Failure(IndexError)
    ensures r.Success? ==> UniqueNames(r.value)
    ensures r.Success? ==> forall k :: 0 <= k < |lines| && LastLine(lines, k) ==>
      Get(r.value, lines[k]) == Some(CleanRow(rows[k]))
    ensures r.Success? ==> forall m :: m !in lines ==> Get(r.value, m) == Get(team, m)
  {
    var t := team;
    for index := 0 to |lines|
      invariant UniqueNames(t)
      invariant index <= |rows| || |lines| <= |rows|
      invariant forall k :: 0 <= k < index && LastLine(lines[..index], k) ==>
        Get(t, lines[k]) == Some(CleanRow(rows[k]))
      invariant forall m :: m !in lines[..index] ==> Get(t, m) == Get(team, m)
    {
      if index >= |rows| {
        return Failure(IndexError);
      }
      var statsAsInts := CleanAndConvertStats(rows[index]);
      assert statsAsInts == CleanRow(rows[index]);
      ghost var before := t;
      t := Put(t, lines[index], statsAsInts);
      AlignStep(lines, rows, team, index, before, t);
    }
    assert lines[..|lines|] == lines;
    r := Success(t);
  }

  /** One pass of the `process_team` loop keeps the alignment invariants. */
  lemma AlignStep(lines: seq<string>, rows: seq<seq<string>>, team: Team, index: nat, before: Team, after: Team)
    requires index < |lines| && index < |rows|
    requires forall k :: 0 <= k < index && LastLine(lines[..index], k) ==>
      Get(before, lines[k]) == Some(CleanRow(rows[k]))
    requires forall m :: m !in lines[..index] ==> Get(before, m) == Get(team, m)
    requires after == Put(before, lines[index], CleanRow(rows[index]))
    ensures forall k :: 0 <= k < index + 1 && LastLine(lines[..index + 1], k) ==>
      Get(after, lines[k]) == Some(CleanRow(rows[k]))
    ensures forall m :: m !in lines[..index + 1] ==> Get(after, m) == Get(team, m)
  {
    var done := lines[..index + 1];
    assert done == lines[..index] + [lines[index]];
    forall k | 0 <= k < index + 1 && LastLine(done, k)
      ensures Get(after, lines[k]) == Some(CleanRow(rows[k]))
    {
      if k < index {
        assert done[index] != done[k];
        assert LastLine(lines[..index], k);
      }
    }
    forall m | m !in done
      ensures Get(after, m) == Get(team, m)
    {
      assert m != lines[index] && m !in lines[..index];
    }
  }

  // ------------------------------------------------------------- clean_board

  /** The key `clean_board` stores a name under: newlines removed, then stripped. */
  function CleanName(name: string): (r: string)
    ensures '\n' !in r
    ensures r == [] || (!IsSpace(r[0]) && !IsSpace(r[|r| - 1]))
  {
    ReplaceRemovesChar(name, '\n', "");
    StripKeeps(Replace(name, "\n", ""));
    Strip(Replace(name, "\n", ""))
  }

  /** The cleaned name is the name with its newlines deleted, trimmed of space at both ends only. */
  lemma CleanNameTrims(name: string)
    ensures var w := Without(name, '\n');
      exists i, j ::
        && 0 <= i <= j <= |w| && CleanName(name) == w[i..j]
        && (forall k :: 0 <= k < i ==> IsSpace(w[k]))
        && (forall k :: j <= k < |w| ==> IsSpace(w[k]))
  {
    ReplaceDeletes(name, '\n');
    StripTrims(Without(name, '\n'));
  }

  function CleanNames(t: Team): (r: seq<string>)
    ensures |r| == |t| && forall k :: 0 <= k < |t| ==> r[k] == CleanName(t[k].name)
  {
    seq(|t|, k requires 0 <= k < |t| => CleanName(t[k].name))
  }

  /** What `clean_board` builds from a board: each entry put, in order, under its cleaned name. */
  function CleanedBoard(board: Team): (r: Team)
    ensures UniqueNames(r) && |r| <= |board|
    decreases |board|
  {
    if board == [] then []
    else
      var last := board[|board| - 1];
      var r := Put(CleanedBoard(board[..|board| - 1]), CleanName(last.name), last.stats);
      assert CleanName(last.name) in Names(r);
      r
  }

  /**
   * `clean_board`: the same values under cleaned keys. When two names clean to
   * the same key the later entry wins, so the board never grows.
   */
  method CleanBoard(board: Team) returns (r: Team)
    ensures r == CleanedBoard(board)
    ensures UniqueNames(r) && |r| <= |board|
    ensures forall k :: 0 <= k < |board| ==> CleanName(board[k].name) in Names(r)
    ensures forall c :: c in Names(r) ==> c in CleanNames(board)
    ensures forall k :: 0 <= k < |board| && LastLine(CleanNames(board), k) ==>
      Get(r, CleanName(board[k].name)) == Some(board[k].stats)
  {
    r := [];
    for i := 0 to |board|
      invariant r == CleanedBoard(board[..i])
    {
      var cleanedName := CleanName(board[i].name);
      r := Put(r, cleanedName, board[i].stats);
      assert board[..i + 1][..i] == board[..i];
    }
    assert board[..|board|] == board;
    CleanedBoardKeys(board);
  }

  /** Every cleaned name is a key of the cleaned board, no other key is, and the last entry wins. */
  lemma CleanedBoardKeys(board: Team)
    ensures forall k :: 0 <= k < |board| ==> CleanName(board[k].name) in Names(CleanedBoard(board))
    ensures forall c :: c in Names(CleanedBoard(board)) ==> c in CleanNames(board)
    ensures forall k :: 0 <= k < |board| && LastLine(CleanNames(board), k) ==>
      Get(CleanedBoard(board), CleanName(board[k].name)) == Some(board[k].stats)
  {
    forall k | 0 <= k < |board|
      ensures CleanName(board[k].name) in Names(CleanedBoard(board))
    {
      CleanedBoardHas(board, k);
    }
    forall c | c in Names(CleanedBoard(board))
      ensures c in CleanNames(board)
    {
      CleanedBoardOnly(board, c);
    }
    forall k | 0 <= k < |board| && LastLine(CleanNames(board), k)
      ensures Get(CleanedBoard(board), CleanName(board[k].name)) == Some(board[k].stats)
    {
      CleanedBoardLast(board, k);
    }
  }

  lemma {:induction false} CleanedBoardHas(board: Team, k: nat)
    requires k < |board|
    ensures CleanName(board[k].name) in Names(CleanedBoard(board))
    decreases |board|
  {
    var init := board[..|board| - 1];
    var key := CleanName(board[k].name);
    if k < |board| - 1 {
      assert init[k] == board[k];
      CleanedBoardHas(init, k);
      assert Get(CleanedBoard(init), key).Some?;
    }
    assert Get(CleanedBoard(board), key).Some?;
  }

  lemma {:induction false} CleanedBoardOnly(board: Team, c: string)
    requires c in Names(CleanedBoard(board))
    ensures c in CleanNames(board)
    decreases |board|
  {
    var init := board[..|board| - 1];
    var n := |board| - 1;
    if c == CleanName(board[n].name) {
      assert CleanNames(board)[n] == c;
    } else {
      assert Get(CleanedBoard(board), c).Some?;
      assert Get(CleanedBoard(init), c).Some?;
      CleanedBoardOnly(init, c);
      var j :| 0 <= j < |init| && CleanNames(init)[j] == c;
      assert CleanNames(board)[j] == c;
    }
  }

  lemma {:induction false} CleanedBoardLast(board: Team, k: nat)
    requires k < |board| && LastLine(CleanNames(board), k)
    ensures Get(CleanedBoard(board), CleanName(board[k].name)) == Some(board[k].stats)
    decreases |board|
  {
    var init := board[..|board| - 1];
    var n := |board| - 1;
    if k < n {
      assert CleanNames(board)[n] != CleanNames(board)[k];
      assert init[k] == board[k];
      forall j | k < j < |init|
        ensures CleanNames(init)[j] != CleanNames(init)[k]
      {
        assert init[j] == board[j];
        assert CleanNames(board)[j] != CleanNames(board)[k];
      }
      CleanedBoardLast(init, k);
    }
  }

  // -------------------------------------------------------- name reconciliation

  /**
   * `get_exact_match`: the extracted name itself (not the roster's spelling)
   * when some roster name equals it ignoring case, otherwise None.
   */
  function ExactMatch(name: string, roster: seq<string>): (r: Option<string>)
    ensures r.Some? <==> exists u :: u in roster && Lower(u) == Lower(name)
    ensures r.Some? ==> r.value == name
  {
    if roster == [] then None
    else if Lower(roster[0]) == Lower(name) then Some(name)
    else
      var r := ExactMatch(name, roster[1..]);
      assert forall u :: u in roster ==> u == roster[0] || u in roster[1..];
      r
  }

  datatype FuzzyOutcome = Accept(name: string) | Escalate | NoMatch

  /**
   * `get_fuzzy_match` given the scorer's `(best, score)`: accept at 90 and
   * above, ask the user from 50 to 89, give up below 50.
   */
  function FuzzyMatch(best: string, score: int): (r: FuzzyOutcome)
    ensures r.Accept? <==> score >= HighConfidence
    ensures r.Accept? ==> r.name == best
    ensures r.Escalate? <==> LowConfidence <= score < HighConfidence
    ensures r.NoMatch? <==> score < LowConfidence
  {
    if score >= HighConfidence then Accept(best)
    else if LowConfidence <= score < HighConfidence then Escalate
    else NoMatch
  }

  /** A higher score never lands in a lower band. */
  lemma FuzzyMonotone(best: string, s1: int, s2: int)
    requires s1 <= s2
    ensures FuzzyMatch(best, s1).Accept? ==> FuzzyMatch(best, s2).Accept?
    ensures FuzzyMatch(best, s2).NoMatch? ==> FuzzyMatch(best, s1).NoMatch?
  {
  }

  /**
   * One iteration of `process_names` for `name`. An exact match or a low
   * score leaves the team alone; an accepted match moves the stats to the
   * roster name; the middle band takes the entry out of the name-keyed team
   * (the code re-keys it under an un-awaited coroutine object).
   */
  function ResolveStep(team: Team, escalated: seq<Entry>, name: string,
                       roster: seq<string>, extract: (string, seq<string>) -> (string, int)): (Team, seq<Entry>)
    requires name in Names(team)
  {
    if ExactMatch(name, roster).Some? then (team, escalated)
    else
      var (best, score) := extract(name, roster);
      var stats := Get(team, name).value;
      match FuzzyMatch(best, score)
      case Accept(b) => (Put(Pop(team, name), b, stats), escalated)
      case Escalate => (Pop(team, name), escalated + [Entry(name, stats)])
      case NoMatch => (team, escalated)
  }

  /**
   * A step that accepts a roster name different from the extracted one moves
   * the stats list, unchanged, to the roster name; the extracted name is gone
   * and every other name keeps its stats.
   */
  lemma ResolveStepRekeys(team: Team, escalated: seq<Entry>, name: string,
                          roster: seq<string>, extract: (string, seq<string>) -> (string, int))
    requires UniqueNames(team) && name in Names(team)
    requires ExactMatch(name, roster).None?
    requires FuzzyMatch(extract(name, roster).0, extract(name, roster).1).Accept?
    requires extract(name, roster).0 != name
    ensures var (t, e) := ResolveStep(team, escalated, name, roster, extract);
      && e == escalated
      && Get(t, extract(name, roster).0) == Get(team, name)
      && Get(t, name) == None
      && (forall m :: m != name && m != extract(name, roster).0 ==> Get(t, m) == Get(team, m))
      && UniqueNames(t)
  {
  }

  /** Every step keeps names distinct and leaves the names still to visit in place. */
  lemma ResolveStepKeeps(team: Team, escalated: seq<Entry>, name: string, rest: seq<string>,
                         roster: seq<string>, extract: (string, seq<string>) -> (string, int))
    requires UniqueNames(team) && name in Names(team) && name !in rest
    requires forall m :: m in rest ==> m in Names(team)
    ensures var (t, e) := ResolveStep(team, escalated, name, roster, extract);
      UniqueNames(t) && forall m :: m in rest ==> m in Names(t)
  {
    var (t, e) := ResolveStep(team, escalated, name, roster, extract);
    forall m | m in rest ensures m in Names(t) {
      assert Get(team, m).Some?;
    }
  }

  /** `process_names` over the snapshot `names`, first name first. */
  function ResolveAll(team: Team, escalated: seq<Entry>, names: seq<string>,
                      roster: seq<string>, extract: (string, seq<string>) -> (string, int)): (Team, seq<Entry>)
    requires UniqueNames(team)
    requires forall i, j :: 0 <= i < j < |names| ==> names[i] != names[j]
    requires forall m :: m in names ==> m in Names(team)
    decreases |names|
  {
    if names == [] then (team, escalated)
    else
      ResolveStepKeeps(team, escalated, names[0], names[1..], roster, extract);
      var (t, e) := ResolveStep(team, escalated, names[0], roster, extract);
      ResolveAll(t, e, names[1..], roster, extract)
  }

  /** `ResolveAll` over `names[i..]` is one step on `names[i]`, then the rest. */
  lemma ResolveAllUnroll(team: Team, escalated: seq<Entry>, names: seq<string>, i: nat,
                         roster: seq<string>, extract: (string, seq<string>) -> (string, int))
    requires UniqueNames(team) && i < |names|
    requires forall a, b :: 0 <= a < b < |names| ==> names[a] != names[b]
    requires forall m :: m in names[i..] ==> m in Names(team)
    ensures var (t, e) := ResolveStep(team, escalated, names[i], roster, extract);
      && UniqueNames(t)
      && (forall m :: m in names[i + 1..] ==> m in Names(t))
      && ResolveAll(team, escalated, names[i..], roster, extract) == ResolveAll(t, e, names[i + 1..], roster, extract)
  {
    var rest := names[i..];
    assert rest[0] == names[i] && rest[1..] == names[i + 1..];
    assert names[i] !in names[i + 1..];
    ResolveStepKeeps(team, escalated, names[i], names[i + 1..], roster, extract);
  }

  /**
   * `process_names` over a snapshot of the team's names: nothing happens with
   * an empty roster; otherwise each name is resolved in turn. The names not
   * yet visited are always still keys, so the `pop` never raises.
   */
  method ProcessNames(roster: seq<string>, extract: (string, seq<string>) -> (string, int), team: Team)
    returns (resolved: Team, escalated: seq<Entry>)
    requires UniqueNames(team)
    ensures roster == [] ==> resolved == team && escalated == []
    ensures roster != [] ==> (resolved, escalated) == ResolveAll(team, [], Names(team), roster, extract)
    ensures UniqueNames(resolved)
  {
    resolved, escalated := team, [];
    if roster == [] {
      return;
    }
    var names := Names(team);
    assert forall i, j :: 0 <= i < j < |names| ==> names[i] != names[j];
    for i := 0 to |names|
      invariant UniqueNames(resolved)
      invariant forall m :: m in names[i..] ==> m in Names(resolved)
      invariant ResolveAll(resolved, escalated, names[i..], roster, extract)
             == ResolveAll(team, [], names, roster, extract)
    {
      var name := names[i];
      ResolveAllUnroll(resolved, escalated, names, i, roster, extract);
      ghost var step := ResolveStep(resolved, escalated, name, roster, extract);
      var exact := ExactMatch(name, roster);
      if exact.None? {
        var (best, score) := extract(name, roster);
        var stats := Get(resolved, name).value;
        match FuzzyMatch(best, score)
        case Accept(b) =>
          resolved := Put(Pop(resolved, name), b, stats);
        case Escalate =>
          resolved := Pop(resolved, name);
          escalated := escalated + [Entry(name, stats)];
        case NoMatch =>
      }
      assert (resolved, escalated) == step;
    }
    assert names[|names|..] == [];
  }
}
