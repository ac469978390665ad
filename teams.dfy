/**
 * A team as the pipeline holds it: a Python dict from a player's display name
 * to their stats list `[kills, deaths, assists]`. Python dicts remember
 * insertion order, and the order is visible (formatted messages, the player
 * picker, the order rows are written), so a team is a sequence of entries with
 * distinct names: assigning an existing key keeps its position, a new key is
 * appended, `pop` removes the entry.
 */
module Teams {
  import opened Wrappers

  datatype Entry = Entry(name: string, stats: seq<int>)

  type Team = seq<Entry>

  function Names(t: Team): (r: seq<string>)
    ensures |r| == |t|
    ensures forall k :: 0 <= k < |t| ==> r[k] == t[k].name
  {
    seq(|t|, k requires 0 <= k < |t| => t[k].name)
  }

  /** Dict keys are distinct. */
  predicate UniqueNames(t: Team) {
    forall i, j :: 0 <= i < j < |t| ==> t[i].name != t[j].name
  }

  /** The first position holding name `n`. */
  function Find(names: seq<string>, n: string): (i: nat)
    requires n in names
    ensures i < |names| && names[i] == n
    ensures forall j :: 0 <= j < i ==> names[j] != n
  {
    if names[0] == n then 0 else 1 + Find(names[1..], n)
  }

  /** Any first position of `n` is the one `Find` gives. */
  lemma FindIs(names: seq<string>, n: string, i: nat)
    requires i < |names| && names[i] == n
    requires forall j :: 0 <= j < i ==> names[j] != n
    ensures Find(names, n) == i
  {
  }

  /** `team.get(n)`. */
  function Get(t: Team, n: string): (r: Option<seq<int>>)
    ensures r.Some? <==> n in Names(t)
  {
    if n in Names(t) then Some(t[Find(Names(t), n)].stats) else None
  }

  /** In a dict, the value found under an entry's own name is that entry's value. */
  lemma GetAt(t: Team, k: nat)
    requires UniqueNames(t) && k < |t|
    ensures Get(t, t[k].name) == Some(t[k].stats)
  {
    FindIs(Names(t), t[k].name, k);
  }

  /** `team[n] = v`: an existing key keeps its place, a new one goes last. */
  function Put(t: Team, n: string, v: seq<int>): (r: Team)
    ensures Get(r, n) == Some(v)
    ensures forall m :: m != n ==> Get(r, m) == Get(t, m)
    ensures n in Names(t) ==> Names(r) == Names(t)
    ensures n !in Names(t) ==> r == t + [Entry(n, v)]
    ensures UniqueNames(t) ==> UniqueNames(r)
  {
    if n in Names(t) then
      var i := Find(Names(t), n);
      var r := t[i := Entry(n, v)];
      assert Names(r) == Names(t);
      r
    else
      var r := t + [Entry(n, v)];
      assert Names(r) == Names(t) + [n];
      PutNewOthers(t, n, v);
      FindIs(Names(r), n, |t|);
      r
  }

  lemma PutNewOthers(t: Team, n: string, v: seq<int>)
    requires n !in Names(t)
    ensures forall m :: m != n ==> Get(t + [Entry(n, v)], m) == Get(t, m)
  {
    var r := t + [Entry(n, v)];
    assert Names(r) == Names(t) + [n];
    forall m | m != n
      ensures Get(r, m) == Get(t, m)
    {
      if m in Names(t) {
        FindIs(Names(r), m, Find(Names(t), m));
      }
    }
  }

  /** `team.pop(n)` without the value, for a name the dict holds (absent names leave it as it is). */
  function Pop(t: Team, n: string): (r: Team)
    ensures forall m :: m != n ==> Get(r, m) == Get(t, m)
    ensures UniqueNames(t) ==> UniqueNames(r) && Get(r, n) == None
    ensures n in Names(t) ==> |r| == |t| - 1
    ensures n !in Names(t) ==> r == t
    ensures forall c :: c in Names(r) ==> c in Names(t)
  {
    if n in Names(t) then
      var i := Find(Names(t), n);
      var r := t[..i] + t[i + 1..];
      PopOthers(t, n, i);
      r
    else t
  }

  lemma PopOthers(t: Team, n: string, i: nat)
    requires n in Names(t) && i == Find(Names(t), n)
    ensures forall m :: m != n ==> Get(t[..i] + t[i + 1..], m) == Get(t, m)
    ensures UniqueNames(t) ==> UniqueNames(t[..i] + t[i + 1..]) && n !in Names(t[..i] + t[i + 1..])
    ensures forall c :: c in Names(t[..i] + t[i + 1..]) ==> c in Names(t)
  {
    RemovedAt(t, i);
    forall m | m != n
      ensures Get(t[..i] + t[i + 1..], m) == Get(t, m)
    {
      PopOther(t, n, i, m);
    }
    if UniqueNames(t) {
      PopUnique(t, n, i);
    }
  }

  lemma PopUnique(t: Team, n: string, i: nat)
    requires UniqueNames(t) && i < |t| && t[i].name == n
    ensures UniqueNames(t[..i] + t[i + 1..]) && n !in Names(t[..i] + t[i + 1..])
  {
    var r := t[..i] + t[i + 1..];
    RemovedAt(t, i);
    forall a, b | 0 <= a < b < |r| ensures r[a].name != r[b].name {
      assert r[a] == t[if a < i then a else a + 1];
      assert r[b] == t[if b < i then b else b + 1];
    }
    forall k | 0 <= k < |r| ensures r[k].name != n {
      assert r[k] == t[if k < i then k else k + 1];
    }
  }

  lemma RemovedAt(t: Team, i: nat)
    requires i < |t|
    ensures |t[..i] + t[i + 1..]| == |t| - 1
    ensures forall k :: 0 <= k < |t| - 1 ==> (t[..i] + t[i + 1..])[k] == (if k < i then t[k] else t[k + 1])
    ensures forall c :: c in Names(t[..i] + t[i + 1..]) ==> c in Names(t)
  {
    var r := t[..i] + t[i + 1..];
    forall c | c in Names(r) ensures c in Names(t) {
      var k :| 0 <= k < |r| && Names(r)[k] == c;
      assert Names(t)[if k < i then k else k + 1] == c;
    }
  }

  lemma PopOther(t: Team, n: string, i: nat, m: string)
    requires n in Names(t) && i == Find(Names(t), n) && m != n
    ensures Get(t[..i] + t[i + 1..], m) == Get(t, m)
  {
    var r := t[..i] + t[i + 1..];
    RemovedAt(t, i);
    if m in Names(t) {
      var j := Find(Names(t), m);
      assert j != i;
      var j' := if j < i then j else j - 1;
      assert Names(r)[j'] == m;
      FindIs(Names(r), m, j');
    } else {
      assert m !in Names(r);
    }
  }
}
