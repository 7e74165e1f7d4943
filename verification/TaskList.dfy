/** Lists of command-line tasks: which entry of a name a dictionary finds, and what moving it to the front does. */
module TaskList {
  import opened Modular

  type Name = string

  /** One entry of the task list; the id tells entries of the same name apart. */
  datatype Task = Task(name: Name, id: nat)

  function Names(s: seq<Task>): (n: set<Name>) {
    set t | t in s :: t.name
  }

  /** The names of a list, in order. */
  function NamesOf(s: seq<Task>): (r: seq<Name>)
    ensures |r| == |s| && forall i :: 0 <= i < |s| ==> r[i] == s[i].name
  {
    seq(|s|, i requires 0 <= i < |s| => s[i].name)
  }

  lemma NamesOfAppend(a: seq<Task>, b: seq<Task>)
    ensures NamesOf(a + b) == NamesOf(a) + NamesOf(b)
  {
  }

  lemma NamesOfIn(s: seq<Task>)
    ensures forall x :: x in NamesOf(s) <==> x in Names(s)
  {
    forall x | x in Names(s)
      ensures x in NamesOf(s)
    {
      var i :| 0 <= i < |s| && s[i].name == x;
      assert NamesOf(s)[i] == x;
    }
  }

  /** The entry a dictionary built from the list keeps for a name: the last one. */
  function LastNamed(s: seq<Task>, n: Name): (t: Task)
    requires n in Names(s)
    ensures t in s && t.name == n
  {
    var t := s[|s| - 1];
    if t.name == n then t else LastNamed(s[..|s| - 1], n)
  }

  function IndexOf(s: seq<Task>, t: Task): (i: nat)
    requires t in s
    ensures i < |s| && s[i] == t
  {
    if s[0] == t then 0 else 1 + IndexOf(s[1..], t)
  }

  /** Pop an entry and insert it at the front. */
  function ToFront(s: seq<Task>, t: Task): (r: seq<Task>)
    requires t in s
    ensures |r| == |s| && r[0] == t && (forall x :: x in r <==> x in s) && Names(r) == Names(s)
  {
    var i := IndexOf(s, t);
    var r := [s[i]] + s[..i] + s[i + 1..];
    assert s == s[..i] + [s[i]] + s[i + 1..];
    r
  }

  /** The entries of one name, in list order. */
  ghost function Occurrences(s: seq<Task>, n: Name): (r: seq<Task>) {
    if s == [] then [] else (if s[0].name == n then [s[0]] else []) + Occurrences(s[1..], n)
  }

  /** The names that stand before the first entry of a name. */
  ghost function Ahead(s: seq<Task>, n: Name): (r: set<Name>) {
    if s == [] || s[0].name == n then {} else {s[0].name} + Ahead(s[1..], n)
  }

  lemma {:induction false} OccurrencesAppend(a: seq<Task>, b: seq<Task>, n: Name)
    ensures Occurrences(a + b, n) == Occurrences(a, n) + Occurrences(b, n)
    decreases |a|
  {
    if a == [] {
      assert [] + b == b;
    } else {
      OccurrencesAppend(a[1..], b, n);
      assert (a + b)[1..] == a[1..] + b;
      var first := if a[0].name == n then [a[0]] else [];
      assert Occurrences(a, n) == first + Occurrences(a[1..], n);
      assert Occurrences(a + b, n) == first + Occurrences(a[1..] + b, n);
      hide Occurrences;
    }
  }

  lemma {:induction false} OccurrencesAre(s: seq<Task>, n: Name)
    ensures Occurrences(s, n) != [] <==> n in Names(s)
    ensures forall t :: t in Occurrences(s, n) <==> t in s && t.name == n
  {
    if s != [] {
      OccurrencesAre(s[1..], n);
      assert s == [s[0]] + s[1..];
      assert Names(s) == {s[0].name} + Names(s[1..]);
    }
  }

  lemma {:induction false} LastNamedIsLast(s: seq<Task>, n: Name)
    requires n in Names(s)
    ensures var o := Occurrences(s, n); o != [] && o[|o| - 1] == LastNamed(s, n)
    decreases |s|
  {
    var k := |s| - 1;
    assert s == s[..k] + [s[k]];
    OccurrencesAppend(s[..k], [s[k]], n);
    assert Names(s) == Names(s[..k]) + {s[k].name};
    if s[k].name != n {
      LastNamedIsLast(s[..k], n);
    }
  }

  /** How a list divides around the entry that is moved. */
  lemma ToFrontParts(s: seq<Task>, t: Task) returns (a: seq<Task>, b: seq<Task>)
    requires t in s
    ensures s == a + ([t] + b) && ToFront(s, t) == [t] + (a + b)
  {
    var i := IndexOf(s, t);
    a, b := s[..i], s[i + 1..];
    assert ToFront(s, t) == [s[i]] + s[..i] + s[i + 1..];
    hide *;
    Regroup(s, i);
  }

  lemma Regroup(s: seq<Task>, i: nat)
    requires i < |s|
    ensures s == s[..i] + ([s[i]] + s[i + 1..])
    ensures [s[i]] + s[..i] + s[i + 1..] == [s[i]] + (s[..i] + s[i + 1..])
  {
  }

  lemma InFront(t: Task, s: seq<Task>, n: Name)
    ensures Occurrences([t] + s, n) == (if t.name == n then [t] else []) + Occurrences(s, n)
    ensures Ahead([t] + s, n) == if t.name == n then {} else {t.name} + Ahead(s, n)
  {
    assert ([t] + s)[1..] == s;
  }

  /** Moving an entry of another name to the front leaves the entries of n as they are. */
  lemma OtherMoved(s: seq<Task>, t: Task, n: Name)
    requires t in s && t.name != n
    ensures Occurrences(ToFront(s, t), n) == Occurrences(s, n)
  {
    hide Occurrences, ToFront, Ahead;
    var a, b := ToFrontParts(s, t);
    OccurrencesAppend(a, b, n);
    OccurrencesAppend(a, [t] + b, n);
    InFront(t, a + b, n);
    InFront(t, b, n);
    assert [] + Occurrences(b, n) == Occurrences(b, n) && [] + Occurrences(a + b, n) == Occurrences(a + b, n);
  }

  /** Moving the last entry of n to the front turns its entries, moving the first one leaves them alone. */
  lemma OwnMoved(s: seq<Task>, t: Task, n: Name)
    requires t in s && t.name == n && Distinct(Occurrences(s, n)) && Occurrences(s, n) != []
    requires var o := Occurrences(s, n); t == o[|o| - 1] || t == o[0]
    ensures var o := Occurrences(s, n); Occurrences(ToFront(s, t), n) == if t == o[0] then o else Turn(o)
  {
    hide Occurrences, ToFront, Distinct, Turn, Ahead;
    var a, b := ToFrontParts(s, t);
    OccurrencesAppend(a, b, n);
    OccurrencesAppend(a, [t] + b, n);
    InFront(t, a + b, n);
    InFront(t, b, n);
    var oa, ob := Occurrences(a, n), Occurrences(b, n);
    assert Occurrences(s, n) == oa + [t] + ob;
    FirstOrLast(oa, t, ob);
  }

  lemma FirstOrLast(a: seq<Task>, t: Task, b: seq<Task>)
    requires var o := a + [t] + b; Distinct(o) && (t == o[|o| - 1] || t == o[0])
    ensures var o := a + [t] + b; [t] + (a + b) == if t == o[0] then o else Turn(o)
  {
    var o := a + [t] + b;
    assert o[|a|] == t;
    if t == o[0] {
      assert a == [];
    } else {
      assert |a| == |o| - 1;
    }
  }

  /** The last one comes to the front. */
  ghost function Turn(s: seq<Task>): (r: seq<Task>)
    ensures |r| == |s|
  {
    if s == [] then [] else [s[|s| - 1]] + s[..|s| - 1]
  }

  ghost function Turns(s: seq<Task>, p: nat): (r: seq<Task>)
    ensures |r| == |s|
  {
    if p == 0 then s else Turn(Turns(s, p - 1))
  }

  ghost predicate Distinct(s: seq<Task>) {
    forall i, j :: 0 <= i < j < |s| ==> s[i] != s[j]
  }

  lemma TurnDistinct(s: seq<Task>)
    requires Distinct(s)
    ensures Distinct(Turn(s))
  {
  }

  lemma {:induction false} TurnsDistinct(s: seq<Task>, p: nat)
    requires Distinct(s)
    ensures Distinct(Turns(s, p))
  {
    if p > 0 {
      TurnsDistinct(s, p - 1);
      TurnDistinct(Turns(s, p - 1));
    }
  }

  /** Which one is at place i of k after p turns. */
  ghost function Turned(k: nat, p: nat, i: nat): (j: nat)
    requires i < k
    ensures j < k
  {
    (i + (k - 1) * p) % k
  }

  lemma TurnedOnce(k: nat, p: nat, i: nat)
    requires i < k
    ensures Turned(k, 0, i) == i
    ensures p > 0 ==> Turned(k, p, i) == Turned(k, p - 1, if i == 0 then k - 1 else i - 1)
  {
    DivModUnique(i, 0, i, k);
    if p > 0 {
      var m := (k - 1) * (p - 1);
      OneTermMore(k - 1, p);
      assert Turned(k, p, i) == (i + m + (k - 1)) % k;
      if i > 0 {
        OneMoreRound(i - 1 + m, k);
      }
    }
  }

  lemma OneTermMore(a: int, p: int)
    ensures a * p == a * (p - 1) + a
  {
  }

  lemma {:induction false} TurnsAt(s: seq<Task>, p: nat, i: nat)
    requires i < |s|
    ensures Turns(s, p)[i] == s[Turned(|s|, p, i)]
    decreases p
  {
    hide Turned;
    TurnedOnce(|s|, p, i);
    if p > 0 {
      TurnsAt(s, p - 1, if i == 0 then |s| - 1 else i - 1);
    }
  }

  lemma OneMoreRound(v: nat, k: nat)
    requires k > 0
    ensures (v + k) % k == v % k
  {
    var q, r := v / k, v % k;
    assert (q + 1) * k == q * k + k;
    DivModUnique(v + k, q + 1, r, k);
  }

  /** The first one is in front again exactly after a multiple of their number of turns. */
  lemma FirstAgain(s: seq<Task>, p: nat)
    requires s != [] && Distinct(s)
    ensures Turns(s, p)[0] == s[0] <==> p % |s| == 0
  {
    TurnsAt(s, p, 0);
    BackToZero(p, |s|);
    hide Turned;
    assert Turned(|s|, p, 0) > 0 ==> s[0] != s[Turned(|s|, p, 0)];
  }

  lemma BackToZero(p: nat, k: nat)
    requires k > 0
    ensures Turned(k, p, 0) == 0 <==> p % k == 0
  {
    var q, r := p / k, p % k;
    assert p == q * k + r;
    assert (k - 1) * p == p * k - p == (p - q) * k - r;
    if r == 0 {
      DivModUnique((k - 1) * p, p - q, 0, k);
    } else {
      assert (p - q - 1) * k == (p - q) * k - k;
      DivModUnique((k - 1) * p, p - q - 1, k - r, k);
    }
  }

  /** What a round has done to the entries of n: turned them once if it pulls n. */
  ghost predicate Shifted(was: seq<Task>, cur: seq<Task>, n: Name, pulled: bool) {
    n in Names(was) && Distinct(Occurrences(was, n)) ==>
      Occurrences(cur, n) == if pulled then Turn(Occurrences(was, n)) else Occurrences(was, n)
  }

  lemma TurnFacts(s: seq<Task>)
    requires s != [] && Distinct(s)
    ensures Turn(s)[0] == s[|s| - 1] && Distinct(Turn(s)) && (s[0] == s[|s| - 1] ==> Turn(s) == s)
  {
    TurnDistinct(s);
  }

  /** Pulling n moves the entry that was last at the start of the round, however often. */
  lemma OwnShift(was: seq<Task>, cur: seq<Task>, n: Name)
    requires n in Names(was) && LastNamed(was, n) in cur && Distinct(Occurrences(was, n))
    requires Occurrences(cur, n) == Occurrences(was, n) || Occurrences(cur, n) == Turn(Occurrences(was, n))
    ensures Occurrences(ToFront(cur, LastNamed(was, n)), n) == Turn(Occurrences(was, n))
  {
    LastNamedIsLast(was, n);
    hide *;
    TurnFacts(Occurrences(was, n));
    OwnMoved(cur, LastNamed(was, n), n);
  }

  lemma ShiftedMove(was: seq<Task>, cur: seq<Task>, n: Name, pulled: bool, d: Name)
    requires Shifted(was, cur, n, pulled) && d in Names(was) && LastNamed(was, d) in cur
    ensures Shifted(was, ToFront(cur, LastNamed(was, d)), n, pulled || d == n)
  {
    hide Names, Occurrences, ToFront, LastNamed, Distinct, Turn;
    if n in Names(was) && Distinct(Occurrences(was, n)) {
      if d != n {
        OtherMoved(cur, LastNamed(was, d), n);
      } else {
        OwnShift(was, cur, n);
      }
    }
  }
}
