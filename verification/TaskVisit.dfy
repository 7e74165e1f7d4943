/** The order of commands and their dependencies, as a depth-first visit. */
module TaskVisit {
  import opened Basics
  import opened TaskList

  /** What a command must follow: dependencies are pulled in, order dependencies count only if they are on the list. */
  datatype Command = Command(deps: seq<Name>, orderDeps: seq<Name>)

  type Table = map<Name, Command>

  type Ranks = map<Name, nat>

  /** Dependencies are commands, and following dependencies of either kind goes down in rank. */
  ghost predicate Acyclic(cmds: Table, rank: Ranks) {
    && cmds.Keys <= rank.Keys
    && (forall n, d :: n in cmds && d in cmds[n].deps ==> d in cmds && rank[d] < rank[n])
    && (forall n, d :: n in cmds && d in cmds[n].orderDeps && d in cmds ==> rank[d] < rank[n])
  }

  /** A set of commands that contains the dependencies of its members. */
  ghost predicate ClosedUnder(cmds: Table, s: set<Name>) {
    forall n, d :: n in s && n in cmds && d in cmds[n].deps ==> d in s
  }

  /** A command that pulled names to the front, and these names. */
  datatype Pull = Pull(puller: Name, names: set<Name>)

  /** What a visit has come to: the names that count as listed, the commands that have run, in order, and the pulls. */
  datatype Visit = Visit(listed: set<Name>, ran: seq<Name>, log: seq<Pull>)

  /** Those names of a sequence that are in a set, the last one first. */
  function Backwards(s: seq<Name>, among: set<Name>): (r: seq<Name>)
    ensures forall x :: x in r <==> x in s && x in among
  {
    if s == [] then [] else
      var k := |s| - 1;
      assert s == s[..k] + [s[k]];
      (if s[k] in among then [s[k]] else []) + Backwards(s[..k], among)
  }

  lemma BackwardsLast(s: seq<Name>, x: Name, among: set<Name>)
    ensures Backwards(s + [x], among) == (if x in among then [x] else []) + Backwards(s, among)
  {
    assert (s + [x])[..|s|] == s;
  }

  /** What a command must follow: its dependencies and the order dependencies that are listed, the last one first. */
  function Children(cmds: Table, m: Name, listed: set<Name>): (r: seq<Name>)
    requires m in cmds
    ensures forall x :: x in r <==>
      (x in cmds[m].deps && x in cmds) || (x in cmds[m].orderDeps && x in listed)
  {
    Backwards(cmds[m].orderDeps, listed) + Backwards(cmds[m].deps, cmds.Keys)
  }

  /** The visit when a command is entered: it pulls what it must follow, and its dependencies count as listed. */
  function Entered(cmds: Table, m: Name, v: Visit): (w: Visit)
    requires m in cmds
  {
    var pulled := set x | x in Children(cmds, m, v.listed) && x !in v.ran;
    Visit(v.listed + (set d | d in cmds[m].deps), v.ran, if pulled == {} then v.log else v.log + [Pull(m, pulled)])
  }

  /** Names of commands that rank below a bound. */
  ghost predicate Known(cmds: Table, rank: Ranks, bound: nat, names: seq<Name>) {
    forall x :: x in names ==> x in cmds && x in rank && rank[x] < bound
  }

  lemma ChildrenKnown(cmds: Table, rank: Ranks, m: Name, listed: set<Name>)
    requires Acyclic(cmds, rank) && m in cmds && listed <= cmds.Keys
    ensures m in rank && Known(cmds, rank, rank[m], Children(cmds, m, listed))
  {
  }

  /** Visit a command: first what it must follow, then the command itself. One that has run is left alone. */
  ghost function Enter(cmds: Table, rank: Ranks, m: Name, v: Visit): (w: Visit)
    requires Acyclic(cmds, rank) && m in cmds && v.listed <= cmds.Keys
    ensures w.listed <= cmds.Keys
    decreases rank[m]
  {
    if m in v.ran then v else
      ChildrenKnown(cmds, rank, m, v.listed);
      var w := Visits(cmds, rank, rank[m], Children(cmds, m, v.listed), Entered(cmds, m, v));
      w.(ran := w.ran + [m])
  }

  /** Visit commands one after the other. */
  ghost function Visits(cmds: Table, rank: Ranks, bound: nat, names: seq<Name>, v: Visit): (w: Visit)
    requires Acyclic(cmds, rank) && v.listed <= cmds.Keys && Known(cmds, rank, bound, names)
    ensures w.listed <= cmds.Keys
    decreases bound, |names|
  {
    if names == [] then v else
      Visits(cmds, rank, bound, names[1..], Enter(cmds, rank, names[0], v))
  }

  /** What a visit of commands below a bound may do. */
  ghost predicate Grown(cmds: Table, rank: Ranks, bound: nat, v: Visit, w: Visit) {
    && v.listed <= w.listed && v.ran <= w.ran && v.log <= w.log
    && (forall x :: x in w.listed ==> x in v.listed || x in w.ran)
    && (forall x :: x in w.ran ==> x in v.ran || (x in cmds && x in rank && rank[x] < bound))
  }

  lemma GrownTwice(cmds: Table, rank: Ranks, b0: nat, b1: nat, v: Visit, w: Visit, u: Visit)
    requires b0 <= b1 && Grown(cmds, rank, b0, v, w) && Grown(cmds, rank, b1, w, u)
    ensures Grown(cmds, rank, b1, v, u)
  {
    forall x | x in w.ran
      ensures x in u.ran
    {
    }
  }

  lemma {:induction false} EnterGrows(cmds: Table, rank: Ranks, m: Name, v: Visit)
    requires Acyclic(cmds, rank) && m in cmds && v.listed <= cmds.Keys
    ensures var w := Enter(cmds, rank, m, v); Grown(cmds, rank, rank[m] + 1, v, w) && m in w.ran
    decreases rank[m]
  {
    if m !in v.ran {
      ChildrenKnown(cmds, rank, m, v.listed);
      var c, e := Children(cmds, m, v.listed), Entered(cmds, m, v);
      VisitsGrow(cmds, rank, rank[m], c, e);
      var w := Visits(cmds, rank, rank[m], c, e);
      assert Enter(cmds, rank, m, v) == w.(ran := w.ran + [m]);
      hide Visits, Enter;
      EnteredGrows(cmds, rank, m, v, w);
    }
  }

  lemma EnteredGrows(cmds: Table, rank: Ranks, m: Name, v: Visit, w: Visit)
    requires Acyclic(cmds, rank) && m in cmds
    requires Grown(cmds, rank, rank[m], Entered(cmds, m, v), w)
    requires forall x :: x in Children(cmds, m, v.listed) ==> x in w.ran
    ensures Grown(cmds, rank, rank[m] + 1, v, w.(ran := w.ran + [m]))
  {
    forall d | d in cmds[m].deps
      ensures d in w.ran
    {
      assert d in Children(cmds, m, v.listed);
    }
    var e := Entered(cmds, m, v);
    assert v.log <= e.log && e.ran == v.ran && v.listed <= e.listed;
    assert forall x :: x in e.listed ==> x in v.listed || x in w.ran;
    hide Children, Acyclic, Entered;
    OneMoreRan(cmds, rank, m, v, e, w);
  }

  lemma OneMoreRan(cmds: Table, rank: Ranks, m: Name, v: Visit, e: Visit, w: Visit)
    requires m in cmds && m in rank && Grown(cmds, rank, rank[m], e, w)
    requires v.log <= e.log && e.ran == v.ran && v.listed <= e.listed
    requires forall x :: x in e.listed ==> x in v.listed || x in w.ran
    ensures Grown(cmds, rank, rank[m] + 1, v, w.(ran := w.ran + [m]))
  {
    assert forall x :: x in w.ran + [m] <==> x in w.ran || x == m;
  }

  lemma {:induction false} VisitsGrow(cmds: Table, rank: Ranks, bound: nat, names: seq<Name>, v: Visit)
    requires Acyclic(cmds, rank) && v.listed <= cmds.Keys && Known(cmds, rank, bound, names)
    ensures var w := Visits(cmds, rank, bound, names, v);
      Grown(cmds, rank, bound, v, w) && forall x :: x in names ==> x in w.ran
    decreases bound, |names|
  {
    if names != [] {
      var u := Enter(cmds, rank, names[0], v);
      EnterGrows(cmds, rank, names[0], v);
      VisitsGrow(cmds, rank, bound, names[1..], u);
      var w := Visits(cmds, rank, bound, names[1..], u);
      assert Visits(cmds, rank, bound, names, v) == w;
      assert names == [names[0]] + names[1..];
      hide Visits, Enter;
      GrownTwice(cmds, rank, rank[names[0]] + 1, bound, v, u, w);
      assert names[0] in w.ran;
    }
  }

  /** Ranks and bound only show that the visit ends; it does not depend on them. */
  lemma {:induction false} EnterRankFree(cmds: Table, rank: Ranks, rank': Ranks, m: Name, v: Visit)
    requires Acyclic(cmds, rank) && Acyclic(cmds, rank') && m in cmds && v.listed <= cmds.Keys
    ensures Enter(cmds, rank, m, v) == Enter(cmds, rank', m, v)
    decreases rank[m]
  {
    if m !in v.ran {
      ChildrenKnown(cmds, rank, m, v.listed);
      ChildrenKnown(cmds, rank', m, v.listed);
      VisitsRankFree(cmds, rank, rank', rank[m], rank'[m], Children(cmds, m, v.listed), Entered(cmds, m, v));
    }
  }

  lemma {:induction false} VisitsRankFree(cmds: Table, rank: Ranks, rank': Ranks, bound: nat, bound': nat,
                                          names: seq<Name>, v: Visit)
    requires Acyclic(cmds, rank) && Acyclic(cmds, rank') && v.listed <= cmds.Keys
    requires Known(cmds, rank, bound, names) && Known(cmds, rank', bound', names)
    ensures Visits(cmds, rank, bound, names, v) == Visits(cmds, rank', bound', names, v)
    decreases bound, |names|
  {
    if names != [] {
      EnterRankFree(cmds, rank, rank', names[0], v);
      VisitsRankFree(cmds, rank, rank', bound, bound', names[1..], Enter(cmds, rank, names[0], v));
    }
  }

  lemma VisitsFirst(cmds: Table, rank: Ranks, bound: nat, x: Name, names: seq<Name>, v: Visit)
    requires Acyclic(cmds, rank) && v.listed <= cmds.Keys && Known(cmds, rank, bound, [x] + names)
    ensures x in cmds && Known(cmds, rank, bound, names)
    ensures Visits(cmds, rank, bound, [x] + names, v) == Visits(cmds, rank, bound, names, Enter(cmds, rank, x, v))
  {
    assert ([x] + names)[1..] == names && ([x] + names)[0] == x;
  }

  lemma KnownParts(cmds: Table, rank: Ranks, bound: nat, a: seq<Name>, b: seq<Name>)
    ensures Known(cmds, rank, bound, a + b) <==> Known(cmds, rank, bound, a) && Known(cmds, rank, bound, b)
  {
    assert forall x :: x in a + b <==> x in a || x in b;
  }

  lemma EnterRan(cmds: Table, rank: Ranks, m: Name, v: Visit)
    requires Acyclic(cmds, rank) && m in cmds && v.listed <= cmds.Keys
    ensures m in v.ran ==> Enter(cmds, rank, m, v) == v
  {
  }

  lemma {:induction false} VisitsAppend(cmds: Table, rank: Ranks, bound: nat, a: seq<Name>, b: seq<Name>, v: Visit)
    requires Acyclic(cmds, rank) && v.listed <= cmds.Keys && Known(cmds, rank, bound, a) && Known(cmds, rank, bound, b)
    ensures Known(cmds, rank, bound, a + b)
    ensures Visits(cmds, rank, bound, a + b, v) == Visits(cmds, rank, bound, b, Visits(cmds, rank, bound, a, v))
    decreases |a|
  {
    hide Enter, Acyclic;
    if a == [] {
      assert a + b == b;
    } else {
      VisitsAppend(cmds, rank, bound, a[1..], b, Enter(cmds, rank, a[0], v));
      hide Known;
      assert (a + b)[1..] == a[1..] + b;
    }
  }

  /** Names that have run are passed over. */
  lemma {:induction false} VisitsPass(cmds: Table, rank: Ranks, bound: nat, names: seq<Name>, v: Visit)
    requires Acyclic(cmds, rank) && v.listed <= cmds.Keys && Known(cmds, rank, bound, names)
    requires forall x :: x in names ==> x in v.ran
    ensures Visits(cmds, rank, bound, names, v) == v
    decreases |names|
  {
    if names != [] {
      VisitsPass(cmds, rank, bound, names[1..], v);
    }
  }

  /** A name that has run may be left out anywhere. */
  lemma VisitsDrop(cmds: Table, rank: Ranks, bound: nat, a: seq<Name>, x: Name, b: seq<Name>, v: Visit)
    requires Acyclic(cmds, rank) && v.listed <= cmds.Keys && Known(cmds, rank, bound, a) && Known(cmds, rank, bound, b)
    requires Known(cmds, rank, bound, [x]) && x in v.ran
    ensures Known(cmds, rank, bound, a + ([x] + b)) && Known(cmds, rank, bound, a + b)
    ensures Visits(cmds, rank, bound, a + ([x] + b), v) == Visits(cmds, rank, bound, a + b, v)
  {
    assert Known(cmds, rank, bound, [x] + b);
    VisitsGrow(cmds, rank, bound, a, v);
    var w := Visits(cmds, rank, bound, a, v);
    VisitsAppend(cmds, rank, bound, a, [x] + b, v);
    VisitsAppend(cmds, rank, bound, a, b, v);
    VisitsAppend(cmds, rank, bound, [x], b, w);
    VisitsPass(cmds, rank, bound, [x], w);
  }

  /** A command entered whose children have run: it runs at once. */
  lemma EnterSettled(cmds: Table, rank: Ranks, m: Name, v: Visit)
    requires Acyclic(cmds, rank) && m in cmds && v.listed <= cmds.Keys && m !in v.ran
    requires forall d :: d in cmds[m].deps ==> d in v.listed
    requires forall x :: x in Children(cmds, m, v.listed) ==> x in v.ran
    ensures Enter(cmds, rank, m, v) == v.(ran := v.ran + [m])
  {
    ChildrenKnown(cmds, rank, m, v.listed);
    assert v.listed + (set d | d in cmds[m].deps) == v.listed;
    assert Entered(cmds, m, v) == v;
    VisitsPass(cmds, rank, rank[m], Children(cmds, m, v.listed), v);
  }

  /** Visiting a command is visiting its children with everything pulled, and then the command. */
  lemma EnterAgain(cmds: Table, rank: Ranks, bound: nat, m: Name, v: Visit)
    requires Acyclic(cmds, rank) && m in cmds && v.listed <= cmds.Keys && m !in v.ran
    requires Known(cmds, rank, bound, Children(cmds, m, v.listed))
    ensures Entered(cmds, m, v).listed <= cmds.Keys
    ensures Enter(cmds, rank, m, Visits(cmds, rank, bound, Children(cmds, m, v.listed), Entered(cmds, m, v)))
         == Enter(cmds, rank, m, v)
  {
    var c, e := Children(cmds, m, v.listed), Entered(cmds, m, v);
    ChildrenKnown(cmds, rank, m, v.listed);
    VisitsRankFree(cmds, rank, rank, bound, rank[m], c, e);
    VisitsGrow(cmds, rank, rank[m], c, e);
    var w := Visits(cmds, rank, rank[m], c, e);
    assert Enter(cmds, rank, m, v) == w.(ran := w.ran + [m]);
    hide Visits, Enter;
    AllHaveRun(cmds, rank, m, v, w);
    EnterSettled(cmds, rank, m, w);
  }

  /** Once its children have been visited, everything that a command must follow has run. */
  lemma AllHaveRun(cmds: Table, rank: Ranks, m: Name, v: Visit, w: Visit)
    requires Acyclic(cmds, rank) && m in cmds && m !in v.ran && Grown(cmds, rank, rank[m], Entered(cmds, m, v), w)
    requires forall x :: x in Children(cmds, m, v.listed) ==> x in w.ran
    ensures m !in w.ran && forall d :: d in cmds[m].deps ==> d in w.listed
    ensures forall x :: x in Children(cmds, m, w.listed) ==> x in w.ran
  {
    hide Children;
    forall x | x in Children(cmds, m, w.listed)
      ensures x in w.ran
    {
      assert x in v.listed || x in cmds[m].deps || x in w.ran;
      assert x in Children(cmds, m, v.listed) || x in w.ran;
    }
  }

  /** The commands that pulled n, in order. */
  ghost function PullersIn(log: seq<Pull>, n: Name): (r: seq<Name>) {
    if log == [] then [] else (if n in log[0].names then [log[0].puller] else []) + PullersIn(log[1..], n)
  }

  lemma {:induction false} PullersAppend(a: seq<Pull>, b: seq<Pull>, n: Name)
    ensures PullersIn(a + b, n) == PullersIn(a, n) + PullersIn(b, n)
    decreases |a|
  {
    if a == [] {
      assert a + b == b;
    } else {
      PullersAppend(a[1..], b, n);
      assert (a + b)[1..] == a[1..] + b;
      var first := if n in a[0].names then [a[0].puller] else [];
      assert PullersIn(a, n) == first + PullersIn(a[1..], n);
      assert PullersIn(a + b, n) == first + PullersIn(a[1..] + b, n);
      hide PullersIn;
    }
  }

  /** The commands that name n as a dependency of either kind. */
  ghost function Dependants(cmds: Table, n: Name): (r: set<Name>) {
    set m | m in cmds && (n in cmds[m].deps || n in cmds[m].orderDeps)
  }

  /** Commands of falling rank, all below a bound. */
  ghost predicate Descending(rank: Ranks, bound: nat, p: seq<Name>) {
    p == [] || (p[0] in rank && rank[p[0]] < bound && Descending(rank, rank[p[0]], p[1..]))
  }

  lemma {:induction false} DescendingBelow(rank: Ranks, bound: nat, p: seq<Name>)
    requires Descending(rank, bound, p)
    ensures forall q :: q in p ==> q in rank && rank[q] < bound
    ensures |set q | q in p| == |p|
    decreases |p|
  {
    if p != [] {
      DescendingBelow(rank, rank[p[0]], p[1..]);
      assert p == [p[0]] + p[1..];
      var rest := set q | q in p[1..];
      assert (set q | q in p) == {p[0]} + rest && p[0] !in rest;
    }
  }

  /** Who has pulled n between two points of a visit: dependants of falling rank, and n has run since. */
  ghost predicate Pulling(cmds: Table, rank: Ranks, bound: nat, n: Name, v: Visit, w: Visit) {
    && v.log <= w.log
    && Descending(rank, bound, PullersIn(w.log[|v.log|..], n))
    && (forall q :: q in PullersIn(w.log[|v.log|..], n) ==> q in Dependants(cmds, n))
    && (PullersIn(w.log[|v.log|..], n) != [] ==> n !in v.ran && n in w.ran)
  }

  lemma LogSplit(v: Visit, w: Visit, u: Visit, n: Name)
    requires v.log <= w.log <= u.log
    ensures PullersIn(u.log[|v.log|..], n) == PullersIn(w.log[|v.log|..], n) + PullersIn(u.log[|w.log|..], n)
  {
    assert u.log[|v.log|..] == w.log[|v.log|..] + u.log[|w.log|..];
    PullersAppend(w.log[|v.log|..], u.log[|w.log|..], n);
  }

  lemma PullingTwice(cmds: Table, rank: Ranks, b0: nat, b1: nat, n: Name, v: Visit, w: Visit, u: Visit)
    requires Pulling(cmds, rank, b0, n, v, w) && Pulling(cmds, rank, b1, n, w, u) && b0 <= b1
    requires v.ran <= w.ran <= u.ran
    ensures Pulling(cmds, rank, b1, n, v, u)
    ensures PullersIn(u.log[|v.log|..], n) == PullersIn(w.log[|v.log|..], n) + PullersIn(u.log[|w.log|..], n)
  {
    LogSplit(v, w, u, n);
    var p, q := PullersIn(w.log[|v.log|..], n), PullersIn(u.log[|w.log|..], n);
    hide PullersIn, Dependants;
    assert p == [] || q == [];
    assert p + [] == p && [] + q == q;
  }

  /** What entering a command adds to the pulls. */
  lemma EnteredPulls(cmds: Table, m: Name, n: Name, v: Visit)
    requires m in cmds
    ensures var e := Entered(cmds, m, v);
      && v.log <= e.log && e.ran == v.ran
      && PullersIn(e.log[|v.log|..], n) == if n in Children(cmds, m, v.listed) && n !in v.ran then [m] else []
  {
    var e := Entered(cmds, m, v);
    var pulled := set x | x in Children(cmds, m, v.listed) && x !in v.ran;
    hide Children;
    if pulled == {} {
      assert e.log[|v.log|..] == [];
    } else {
      assert e.log[|v.log|..] == [Pull(m, pulled)];
      assert [Pull(m, pulled)][1..] == [];
    }
    assert n in pulled <==> n in Children(cmds, m, v.listed) && n !in v.ran;
  }

  lemma PullingEntered(cmds: Table, rank: Ranks, m: Name, n: Name, v: Visit, e: Visit, w: Visit, pulled: bool)
    requires m in rank && v.log <= e.log && v.ran == e.ran && Pulling(cmds, rank, rank[m], n, e, w)
    requires PullersIn(e.log[|v.log|..], n) == if pulled then [m] else []
    requires pulled ==> m in Dependants(cmds, n) && n !in v.ran && n in w.ran
    ensures Pulling(cmds, rank, rank[m] + 1, n, v, w.(ran := w.ran + [m]))
    ensures PullersIn(w.log[|e.log|..], n) != [] || pulled ==> PullersIn(w.log[|v.log|..], n) != []
  {
    LogSplit(v, e, w, n);
    var p := PullersIn(w.log[|e.log|..], n);
    hide PullersIn, Dependants;
    assert ([m] + p)[1..] == p && [] + p == p;
    assert Descending(rank, rank[m] + 1, p);
  }

  lemma {:induction false} EnterPulls(cmds: Table, rank: Ranks, m: Name, v: Visit, n: Name)
    requires Acyclic(cmds, rank) && m in cmds && v.listed <= cmds.Keys
    ensures var w := Enter(cmds, rank, m, v);
      && Pulling(cmds, rank, rank[m] + 1, n, v, w)
      && (n !in v.ran && n in w.ran && n != m ==> PullersIn(w.log[|v.log|..], n) != [])
    decreases rank[m]
  {
    if m in v.ran {
      assert v.log[|v.log|..] == [];
    } else {
      ChildrenKnown(cmds, rank, m, v.listed);
      var c, e := Children(cmds, m, v.listed), Entered(cmds, m, v);
      VisitsGrow(cmds, rank, rank[m], c, e);
      VisitsPull(cmds, rank, rank[m], c, e, n);
      var w := Visits(cmds, rank, rank[m], c, e);
      assert Enter(cmds, rank, m, v) == w.(ran := w.ran + [m]);
      EnteredPulls(cmds, m, n, v);
      LogSplit(v, e, w, n);
      assert n in c ==> m in Dependants(cmds, n);
      hide Visits, Enter, Entered, Children, Dependants, PullersIn, Acyclic;
      PullingEntered(cmds, rank, m, n, v, e, w, n in c && n !in v.ran);
    }
  }

  lemma {:induction false} VisitsPull(cmds: Table, rank: Ranks, bound: nat, names: seq<Name>, v: Visit, n: Name)
    requires Acyclic(cmds, rank) && v.listed <= cmds.Keys && Known(cmds, rank, bound, names)
    ensures var w := Visits(cmds, rank, bound, names, v);
      && Pulling(cmds, rank, bound, n, v, w)
      && (n !in v.ran && n in w.ran && n !in names ==> PullersIn(w.log[|v.log|..], n) != [])
    decreases bound, |names|
  {
    if names == [] {
      assert v.log[|v.log|..] == [];
    } else {
      var m := names[0];
      var u := Enter(cmds, rank, m, v);
      EnterGrows(cmds, rank, m, v);
      EnterPulls(cmds, rank, m, v, n);
      VisitsGrow(cmds, rank, bound, names[1..], u);
      VisitsPull(cmds, rank, bound, names[1..], u, n);
      var w := Visits(cmds, rank, bound, names[1..], u);
      assert Visits(cmds, rank, bound, names, v) == w;
      assert names == [m] + names[1..];
      hide Visits, Enter, PullersIn, Dependants, Acyclic, Descending;
      PullingTwice(cmds, rank, rank[m] + 1, bound, n, v, u, w);
    }
  }

  /** A set that contains the dependencies of its members and those of their order dependencies that are given. */
  ghost predicate Sealed(cmds: Table, given: set<Name>, s: set<Name>) {
    && ClosedUnder(cmds, s)
    && (forall m, d :: m in s && m in cmds && d in cmds[m].orderDeps && d in given ==> d in s)
  }

  /** Nothing outside a sealed set is visited from inside it. */
  lemma {:induction false} EnterStays(cmds: Table, rank: Ranks, m: Name, v: Visit, given: set<Name>, s: set<Name>)
    requires Acyclic(cmds, rank) && m in cmds && v.listed <= cmds.Keys
    requires Sealed(cmds, given, s) && m in s && v.listed <= given + s
    ensures var w := Enter(cmds, rank, m, v); w.listed <= given + s && forall x :: x in w.ran ==> x in v.ran || x in s
    decreases rank[m]
  {
    if m !in v.ran {
      ChildrenKnown(cmds, rank, m, v.listed);
      VisitsStay(cmds, rank, rank[m], Children(cmds, m, v.listed), Entered(cmds, m, v), given, s);
    }
  }

  lemma {:induction false} VisitsStay(cmds: Table, rank: Ranks, bound: nat, names: seq<Name>, v: Visit,
                                      given: set<Name>, s: set<Name>)
    requires Acyclic(cmds, rank) && v.listed <= cmds.Keys && Known(cmds, rank, bound, names)
    requires Sealed(cmds, given, s) && v.listed <= given + s && forall x :: x in names ==> x in s
    ensures var w := Visits(cmds, rank, bound, names, v);
      w.listed <= given + s && forall x :: x in w.ran ==> x in v.ran || x in s
    decreases bound, |names|
  {
    if names != [] {
      EnterStays(cmds, rank, names[0], v, given, s);
      VisitsStay(cmds, rank, bound, names[1..], Enter(cmds, rank, names[0], v), given, s);
    }
  }

  /** What has run is sealed. */
  lemma {:induction false} EnterSeals(cmds: Table, rank: Ranks, m: Name, v: Visit, given: set<Name>)
    requires Acyclic(cmds, rank) && m in cmds && given <= v.listed <= cmds.Keys
    requires Sealed(cmds, given, set x | x in v.ran)
    ensures Sealed(cmds, given, set x | x in Enter(cmds, rank, m, v).ran)
    decreases rank[m]
  {
    if m !in v.ran {
      ChildrenKnown(cmds, rank, m, v.listed);
      var c, e := Children(cmds, m, v.listed), Entered(cmds, m, v);
      VisitsSeal(cmds, rank, rank[m], c, e, given);
      VisitsGrow(cmds, rank, rank[m], c, e);
      var w := Visits(cmds, rank, rank[m], c, e);
      assert Enter(cmds, rank, m, v) == w.(ran := w.ran + [m]);
      hide Visits, Enter, Entered, Grown, Children;
      SealedMore(cmds, given, w.ran, m);
    }
  }

  lemma SealedMore(cmds: Table, given: set<Name>, ran: seq<Name>, m: Name)
    requires m in cmds && Sealed(cmds, given, set x | x in ran)
    requires forall d :: d in cmds[m].deps || (d in cmds[m].orderDeps && d in given) ==> d in ran
    ensures Sealed(cmds, given, set x | x in ran + [m])
  {
    assert (set x | x in ran + [m]) == (set x | x in ran) + {m};
  }

  lemma {:induction false} VisitsSeal(cmds: Table, rank: Ranks, bound: nat, names: seq<Name>, v: Visit,
                                      given: set<Name>)
    requires Acyclic(cmds, rank) && given <= v.listed <= cmds.Keys && Known(cmds, rank, bound, names)
    requires Sealed(cmds, given, set x | x in v.ran)
    ensures Sealed(cmds, given, set x | x in Visits(cmds, rank, bound, names, v).ran)
    decreases bound, |names|
  {
    if names != [] {
      EnterSeals(cmds, rank, names[0], v, given);
      EnterGrows(cmds, rank, names[0], v);
      VisitsSeal(cmds, rank, bound, names[1..], Enter(cmds, rank, names[0], v), given);
    }
  }

  /** A bound above all ranks. */
  ghost function Top(rank: Ranks): (b: nat)
    ensures forall x :: x in rank ==> rank[x] < b
  {
    if rank == map[] then 0 else
      var x :| x in rank;
      var b := Top(rank - {x});
      assert forall y :: y in rank && y != x ==> y in rank - {x};
      if rank[x] < b then b else rank[x] + 1
  }

  /** The visit of the given commands, in the order given. */
  ghost function Traversal(cmds: Table, rank: Ranks, given: seq<Task>): (w: Visit)
    requires Acyclic(cmds, rank) && Names(given) <= cmds.Keys
  {
    NamesOfIn(given);
    Visits(cmds, rank, Top(rank), NamesOf(given), Visit(Names(given), [], []))
  }

  /** The commands that pull n before n has run. */
  ghost function Pullers(cmds: Table, rank: Ranks, given: seq<Task>, n: Name): (r: seq<Name>)
    requires Acyclic(cmds, rank) && Names(given) <= cmds.Keys
  {
    PullersIn(Traversal(cmds, rank, given).log, n)
  }

  /** A sealed set that holds the names before the first entry of n, but not n. */
  ghost predicate Clear(cmds: Table, given: seq<Task>, n: Name, s: set<Name>) {
    Ahead(given, n) <= s && n !in s && Sealed(cmds, Names(given), s)
  }

  /** The commands listed before the first n pull n, directly or through others. */
  ghost predicate Drawn(cmds: Table, given: seq<Task>, n: Name) {
    forall s :: !Clear(cmds, given, n, s)
  }

  lemma DependantsAbove(cmds: Table, rank: Ranks, n: Name, p: seq<Name>)
    requires Acyclic(cmds, rank) && n in cmds && forall q :: q in p ==> q in Dependants(cmds, n)
    ensures forall q :: q in p ==> q in rank && rank[n] < rank[q]
  {
  }

  /** Nobody pulls a command that is entered from the list. */
  lemma OwnVisit(cmds: Table, rank: Ranks, n: Name, v: Visit)
    requires Acyclic(cmds, rank) && n in cmds && v.listed <= cmds.Keys
    ensures var w := Enter(cmds, rank, n, v); v.log <= w.log && PullersIn(w.log[|v.log|..], n) == []
  {
    EnterGrows(cmds, rank, n, v);
    var p := PullersIn(Enter(cmds, rank, n, v).log[|v.log|..], n);
    hide Enter, PullersIn;
    assert p == [] || p[0] in p;
    EnterPulls(cmds, rank, n, v, n);
    DescendingBelow(rank, rank[n] + 1, p);
    DependantsAbove(cmds, rank, n, p);
  }

  /** Where n stands first. */
  lemma {:induction false} FirstEntry(s: seq<Task>, n: Name) returns (a: seq<Task>, b: seq<Task>)
    requires n in Names(s)
    ensures s == a + b && b != [] && b[0].name == n && n !in Names(a) && Ahead(s, n) == Names(a)
    decreases |s|
  {
    if s[0].name == n {
      a, b := [], s;
    } else {
      assert s == [s[0]] + s[1..];
      a, b := FirstEntry(s[1..], n);
      a := [s[0]] + a;
      assert Names(a) == {s[0].name} + Names(a[1..]);
    }
  }

  /** A visit up to the first n, of n, and on from there. */
  lemma ThreeParts(cmds: Table, rank: Ranks, given: seq<Task>, n: Name, a: seq<Task>, b: seq<Task>)
    returns (va: Visit, vn: Visit)
    requires Acyclic(cmds, rank) && Names(given) <= cmds.Keys
    requires given == a + b && b != [] && b[0].name == n
    ensures Names(a) <= cmds.Keys && Known(cmds, rank, Top(rank), NamesOf(a)) && n in cmds
    ensures va == Visits(cmds, rank, Top(rank), NamesOf(a), Visit(Names(given), [], []))
    ensures vn == Enter(cmds, rank, n, va) && Known(cmds, rank, Top(rank), NamesOf(b)[1..])
    ensures Traversal(cmds, rank, given) == Visits(cmds, rank, Top(rank), NamesOf(b)[1..], vn)
  {
    var v, top := Visit(Names(given), [], []), Top(rank);
    NamesOfIn(given);
    NamesOfIn(a);
    NamesOfIn(b);
    assert Names(given) == Names(a) + Names(b);
    assert b[0] in b;
    NamesOfAppend(a, b);
    hide Enter, Acyclic, Names, NamesOf;
    VisitsAppend(cmds, rank, top, NamesOf(a), NamesOf(b), v);
    va := Visits(cmds, rank, top, NamesOf(a), v);
    vn := Enter(cmds, rank, n, va);
  }

  /** All pulls of n come before the first n is reached. */
  lemma PullsBefore(cmds: Table, rank: Ranks, given: seq<Task>, n: Name, a: seq<Task>, b: seq<Task>)
    requires Acyclic(cmds, rank) && Names(given) <= cmds.Keys
    requires given == a + b && b != [] && b[0].name == n && n !in Names(a)
    ensures Names(a) <= cmds.Keys && Known(cmds, rank, Top(rank), NamesOf(a))
    ensures var va := Visits(cmds, rank, Top(rank), NamesOf(a), Visit(Names(given), [], []));
      && Pullers(cmds, rank, given, n) == PullersIn(va.log, n)
      && (n in va.ran <==> PullersIn(va.log, n) != [])
    ensures Descending(rank, Top(rank), Pullers(cmds, rank, given, n))
    ensures forall q :: q in Pullers(cmds, rank, given, n) ==> q in Dependants(cmds, n)
  {
    var v, top := Visit(Names(given), [], []), Top(rank);
    var va, vn := ThreeParts(cmds, rank, given, n, a, b);
    var rest := NamesOf(b)[1..];
    var w := Visits(cmds, rank, top, rest, vn);
    NamesOfIn(a);
    VisitsPull(cmds, rank, top, NamesOf(a), v, n);
    OwnVisit(cmds, rank, n, va);
    EnterGrows(cmds, rank, n, va);
    VisitsPull(cmds, rank, top, rest, vn, n);
    assert va.log[|v.log|..] == va.log && w.log[|v.log|..] == w.log;
    hide Visits, Enter, PullersIn, Dependants, Descending, Acyclic, Names, NamesOf, Traversal;
    LogSplit(v, va, vn, n);
    LogSplit(v, vn, w, n);
    assert PullersIn(va.log, n) + [] == PullersIn(va.log, n);
  }

  /** Who pulls n: commands that name it, each once, and nobody exactly if the commands listed before n do not draw it
      in. */
  lemma PullersExactly(cmds: Table, rank: Ranks, given: seq<Task>, n: Name)
    requires Acyclic(cmds, rank) && Names(given) <= cmds.Keys && n in Names(given)
    ensures var p := Pullers(cmds, rank, given, n);
      && (forall q :: q in p ==> q in Dependants(cmds, n)) && |p| <= |Dependants(cmds, n)|
      && |set q | q in p| == |p|
      && (p == [] <==> !Drawn(cmds, given, n))
  {
    var p := Pullers(cmds, rank, given, n);
    var a, b := FirstEntry(given, n);
    PullsBefore(cmds, rank, given, n, a, b);
    var v := Visit(Names(given), [], []);
    var va := Visits(cmds, rank, Top(rank), NamesOf(a), v);
    NamesOfIn(a);
    DescendingBelow(rank, Top(rank), p);
    Fewer((set q | q in p), Dependants(cmds, n));
    if s :| Clear(cmds, given, n, s) {
      VisitsStay(cmds, rank, Top(rank), NamesOf(a), v, Names(given), s);
    }
    if p == [] {
      assert (set x | x in v.ran) == {};
      VisitsSeal(cmds, rank, Top(rank), NamesOf(a), v, Names(given));
      VisitsGrow(cmds, rank, Top(rank), NamesOf(a), v);
      assert Clear(cmds, given, n, set x | x in va.ran);
    }
  }
}
