/** Ordering of command-line tasks by their dependencies, as idf.py does before it runs them. */
module TaskOrder {
  import opened Basics
  import opened Modular
  import opened TaskList
  import opened TaskVisit

  /** d stands before position i. */
  ghost predicate Before(order: seq<Task>, i: nat, d: Name)
    requires i <= |order|
  {
    exists j :: 0 <= j < i && order[j].name == d
  }

  /** Each name once, after its dependencies and after those order dependencies that are among the given names. */
  ghost predicate Ordered(cmds: Table, order: seq<Task>, given: set<Name>) {
    && (forall i, j :: 0 <= i < j < |order| ==> order[i].name != order[j].name)
    && (forall i :: 0 <= i < |order| ==> order[i].name in cmds)
    && (forall i, d :: 0 <= i < |order| && d in cmds[order[i].name].deps ==> Before(order, i, d))
    && (forall i, d :: 0 <= i < |order| && d in cmds[order[i].name].orderDeps && d in given ==> Before(order, i, d))
  }

  /** State of one round: the list, whether nothing had to be moved, whether something was added. */
  datatype Round = Round(tasks: seq<Task>, settled: bool, added: bool)

  /** What moving dependencies to the front has done to the list `was` so far. */
  ghost predicate Moved(was: seq<Task>, r: Round, deps: seq<Name>, ran: set<Name>) {
    && was != [] && r.tasks != [] && (forall t :: t in was ==> t in r.tasks)
    && (r.settled ==> r.tasks == was && !r.added)
    && (!r.settled ==> r.tasks[0].name in deps && r.tasks[0].name !in ran)
    && (!r.added ==> |r.tasks| == |was| && Names(r.tasks) == Names(was))
    && (r.added ==> exists t :: t in r.tasks && t.name !in Names(was) && t.name !in ran)
    && (forall t :: t in r.tasks ==> t.name in Names(was) || t.name in deps)
  }

  /** The list, and the next fresh id, after bringing dependencies to the front one by one. */
  function DepsPulled(was: seq<Task>, deps: seq<Name>, ran: set<Name>, freshId: nat): (r: (seq<Task>, nat))
    ensures forall t :: t in was ==> t in r.0
  {
    if deps == [] then (was, freshId) else
      var d := deps[|deps| - 1];
      var (cur, id) := DepsPulled(was, deps[..|deps| - 1], ran, freshId);
      if d in ran then (cur, id)
      else if d !in Names(was) then ([Task(d, id)] + cur, id + 1)
      else (ToFront(cur, LastNamed(was, d)), id)
  }

  /** The list after bringing order dependencies that are on it to the front one by one. */
  function OrderDepsPulled(was: seq<Task>, start: seq<Task>, orderDeps: seq<Name>, ran: set<Name>): (r: seq<Task>)
    requires forall t :: t in was ==> t in start
    ensures forall t :: t in r <==> t in start
  {
    if orderDeps == [] then start else
      var d := orderDeps[|orderDeps| - 1];
      var cur := OrderDepsPulled(was, start, orderDeps[..|orderDeps| - 1], ran);
      if d in Names(was) && d !in ran then ToFront(cur, LastNamed(was, d)) else cur
  }

  lemma DepsPulledLast(was: seq<Task>, deps: seq<Name>, d: Name, ran: set<Name>, freshId: nat)
    ensures var p := DepsPulled(was, deps, ran, freshId);
      DepsPulled(was, deps + [d], ran, freshId)
      == if d in ran then p
         else if d !in Names(was) then ([Task(d, p.1)] + p.0, p.1 + 1)
         else (ToFront(p.0, LastNamed(was, d)), p.1)
  {
    assert (deps + [d])[..|deps|] == deps;
  }

  lemma OrderDepsPulledLast(was: seq<Task>, start: seq<Task>, orderDeps: seq<Name>, d: Name, ran: set<Name>)
    requires forall t :: t in was ==> t in start
    ensures var p := OrderDepsPulled(was, start, orderDeps, ran);
      OrderDepsPulled(was, start, orderDeps + [d], ran)
      == if d in Names(was) && d !in ran then ToFront(p, LastNamed(was, d)) else p
  {
    assert (orderDeps + [d])[..|orderDeps|] == orderDeps;
  }

  /** The dependencies seen so far that have not run have been brought to the front or added there. */
  ghost predicate DepsDone(was: seq<Task>, r: Round, id: nat, seen: seq<Name>, ran: set<Name>, freshId: nat) {
    && Moved(was, r, seen, ran) && (r.tasks, id) == DepsPulled(was, seen, ran, freshId)
    && (r.settled <==> forall d :: d in seen ==> d in ran)
  }

  /** Leave a dependency that has run, bring one that is on the list to the front, or add it there. */
  function PullDep(was: seq<Task>, r: Round, ran: set<Name>, d: Name, id: nat): (r': (Round, nat))
    requires d in Names(was) && d !in ran ==> LastNamed(was, d) in r.tasks
  {
    if d in ran then (r, id)
    else if d in Names(was) then (Round(ToFront(r.tasks, LastNamed(was, d)), false, r.added), id)
    else (Round([Task(d, id)] + r.tasks, false, true), id + 1)
  }

  lemma MovedAdded(was: seq<Task>, r: Round, names: seq<Name>, ran: set<Name>, t: Task)
    requires Moved(was, r, names, ran) && t.name !in Names(was) && t.name !in ran
    ensures Moved(was, Round([t] + r.tasks, false, true), names + [t.name], ran)
  {
    assert ([t] + r.tasks)[0] == t;
  }

  lemma AllRanMore(seen: seq<Name>, d: Name, ran: set<Name>)
    ensures (forall x :: x in seen + [d] ==> x in ran) <==> (forall x :: x in seen ==> x in ran) && d in ran
  {
    assert forall x :: x in seen + [d] <==> x in seen || x == d;
  }

  lemma DepsDoneMore(was: seq<Task>, r: Round, id: nat, deps: seq<Name>, ran: set<Name>, freshId: nat, i: nat)
    requires i < |deps| && DepsDone(was, r, id, deps[..i], ran, freshId)
    ensures deps[i] in Names(was) && deps[i] !in ran ==> LastNamed(was, deps[i]) in r.tasks
    ensures var r' := PullDep(was, r, ran, deps[i], id); DepsDone(was, r'.0, r'.1, deps[..i + 1], ran, freshId)
  {
    var d, seen := deps[i], deps[..i];
    assert deps[..i + 1] == seen + [d];
    AllRanMore(seen, d, ran);
    hide Moved, ToFront, LastNamed, DepsPulled, Names;
    MovedMore(was, r, seen, ran, d);
    DepsPulledLast(was, seen, d, ran, freshId);
    if d !in ran && d !in Names(was) {
      MovedAdded(was, r, seen, ran, Task(d, id));
    }
  }

  /** Bring the dependencies that have not run to the front, adding those not on the list. */
  method PullDependencies(was: seq<Task>, deps: seq<Name>, ran: set<Name>, freshId: nat) returns (r: Round, id: nat)
    requires was != []
    ensures Moved(was, r, deps, ran) && (r.tasks, id) == DepsPulled(was, deps, ran, freshId)
    ensures r.settled <==> forall d :: d in deps ==> d in ran
  {
    r, id := Round(was, true, false), freshId;
    assert deps[..0] == [] && deps[..|deps|] == deps;
    assert DepsDone(was, r, id, [], ran, freshId);
    hide Moved, ToFront, LastNamed, Names, PullDep, DepsPulled;
    for i := 0 to |deps|
      invariant DepsDone(was, r, id, deps[..i], ran, freshId)
    {
      DepsDoneMore(was, r, id, deps, ran, freshId, i);
      var p := PullDep(was, r, ran, deps[i], id);
      r, id := p.0, p.1;
    }
  }

  /** Moving one more name that is on the list to the front, or leaving it. */
  lemma MovedMore(was: seq<Task>, r: Round, names: seq<Name>, ran: set<Name>, d: Name)
    requires Moved(was, r, names, ran)
    ensures Moved(was, r, names + [d], ran)
    ensures d in Names(was) && d !in ran ==>
      && LastNamed(was, d) in r.tasks
      && Moved(was, Round(ToFront(r.tasks, LastNamed(was, d)), false, r.added), names + [d], ran)
  {
  }

  /** The order dependencies seen so far that are on the list and have not run have been brought to the front. */
  ghost predicate OrderPulled(was: seq<Task>, r0: Round, r: Round, deps: seq<Name>, seen: seq<Name>, ran: set<Name>) {
    && (forall t :: t in was ==> t in r0.tasks)
    && Moved(was, r, deps + seen, ran) && r.added == r0.added
    && r.tasks == OrderDepsPulled(was, r0.tasks, seen, ran)
    && (forall t :: t in r.tasks ==> t.name in Names(was) || t.name in deps)
    && (r.settled <==> r0.settled && forall d :: d in seen && d in Names(was) ==> d in ran)
  }

  /** Leave a name where it is, or bring its last entry to the front. */
  function PullOne(was: seq<Task>, r: Round, ran: set<Name>, d: Name): (r': Round)
    requires d in Names(was) && d !in ran ==> LastNamed(was, d) in r.tasks
  {
    if d in Names(was) && d !in ran then Round(ToFront(r.tasks, LastNamed(was, d)), false, r.added) else r
  }

  lemma OrderPulledMore(was: seq<Task>, r0: Round, r: Round, deps: seq<Name>, orderDeps: seq<Name>, ran: set<Name>,
                        i: nat)
    requires i < |orderDeps| && OrderPulled(was, r0, r, deps, orderDeps[..i], ran)
    ensures orderDeps[i] in Names(was) && orderDeps[i] !in ran ==> LastNamed(was, orderDeps[i]) in r.tasks
    ensures OrderPulled(was, r0, PullOne(was, r, ran, orderDeps[i]), deps, orderDeps[..i + 1], ran)
  {
    var d, seen := orderDeps[i], orderDeps[..i];
    hide Moved, ToFront, LastNamed, OrderDepsPulled;
    assert orderDeps[..i + 1] == seen + [d] && deps + (seen + [d]) == deps + seen + [d];
    MovedMore(was, r, deps + seen, ran, d);
    OrderDepsPulledLast(was, r0.tasks, seen, d, ran);
    assert forall x :: x in seen + [d] <==> x in seen || x == d;
    hide Names;
  }

  /** Bring the order dependencies that are on the list and have not run to the front. */
  method PullOrderDependencies(was: seq<Task>, r0: Round, deps: seq<Name>, orderDeps: seq<Name>, ran: set<Name>)
    returns (r: Round)
    requires Moved(was, r0, deps, ran)
    ensures Moved(was, r, deps + orderDeps, ran) && r.added == r0.added
    ensures r.tasks == OrderDepsPulled(was, r0.tasks, orderDeps, ran)
    ensures forall t :: t in r.tasks ==> t.name in Names(was) || t.name in deps
    ensures r.settled <==> r0.settled && forall d :: d in orderDeps && d in Names(was) ==> d in ran
  {
    r := r0;
    assert deps + [] == deps;
    assert OrderPulled(was, r0, r0, deps, [], ran);
    assert orderDeps[..0] == [] && orderDeps[..|orderDeps|] == orderDeps;
    hide Moved, ToFront, LastNamed, Names, PullOne, OrderDepsPulled;
    for i := 0 to |orderDeps|
      invariant OrderPulled(was, r0, r, deps, orderDeps[..i], ran)
    {
      OrderPulledMore(was, r0, r, deps, orderDeps, ran, i);
      r := PullOne(was, r, ran, orderDeps[i]);
    }
  }

  /** Invariant of the ordering loop: list and result together hold everything given and nothing beyond its closure. */
  ghost predicate Progress(cmds: Table, given: set<Name>, tasks: seq<Task>, order: seq<Task>) {
    && Names(tasks) + Names(order) <= cmds.Keys
    && given <= Names(tasks) + Names(order)
    && Ordered(cmds, order, given)
    && (forall s :: given <= s && ClosedUnder(cmds, s) ==> Names(tasks) + Names(order) <= s)
  }

  /** Running the front task when everything it must follow has run keeps the invariant. */
  lemma RunFront(cmds: Table, given: set<Name>, tasks: seq<Task>, order: seq<Task>)
    requires tasks != [] && Progress(cmds, given, tasks, order)
    requires forall d :: d in cmds[tasks[0].name].deps ==> d in Names(order)
    requires forall d :: d in cmds[tasks[0].name].orderDeps && d in Names(tasks) ==> d in Names(order)
    ensures var order' := if tasks[0].name in Names(order) then order else order + [tasks[0]];
      Progress(cmds, given, tasks[1..], order') && Unseen(cmds, tasks[1..], order') == Unseen(cmds, tasks, order)
  {
    var t := tasks[0];
    var order' := if t.name in Names(order) then order else order + [t];
    assert tasks == [t] + tasks[1..];
    assert Names(tasks) == {t.name} + Names(tasks[1..]);
    assert Names(order') == Names(order) + {t.name};
    if t.name !in Names(order) {
      OrderedOneMore(cmds, given, tasks, order);
    }
  }

  lemma OrderedOneMore(cmds: Table, given: set<Name>, tasks: seq<Task>, order: seq<Task>)
    requires tasks != [] && Ordered(cmds, order, given) && tasks[0].name in cmds && tasks[0].name !in Names(order)
    requires given <= Names(tasks) + Names(order)
    requires forall d :: d in cmds[tasks[0].name].deps ==> d in Names(order)
    requires forall d :: d in cmds[tasks[0].name].orderDeps && d in Names(tasks) ==> d in Names(order)
    ensures Ordered(cmds, order + [tasks[0]], given)
  {
    var more := order + [tasks[0]];
    forall i, d | 0 <= i < |more| && d in cmds[more[i].name].deps
      ensures Before(more, i, d)
    {
      StandsBefore(order, tasks[0], i, d);
    }
    forall i, d | 0 <= i < |more| && d in cmds[more[i].name].orderDeps && d in given
      ensures Before(more, i, d)
    {
      StandsBefore(order, tasks[0], i, d);
    }
  }

  lemma StandsBefore(order: seq<Task>, t: Task, i: nat, d: Name)
    requires i <= |order|
    requires if i < |order| then Before(order, i, d) else d in Names(order)
    ensures Before(order + [t], i, d)
  {
    if i < |order| {
      var j :| 0 <= j < i && order[j].name == d;
      assert (order + [t])[j].name == d;
    } else {
      var x :| x in order && x.name == d;
      var j :| 0 <= j < |order| && order[j] == x;
      assert (order + [t])[j].name == d;
    }
  }

  /** Moving dependencies to the front keeps the invariant. */
  lemma PullKeeps(cmds: Table, given: set<Name>, tasks: seq<Task>, order: seq<Task>, r: Round, deps: seq<Name>,
                  orderDeps: seq<Name>, rank: Ranks)
    requires tasks != [] && Progress(cmds, given, tasks, order) && Acyclic(cmds, rank)
    requires deps == cmds[tasks[0].name].deps && orderDeps == cmds[tasks[0].name].orderDeps
    requires Moved(tasks, r, deps + orderDeps, Names(order))
    requires forall t :: t in r.tasks ==> t.name in Names(tasks) || t.name in deps
    ensures Progress(cmds, given, r.tasks, order) && r.tasks[0].name in rank && tasks[0].name in rank
    ensures Names(r.tasks) <= cmds.Keys
    ensures !r.settled ==> rank[r.tasks[0].name] < rank[tasks[0].name]
  {
    assert Names(tasks) <= Names(r.tasks);
    forall s | given <= s && ClosedUnder(cmds, s)
      ensures Names(r.tasks) + Names(order) <= s
    {
      assert tasks[0].name in Names(tasks);
    }
  }

  lemma FrontKnown(cmds: Table, given: set<Name>, tasks: seq<Task>, order: seq<Task>)
    requires tasks != [] && Progress(cmds, given, tasks, order)
    ensures tasks[0].name in cmds
  {
    assert tasks[0].name in Names(tasks);
  }

  lemma ResultClosed(cmds: Table, order: seq<Task>, given: set<Name>)
    requires Ordered(cmds, order, given)
    ensures ClosedUnder(cmds, Names(order))
  {
    forall n, d | n in Names(order) && n in cmds && d in cmds[n].deps
      ensures d in Names(order)
    {
      var i :| 0 <= i < |order| && order[i].name == n;
      assert Before(order, i, d);
      var j :| 0 <= j < i && order[j].name == d;
      assert order[j] in order;
    }
  }

  lemma Finished(cmds: Table, order: seq<Task>, given: set<Name>)
    requires Progress(cmds, given, [], order)
    ensures Ordered(cmds, order, given) && given <= Names(order) <= cmds.Keys && ClosedUnder(cmds, Names(order))
    ensures forall s :: given <= s && ClosedUnder(cmds, s) ==> Names(order) <= s
  {
    assert Names([]) == {};
    ResultClosed(cmds, order, given);
  }

  /** Commands that are neither on the list nor in the result yet. */
  ghost function Unseen(cmds: Table, tasks: seq<Task>, order: seq<Task>): (s: set<Name>) {
    cmds.Keys - Names(tasks) - Names(order)
  }

  /** A round that added a task leaves fewer commands unseen, any other leaves the same ones unseen. */
  lemma PullMeasure(cmds: Table, tasks: seq<Task>, order: seq<Task>, r: Round, deps: seq<Name>)
    requires Moved(tasks, r, deps, Names(order)) && Names(r.tasks) <= cmds.Keys
    ensures r.added ==> |Unseen(cmds, r.tasks, order)| < |Unseen(cmds, tasks, order)|
    ensures !r.added ==> |Unseen(cmds, r.tasks, order)| == |Unseen(cmds, tasks, order)| && |r.tasks| == |tasks|
  {
    assert Names(tasks) <= Names(r.tasks);
    if r.added {
      var t :| t in r.tasks && t.name !in Names(tasks) && t.name !in Names(order);
      assert t.name in Names(r.tasks);
      hide Names, Moved;
      Smaller(Unseen(cmds, r.tasks, order), Unseen(cmds, tasks, order), t.name);
    } else {
      assert Unseen(cmds, r.tasks, order) == Unseen(cmds, tasks, order);
    }
  }

  lemma Smaller(a: set<Name>, b: set<Name>, x: Name)
    requires a <= b && x in b && x !in a
    ensures |a| < |b|
  {
    assert b == a + (b - a) && x in b - a;
  }

  /** An entry moved to the front is visited there, and passed over where it stood. */
  lemma FrontVisited(cmds: Table, rank: Ranks, bound: nat, s: seq<Task>, t: Task, v: Visit)
    requires Acyclic(cmds, rank) && v.listed <= cmds.Keys && Known(cmds, rank, bound, NamesOf(s)) && t in s
    ensures Known(cmds, rank, bound, NamesOf(ToFront(s, t))) && t.name in cmds
    ensures Visits(cmds, rank, bound, NamesOf(ToFront(s, t)), v)
         == Visits(cmds, rank, bound, NamesOf(s), Enter(cmds, rank, t.name, v))
  {
    hide Visits, Enter, Acyclic, ToFront;
    var a, b := ToFrontParts(s, t);
    var na, nb, x := NamesOf(a), NamesOf(b), t.name;
    NamesOfAppend(a, b);
    NamesOfAppend([t], b);
    NamesOfAppend(a, [t] + b);
    NamesOfAppend([t], a + b);
    assert NamesOf([t]) == [x];
    hide NamesOf;
    assert Known(cmds, rank, bound, na) && Known(cmds, rank, bound, nb) && Known(cmds, rank, bound, [x]) by {
      assert forall y :: y in na || y in nb || y == x ==> y in na + ([x] + nb);
    }
    assert Known(cmds, rank, bound, [x] + (na + nb));
    EnterGrows(cmds, rank, x, v);
    VisitsFirst(cmds, rank, bound, x, na + nb, v);
    VisitsDrop(cmds, rank, bound, na, x, nb, Enter(cmds, rank, x, v));
  }

  lemma OneName(t: Task, s: seq<Task>)
    ensures NamesOf([t] + s) == [t.name] + NamesOf(s)
  {
  }

  /** A name left alone, added or moved to the front: it is visited before whatever the list amounts to. */
  lemma OnePulled(cmds: Table, rank: Ranks, bound: nat, t: Task, cur: seq<Task>, after: seq<Task>, rest: seq<Name>,
                  v: Visit)
    requires Acyclic(cmds, rank) && v.listed <= cmds.Keys && Known(cmds, rank, bound, NamesOf(cur))
    requires Known(cmds, rank, bound, rest) && Known(cmds, rank, bound, [t.name])
    requires t.name in cmds && Visits(cmds, rank, bound, NamesOf(cur), Enter(cmds, rank, t.name, v))
                            == Visits(cmds, rank, bound, rest, Enter(cmds, rank, t.name, v))
    requires (after == cur && t.name in v.ran) || after == [t] + cur || (t in cur && after == ToFront(cur, t))
    ensures Known(cmds, rank, bound, NamesOf(after)) && Known(cmds, rank, bound, [t.name] + rest)
    ensures Visits(cmds, rank, bound, NamesOf(after), v) == Visits(cmds, rank, bound, [t.name] + rest, v)
  {
    EnterRan(cmds, rank, t.name, v);
    hide Visits, Acyclic, NamesOf, ToFront, Known, Enter;
    KnownParts(cmds, rank, bound, [t.name], rest);
    VisitsFirst(cmds, rank, bound, t.name, rest, v);
    if after == cur && t.name in v.ran {
    } else if after == [t] + cur {
      OneName(t, cur);
      KnownParts(cmds, rank, bound, [t.name], NamesOf(cur));
      VisitsFirst(cmds, rank, bound, t.name, NamesOf(cur), v);
    } else {
      FrontVisited(cmds, rank, bound, cur, t, v);
    }
  }

  lemma Regrouped(a: seq<Name>, b: seq<Name>, c: seq<Name>)
    ensures a + b + c == a + (b + c)
  {
  }

  /** Pulling dependencies to the front amounts to visiting them, the last one first, before the list. */
  lemma {:induction false} DepsVisited(cmds: Table, rank: Ranks, bound: nat, was: seq<Task>, deps: seq<Name>,
                                       ran: set<Name>, id: nat, v: Visit)
    requires Acyclic(cmds, rank) && v.listed <= cmds.Keys && forall x :: x in ran ==> x in v.ran
    requires Known(cmds, rank, bound, NamesOf(was)) && Known(cmds, rank, bound, deps)
    ensures Known(cmds, rank, bound, NamesOf(DepsPulled(was, deps, ran, id).0))
    ensures Known(cmds, rank, bound, Backwards(deps, cmds.Keys) + NamesOf(was))
    ensures Visits(cmds, rank, bound, NamesOf(DepsPulled(was, deps, ran, id).0), v)
         == Visits(cmds, rank, bound, Backwards(deps, cmds.Keys) + NamesOf(was), v)
    decreases |deps|
  {
    if deps == [] {
      assert [] + NamesOf(was) == NamesOf(was);
    } else {
      var k := |deps| - 1;
      var before, d := deps[..k], deps[k];
      assert deps == before + [d];
      hide Visits, Acyclic, DepsPulled, Backwards, NamesOf, Names, LastNamed, ToFront, Enter;
      KnownParts(cmds, rank, bound, before, [d]);
      assert d in [d];
      var cur, back := DepsPulled(was, before, ran, id), Backwards(before, cmds.Keys);
      EnterGrows(cmds, rank, d, v);
      DepsVisited(cmds, rank, bound, was, before, ran, id, Enter(cmds, rank, d, v));
      hide Known, Grown;
      BackwardsLast(before, d, cmds.Keys);
      DepsPulledLast(was, before, d, ran, id);
      Regrouped([d], back, NamesOf(was));
      var t := if d in Names(was) then LastNamed(was, d) else Task(d, cur.1);
      OnePulled(cmds, rank, bound, t, cur.0, DepsPulled(was, deps, ran, id).0, back + NamesOf(was), v);
    }
  }

  /** The same for order dependencies. */
  lemma {:induction false} OrderDepsVisited(cmds: Table, rank: Ranks, bound: nat, was: seq<Task>, start: seq<Task>,
                                            orderDeps: seq<Name>, ran: set<Name>, listed: set<Name>, v: Visit)
    requires Acyclic(cmds, rank) && v.listed <= cmds.Keys && (forall x :: x in ran ==> x in v.ran)
    requires (forall t :: t in was ==> t in start) && Known(cmds, rank, bound, NamesOf(start))
    requires listed == Names(was) + ran && Known(cmds, rank, bound, Backwards(orderDeps, listed))
    ensures Known(cmds, rank, bound, NamesOf(OrderDepsPulled(was, start, orderDeps, ran)))
    ensures Known(cmds, rank, bound, Backwards(orderDeps, listed) + NamesOf(start))
    ensures Visits(cmds, rank, bound, NamesOf(OrderDepsPulled(was, start, orderDeps, ran)), v)
         == Visits(cmds, rank, bound, Backwards(orderDeps, listed) + NamesOf(start), v)
    decreases |orderDeps|
  {
    if orderDeps == [] {
      assert [] + NamesOf(start) == NamesOf(start);
    } else {
      var k := |orderDeps| - 1;
      var before, d := orderDeps[..k], orderDeps[k];
      assert orderDeps == before + [d];
      hide Visits, Acyclic, OrderDepsPulled, Backwards, NamesOf, Names, LastNamed, ToFront, Enter;
      var cur, back := OrderDepsPulled(was, start, before, ran), Backwards(before, listed);
      BackwardsLast(before, d, listed);
      OrderDepsPulledLast(was, start, before, d, ran);
      if d !in listed {
        assert [] + back == back;
        OrderDepsVisited(cmds, rank, bound, was, start, before, ran, listed, v);
      } else {
        KnownParts(cmds, rank, bound, [d], back);
        assert d in [d];
        EnterGrows(cmds, rank, d, v);
        OrderDepsVisited(cmds, rank, bound, was, start, before, ran, listed, Enter(cmds, rank, d, v));
        hide Known, Grown;
        Regrouped([d], back, NamesOf(start));
        var t := if d in Names(was) then LastNamed(was, d) else Task(d, 0);
        OnePulled(cmds, rank, bound, t, cur, OrderDepsPulled(was, start, orderDeps, ran), back + NamesOf(start), v);
      }
    }
  }

  /** The visit as it stands in the loop. */
  function StandsAt(tasks: seq<Task>, order: seq<Task>, log: seq<Pull>): (v: Visit) {
    Visit(Names(tasks) + Names(order), NamesOf(order), log)
  }

  /** The visit that the rest of the loop amounts to. */
  ghost function Remaining(cmds: Table, rank: Ranks, tasks: seq<Task>, order: seq<Task>, log: seq<Pull>): (w: Visit)
    requires Acyclic(cmds, rank) && Names(tasks) + Names(order) <= cmds.Keys
  {
    AllKnown(cmds, rank, tasks);
    Visits(cmds, rank, Top(rank), NamesOf(tasks), StandsAt(tasks, order, log))
  }

  lemma AllKnown(cmds: Table, rank: Ranks, s: seq<Task>)
    requires Acyclic(cmds, rank) && Names(s) <= cmds.Keys
    ensures Known(cmds, rank, Top(rank), NamesOf(s))
  {
    NamesOfIn(s);
  }

  /** Everything that the front task must follow has run. */
  predicate Settled(cmds: Table, tasks: seq<Task>, order: seq<Task>)
    requires tasks != [] && tasks[0].name in cmds
  {
    && (forall d :: d in cmds[tasks[0].name].deps ==> d in Names(order))
    && (forall d :: d in cmds[tasks[0].name].orderDeps && d in Names(tasks) ==> d in Names(order))
  }

  /** The list after a round that pulls what the front task must follow, and the next fresh id. */
  function Pulled(cmds: Table, tasks: seq<Task>, order: seq<Task>, id: nat): (r: (seq<Task>, nat))
    requires tasks != [] && tasks[0].name in cmds
  {
    var c, ran := cmds[tasks[0].name], Names(order);
    var p := DepsPulled(tasks, c.deps, ran, id);
    (OrderDepsPulled(tasks, p.0, c.orderDeps, ran), p.1)
  }

  /** What has run is what the list of results names. */
  lemma ChildrenRan(cmds: Table, tasks: seq<Task>, order: seq<Task>, log: seq<Pull>)
    requires tasks != [] && tasks[0].name in cmds && Settled(cmds, tasks, order)
    ensures var v := StandsAt(tasks, order, log);
      && (forall x :: x in Children(cmds, tasks[0].name, v.listed) ==> x in v.ran)
      && (forall d :: d in cmds[tasks[0].name].deps ==> d in v.listed)
  {
    NamesOfIn(order);
  }

  /** The result after running the front task. */
  function Ran(tasks: seq<Task>, order: seq<Task>): (r: seq<Task>)
    requires tasks != []
  {
    if tasks[0].name in Names(order) then order else order + [tasks[0]]
  }

  lemma RanNames(tasks: seq<Task>, order: seq<Task>)
    requires tasks != []
    ensures Names(tasks) == {tasks[0].name} + Names(tasks[1..])
    ensures Names(Ran(tasks, order)) == Names(order) + {tasks[0].name} && order <= Ran(tasks, order)
    ensures tasks[0].name !in Names(order) ==> tasks[0] in Ran(tasks, order)
    ensures NamesOf(Ran(tasks, order))
         == if tasks[0].name in Names(order) then NamesOf(order) else NamesOf(order) + [tasks[0].name]
  {
    assert tasks == [tasks[0]] + tasks[1..];
  }

  lemma FirstName(s: seq<Task>)
    requires s != []
    ensures NamesOf(s) == [s[0].name] + NamesOf(s[1..])
  {
  }

  /** Running the front task is a step of the visit. */
  lemma RunFollows(cmds: Table, rank: Ranks, tasks: seq<Task>, order: seq<Task>, log: seq<Pull>)
    requires Acyclic(cmds, rank) && tasks != [] && Names(tasks) + Names(order) <= cmds.Keys
    requires tasks[0].name in cmds && Settled(cmds, tasks, order)
    ensures Names(tasks[1..]) + Names(Ran(tasks, order)) <= cmds.Keys
    ensures Remaining(cmds, rank, tasks[1..], Ran(tasks, order), log) == Remaining(cmds, rank, tasks, order, log)
  {
    var m, v := tasks[0].name, StandsAt(tasks, order, log);
    AllKnown(cmds, rank, tasks);
    RanNames(tasks, order);
    FirstName(tasks);
    NamesOfIn(order);
    ChildrenRan(cmds, tasks, order, log);
    AllKnown(cmds, rank, tasks[1..]);
    StandsAfter(tasks, order, log);
    hide Acyclic, Names, NamesOf, Ran, Settled, Visits, Known, Top, Enter, Children;
    VisitsFirst(cmds, rank, Top(rank), m, NamesOf(tasks[1..]), v);
    if m in v.ran {
      EnterRan(cmds, rank, m, v);
    } else {
      EnterSettled(cmds, rank, m, v);
    }
  }

  lemma StandsAfter(tasks: seq<Task>, order: seq<Task>, log: seq<Pull>)
    requires tasks != []
    ensures var v, m := StandsAt(tasks, order, log), tasks[0].name;
      && Names(tasks[1..]) + Names(Ran(tasks, order)) == v.listed
      && StandsAt(tasks[1..], Ran(tasks, order), log) == if m in Names(order) then v else v.(ran := v.ran + [m])
  {
    RanNames(tasks, order);
    hide Names, NamesOf, Ran;
    assert Names(tasks[1..]) + Names(Ran(tasks, order)) == Names(tasks) + Names(order);
  }

  /** The names on the list after a pull. */
  lemma {:induction false} DepsPulledNames(was: seq<Task>, deps: seq<Name>, ran: set<Name>, id: nat)
    ensures Names(DepsPulled(was, deps, ran, id).0) == Names(was) + (set d | d in deps && d !in ran)
    decreases |deps|
  {
    if deps == [] {
      assert (set d | d in deps && d !in ran) == {};
    } else {
      var k := |deps| - 1;
      var before, d := deps[..k], deps[k];
      assert deps == before + [d];
      DepsPulledNames(was, before, ran, id);
      DepsPulledLast(was, before, d, ran, id);
      var p := DepsPulled(was, before, ran, id);
      assert (set x | x in deps && x !in ran) == (set x | x in before && x !in ran) + (if d in ran then {} else {d});
      hide DepsPulled, LastNamed;
      assert Names([Task(d, p.1)] + p.0) == {d} + Names(p.0) by {
        assert Task(d, p.1) in [Task(d, p.1)] + p.0;
      }
    }
  }

  /** What the visit pulls when it enters the front task. */
  lemma PulledListed(cmds: Table, rank: Ranks, tasks: seq<Task>, order: seq<Task>, log: seq<Pull>, id: nat)
    requires Acyclic(cmds, rank) && tasks != [] && Names(tasks) + Names(order) <= cmds.Keys && tasks[0].name in cmds
    ensures var e, after := Entered(cmds, tasks[0].name, StandsAt(tasks, order, log)), Pulled(cmds, tasks, order, id).0;
      Names(after) + Names(order) == e.listed <= cmds.Keys && e == StandsAt(after, order, e.log)
  {
    var c := cmds[tasks[0].name];
    assert forall d :: d in c.deps ==> d in cmds;
    hide DepsPulled, OrderDepsPulled, Names, Acyclic, NamesOf, Children;
    DepsPulledNames(tasks, c.deps, Names(order), id);
    var p := DepsPulled(tasks, c.deps, Names(order), id).0;
    SameNames(OrderDepsPulled(tasks, p, c.orderDeps, Names(order)), p);
    JoinedNames(Names(tasks), Names(order), c.deps);
  }

  lemma SameNames(a: seq<Task>, b: seq<Task>)
    requires forall t :: t in a <==> t in b
    ensures Names(a) == Names(b)
  {
  }

  lemma JoinedNames(a: set<Name>, b: set<Name>, deps: seq<Name>)
    ensures a + (set d | d in deps && d !in b) + b == a + b + (set d | d in deps)
  {
  }

  lemma PartsKnown(cmds: Table, rank: Ranks, m: Name, listed: set<Name>)
    requires Acyclic(cmds, rank) && m in cmds && listed <= cmds.Keys
    ensures Known(cmds, rank, Top(rank), Backwards(cmds[m].orderDeps, listed))
    ensures Known(cmds, rank, Top(rank), Backwards(cmds[m].deps, cmds.Keys))
    ensures Known(cmds, rank, Top(rank), cmds[m].deps)
  {
    hide Backwards;
  }

  /** The list after a pull amounts to the children of the front task and the list before. */
  lemma PulledVisited(cmds: Table, rank: Ranks, tasks: seq<Task>, order: seq<Task>, id: nat, e: Visit)
    requires Acyclic(cmds, rank) && tasks != [] && Names(tasks) + Names(order) <= cmds.Keys && tasks[0].name in cmds
    requires e.listed <= cmds.Keys && e.ran == NamesOf(order)
    ensures var c := Children(cmds, tasks[0].name, Names(tasks) + Names(order));
      var after := Pulled(cmds, tasks, order, id).0;
      && Known(cmds, rank, Top(rank), c) && Known(cmds, rank, Top(rank), NamesOf(tasks))
      && Known(cmds, rank, Top(rank), NamesOf(after))
      && Visits(cmds, rank, Top(rank), NamesOf(after), e)
      == Visits(cmds, rank, Top(rank), NamesOf(tasks), Visits(cmds, rank, Top(rank), c, e))
  {
    var m, listed, ran, top := tasks[0].name, Names(tasks) + Names(order), Names(order), Top(rank);
    var bo, bd := Backwards(cmds[m].orderDeps, listed), Backwards(cmds[m].deps, cmds.Keys);
    var p := DepsPulled(tasks, cmds[m].deps, ran, id).0;
    AllKnown(cmds, rank, tasks);
    NamesOfIn(order);
    PartsKnown(cmds, rank, m, listed);
    hide Visits, Acyclic, NamesOf, Names, DepsPulled, OrderDepsPulled, Backwards, Known, Top;
    KnownParts(cmds, rank, top, bo, bd);
    VisitsGrow(cmds, rank, top, bo, e);
    var u := Visits(cmds, rank, top, bo, e);
    DepsVisited(cmds, rank, top, tasks, cmds[m].deps, ran, id, u);
    OrderDepsVisited(cmds, rank, top, tasks, p, cmds[m].orderDeps, ran, listed, e);
    VisitsAppend(cmds, rank, top, bo, NamesOf(p), e);
    VisitsAppend(cmds, rank, top, bd, NamesOf(tasks), u);
    VisitsAppend(cmds, rank, top, bo, bd, e);
  }

  /** A round that pulls is a step of the visit. */
  lemma PullFollows(cmds: Table, rank: Ranks, tasks: seq<Task>, order: seq<Task>, log: seq<Pull>, id: nat)
    requires Acyclic(cmds, rank) && tasks != [] && Names(tasks) + Names(order) <= cmds.Keys
    requires tasks[0].name in cmds && tasks[0].name !in Names(order)
    ensures var e, after := Entered(cmds, tasks[0].name, StandsAt(tasks, order, log)), Pulled(cmds, tasks, order, id).0;
      && Names(after) + Names(order) <= cmds.Keys
      && Remaining(cmds, rank, after, order, e.log) == Remaining(cmds, rank, tasks, order, log)
  {
    var m, v := tasks[0].name, StandsAt(tasks, order, log);
    var e, c := Entered(cmds, m, v), Children(cmds, m, v.listed);
    PulledListed(cmds, rank, tasks, order, log, id);
    PulledVisited(cmds, rank, tasks, order, id, e);
    NamesOfIn(order);
    FirstName(tasks);
    hide Acyclic, Names, NamesOf, Visits, Enter, Entered, Children, Known, Top, Pulled;
    EnterAgain(cmds, rank, Top(rank), m, v);
    VisitsFirst(cmds, rank, Top(rank), m, NamesOf(tasks[1..]), Visits(cmds, rank, Top(rank), c, e));
    VisitsFirst(cmds, rank, Top(rank), m, NamesOf(tasks[1..]), v);
  }

  predicate OrdersAfter(cmds: Table, m: Name, d: Name) {
    m in cmds && d in cmds[m].orderDeps
  }

  /** An entry that has run stands behind all of its order dependencies on the list that have not. */
  ghost predicate Covered(cmds: Table, tasks: seq<Task>, ran: set<Name>) {
    forall i, d :: 0 <= i < |tasks| && tasks[i].name in ran && OrdersAfter(cmds, tasks[i].name, d) && d in Names(tasks)
                   && d !in ran ==>
      d in Names(tasks[..i])
  }

  lemma CoveredMove(cmds: Table, s: seq<Task>, ran: set<Name>, t: Task)
    requires Covered(cmds, s, ran) && t in s && t.name !in ran
    ensures Covered(cmds, ToFront(s, t), ran)
  {
    var i := IndexOf(s, t);
    var r := ToFront(s, t);
    assert r == [t] + s[..i] + s[i + 1..];
    forall j, d | 0 <= j < |r| && r[j].name in ran && OrdersAfter(cmds, r[j].name, d) && d in Names(r) && d !in ran
      ensures d in Names(r[..j])
    {
      var k := if j <= i then j - 1 else j;
      assert r[j] == s[k];
      var x :| x in s[..k] && x.name == d;
      hide Covered, ToFront;
      StaysBefore(s, i, r, k, j, x);
    }
  }

  /** What stands before another entry still does after one has been moved to the front. */
  lemma StaysBefore(s: seq<Task>, i: nat, r: seq<Task>, k: nat, j: nat, x: Task)
    requires i < |s| && r == [s[i]] + s[..i] + s[i + 1..] && 0 < j < |r| && k == (if j <= i then j - 1 else j)
    requires x in s[..k]
    ensures x in r[..j]
  {
    var q :| 0 <= q < k && s[q] == x;
    assert r[if q == i then 0 else if q < i then q + 1 else q] == x;
  }

  lemma CoveredAdd(cmds: Table, s: seq<Task>, ran: set<Name>, t: Task)
    requires Covered(cmds, s, ran) && t.name !in ran
    ensures Covered(cmds, [t] + s, ran)
  {
    var r := [t] + s;
    forall j, d | 0 <= j < |r| && r[j].name in ran && OrdersAfter(cmds, r[j].name, d) && d in Names(r) && d !in ran
      ensures d in Names(r[..j])
    {
      assert r[..j] == [t] + s[..j - 1] && r[j] == s[j - 1];
      assert t in r[..j];
    }
  }

  lemma {:induction false} DepsCovered(cmds: Table, was: seq<Task>, deps: seq<Name>, ran: set<Name>, id: nat)
    requires Covered(cmds, was, ran)
    ensures Covered(cmds, DepsPulled(was, deps, ran, id).0, ran)
    decreases |deps|
  {
    hide Covered;
    if deps != [] {
      DepsCovered(cmds, was, deps[..|deps| - 1], ran, id);
      var d, p := deps[|deps| - 1], DepsPulled(was, deps[..|deps| - 1], ran, id);
      if d !in ran && d !in Names(was) {
        CoveredAdd(cmds, p.0, ran, Task(d, p.1));
      } else if d !in ran {
        CoveredMove(cmds, p.0, ran, LastNamed(was, d));
      }
    }
  }

  lemma {:induction false} OrderDepsCovered(cmds: Table, was: seq<Task>, start: seq<Task>, orderDeps: seq<Name>,
                                            ran: set<Name>)
    requires (forall t :: t in was ==> t in start) && Covered(cmds, start, ran)
    ensures Covered(cmds, OrderDepsPulled(was, start, orderDeps, ran), ran)
    decreases |orderDeps|
  {
    hide Covered;
    if orderDeps != [] {
      OrderDepsCovered(cmds, was, start, orderDeps[..|orderDeps| - 1], ran);
      var d := orderDeps[|orderDeps| - 1];
      if d in Names(was) && d !in ran {
        CoveredMove(cmds, OrderDepsPulled(was, start, orderDeps[..|orderDeps| - 1], ran), ran, LastNamed(was, d));
      }
    }
  }

  lemma CoveredRun(cmds: Table, tasks: seq<Task>, order: seq<Task>)
    requires tasks != [] && tasks[0].name in cmds && Settled(cmds, tasks, order) && Covered(cmds, tasks, Names(order))
    ensures Covered(cmds, tasks[1..], Names(Ran(tasks, order)))
  {
    RanNames(tasks, order);
    var r, ran' := tasks[1..], Names(Ran(tasks, order));
    hide Ran;
    forall j, d | 0 <= j < |r| && r[j].name in ran' && OrdersAfter(cmds, r[j].name, d) && d in Names(r) && d !in ran'
      ensures d in Names(r[..j])
    {
      assert tasks[j + 1] == r[j] && tasks[..j + 1][1..] == r[..j];
      RanNames(tasks[..j + 1], order);
      hide Names;
      assert d in Names(tasks[..j + 1]);
    }
  }

  /** A task whose name has run is never held up. */
  lemma RanIsSettled(cmds: Table, given: set<Name>, tasks: seq<Task>, order: seq<Task>)
    requires tasks != [] && tasks[0].name in cmds && tasks[0].name in Names(order)
    requires Ordered(cmds, order, given) && Covered(cmds, tasks, Names(order))
    ensures Settled(cmds, tasks, order)
  {
    ResultClosed(cmds, order, given);
    hide Ordered;
    assert Names(tasks[..0]) == {};
  }

  lemma {:induction false} DepsShifted(was: seq<Task>, deps: seq<Name>, ran: set<Name>, id: nat, n: Name)
    ensures Shifted(was, DepsPulled(was, deps, ran, id).0, n, n in deps && n !in ran)
    decreases |deps|
  {
    if deps != [] {
      var k := |deps| - 1;
      var before, d := deps[..k], deps[k];
      assert deps == before + [d];
      DepsShifted(was, before, ran, id, n);
      DepsPulledLast(was, before, d, ran, id);
      var p := DepsPulled(was, before, ran, id);
      hide DepsPulled, LastNamed;
      assert n in deps <==> n in before || n == d;
      if d !in ran && d in Names(was) {
        hide Shifted;
        ShiftedMove(was, p.0, n, n in before && n !in ran, d);
      } else if d !in ran {
        InFront(Task(d, p.1), p.0, n);
        assert [] + Occurrences(p.0, n) == Occurrences(p.0, n);
      }
    }
  }

  lemma {:induction false} OrderDepsShifted(was: seq<Task>, start: seq<Task>, orderDeps: seq<Name>, ran: set<Name>,
                                            n: Name, pulled: bool)
    requires (forall t :: t in was ==> t in start) && Shifted(was, start, n, pulled)
    ensures Shifted(was, OrderDepsPulled(was, start, orderDeps, ran), n,
                    pulled || (n in orderDeps && n in Names(was) && n !in ran))
    decreases |orderDeps|
  {
    if orderDeps != [] {
      var k := |orderDeps| - 1;
      var before, d := orderDeps[..k], orderDeps[k];
      assert orderDeps == before + [d];
      OrderDepsShifted(was, start, before, ran, n, pulled);
      OrderDepsPulledLast(was, start, before, d, ran);
      var p := OrderDepsPulled(was, start, before, ran);
      hide OrderDepsPulled, LastNamed, Shifted;
      assert n in orderDeps <==> n in before || n == d;
      if d in Names(was) && d !in ran {
        ShiftedMove(was, p, n, pulled || (n in before && n in Names(was) && n !in ran), d);
      }
    }
  }

  /** n is given, and its entries can be told apart. */
  ghost predicate Watched(given: seq<Task>, n: Name) {
    n in Names(given) && Distinct(Occurrences(given, n))
  }

  /** The entries of n have been turned once for each command that pulled it; when n runs, the first of them is kept. */
  ghost predicate Followed(given: seq<Task>, n: Name, tasks: seq<Task>, order: seq<Task>, log: seq<Pull>) {
    Watched(given, n) ==>
      var o := Turns(Occurrences(given, n), |PullersIn(log, n)|);
      if n in Names(order) then o != [] && o[0] in order else n in Names(tasks) && Occurrences(tasks, n) == o
  }

  lemma FollowedAtFirst(given: seq<Task>, n: Name)
    ensures Followed(given, n, given, [], [])
  {
    assert Names([]) == {};
  }

  lemma FollowRun(given: seq<Task>, n: Name, tasks: seq<Task>, order: seq<Task>, log: seq<Pull>)
    requires tasks != [] && Followed(given, n, tasks, order, log)
    ensures Followed(given, n, tasks[1..], Ran(tasks, order), log)
  {
    RanNames(tasks, order);
    assert [] + Occurrences(tasks[1..], n) == Occurrences(tasks[1..], n);
    assert Occurrences(tasks, n) == (if tasks[0].name == n then [tasks[0]] else []) + Occurrences(tasks[1..], n);
    hide Occurrences, Turns, PullersIn, Names, Ran, Watched;
  }

  /** The front task pulls n. */
  predicate PullsFront(cmds: Table, tasks: seq<Task>, order: seq<Task>, n: Name)
    requires tasks != [] && tasks[0].name in cmds
  {
    n in Children(cmds, tasks[0].name, Names(tasks) + Names(order)) && n !in Names(order)
  }

  lemma PulledShifted(cmds: Table, tasks: seq<Task>, order: seq<Task>, id: nat, n: Name)
    requires tasks != [] && tasks[0].name in cmds && forall d :: d in cmds[tasks[0].name].deps ==> d in cmds
    ensures n in Names(tasks) ==>
      && Shifted(tasks, Pulled(cmds, tasks, order, id).0, n, PullsFront(cmds, tasks, order, n))
      && n in Names(Pulled(cmds, tasks, order, id).0)
  {
    var c, ran := cmds[tasks[0].name], Names(order);
    var p := DepsPulled(tasks, c.deps, ran, id).0;
    DepsShifted(tasks, c.deps, ran, id, n);
    OrderDepsShifted(tasks, p, c.orderDeps, ran, n, n in c.deps && n !in ran);
    hide Shifted, DepsPulled, OrderDepsPulled;
  }

  lemma PullersCount(cmds: Table, tasks: seq<Task>, order: seq<Task>, log: seq<Pull>, n: Name)
    requires tasks != [] && tasks[0].name in cmds
    ensures var e := Entered(cmds, tasks[0].name, StandsAt(tasks, order, log));
      |PullersIn(e.log, n)| == |PullersIn(log, n)| + if PullsFront(cmds, tasks, order, n) then 1 else 0
  {
    var m, v := tasks[0].name, StandsAt(tasks, order, log);
    var e := Entered(cmds, m, v);
    NamesOfIn(order);
    EnteredPulls(cmds, m, n, v);
    assert e.log == log + e.log[|log|..];
    hide PullersIn, Entered, Children, Names;
    PullersAppend(log, e.log[|log|..], n);
  }

  /** A pull turns the entries of a name once if the front task pulls it. */
  lemma FollowPull(cmds: Table, given: seq<Task>, n: Name, tasks: seq<Task>, order: seq<Task>, log: seq<Pull>, id: nat)
    requires tasks != [] && tasks[0].name in cmds && Followed(given, n, tasks, order, log)
    requires forall d :: d in cmds[tasks[0].name].deps ==> d in cmds
    ensures var e := Entered(cmds, tasks[0].name, StandsAt(tasks, order, log));
      Followed(given, n, Pulled(cmds, tasks, order, id).0, order, e.log)
  {
    PulledShifted(cmds, tasks, order, id, n);
    PullersCount(cmds, tasks, order, log, n);
    hide Occurrences, Turns, Turn, PullersIn, Names, Entered, Children, Pulled, Distinct;
    if Watched(given, n) {
      TurnsDistinct(Occurrences(given, n), |PullersIn(log, n)|);
      NextTurn(Occurrences(given, n), |PullersIn(log, n)|);
    }
  }

  lemma NextTurn(s: seq<Task>, p: nat)
    ensures Turns(s, p + 1) == Turn(Turns(s, p))
  {
  }

  /** What the loop knows: it follows the visit, and it has turned the entries of every repeated command accordingly. */
  ghost predicate Tracked(cmds: Table, rank: Ranks, given: seq<Task>, tasks: seq<Task>, order: seq<Task>,
                          log: seq<Pull>) {
    && Acyclic(cmds, rank) && Names(given) <= cmds.Keys && Names(tasks) + Names(order) <= cmds.Keys
    && Remaining(cmds, rank, tasks, order, log) == Traversal(cmds, rank, given)
    && Covered(cmds, tasks, Names(order))
    && (forall n :: Followed(given, n, tasks, order, log))
  }

  lemma TrackedAtFirst(cmds: Table, rank: Ranks, given: seq<Task>)
    requires Acyclic(cmds, rank) && Names(given) <= cmds.Keys
    ensures Tracked(cmds, rank, given, given, [], [])
  {
    assert Names([]) == {} && NamesOf([]) == [] && Names(given) + {} == Names(given);
    forall n
      ensures Followed(given, n, given, [], [])
    {
      FollowedAtFirst(given, n);
    }
  }

  /** A round that runs the front task. */
  lemma TrackRun(cmds: Table, rank: Ranks, given: seq<Task>, tasks: seq<Task>, order: seq<Task>, log: seq<Pull>)
    requires tasks != [] && tasks[0].name in cmds && Settled(cmds, tasks, order)
    requires Tracked(cmds, rank, given, tasks, order, log)
    ensures Tracked(cmds, rank, given, tasks[1..], Ran(tasks, order), log)
  {
    hide Remaining, Traversal, Covered, Followed, Names, Settled, Ran, Acyclic;
    RunFollows(cmds, rank, tasks, order, log);
    CoveredRun(cmds, tasks, order);
    forall n
      ensures Followed(given, n, tasks[1..], Ran(tasks, order), log)
    {
      FollowRun(given, n, tasks, order, log);
    }
  }

  /** A round that pulls. */
  lemma TrackPull(cmds: Table, rank: Ranks, given: seq<Task>, tasks: seq<Task>, order: seq<Task>, log: seq<Pull>,
                  id: nat)
    requires tasks != [] && tasks[0].name in cmds && !Settled(cmds, tasks, order)
    requires Tracked(cmds, rank, given, tasks, order, log) && Ordered(cmds, order, Names(given))
    ensures var e := Entered(cmds, tasks[0].name, StandsAt(tasks, order, log));
      Tracked(cmds, rank, given, Pulled(cmds, tasks, order, id).0, order, e.log)
  {
    var m := tasks[0].name;
    assert forall d :: d in cmds[m].deps ==> d in cmds;
    hide Remaining, Traversal, Covered, Followed, Names, Settled, Acyclic, Entered, StandsAt, Ordered;
    if m in Names(order) {
      RanIsSettled(cmds, Names(given), tasks, order);
    }
    PullFollows(cmds, rank, tasks, order, log, id);
    DepsCovered(cmds, tasks, cmds[m].deps, Names(order), id);
    OrderDepsCovered(cmds, tasks, DepsPulled(tasks, cmds[m].deps, Names(order), id).0, cmds[m].orderDeps, Names(order));
    var e := Entered(cmds, m, StandsAt(tasks, order, log));
    forall n
      ensures Followed(given, n, Pulled(cmds, tasks, order, id).0, order, e.log)
    {
      FollowPull(cmds, given, n, tasks, order, log, id);
    }
  }

  ghost function RankOf(tasks: seq<Task>, rank: Ranks): (n: nat) {
    if tasks != [] && tasks[0].name in rank then rank[tasks[0].name] else 0
  }

  /** What the loop works on. */
  datatype Loop = Loop(tasks: seq<Task>, order: seq<Task>, id: nat)

  /** One round of the loop, as a function. */
  function Successor(cmds: Table, l: Loop): (l': Loop)
    requires l.tasks != [] && l.tasks[0].name in cmds
  {
    if Settled(cmds, l.tasks, l.order) then
      Loop(l.tasks[1..], Ran(l.tasks, l.order), l.id)
    else
      var p := Pulled(cmds, l.tasks, l.order, l.id);
      Loop(p.0, l.order, p.1)
  }

  /** Nothing is pulled when everything has run. */
  lemma {:induction false} NothingPulled(was: seq<Task>, deps: seq<Name>, ran: set<Name>, id: nat)
    requires forall d :: d in deps ==> d in ran
    ensures DepsPulled(was, deps, ran, id) == (was, id)
    decreases |deps|
  {
    if deps != [] {
      NothingPulled(was, deps[..|deps| - 1], ran, id);
      assert deps[|deps| - 1] in deps;
    }
  }

  /** One round of the loop: fewer commands unseen, or as many and a shorter list, or as long and a lower rank in
      front. */
  method OneRound(cmds: Table, ghost given: seq<Task>, tasks: seq<Task>, order: seq<Task>, id: nat, ghost rank: Ranks,
                  ghost log: seq<Pull>)
    returns (tasks': seq<Task>, order': seq<Task>, id': nat, ghost log': seq<Pull>)
    requires tasks != [] && Progress(cmds, Names(given), tasks, order)
    requires Acyclic(cmds, rank) && Tracked(cmds, rank, given, tasks, order, log)
    ensures Progress(cmds, Names(given), tasks', order') && Tracked(cmds, rank, given, tasks', order', log')
    ensures tasks[0].name in cmds && Loop(tasks', order', id') == Successor(cmds, Loop(tasks, order, id))
    ensures var u, u' := |Unseen(cmds, tasks, order)|, |Unseen(cmds, tasks', order')|;
      u' < u || (u' == u && (|tasks'| < |tasks| || (|tasks'| == |tasks| && RankOf(tasks', rank) < RankOf(tasks, rank))))
  {
    FrontKnown(cmds, Names(given), tasks, order);
    hide Progress, Moved, Unseen, ClosedUnder, Names, Acyclic, Tracked, DepsPulled, OrderDepsPulled, Entered, Ordered;
    var task := tasks[0];
    var c := cmds[task.name];
    var r;
    r, id' := PullDependencies(tasks, c.deps, Names(order), id);
    r := PullOrderDependencies(tasks, r, c.deps, c.orderDeps, Names(order));
    PullKeeps(cmds, Names(given), tasks, order, r, c.deps, c.orderDeps, rank);
    PullMeasure(cmds, tasks, order, r, c.deps + c.orderDeps);
    assert r.settled <==> Settled(cmds, tasks, order);
    log' := log;
    if r.settled {
      NothingPulled(tasks, c.deps, Names(order), id);
      RunFront(cmds, Names(given), tasks, order);
      TrackRun(cmds, rank, given, tasks, order, log);
      tasks' := tasks[1..];
      order' := if task.name in Names(order) then order else order + [task];
    } else {
      TrackPull(cmds, rank, given, tasks, order, log, id);
      log' := Entered(cmds, task.name, StandsAt(tasks, order, log)).log;
      tasks', order' := r.tasks, order;
    }
  }

  /** Which entry of n is kept: the given ones, turned once for every command that pulls n. */
  ghost predicate Kept(cmds: Table, rank: Ranks, given: seq<Task>, n: Name, order: seq<Task>)
    requires Acyclic(cmds, rank) && Names(given) <= cmds.Keys
  {
    var o, p := Occurrences(given, n), |Pullers(cmds, rank, given, n)|;
    && o != [] && o[Turned(|o|, p, 0)] in given && o[Turned(|o|, p, 0)] in order
    && (o[0] in order <==> p % |o| == 0)
    && (|Dependants(cmds, n)| < |o| ==> (o[0] in order <==> !Drawn(cmds, given, n)))
  }

  /** The ordering loop ends and returns each given command and each dependency once, in the order in which a
      depth-first visit leaves them. That order respects dependencies and the order dependencies among the given
      commands, and there is nothing that nobody depends on. Of the entries of a repeated command n the one is kept
      that comes to the front after one turn for every command that pulls n in that visit. */
  method Order(cmds: Table, given: seq<Task>, freshId: nat, ghost rank: Ranks)
    returns (order: seq<Task>)
    requires Names(given) <= cmds.Keys && Acyclic(cmds, rank)
    ensures NamesOf(order) == Traversal(cmds, rank, given).ran
    ensures Ordered(cmds, order, Names(given))
    ensures Names(given) <= Names(order) <= cmds.Keys && ClosedUnder(cmds, Names(order))
    ensures forall s :: Names(given) <= s && ClosedUnder(cmds, s) ==> Names(order) <= s
    ensures forall n :: Watched(given, n) ==> Kept(cmds, rank, given, n, order)
  {
    var tasks, id := given, freshId;
    order := [];
    ghost var log := [];
    assert Names([]) == {};
    assert Progress(cmds, Names(given), tasks, order);
    TrackedAtFirst(cmds, rank, given);
    hide *;
    while tasks != []
      invariant Progress(cmds, Names(given), tasks, order) && Tracked(cmds, rank, given, tasks, order, log)
      decreases |Unseen(cmds, tasks, order)|, |tasks|, RankOf(tasks, rank)
    {
      tasks, order, id, log := OneRound(cmds, given, tasks, order, id, rank, log);
    }
    Finished(cmds, order, Names(given));
    TrackedAtLast(cmds, rank, given, order, log);
  }

  lemma TrackedAtLast(cmds: Table, rank: Ranks, given: seq<Task>, order: seq<Task>, log: seq<Pull>)
    requires Names(given) <= cmds.Keys && Acyclic(cmds, rank) && Names(given) <= Names(order)
    requires Ordered(cmds, order, Names(given)) && Tracked(cmds, rank, given, [], order, log)
    ensures NamesOf(order) == Traversal(cmds, rank, given).ran
    ensures forall n :: Watched(given, n) ==> Kept(cmds, rank, given, n, order)
  {
    assert NamesOf([]) == [];
    assert Remaining(cmds, rank, [], order, log) == StandsAt([], order, log);
    hide Traversal, Remaining, Ordered, Acyclic, Names, Kept, Watched, Followed;
    forall n | Watched(given, n)
      ensures Kept(cmds, rank, given, n, order)
    {
      assert Followed(given, n, [], order, log);
      KeptAtLast(cmds, rank, given, n, order, log);
    }
  }

  lemma KeptAtLast(cmds: Table, rank: Ranks, given: seq<Task>, n: Name, order: seq<Task>, log: seq<Pull>)
    requires Names(given) <= cmds.Keys && Acyclic(cmds, rank) && Names(given) <= Names(order)
    requires Ordered(cmds, order, Names(given)) && Watched(given, n) && Followed(given, n, [], order, log)
    requires Traversal(cmds, rank, given).log == log
    ensures Kept(cmds, rank, given, n, order)
  {
    var o, p := Occurrences(given, n), |PullersIn(log, n)|;
    OccurrencesAre(given, n);
    FirstAgain(o, p);
    TurnsAt(o, p, 0);
    var t := Turns(o, p)[0];
    assert t.name == n && o[0].name == n;
    assert o[0] in order ==> o[0] == t;
    PullersExactly(cmds, rank, given, n);
    hide Drawn, Dependants, Ordered, Acyclic, Traversal, Turned, Occurrences, Turns;
    if 0 < p < |o| {
      DivModUnique(p, 0, p, |o|);
    }
  }

  /** A command a, listed before two entries of b, on which it depends: the last entry is kept, not the first. */
  method LastIsKept(a: Name, b: Name) returns (order: seq<Task>)
    requires a != b
    ensures Task(b, 2) in order && Task(b, 1) !in order
  {
    var cmds := map[a := Command([b], []), b := Command([], [])];
    var given := [Task(a, 0), Task(b, 1), Task(b, 2)];
    ghost var rank: Ranks := map[a := 1, b := 0];
    TwoEntries(a, b);
    OneDependant(cmds, a, b);
    assert Drawn(cmds, given, b) by {
      assert b in cmds[a].deps;
    }
    PullersExactly(cmds, rank, given, b);
    order := Order(cmds, given, 3, rank);
    hide Drawn, Occurrences, Watched, Names, Pullers, Traversal;
    assert Kept(cmds, rank, given, b, order);
    assert |Pullers(cmds, rank, given, b)| == 1 && Turned(2, 1, 0) == 1;
  }

  lemma TwoEntries(a: Name, b: Name)
    requires a != b
    ensures var given := [Task(a, 0), Task(b, 1), Task(b, 2)];
      && Occurrences(given, b) == [Task(b, 1), Task(b, 2)] && Ahead(given, b) == {a}
      && Watched(given, b) && Names(given) == {a, b}
  {
    var given := [Task(a, 0), Task(b, 1), Task(b, 2)];
    TwoEntriesAhead(a, b);
    assert Task(a, 0) in given && Task(b, 1) in given;
    hide Occurrences, Ahead;
    assert Names(given) == {a, b};
  }

  lemma TwoEntriesAhead(a: Name, b: Name)
    requires a != b
    ensures var given := [Task(a, 0), Task(b, 1), Task(b, 2)];
      Occurrences(given, b) == [Task(b, 1), Task(b, 2)] && Ahead(given, b) == {a}
  {
    var a0, b1, b2 := Task(a, 0), Task(b, 1), Task(b, 2);
    assert Occurrences([], b) == [] && Ahead([], b) == {};
    InFront(b2, [], b);
    InFront(b1, [b2], b);
    InFront(a0, [b1, b2], b);
    hide *;
    ThreeTasks(a0, b1, b2);
    assert {a} + {} == {a};
  }

  lemma ThreeTasks(x: Task, y: Task, z: Task)
    ensures [z] + [] == [z] && [y] + [z] == [y, z] && [x] + [y, z] == [x, y, z] && [] + [y, z] == [y, z]
  {
  }

  lemma OneDependant(cmds: Table, a: Name, b: Name)
    requires a != b && cmds == map[a := Command([b], []), b := Command([], [])]
    ensures Dependants(cmds, b) == {a} && Acyclic(cmds, map[a := 1, b := 0])
  {
    assert b in cmds[a].deps;
  }

  /** Pulled twice, the first of two entries is kept after all: a depends on b and c, and c depends on b. */
  method PulledTwice(a: Name, b: Name, c: Name) returns (order: seq<Task>)
    requires a != b && a != c && b != c
    ensures NamesOf(order) == [b, c, a] && Task(b, 1) in order && Task(b, 2) !in order
    ensures Drawn(map[a := Command([b, c], []), b := Command([], []), c := Command([b], [])],
                  [Task(a, 0), Task(b, 1), Task(b, 2)], b)
  {
    var cmds := map[a := Command([b, c], []), b := Command([], []), c := Command([b], [])];
    var given := [Task(a, 0), Task(b, 1), Task(b, 2)];
    ghost var rank: Ranks := map[a := 2, b := 0, c := 1];
    TwoEntries(a, b);
    assert Drawn(cmds, given, b) by {
      assert b in cmds[a].deps;
    }
    TwiceVisited(cmds, rank, a, b, c);
    order := Order(cmds, given, 3, rank);
    hide Drawn, Occurrences, Watched, Names, Traversal, NamesOf, PullersIn, Acyclic;
    assert Kept(cmds, rank, given, b, order);
    hide Kept;
    assert Task(b, 1) in order;
  }

  /** The commands of the example. */
  ghost predicate TwiceTable(cmds: Table, rank: Ranks, a: Name, b: Name, c: Name) {
    && a != b && a != c && b != c && rank == map[a := 2, b := 0, c := 1]
    && cmds == map[a := Command([b, c], []), b := Command([], []), c := Command([b], [])]
  }

  lemma TwiceRanked(cmds: Table, rank: Ranks, a: Name, b: Name, c: Name)
    requires TwiceTable(cmds, rank, a, b, c)
    ensures Acyclic(cmds, rank) && cmds.Keys == {a, b, c} && rank[c] < rank[a] && rank[b] < rank[a] && rank[b] < rank[c]
  {
    assert cmds.Keys == {a, b, c};
  }

  lemma TwiceChildren(cmds: Table, rank: Ranks, a: Name, b: Name, c: Name, listed: set<Name>)
    requires TwiceTable(cmds, rank, a, b, c) && cmds.Keys == {a, b, c}
    ensures cmds[a].deps == [b, c] && cmds[c].deps == [b] && cmds[b].deps == []
    ensures Children(cmds, a, listed) == [c, b] && Children(cmds, c, listed) == [b] && Children(cmds, b, listed) == []
  {
    assert cmds[a] == Command([b, c], []) && cmds[c] == Command([b], []) && cmds[b] == Command([], []);
    hide TwiceTable;
    BackwardsLast([b], c, cmds.Keys);
    BackwardsLast([], b, cmds.Keys);
    assert [b] + [c] == [b, c] && [] + [b] == [b] && [c] + [b] == [c, b] && [b] + [] == [b] && [] + [c, b] == [c, b];
  }

  lemma TwiceLeaf(cmds: Table, rank: Ranks, b: Name, bound: nat, v: Visit)
    requires Acyclic(cmds, rank) && b in cmds && rank[b] < bound && v.listed <= cmds.Keys && v.ran == []
    requires cmds[b].deps == [] && Children(cmds, b, v.listed) == []
    ensures Known(cmds, rank, bound, [b]) && Visits(cmds, rank, bound, [b], v) == v.(ran := [b])
  {
    EnterSettled(cmds, rank, b, v);
    hide Children, Enter, Acyclic;
    assert [b] + [] == [b] && [] + [b] == [b];
    VisitsFirst(cmds, rank, bound, b, [], v);
  }

  lemma EntersLeaf(cmds: Table, c: Name, b: Name, v: Visit)
    requires c in cmds && cmds[c].deps == [b] && Children(cmds, c, v.listed) == [b] && b in v.listed && v.ran == []
    ensures Entered(cmds, c, v) == Visit(v.listed, [], v.log + [Pull(c, {b})])
  {
    hide Children;
    assert (set x | x in [b] && x !in v.ran) == {b} && v.listed + (set d | d in [b]) == v.listed;
  }

  lemma TwiceC(cmds: Table, rank: Ranks, a: Name, b: Name, c: Name, v: Visit)
    requires TwiceTable(cmds, rank, a, b, c) && Acyclic(cmds, rank) && v.listed == cmds.Keys == {a, b, c} && v.ran == []
    ensures Enter(cmds, rank, c, v) == Visit(v.listed, [b, c], v.log + [Pull(c, {b})])
  {
    TwiceRanked(cmds, rank, a, b, c);
    TwiceChildren(cmds, rank, a, b, c, v.listed);
    hide TwiceTable, Children, Acyclic;
    EntersLeaf(cmds, c, b, v);
    hide Entered, Visits;
    TwiceLeaf(cmds, rank, b, rank[c], Visit(v.listed, [], v.log + [Pull(c, {b})]));
    assert [b] + [c] == [b, c];
  }

  lemma TwiceBoth(cmds: Table, rank: Ranks, a: Name, b: Name, c: Name, v: Visit)
    requires TwiceTable(cmds, rank, a, b, c) && Acyclic(cmds, rank) && v.listed == cmds.Keys == {a, b, c} && v.ran == []
    requires Known(cmds, rank, rank[a], [c, b])
    ensures Visits(cmds, rank, rank[a], [c, b], v) == Visit(v.listed, [b, c], v.log + [Pull(c, {b})])
  {
    TwiceC(cmds, rank, a, b, c, v);
    assert [c] + [b] == [c, b];
    hide TwiceTable, Acyclic, Enter, Visits;
    VisitsFirst(cmds, rank, rank[a], c, [b], v);
    VisitsPass(cmds, rank, rank[a], [b], Enter(cmds, rank, c, v));
  }

  lemma TwiceA(cmds: Table, rank: Ranks, a: Name, b: Name, c: Name)
    requires TwiceTable(cmds, rank, a, b, c) && Acyclic(cmds, rank) && cmds.Keys == {a, b, c}
    ensures Enter(cmds, rank, a, Visit({a, b}, [], []))
         == Visit({a, b, c}, [b, c, a], [Pull(a, {b, c})] + [Pull(c, {b})])
  {
    TwiceChildren(cmds, rank, a, b, c, {a, b});
    ChildrenKnown(cmds, rank, a, {a, b});
    TwiceEntered(cmds, a, b, c);
    TwiceBoth(cmds, rank, a, b, c, Visit({a, b, c}, [], [Pull(a, {b, c})]));
    hide TwiceTable, Children, Acyclic, Entered, Visits, Known;
    assert [b, c] + [a] == [b, c, a];
  }

  lemma TwiceEntered(cmds: Table, a: Name, b: Name, c: Name)
    requires a in cmds && cmds[a].deps == [b, c] && Children(cmds, a, {a, b}) == [c, b]
    ensures Entered(cmds, a, Visit({a, b}, [], [])) == Visit({a, b, c}, [], [Pull(a, {b, c})])
  {
    hide Children;
    assert (set x | x in [c, b] && x !in []) == {b, c};
    assert (set d | d in [b, c]) == {b, c} && {a, b} + {b, c} == {a, b, c};
  }

  /** The visit of the example. */
  lemma TwiceVisited(cmds: Table, rank: Ranks, a: Name, b: Name, c: Name)
    requires TwiceTable(cmds, rank, a, b, c)
    ensures Acyclic(cmds, rank) && Names([Task(a, 0), Task(b, 1), Task(b, 2)]) <= cmds.Keys
    ensures var w := Traversal(cmds, rank, [Task(a, 0), Task(b, 1), Task(b, 2)]);
      w.ran == [b, c, a] && PullersIn(w.log, b) == [a, c]
  {
    var given, top := [Task(a, 0), Task(b, 1), Task(b, 2)], Top(rank);
    TwiceRanked(cmds, rank, a, b, c);
    TwoEntries(a, b);
    assert NamesOf(given) == [a] + [b, b];
    hide TwiceTable, Names, NamesOf, Acyclic, Enter, Top, Occurrences, Ahead, Visits, PullersIn;
    TwiceA(cmds, rank, a, b, c);
    AllKnown(cmds, rank, given);
    var v, w := Visit({a, b}, [], []), Visit({a, b, c}, [b, c, a], [Pull(a, {b, c})] + [Pull(c, {b})]);
    VisitsFirst(cmds, rank, top, a, [b, b], v);
    VisitsPass(cmds, rank, top, [b, b], w);
    TwoPullers(a, b, c);
  }

  lemma TwoPullers(a: Name, b: Name, c: Name)
    ensures PullersIn([Pull(a, {b, c})] + [Pull(c, {b})], b) == [a, c]
  {
    PullersAppend([Pull(a, {b, c})], [Pull(c, {b})], b);
    assert [a] + [c] == [a, c];
  }
}
