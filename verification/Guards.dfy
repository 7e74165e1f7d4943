/** One-time construction guards (__cxa_guard_acquire, _release, _abort) as atomic steps of any number of tasks:
    one mutex, one counting semaphore and one waiter count shared by all guards. */
module Guards {
  import opened Basics

  type Task = nat
  type Guard = nat

  /** Ceiling of the counting semaphore. */
  const INT_MAX: nat := 0x7fff_ffff

  /** Where a task stands; `Outside` is user code, everything else is inside one of the three calls. */
  datatype Pc =
    | Outside
    | AcquireLock(g: Guard)
    | AcquireTest(g: Guard)
    | WaitUnlock(g: Guard)
    | WaitToken(g: Guard)
    | WaitLock(g: Guard)
    | WaitTest(g: Guard)
    | Decide(g: Guard)
    | AcquireUnlock(g: Guard, won: bool)
    | FinishLock(g: Guard, built: bool)
    | FinishClear(g: Guard, built: bool)
    | FinishCount(g: Guard)
    | Signal(g: Guard, left: nat)
    | FinishUnlock(g: Guard)
  {
    predicate HoldsMutex() {
      AcquireTest? || WaitUnlock? || WaitTest? || Decide? || AcquireUnlock?
      || FinishClear? || FinishCount? || Signal? || FinishUnlock?
    }

    /** Counted by the waiter count. */
    predicate InWait() { WaitUnlock? || WaitToken? || WaitLock? || WaitTest? }

    /** In the wait and without a token. */
    predicate NeedsToken() { WaitUnlock? || WaitToken? }
  }

  /** The shared variables, plus two history variables: who constructs a pending guard, and what was constructed. */
  datatype State = State(pc: map<Task, Pc>, mutex: Option<Task>, tokens: nat, waiting: nat,
                         pending: set<Guard>, ready: set<Guard>, owner: map<Guard, Task>, built: seq<Guard>)

  datatype Action = Call(g: Guard) | Return(g: Guard, built: bool) | Go

  predicate Enabled(s: State, t: Task, a: Action) {
    t in s.pc &&
    match a
    case Call(g) => s.pc[t].Outside? && !(g in s.owner && s.owner[g] == t)
    case Return(g, _) => s.pc[t].Outside? && g in s.owner && s.owner[g] == t
    case Go =>
      match s.pc[t]
      case Outside => false
      case AcquireLock(_) => s.mutex.None?
      case WaitLock(_) => s.mutex.None?
      case FinishLock(_, _) => s.mutex.None?
      case WaitToken(_) => s.tokens > 0
      case _ => true
  }

  function Next(s: State, t: Task, a: Action): (s': State)
    requires Enabled(s, t, a)
  {
    match a
    case Call(g) => s.(pc := s.pc[t := AcquireLock(g)])
    case Return(g, built) => s.(pc := s.pc[t := FinishLock(g, built)])
    case Go =>
      match s.pc[t]
      case AcquireLock(g) => s.(mutex := Some(t), pc := s.pc[t := AcquireTest(g)])
      case AcquireTest(g) =>
        if g in s.pending then s.(waiting := s.waiting + 1, pc := s.pc[t := WaitUnlock(g)])
        else s.(pc := s.pc[t := Decide(g)])
      case WaitUnlock(g) => s.(mutex := None, pc := s.pc[t := WaitToken(g)])
      case WaitToken(g) => s.(tokens := s.tokens - 1, pc := s.pc[t := WaitLock(g)])
      case WaitLock(g) => s.(mutex := Some(t), pc := s.pc[t := WaitTest(g)])
      case WaitTest(g) =>
        if g in s.pending then s.(pc := s.pc[t := WaitUnlock(g)])
        else s.(waiting := if s.waiting > 0 then s.waiting - 1 else 0, pc := s.pc[t := Decide(g)])
      case Decide(g) =>
        if g in s.ready then s.(pc := s.pc[t := AcquireUnlock(g, false)])
        else s.(pending := s.pending + {g}, owner := s.owner[g := t], pc := s.pc[t := AcquireUnlock(g, true)])
      case AcquireUnlock(g, _) => s.(mutex := None, pc := s.pc[t := Outside])
      case FinishLock(g, built) => s.(mutex := Some(t), pc := s.pc[t := FinishClear(g, built)])
      case FinishClear(g, built) =>
        s.(pending := s.pending - {g}, owner := s.owner - {g},
           ready := if built then s.ready + {g} else s.ready,
           built := if built then s.built + [g] else s.built,
           pc := s.pc[t := FinishCount(g)])
      case FinishCount(g) => s.(pc := s.pc[t := Signal(g, s.waiting)])
      case Signal(g, left) =>
        if left == 0 then s.(pc := s.pc[t := FinishUnlock(g)])
        else s.(tokens := if s.tokens < INT_MAX then s.tokens + 1 else s.tokens, pc := s.pc[t := Signal(g, left - 1)])
      case FinishUnlock(g) => s.(mutex := None, pc := s.pc[t := Outside])
  }

  function Waiters(s: State): (w: set<Task>) {
    set t | t in s.pc && s.pc[t].InWait()
  }

  function Tokenless(s: State): (w: set<Task>) {
    set t | t in s.pc && s.pc[t].NeedsToken()
  }

  /** Tokens that the task finishing a guard is still going to give. */
  function Owed(s: State): (n: nat) {
    if s.mutex.Some? && s.mutex.value in s.pc then
      match s.pc[s.mutex.value]
      case FinishCount(_) => s.waiting
      case Signal(_, left) => left
      case _ => 0
    else 0
  }

  /** Some waiter's guard is still under construction. */
  ghost predicate PendingWait(s: State) {
    exists t :: t in s.pc && s.pc[t].InWait() && s.pc[t].g in s.pending
  }

  ghost predicate MutexInv(s: State) {
    forall t :: t in s.pc ==> (s.pc[t].HoldsMutex() <==> s.mutex == Some(t))
  }

  ghost predicate OwnerInv(s: State) {
    && s.pending == s.owner.Keys
    && s.pending !! s.ready
    && (forall g :: g in s.owner ==> s.owner[g] in s.pc)
    && (forall t :: t in s.pc && (s.pc[t].FinishLock? || s.pc[t].FinishClear?) ==>
          s.pc[t].g in s.owner && s.owner[s.pc[t].g] == t)
  }

  ghost predicate ResultInv(s: State) {
    && (forall g :: g in s.ready <==> g in s.built)
    && (forall i, j :: 0 <= i < j < |s.built| ==> s.built[i] != s.built[j])
    && (forall t :: t in s.pc && s.pc[t].AcquireUnlock? ==>
          if s.pc[t].won then s.pc[t].g in s.owner && s.owner[s.pc[t].g] == t else s.pc[t].g in s.ready)
    && (forall t :: t in s.pc && s.pc[t].Decide? ==> s.pc[t].g !in s.pending)
  }

  ghost predicate TokenInv(s: State) {
    && s.waiting == |Waiters(s)|
    && |s.pc| <= INT_MAX
    && (s.mutex.Some? ==> s.mutex.value in s.pc)
    && (PendingWait(s) || s.tokens + Owed(s) >= |Tokenless(s)|)
  }

  ghost predicate Inv(s: State) {
    MutexInv(s) && OwnerInv(s) && ResultInv(s) && TokenInv(s)
  }

  lemma MutexStep(s: State, t: Task, a: Action)
    requires MutexInv(s) && Enabled(s, t, a)
    ensures MutexInv(Next(s, t, a))
  {
  }

  lemma OwnerStep(s: State, t: Task, a: Action)
    requires MutexInv(s) && OwnerInv(s) && ResultInv(s) && Enabled(s, t, a)
    ensures OwnerInv(Next(s, t, a))
  {
    var s' := Next(s, t, a);
    forall u | u in s'.pc && (s'.pc[u].FinishLock? || s'.pc[u].FinishClear?)
      ensures s'.pc[u].g in s'.owner && s'.owner[s'.pc[u].g] == u
    {
      assert u != t ==> s'.pc[u] == s.pc[u];
    }
  }

  lemma ResultStep(s: State, t: Task, a: Action)
    requires MutexInv(s) && OwnerInv(s) && ResultInv(s) && Enabled(s, t, a)
    ensures ResultInv(Next(s, t, a))
  {
  }

  /** Moving one task changes the two sets by that task only. */
  lemma Moved(s: State, s': State, t: Task)
    requires t in s.pc && t in s'.pc && s'.pc == s.pc[t := s'.pc[t]]
    ensures Waiters(s') == if s'.pc[t].InWait() then Waiters(s) + {t} else Waiters(s) - {t}
    ensures Tokenless(s') == if s'.pc[t].NeedsToken() then Tokenless(s) + {t} else Tokenless(s) - {t}
    ensures t in Waiters(s) <==> s.pc[t].InWait()
    ensures t in Tokenless(s) <==> s.pc[t].NeedsToken()
    ensures s'.pc.Keys == s.pc.Keys && |s'.pc| == |s.pc|
  {
  }

  /** A waiter lacking a token is a waiter, and there are no more of them than tasks. */
  lemma TokenlessBounded(s: State)
    ensures |Tokenless(s)| <= |Waiters(s)| <= |s.pc|
  {
    Fewer(Tokenless(s), Waiters(s));
    Fewer(Waiters(s), s.pc.Keys);
  }

  /** The waiter count follows the task that joins or leaves the wait, and a step moves one task only. */
  lemma WaitingFollows(s: State, t: Task, a: Action)
    requires Enabled(s, t, a) && (s.pc[t].InWait() ==> s.waiting > 0)
    ensures var s' := Next(s, t, a);
      && t in s'.pc && s'.pc == s.pc[t := s'.pc[t]]
      && s'.waiting + (if s.pc[t].InWait() then 1 else 0) == s.waiting + (if s'.pc[t].InWait() then 1 else 0)
      && (s'.mutex == s.mutex || s'.mutex == Some(t) || s'.mutex.None?)
  {
  }

  lemma CountStep(s: State, t: Task, a: Action)
    requires TokenInv(s) && Enabled(s, t, a)
    ensures var s' := Next(s, t, a);
      s'.waiting == |Waiters(s')| && |s'.pc| <= INT_MAX && (s'.mutex.Some? ==> s'.mutex.value in s'.pc)
  {
    hide Next, PendingWait, Owed;
    assert s.pc[t].InWait() ==> t in Waiters(s);
    WaitingFollows(s, t, a);
    Moved(s, Next(s, t, a), t);
  }

  /** Only clearing a guard can end the state in which some waiter's guard is pending. */
  lemma PendingStep(s: State, t: Task, a: Action)
    requires MutexInv(s) && Enabled(s, t, a) && PendingWait(s)
    requires !(a.Go? && s.pc[t].FinishClear?)
    ensures PendingWait(Next(s, t, a))
  {
    var s' := Next(s, t, a);
    var w :| w in s.pc && s.pc[w].InWait() && s.pc[w].g in s.pending;
    assert s'.pc[w].InWait() && s'.pc[w].g in s'.pending;
  }

  /** A task joins the tokenless waiters only because its guard is pending. */
  lemma JoinStep(s: State, t: Task)
    requires Enabled(s, t, Go) && (s.pc[t].AcquireTest? || s.pc[t].WaitTest?) && s.pc[t].g in s.pending
    ensures PendingWait(Next(s, t, Go))
  {
    var s' := Next(s, t, Go);
    assert s'.pc[t].InWait() && s'.pc[t].g in s'.pending;
  }

  /** Every other step keeps the tokens given and still owed above the number of tokenless waiters. */
  lemma CoverStep(s: State, t: Task, a: Action)
    requires MutexInv(s) && TokenInv(s) && Enabled(s, t, a)
    requires s.tokens + Owed(s) >= |Tokenless(s)|
    requires !(a.Go? && (s.pc[t].AcquireTest? || s.pc[t].WaitTest?) && s.pc[t].g in s.pending)
    ensures var s' := Next(s, t, a); s'.tokens + Owed(s') >= |Tokenless(s')|
  {
    hide Waiters, Tokenless, PendingWait;
    var s' := Next(s, t, a);
    Moved(s, s', t);
    TokenlessBounded(s);
    if !a.Go? {
      assert s'.mutex == s.mutex && s.mutex != Some(t);
    }
  }

  /** Clearing a guard starts owing one token to every waiter. */
  lemma ClearStep(s: State, t: Task)
    requires MutexInv(s) && TokenInv(s) && Enabled(s, t, Go) && s.pc[t].FinishClear?
    ensures var s' := Next(s, t, Go); Owed(s') >= |Tokenless(s')|
  {
    Moved(s, Next(s, t, Go), t);
    TokenlessBounded(s);
  }

  lemma TokenStep(s: State, t: Task, a: Action)
    requires Inv(s) && Enabled(s, t, a)
    ensures TokenInv(Next(s, t, a))
  {
    CountStep(s, t, a);
    if a.Go? && s.pc[t].FinishClear? {
      ClearStep(s, t);
    } else if PendingWait(s) {
      PendingStep(s, t, a);
    } else if a.Go? && (s.pc[t].AcquireTest? || s.pc[t].WaitTest?) && s.pc[t].g in s.pending {
      JoinStep(s, t);
    } else {
      CoverStep(s, t, a);
    }
  }

  datatype Move = Move(t: Task, a: Action)

  /** The state a run of moves ends in, if each is enabled when its turn comes. */
  function Exec(s: State, run: seq<Move>): (r: Option<State>)
    decreases |run|
  {
    if run == [] then Some(s)
    else if Enabled(s, run[0].t, run[0].a) then Exec(Next(s, run[0].t, run[0].a), run[1..])
    else None
  }

  function Init(tasks: set<Task>): (s: State) {
    State(map t | t in tasks :: Outside, None, 0, 0, {}, {}, map[], [])
  }

  lemma InvStep(s: State, t: Task, a: Action)
    requires Inv(s) && Enabled(s, t, a)
    ensures Inv(Next(s, t, a))
  {
    MutexStep(s, t, a);
    OwnerStep(s, t, a);
    ResultStep(s, t, a);
    TokenStep(s, t, a);
  }

  lemma {:induction false} InvRun(s: State, run: seq<Move>)
    requires Inv(s) && Exec(s, run).Some?
    ensures Inv(Exec(s, run).value)
    ensures s.ready <= Exec(s, run).value.ready && s.built <= Exec(s, run).value.built
    decreases |run|
  {
    if run != [] {
      InvStep(s, run[0].t, run[0].a);
      InvRun(Next(s, run[0].t, run[0].a), run[1..]);
    }
  }

  lemma InvInit(tasks: set<Task>)
    requires |tasks| <= INT_MAX
    ensures Inv(Init(tasks))
  {
    var s := Init(tasks);
    assert s.pc.Keys == tasks && Waiters(s) == {} && Tokenless(s) == {};
  }

  /** In every reachable state a guard is pending exactly while one task constructs it, a guard is not both pending
      and ready, no construction finishes twice, and a task about to return 1 owns the guard while a task about to
      return 0 finds its construction finished. */
  lemma ConstructedOnce(tasks: set<Task>, run: seq<Move>)
    requires |tasks| <= INT_MAX && Exec(Init(tasks), run).Some?
    ensures var s := Exec(Init(tasks), run).value;
      && s.pending == s.owner.Keys && s.pending !! s.ready
      && (forall g :: g in s.ready <==> g in s.built)
      && (forall i, j :: 0 <= i < j < |s.built| ==> s.built[i] != s.built[j])
      && (forall t :: t in s.pc && s.pc[t].AcquireUnlock? ==>
            if s.pc[t].won then s.pc[t].g in s.owner && s.owner[s.pc[t].g] == t else s.pc[t].g in s.built)
      && (forall t :: t in s.pc && s.pc[t].FinishClear? ==> s.pc[t].g in s.pending && s.pc[t].g !in s.ready)
  {
    InvInit(tasks);
    InvRun(Init(tasks), run);
  }

  /** A guard that is ready stays ready, and finished constructions are never undone. */
  lemma {:induction false} ReadyForever(tasks: set<Task>, run: seq<Move>, more: seq<Move>)
    requires |tasks| <= INT_MAX && Exec(Init(tasks), run).Some?
    requires Exec(Exec(Init(tasks), run).value, more).Some?
    ensures Exec(Init(tasks), run).value.ready <= Exec(Exec(Init(tasks), run).value, more).value.ready
  {
    InvInit(tasks);
    InvRun(Init(tasks), run);
    InvRun(Exec(Init(tasks), run).value, more);
  }

  /** How far a task has come with giving a guard back, told from the moves of a run alone. */
  datatype Phase = Elsewhere | Asked(g: Guard, built: bool) | Locked(g: Guard, built: bool)

  function PhaseOf(run: seq<Move>, t: Task): (p: Phase)
    decreases |run|
  {
    if run == [] then Elsewhere else
      var before, last := run[..|run| - 1], run[|run| - 1];
      if last.t != t then PhaseOf(before, t) else
        match last.a
        case Call(_) => Elsewhere
        case Return(g, built) => Asked(g, built)
        case Go =>
          var p := PhaseOf(before, t);
          if p.Asked? then Locked(p.g, p.built) else Elsewhere
  }

  /** Move k takes effect as the release or the abort of g: a return of g, the lock, and then this move. */
  predicate Clears(run: seq<Move>, k: nat, g: Guard, built: bool) {
    k < |run| && run[k].a.Go? && PhaseOf(run[..k], run[k].t) == Locked(g, built)
  }

  /** g has been released in this run. */
  ghost predicate Completed(run: seq<Move>, g: Guard) {
    exists k: nat :: Clears(run, k, g, true)
  }

  lemma {:induction false} ExecLast(s: State, run: seq<Move>)
    requires run != [] && Exec(s, run).Some?
    ensures var before, m := run[..|run| - 1], run[|run| - 1];
      && Exec(s, before).Some? && Enabled(Exec(s, before).value, m.t, m.a)
      && Exec(s, run).value == Next(Exec(s, before).value, m.t, m.a)
    decreases |run|
  {
    if |run| > 1 {
      ExecLast(Next(s, run[0].t, run[0].a), run[1..]);
      hide Next, Enabled;
      assert run[1..][..|run| - 2] == run[..|run| - 1][1..];
    } else {
      assert run[..0] == [] && run[1..] == [];
    }
  }

  /** The phase that a program counter stands for. */
  function PcPhase(pc: Pc): (p: Phase) {
    match pc
    case FinishLock(g, built) => Asked(g, built)
    case FinishClear(g, built) => Locked(g, built)
    case _ => Elsewhere
  }

  lemma {:induction false} PhasesFollow(tasks: set<Task>, run: seq<Move>, t: Task)
    requires Exec(Init(tasks), run).Some?
    ensures var s := Exec(Init(tasks), run).value; t in s.pc ==> PcPhase(s.pc[t]) == PhaseOf(run, t)
    decreases |run|
  {
    if run != [] {
      ExecLast(Init(tasks), run);
      PhasesFollow(tasks, run[..|run| - 1], t);
    }
  }

  lemma {:induction false} ReadyFollows(tasks: set<Task>, run: seq<Move>, g: Guard)
    requires Exec(Init(tasks), run).Some?
    ensures g in Exec(Init(tasks), run).value.ready <==> Completed(run, g)
    decreases |run|
  {
    if run != [] {
      var n := |run| - 1;
      var before, m := run[..n], run[n];
      ExecLast(Init(tasks), run);
      ReadyFollows(tasks, before, g);
      PhasesFollow(tasks, before, m.t);
      CompletedMore(run, g);
      var s := Exec(Init(tasks), before).value;
      assert Clears(run, n, g, true) <==> m.a.Go? && s.pc[m.t] == FinishClear(g, true);
      hide Completed, Clears, PhaseOf, Exec;
    }
  }

  lemma CompletedMore(run: seq<Move>, g: Guard)
    requires run != []
    ensures Completed(run, g) <==> Completed(run[..|run| - 1], g) || Clears(run, |run| - 1, g, true)
  {
    var n := |run| - 1;
    forall k: nat | k < n
      ensures Clears(run, k, g, true) <==> Clears(run[..n], k, g, true)
    {
      assert run[..n][..k] == run[..k];
    }
  }

  /** For every run: a guard is ready if and only if a release of it has taken effect, which happens at most once; a
      task about to return 1 finds no such release and a task about to return 0 finds one. */
  lemma ReadyExactly(tasks: set<Task>, run: seq<Move>, g: Guard)
    requires |tasks| <= INT_MAX && Exec(Init(tasks), run).Some?
    ensures var s := Exec(Init(tasks), run).value;
      && (g in s.ready <==> Completed(run, g))
      && (forall t, won :: t in s.pc && s.pc[t] == AcquireUnlock(g, won) ==> (won <==> !Completed(run, g)))
    ensures forall j: nat, k: nat :: Clears(run, j, g, true) && Clears(run, k, g, true) ==> j == k
  {
    ReadyFollows(tasks, run, g);
    ConstructedOnce(tasks, run);
    forall j: nat, k: nat | Clears(run, j, g, true) && Clears(run, k, g, true)
      ensures j == k
    {
      if j < k {
        ClearsOnce(tasks, run, j, k, g);
      } else if k < j {
        ClearsOnce(tasks, run, k, j, g);
      }
    }
  }

  lemma {:induction false} ExecPrefix(s: State, run: seq<Move>, k: nat)
    requires Exec(s, run).Some? && k <= |run|
    ensures Exec(s, run[..k]).Some?
    decreases k
  {
    if k > 0 {
      ExecPrefix(Next(s, run[0].t, run[0].a), run[1..], k - 1);
      hide Next, Enabled;
      assert run[..k][1..] == run[1..][..k - 1];
    }
  }

  lemma ClearsOnce(tasks: set<Task>, run: seq<Move>, j: nat, k: nat, g: Guard)
    requires |tasks| <= INT_MAX && Exec(Init(tasks), run).Some?
    requires j < k && Clears(run, j, g, true)
    ensures !Clears(run, k, g, true)
  {
    if k < |run| {
      var before, t := run[..k], run[k].t;
      ExecPrefix(Init(tasks), run, k);
      ExecPrefix(Init(tasks), run, k + 1);
      ExecLast(Init(tasks), run[..k + 1]);
      assert run[..k + 1][..k] == before && run[..k + 1][k] == run[k];
      ReadyFollows(tasks, before, g);
      assert before[..j] == run[..j] && before[j] == run[j];
      assert Clears(before, j, g, true);
      PhasesFollow(tasks, before, t);
      ConstructedOnce(tasks, before);
    }
  }

  /** Once no waited-on guard is pending and nobody is signalling, there is a token for every waiter that needs one. */
  lemma NobodyStranded(tasks: set<Task>, run: seq<Move>)
    requires |tasks| <= INT_MAX && Exec(Init(tasks), run).Some?
    ensures var s := Exec(Init(tasks), run).value;
      && s.waiting == |Waiters(s)|
      && (!PendingWait(s) && Owed(s) == 0 ==> s.tokens >= |Tokenless(s)|)
      && (!PendingWait(s) ==> s.tokens + Owed(s) >= |Tokenless(s)|)
  {
    InvInit(tasks);
    InvRun(Init(tasks), run);
  }

  /** No task inside a call can move. */
  ghost predicate Stuck(s: State) {
    forall t :: t in s.pc && !s.pc[t].Outside? ==> !Enabled(s, t, Go)
  }

  /** Task u constructs a guard that some waiter needs. */
  ghost predicate Awaited(s: State, u: Task) {
    exists t :: t in s.pc && s.pc[t].InWait() && s.pc[t].g in s.owner && s.owner[s.pc[t].g] == u
  }

  /** Whoever holds the mutex can move. */
  lemma HolderCanMove(s: State)
    requires Inv(s)
    ensures s.mutex.Some? ==> !Stuck(s)
  {
    if s.mutex.Some? {
      assert Enabled(s, s.mutex.value, Go);
    }
  }

  /** If every task inside a call is blocked, then they all sit at the semaphore, and some waiter's guard is being
      constructed by a task that is either in user code or itself waits at the semaphore for another guard. */
  lemma OnlyConstructorsBlock(tasks: set<Task>, run: seq<Move>)
    requires |tasks| <= INT_MAX && Exec(Init(tasks), run).Some?
    requires Stuck(Exec(Init(tasks), run).value)
    requires exists t :: t in Exec(Init(tasks), run).value.pc && !Exec(Init(tasks), run).value.pc[t].Outside?
    ensures var s := Exec(Init(tasks), run).value;
      && (forall t :: t in s.pc && !s.pc[t].Outside? ==> s.pc[t].WaitToken?)
      && exists u :: u in s.pc && Awaited(s, u) && (s.pc[u].Outside? || s.pc[u].WaitToken?)
  {
    InvInit(tasks);
    InvRun(Init(tasks), run);
    var s := Exec(Init(tasks), run).value;
    HolderCanMove(s);
    var b :| b in s.pc && !s.pc[b].Outside?;
    assert s.pc[b].WaitToken? && b in Tokenless(s);
    assert PendingWait(s);
    var w :| w in s.pc && s.pc[w].InWait() && s.pc[w].g in s.pending;
    assert Awaited(s, s.owner[s.pc[w].g]);
  }

  /** While no task waits inside a construction of its own, a blocked system is only waiting for user code. */
  lemma NoDeadlockWithoutNesting(tasks: set<Task>, run: seq<Move>)
    requires |tasks| <= INT_MAX && Exec(Init(tasks), run).Some?
    requires var s := Exec(Init(tasks), run).value;
      Stuck(s) && (exists t :: t in s.pc && !s.pc[t].Outside?)
      && forall g :: g in s.owner && s.owner[g] in s.pc ==> !s.pc[s.owner[g]].InWait()
    ensures var s := Exec(Init(tasks), run).value; exists u :: u in s.pc && Awaited(s, u) && s.pc[u].Outside?
  {
    OnlyConstructorsBlock(tasks, run);
  }

  ghost predicate Reaches(s: State, s': State) {
    exists run :: Exec(s, run) == Some(s')
  }

  lemma {:induction false} ExecAppend(s: State, run: seq<Move>, more: seq<Move>)
    requires Exec(s, run).Some?
    ensures Exec(s, run + more) == Exec(Exec(s, run).value, more)
    decreases |run|
  {
    if run == [] {
      assert run + more == more;
    } else {
      ExecAppend(Next(s, run[0].t, run[0].a), run[1..], more);
      assert (run + more)[1..] == run[1..] + more;
    }
  }

  lemma ReachesVia(s: State, mid: State, s': State)
    requires Reaches(s, mid) && Reaches(mid, s')
    ensures Reaches(s, s')
  {
    var r1 :| Exec(s, r1) == Some(mid);
    var r2 :| Exec(mid, r2) == Some(s');
    ExecAppend(s, r1, r2);
  }

  lemma ReachesOne(s: State, t: Task, a: Action)
    requires Enabled(s, t, a)
    ensures Reaches(s, Next(s, t, a))
  {
    assert Exec(s, [Move(t, a)]) == Some(Next(s, t, a)) by {
      assert [Move(t, a)][1..] == [];
    }
  }

  /** Two consecutive steps of one task inside a call. */
  lemma ReachesTwo(s: State, t: Task, a: Action)
    requires Enabled(s, t, a) && Enabled(Next(s, t, a), t, Go)
    ensures Reaches(s, Next(Next(s, t, a), t, Go))
  {
    ReachesOne(s, t, a);
    ReachesOne(Next(s, t, a), t, Go);
    ReachesVia(s, Next(s, t, a), Next(Next(s, t, a), t, Go));
  }

  /** An undisturbed acquire of a fresh guard makes the caller its constructor. */
  lemma AcquireFresh(s: State, t: Task, g: Guard)
    requires t in s.pc && s.pc[t].Outside? && s.mutex.None? && g !in s.pending && g !in s.ready && g !in s.owner
    ensures Reaches(s, s.(pending := s.pending + {g}, owner := s.owner[g := t]))
  {
    var s1 := s.(mutex := Some(t), pc := s.pc[t := AcquireTest(g)]);
    var s2 := s.(mutex := Some(t), pc := s.pc[t := AcquireUnlock(g, true)],
                 pending := s.pending + {g}, owner := s.owner[g := t]);
    var s3 := s.(pending := s.pending + {g}, owner := s.owner[g := t]);
    ReachesTwo(s, t, Call(g));
    assert s.pc[t := AcquireLock(g)][t := AcquireTest(g)] == s.pc[t := AcquireTest(g)];
    ReachesTwo(s1, t, Go);
    assert s1.pc[t := Decide(g)][t := AcquireUnlock(g, true)] == s2.pc;
    ReachesOne(s2, t, Go);
    assert s2.pc[t := Outside] == s.pc;
    ReachesVia(s, s1, s2);
    ReachesVia(s, s2, s3);
  }

  /** An acquire of a pending guard parks the caller at the semaphore. */
  lemma AcquireBlocks(s: State, t: Task, g: Guard)
    requires t in s.pc && s.pc[t].Outside? && s.mutex.None? && g in s.pending && !(g in s.owner && s.owner[g] == t)
    ensures Reaches(s, s.(waiting := s.waiting + 1, pc := s.pc[t := WaitToken(g)]))
  {
    var s1 := s.(mutex := Some(t), pc := s.pc[t := AcquireTest(g)]);
    ReachesTwo(s, t, Call(g));
    assert s.pc[t := AcquireLock(g)][t := AcquireTest(g)] == s1.pc;
    ReachesTwo(s1, t, Go);
    assert s1.pc[t := WaitUnlock(g)][t := WaitToken(g)] == s.pc[t := WaitToken(g)];
    ReachesVia(s, s1, s.(waiting := s.waiting + 1, pc := s.pc[t := WaitToken(g)]));
  }

  /** A waiter whose guard is still pending can swallow any token and park again. */
  lemma TokenSwallowed(s: State, t: Task, g: Guard)
    requires t in s.pc && s.pc[t] == WaitToken(g) && s.mutex.None? && g in s.pending && s.tokens > 0
    ensures Reaches(s, s.(tokens := s.tokens - 1))
  {
    var s1 := s.(tokens := s.tokens - 1, mutex := Some(t), pc := s.pc[t := WaitTest(g)]);
    ReachesTwo(s, t, Go);
    assert s.pc[t := WaitLock(g)][t := WaitTest(g)] == s1.pc;
    ReachesTwo(s1, t, Go);
    assert s1.pc[t := WaitUnlock(g)][t := WaitToken(g)] == s.pc;
    ReachesVia(s, s1, s.(tokens := s.tokens - 1));
  }

  /** The signal loop gives one token per iteration. */
  lemma {:induction false} SignalLoop(s: State, t: Task, g: Guard, left: nat)
    requires t in s.pc && s.pc[t] == Signal(g, left) && s.tokens + left <= INT_MAX
    ensures Reaches(s, s.(tokens := s.tokens + left, mutex := None, pc := s.pc[t := Outside]))
    decreases left
  {
    var end := s.(tokens := s.tokens + left, mutex := None, pc := s.pc[t := Outside]);
    if left == 0 {
      ReachesTwo(s, t, Go);
      assert s.pc[t := FinishUnlock(g)][t := Outside] == end.pc;
    } else {
      var s1 := Next(s, t, Go);
      ReachesOne(s, t, Go);
      SignalLoop(s1, t, g, left - 1);
      assert s1.pc[t := Outside] == end.pc;
      ReachesVia(s, s1, end);
    }
  }

  /** The state with guard g given up by its owner and nothing else changed. */
  function Aborted(s: State, g: Guard): (s': State) {
    s.(pending := s.pending - {g}, owner := s.owner - {g})
  }

  /** The state with guard g constructed by its owner and nothing else changed. */
  function Released(s: State, g: Guard): (s': State) {
    Aborted(s, g).(ready := s.ready + {g}, built := s.built + [g])
  }

  /** An undisturbed release or abort frees the guard and gives one token per waiter; only a release makes it ready. */
  lemma FinishGives(s: State, t: Task, g: Guard, built: bool)
    requires t in s.pc && s.pc[t].Outside? && s.mutex.None? && g in s.owner && s.owner[g] == t
    requires s.tokens + s.waiting <= INT_MAX
    ensures Reaches(s, (if built then Released(s, g) else Aborted(s, g)).(tokens := s.tokens + s.waiting))
  {
    var end := (if built then Released(s, g) else Aborted(s, g)).(tokens := s.tokens + s.waiting);
    var s1 := s.(mutex := Some(t), pc := s.pc[t := FinishClear(g, built)]);
    var s2 := end.(tokens := s.tokens, mutex := Some(t), pc := s.pc[t := Signal(g, s.waiting)]);
    ReachesTwo(s, t, Return(g, built));
    assert s.pc[t := FinishLock(g, built)][t := FinishClear(g, built)] == s1.pc;
    ReachesTwo(s1, t, Go);
    assert s1.pc[t := FinishCount(g)][t := Signal(g, s.waiting)] == s2.pc;
    SignalLoop(s2, t, g, s.waiting);
    assert s2.pc[t := Outside] == s.pc;
    ReachesVia(s, s1, s2);
    ReachesVia(s, s2, end);
  }

  /** An undisturbed release marks the guard ready and gives one token per waiter. */
  lemma ReleaseGives(s: State, t: Task, g: Guard)
    requires t in s.pc && s.pc[t].Outside? && s.mutex.None? && g in s.owner && s.owner[g] == t
    requires s.tokens + s.waiting <= INT_MAX
    ensures Reaches(s, s.(pending := s.pending - {g}, owner := s.owner - {g}, ready := s.ready + {g},
                          built := s.built + [g], tokens := s.tokens + s.waiting))
  {
    FinishGives(s, t, g, true);
  }

  /** An undisturbed abort frees the guard, leaves it not constructed and gives one token per waiter. */
  lemma AbortGives(s: State, t: Task, g: Guard)
    requires t in s.pc && s.pc[t].Outside? && s.mutex.None? && g in s.owner && s.owner[g] == t
    requires s.tokens + s.waiting <= INT_MAX
    ensures Reaches(s, s.(pending := s.pending - {g}, owner := s.owner - {g}, tokens := s.tokens + s.waiting))
  {
    FinishGives(s, t, g, false);
  }

  /** After an abort the next task that asks becomes the constructor. */
  lemma AbortedAgain(s: State, t: Task, g: Guard, u: Task)
    requires t in s.pc && s.pc[t].Outside? && s.mutex.None? && g in s.owner && s.owner[g] == t && g !in s.ready
    requires s.tokens + s.waiting <= INT_MAX && u in s.pc && s.pc[u].Outside?
    ensures Reaches(s, s.(pending := s.pending + {g}, owner := s.owner[g := u], tokens := s.tokens + s.waiting))
  {
    AbortGives(s, t, g);
    var mid := s.(pending := s.pending - {g}, owner := s.owner - {g}, tokens := s.tokens + s.waiting);
    var end := s.(pending := s.pending + {g}, owner := s.owner[g := u], tokens := s.tokens + s.waiting);
    AcquireFresh(mid, u, g);
    assert mid.pending + {g} == end.pending && mid.owner[g := u] == end.owner;
    ReachesVia(s, mid, end);
  }

  /** A run in which only tasks inside the wait move. */
  ghost predicate WaitRun(s: State, run: seq<Task>, s': State)
    decreases |run|
  {
    if run == [] then s' == s
    else
      var t := run[0];
      t in s.pc && s.pc[t].InWait() && Enabled(s, t, Go) && WaitRun(Next(s, t, Go), run[1..], s')
  }

  /** Waiting tasks alone can bring about that w is still at the semaphore and no token is left. */
  ghost predicate CanStarve(s: State, w: Task)
    requires w in s.pc
  {
    exists run, s' :: WaitRun(s, run, s') && w in s'.pc && s'.pc[w] == s.pc[w] && s'.tokens == 0
  }

  lemma WaitRunPrepend(s: State, t: Task, run: seq<Task>, s': State)
    requires t in s.pc && s.pc[t].InWait() && Enabled(s, t, Go) && WaitRun(Next(s, t, Go), run, s')
    ensures WaitRun(s, [t] + run, s')
  {
    assert ([t] + run)[1..] == run;
  }

  lemma {:induction false} WaitRunReaches(s: State, run: seq<Task>, s': State)
    requires WaitRun(s, run, s')
    ensures Reaches(s, s')
    decreases |run|
  {
    if run == [] {
      assert Exec(s, []) == Some(s);
    } else {
      var mid := Next(s, run[0], Go);
      WaitRunReaches(mid, run[1..], s');
      ReachesOne(s, run[0], Go);
      ReachesVia(s, mid, s');
    }
  }

  /** A task that comes back from the semaphore and finds its guard pending parks again. */
  lemma ParksAgain(s: State, t: Task, g: Guard, run: seq<Task>, s': State)
    requires t in s.pc && s.pc[t] == WaitLock(g) && s.mutex.None? && g in s.pending
    requires WaitRun(s.(pc := s.pc[t := WaitToken(g)]), run, s')
    ensures WaitRun(s, [t, t, t] + run, s')
  {
    var s1 := s.(mutex := Some(t), pc := s.pc[t := WaitTest(g)]);
    var s2 := s.(mutex := Some(t), pc := s.pc[t := WaitUnlock(g)]);
    assert s.pc[t := WaitTest(g)][t := WaitUnlock(g)] == s2.pc;
    assert s2.pc[t := WaitToken(g)] == s.pc[t := WaitToken(g)];
    hide WaitRun;
    WaitRunPrepend(s2, t, run, s');
    WaitRunPrepend(s1, t, [t] + run, s');
    WaitRunPrepend(s, t, [t] + ([t] + run), s');
    assert [t] + ([t] + ([t] + run)) == [t, t, t] + run;
  }

  /** A parked waiter whose guard is pending can take all tokens, one by one, and leave everything else as it is. */
  lemma {:induction false} TokensRunOut(s: State, t: Task, g: Guard) returns (run: seq<Task>)
    requires t in s.pc && s.pc[t] == WaitToken(g) && s.mutex.None? && g in s.pending
    ensures WaitRun(s, run, s.(tokens := 0))
    decreases s.tokens
  {
    if s.tokens == 0 {
      run := [];
    } else {
      run := TokensRunOut(s.(tokens := s.tokens - 1), t, g);
      var s1 := s.(tokens := s.tokens - 1, pc := s.pc[t := WaitLock(g)]);
      assert s1.pc[t := WaitToken(g)] == s.pc;
      assert s1.(pc := s1.pc[t := WaitToken(g)]) == s.(tokens := s.tokens - 1);
      ParksAgain(s1, t, g, run, s.(tokens := 0));
      hide WaitRun;
      WaitRunPrepend(s, t, [t, t, t] + run, s.(tokens := 0));
      run := [t] + ([t, t, t] + run);
    }
  }

  /** If some waiter's guard is pending, any other waiter can be starved. */
  lemma PendingWaitStarves(s: State, w: Task, g: Guard)
    requires MutexInv(s) && s.mutex.None? && PendingWait(s)
    requires w in s.pc && s.pc[w] == WaitToken(g) && g !in s.pending
    ensures CanStarve(s, w)
  {
    var t :| t in s.pc && s.pc[t].InWait() && s.pc[t].g in s.pending;
    var h := s.pc[t].g;
    var s1 := s.(pc := s.pc[t := WaitToken(h)]);
    var run := TokensRunOut(s1, t, h);
    var s' := s1.(tokens := 0);
    assert s.pc[t].WaitToken? || s.pc[t].WaitLock?;
    if s.pc[t].WaitToken? {
      assert s1 == s;
      assert WaitRun(s, run, s');
    } else {
      ParksAgain(s, t, h, run, s');
      assert WaitRun(s, [t, t, t] + run, s');
    }
    assert s'.pc[w] == s.pc[w];
  }

  /** Nobody waits for a pending guard, and nobody is signalling. */
  ghost predicate Calm(s: State) {
    Inv(s) && !PendingWait(s) && (s.mutex.Some? ==> s.pc[s.mutex.value].InWait() || s.pc[s.mutex.value].Decide?)
  }

  lemma CalmStep(s: State, t: Task)
    requires Calm(s) && t in s.pc && s.pc[t].InWait() && Enabled(s, t, Go)
    ensures Calm(Next(s, t, Go))
  {
    InvStep(s, t, Go);
    var s' := Next(s, t, Go);
    hide Inv;
    forall u | u in s'.pc && s'.pc[u].InWait()
      ensures s'.pc[u].g !in s'.pending
    {
      assert s.pc[u].InWait() && s'.pc[u].g == s.pc[u].g;
    }
  }

  lemma {:induction false} CalmRun(s: State, run: seq<Task>, s': State)
    requires Calm(s) && WaitRun(s, run, s')
    ensures Calm(s')
    decreases |run|
  {
    hide Calm;
    if run != [] {
      CalmStep(s, run[0]);
      CalmRun(Next(s, run[0], Go), run[1..], s');
    }
  }

  lemma CalmCovers(s: State, w: Task)
    requires Calm(s) && w in s.pc && s.pc[w].WaitToken?
    ensures s.tokens > 0
  {
    assert w in Tokenless(s);
    assert |Tokenless(s)| > 0;
  }

  /** A task at the semaphore whose guard is no longer pending can be starved by the other waiters if and only if one
      of them waits for a guard that is still under construction. */
  lemma StarvedExactly(tasks: set<Task>, run: seq<Move>, w: Task)
    requires |tasks| <= INT_MAX && Exec(Init(tasks), run).Some?
    requires var s := Exec(Init(tasks), run).value;
      s.mutex.None? && w in s.pc && s.pc[w].WaitToken? && s.pc[w].g !in s.pending
    ensures var s := Exec(Init(tasks), run).value; CanStarve(s, w) <==> PendingWait(s)
  {
    InvInit(tasks);
    InvRun(Init(tasks), run);
    var s := Exec(Init(tasks), run).value;
    if PendingWait(s) {
      PendingWaitStarves(s, w, s.pc[w].g);
    } else if CanStarve(s, w) {
      var r, s' :| WaitRun(s, r, s') && w in s'.pc && s'.pc[w] == s.pc[w] && s'.tokens == 0;
      CalmRun(s, r, s');
      CalmCovers(s', w);
    }
  }

  /** The release of a guard can leave its waiters without a token whenever somebody waits for another pending guard. */
  lemma ReleaseStarves(s: State, u: Task, g1: Guard, b: Task, g0: Guard)
    requires s.mutex.None? && s.tokens + s.waiting <= INT_MAX
    requires u in s.pc && s.pc[u].Outside? && g1 in s.owner && s.owner[g1] == u
    requires b in s.pc && s.pc[b] == WaitToken(g0) && g0 in s.pending && g0 != g1
    ensures Reaches(s, Released(s, g1).(tokens := 0))
  {
    ReleaseGives(s, u, g1);
    var mid := Released(s, g1).(tokens := s.tokens + s.waiting);
    var run := TokensRunOut(mid, b, g0);
    WaitRunReaches(mid, run, Released(s, g1).(tokens := 0));
    ReachesVia(s, mid, Released(s, g1).(tokens := 0));
  }

  /** Nested constructions deadlock for any number of tasks: a constructs g0 and waits for g1, b waits for g0, and the
      owner of g1 is about to finish while every other task inside a call sits at the semaphore. */
  lemma NestedWaitDeadlocks(s: State, a: Task, u: Task, g1: Guard, b: Task, g0: Guard) returns (s': State)
    requires s.mutex.None? && s.tokens + s.waiting <= INT_MAX
    requires forall t :: t in s.pc && !s.pc[t].Outside? ==> s.pc[t].WaitToken?
    requires u in s.pc && s.pc[u].Outside? && g1 in s.owner && s.owner[g1] == u
    requires a in s.pc && s.pc[a] == WaitToken(g1) && g0 in s.owner && s.owner[g0] == a
    requires b in s.pc && s.pc[b] == WaitToken(g0) && g0 in s.pending && g0 != g1
    ensures Reaches(s, s') && Stuck(s') && s' == Released(s, g1).(tokens := 0)
    ensures s'.pc[a] == WaitToken(g1) && g1 in s'.ready && g0 in s'.owner && s'.owner[g0] == a
  {
    ReleaseStarves(s, u, g1, b, g0);
    s' := Released(s, g1).(tokens := 0);
  }

  /** Task 2 constructs guard 1, task 0 constructs guard 0 and waits for guard 1, task 1 waits for guard 0. */
  const PARKED := State(map[0 := WaitToken(1), 1 := WaitToken(0), 2 := Outside], None, 0, 2, {0, 1}, {},
                        map[0 := 0, 1 := 2], [])

  lemma ParkedReachable()
    ensures Reaches(Init({0, 1, 2}), PARKED)
  {
    hide Reaches;
    var s0 := Init({0, 1, 2});
    AcquireFresh(s0, 2, 1);
    var s1 := s0.(pending := s0.pending + {1}, owner := s0.owner[1 := 2]);
    AcquireFresh(s1, 0, 0);
    var s2 := s1.(pending := s1.pending + {0}, owner := s1.owner[0 := 0]);
    AcquireBlocks(s2, 0, 1);
    var s3 := s2.(waiting := 1, pc := s2.pc[0 := WaitToken(1)]);
    AcquireBlocks(s3, 1, 0);
    var s4 := s3.(waiting := 2, pc := s3.pc[1 := WaitToken(0)]);
    ReachesVia(s0, s1, s2);
    ReachesVia(s0, s2, s3);
    ReachesVia(s0, s3, s4);
    assert s4.pc == PARKED.pc && s4.owner == PARKED.owner && s4.pending == PARKED.pending;
  }

  /** A reachable deadlock of three tasks, although no guard depends on itself: task 0 constructs guard 0 and waits for
      guard 1, which is ready, while task 1, waiting for guard 0, has swallowed both tokens of guard 1's release. */
  lemma NestedConstructionDeadlocks() returns (s: State)
    ensures Reaches(Init({0, 1, 2}), s) && Stuck(s)
    ensures s.pc == map[0 := WaitToken(1), 1 := WaitToken(0), 2 := Outside]
    ensures s.owner == map[0 := 0] && s.ready == {1}
  {
    ParkedReachable();
    s := NestedWaitDeadlocks(PARKED, 0, 2, 1, 1, 0);
    ReachesVia(Init({0, 1, 2}), PARKED, s);
    hide Reaches;
    assert s.owner == map[0 := 0] && s.ready == {1};
  }
}
