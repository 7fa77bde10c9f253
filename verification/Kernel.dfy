/** The process table of MiniprocOS as a value: what each system call does to it, and what holds in
    every run. */
module KernelSpec {
  import opened Cardinality

  const NPROCS: nat := 16

  datatype ProcState = Empty | Runnable | Blocked | Zombie

  /** waitingQ holds the processes whose flag is set; eax carries arguments and results. */
  datatype Process = Process(waitingQ: set<nat>, state: ProcState, eax: int, exitStatus: int)

  type Table = seq<Process>

  datatype Call = GetPid | Fork | NewThread | Yield | Exit | Wait

  predicate IsPid(p: int) { 0 <= p < NPROCS }

  /** The first empty descriptor from i on; NPROCS when there is none. */
  function FirstEmpty(t: Table, i: nat): (p: nat)
    requires |t| == NPROCS && i <= NPROCS
    ensures i <= p <= NPROCS && (p < NPROCS ==> t[p].state == Empty)
    decreases NPROCS - i
  {
    if i == NPROCS || t[i].state == Empty then i else FirstEmpty(t, i + 1)
  }

  /** do_fork and do_newthread, as far as they touch the table, with the result in the caller's eax. */
  function Spawn(t: Table, current: nat): (u: Table)
    requires |t| == NPROCS && IsPid(current)
    ensures |u| == NPROCS
  {
    var p := FirstEmpty(t, 1);
    if p == NPROCS then t[current := t[current].(eax := -1)]
    else
      var u := t[p := t[p].(waitingQ := {}, state := Runnable, eax := 0)];
      u[current := u[current].(eax := p)]
  }

  /** sys_exit: every waiter becomes runnable with the exit status as its result. */
  function ExitTable(t: Table, current: nat): (u: Table)
    requires |t| == NPROCS && IsPid(current)
    ensures |u| == NPROCS
  {
    seq(NPROCS, i requires 0 <= i < NPROCS => AfterExit(t, current, i))
  }

  /** Descriptor i after the exit of current. */
  function AfterExit(t: Table, current: nat, i: nat): Process
    requires |t| == NPROCS && IsPid(current) && IsPid(i)
  {
    var status := t[current].eax;
    if i == current then t[i].(state := if t[current].waitingQ == {} then Zombie else Empty, exitStatus := status)
    else if i in t[current].waitingQ then t[i].(state := Runnable, eax := status)
    else t[i]
  }

  /** sys_wait: an error, a dead process's status, or waiting. */
  function WaitTable(t: Table, current: nat): (u: Table)
    requires |t| == NPROCS && IsPid(current)
    ensures |u| == NPROCS
  {
    var p := t[current].eax;
    if p <= 0 || p >= NPROCS || p == current || t[p].state == Empty then t[current := t[current].(eax := -1)]
    else if t[p].state == Zombie then
      t[p := t[p].(state := Empty)][current := t[current].(eax := t[p].exitStatus)]
    else
      t[p := t[p].(waitingQ := t[p].waitingQ + {current})][current := t[current].(state := Blocked)]
  }

  /** The table after a call whose argument is arg. */
  function Handle(t: Table, current: nat, call: Call, arg: int): (u: Table)
    requires |t| == NPROCS && IsPid(current)
    ensures |u| == NPROCS
  {
    var u := t[current := t[current].(eax := arg)];
    match call
    case GetPid => u[current := u[current].(eax := current)]
    case Fork => Spawn(u, current)
    case NewThread => Spawn(u, current)
    case Yield => u
    case Exit => ExitTable(u, current)
    case Wait => WaitTable(u, current)
  }

  /** Whether the call ends in schedule() rather than in run(current). */
  predicate Reschedules(call: Call) { call == Yield || call == Exit || call == Wait }

  /** The pid d places behind current, around the table. */
  function Behind(current: nat, d: nat): (p: nat)
    requires IsPid(current)
    ensures IsPid(p)
  {
    (current + d) % NPROCS
  }

  lemma BehindNext(current: nat, d: nat)
    requires IsPid(current)
    ensures (Behind(current, d) + 1) % NPROCS == Behind(current, d + 1)
    ensures Behind(current, 0) == current
  {
  }

  /** Round robin: the distance, from d on, of the first runnable process; NPROCS + 1 when there is none. */
  function NextRunnable(t: Table, current: nat, d: nat): (k: nat)
    requires |t| == NPROCS && IsPid(current) && 1 <= d <= NPROCS + 1
    ensures d <= k <= NPROCS + 1
    ensures k <= NPROCS ==> t[Behind(current, k)].state == Runnable
    ensures forall j :: d <= j < k ==> t[Behind(current, j)].state != Runnable
    decreases NPROCS + 1 - d
  {
    if d == NPROCS + 1 || t[Behind(current, d)].state == Runnable then d else NextRunnable(t, current, d + 1)
  }

  datatype State = State(t: Table, current: nat)

  /** One system call of the running process; without a runnable process schedule() never returns. */
  ghost predicate Step(s: State, call: Call, arg: int, s': State) {
    && |s.t| == NPROCS && IsPid(s.current)
    && s'.t == Handle(s.t, s.current, call, arg)
    && Chosen(s'.t, s.current, call, s'.current)
  }

  /** next is the process that runs after the call. */
  ghost predicate Chosen(t: Table, current: nat, call: Call, next: nat)
    requires |t| == NPROCS && IsPid(current)
  {
    if !Reschedules(call) then next == current
    else
      var k := NextRunnable(t, current, 1);
      k <= NPROCS && next == Behind(current, k)
  }

  // ---------------------------------------------------------------- no lost wake-ups

  /** Process i is flagged by p, which is runnable or blocked. */
  predicate WaitsFor(t: Table, i: nat, p: nat)
    requires |t| == NPROCS && IsPid(p)
  {
    (t[p].state == Runnable || t[p].state == Blocked) && i in t[p].waitingQ
  }

  /** Whoever is flagged by a live process is blocked, and not by itself. */
  ghost predicate FlaggedAreBlocked(t: Table)
    requires |t| == NPROCS
  {
    forall i, p :: IsPid(i) && IsPid(p) && WaitsFor(t, i, p) ==> t[i].state == Blocked && i != p
  }

  ghost predicate Served(t: Table, i: nat)
    requires |t| == NPROCS
  {
    exists p :: IsPid(p) && WaitsFor(t, i, p)
  }

  ghost predicate BlockedAreServed(t: Table)
    requires |t| == NPROCS
  {
    forall i :: IsPid(i) && t[i].state == Blocked ==> Served(t, i)
  }

  ghost predicate ServedOnce(t: Table)
    requires |t| == NPROCS
  {
    forall i, p, q :: IsPid(i) && IsPid(p) && IsPid(q) && WaitsFor(t, i, p) && WaitsFor(t, i, q) ==> p == q
  }

  ghost predicate Tidy(t: Table)
    requires |t| == NPROCS
  {
    && t[0].state == Empty
    && (forall p, i :: IsPid(p) && i in t[p].waitingQ ==> IsPid(i))
    && (forall p :: IsPid(p) && t[p].state == Zombie ==> t[p].waitingQ == {})
  }

  /** Blocked processes are exactly those with someone to wait for, and that is one process.  Flags
      left in empty descriptors mean nothing; a zombie has none. */
  ghost predicate Inv(t: Table) {
    |t| == NPROCS && Tidy(t) && FlaggedAreBlocked(t) && BlockedAreServed(t) && ServedOnce(t)
  }

  ghost predicate Good(s: State) {
    Inv(s.t) && IsPid(s.current) && s.t[s.current].state == Runnable
  }

  /** The state in which the first process starts. */
  function Boot(): State {
    var none := seq(NPROCS, i => Process({}, Empty, 0, 0));
    State(none[1 := none[1].(state := Runnable)], 1)
  }

  lemma BootGood()
    ensures Good(Boot())
  {
  }

  /** u waits exactly as t does. */
  ghost predicate SameWaits(t: Table, u: Table)
    requires |t| == NPROCS && |u| == NPROCS
  {
    forall i, p :: IsPid(i) && IsPid(p) ==> (WaitsFor(u, i, p) <==> WaitsFor(t, i, p))
  }

  lemma WaitsKept(t: Table, u: Table)
    requires Inv(t) && |u| == NPROCS && Tidy(u) && SameWaits(t, u)
    requires forall i :: IsPid(i) ==> (u[i].state == Blocked <==> t[i].state == Blocked)
    ensures Inv(u)
  {
    forall i | IsPid(i) && u[i].state == Blocked ensures Served(u, i) {
      assert Served(t, i);
      var p :| IsPid(p) && WaitsFor(t, i, p);
      assert WaitsFor(u, i, p);
    }
    forall i, p, q | IsPid(i) && IsPid(p) && IsPid(q) && WaitsFor(u, i, p) && WaitsFor(u, i, q) ensures p == q {
      assert WaitsFor(t, i, p) && WaitsFor(t, i, q);
    }
  }

  /** The caller's registers do not matter to the invariant. */
  lemma EaxInv(t: Table, current: nat, v: int)
    requires Inv(t) && IsPid(current)
    ensures Inv(t[current := t[current].(eax := v)])
  {
    WaitsKept(t, t[current := t[current].(eax := v)]);
  }

  lemma SpawnInv(t: Table, current: nat)
    requires Inv(t) && IsPid(current) && t[current].state == Runnable
    ensures Inv(Spawn(t, current)) && Spawn(t, current)[current].state == Runnable
  {
    var p := FirstEmpty(t, 1);
    if p == NPROCS {
      EaxInv(t, current, -1);
    } else {
      var u := t[p := t[p].(waitingQ := {}, state := Runnable, eax := 0)];
      WaitsKept(t, u);
      EaxInv(u, current, p);
    }
  }

  lemma ExitWaits(t: Table, current: nat, i: nat, p: nat)
    requires |t| == NPROCS && IsPid(current) && IsPid(i) && IsPid(p)
    requires FlaggedAreBlocked(t) && t[current].state == Runnable
    ensures WaitsFor(ExitTable(t, current), i, p) <==> WaitsFor(t, i, p) && p != current
  {
    assert ExitTable(t, current)[p] == AfterExit(t, current, p);
    assert WaitsFor(t, p, current) <==> p in t[current].waitingQ;
    assert WaitsFor(t, i, p) ==> t[i].state == Blocked;
  }

  lemma ExitInv(t: Table, current: nat)
    requires Inv(t) && IsPid(current) && t[current].state == Runnable
    ensures Inv(ExitTable(t, current))
  {
    var u := ExitTable(t, current);
    assert Tidy(u);
    forall i, p | IsPid(i) && IsPid(p) ensures WaitsFor(u, i, p) <==> WaitsFor(t, i, p) && p != current {
      ExitWaits(t, current, i, p);
    }
    forall i | IsPid(i) ensures u[i].state == Blocked <==> t[i].state == Blocked && !WaitsFor(t, i, current) {
      assert u[i] == AfterExit(t, current, i);
    }
    hide ExitTable, WaitsFor, Tidy;
    forall i | IsPid(i) && u[i].state == Blocked ensures Served(u, i) {
      assert Served(t, i);
      var p :| IsPid(p) && WaitsFor(t, i, p);
      assert WaitsFor(u, i, p);
    }
    forall i, p | IsPid(i) && IsPid(p) && WaitsFor(u, i, p) ensures u[i].state == Blocked && i != p {
      assert WaitsFor(t, i, p);
    }
    forall i, p, q | IsPid(i) && IsPid(p) && IsPid(q) && WaitsFor(u, i, p) && WaitsFor(u, i, q) ensures p == q {
      assert WaitsFor(t, i, p) && WaitsFor(t, i, q);
    }
  }

  lemma WaitInv(t: Table, current: nat)
    requires Inv(t) && IsPid(current) && t[current].state == Runnable
    ensures Inv(WaitTable(t, current))
  {
    var p := t[current].eax;
    if p <= 0 || p >= NPROCS || p == current || t[p].state == Empty {
      EaxInv(t, current, -1);
    } else if t[p].state == Zombie {
      WaitsKept(t, WaitTable(t, current));
    } else {
      BlockInv(t, current, p);
    }
  }

  /** A running process, which nobody has flagged, flags itself with p and blocks. */
  lemma BlockInv(t: Table, current: nat, p: nat)
    requires Inv(t) && IsPid(current) && t[current].state == Runnable && IsPid(p) && p != current
    requires t[p].state == Runnable || t[p].state == Blocked
    ensures Inv(t[p := t[p].(waitingQ := t[p].waitingQ + {current})][current := t[current].(state := Blocked)])
  {
    var u := t[p := t[p].(waitingQ := t[p].waitingQ + {current})][current := t[current].(state := Blocked)];
    assert Tidy(u);
    forall i, q | IsPid(i) && IsPid(q)
      ensures WaitsFor(u, i, q) <==> WaitsFor(t, i, q) || (i == current && q == p)
    {
    }
    assert forall q :: IsPid(q) ==> !WaitsFor(t, current, q);
    assert forall i :: IsPid(i) ==> (u[i].state == Blocked <==> t[i].state == Blocked || i == current);
    hide WaitsFor, Tidy;
    forall i | IsPid(i) && u[i].state == Blocked ensures Served(u, i) {
      if i == current {
        assert WaitsFor(u, i, p);
      } else {
        assert Served(t, i);
        var q :| IsPid(q) && WaitsFor(t, i, q);
        assert WaitsFor(u, i, q);
      }
    }
    forall i, q | IsPid(i) && IsPid(q) && WaitsFor(u, i, q) ensures u[i].state == Blocked && i != q {
    }
    forall i, q, r | IsPid(i) && IsPid(q) && IsPid(r) && WaitsFor(u, i, q) && WaitsFor(u, i, r) ensures q == r {
      assert i != current ==> WaitsFor(t, i, q) && WaitsFor(t, i, r);
    }
  }

  /** What a call does to the table keeps the invariant, and the caller runnable if the call returns to it. */
  lemma HandleInv(t: Table, current: nat, call: Call, arg: int)
    requires Inv(t) && IsPid(current) && t[current].state == Runnable
    ensures Inv(Handle(t, current, call, arg))
    ensures !Reschedules(call) ==> Handle(t, current, call, arg)[current].state == Runnable
  {
    EaxInv(t, current, arg);
    var u := t[current := t[current].(eax := arg)];
    hide Inv;
    match call
    case GetPid => EaxInv(u, current, current);
    case Fork => SpawnInv(u, current);
    case NewThread => SpawnInv(u, current);
    case Yield =>
    case Exit => ExitInv(u, current);
    case Wait => WaitInv(u, current);
  }

  lemma StepGood(s: State, call: Call, arg: int, s': State)
    requires Good(s) && Step(s, call, arg, s')
    ensures Good(s')
  {
    HandleInv(s.t, s.current, call, arg);
  }

  // ---------------------------------------------------------------- when nobody is runnable

  /** A table on which the search of schedule() never ends. */
  ghost predicate Stuck(t: Table) {
    Inv(t) && forall p :: IsPid(p) ==> t[p].state != Runnable
  }

  /** Each process of the path waits for the next one, and none occurs twice. */
  ghost predicate WaitPath(t: Table, path: seq<nat>)
    requires |t| == NPROCS
  {
    && path != []
    && (forall k :: 0 <= k < |path| ==> IsPid(path[k]))
    && (forall j, k :: 0 <= j < k < |path| ==> path[j] != path[k])
    && (forall k :: 0 <= k < |path| - 1 ==> WaitsFor(t, path[k], path[k + 1]))
  }

  /** A deadlock: the last one of the path waits for the first. */
  ghost predicate WaitCycle(t: Table, path: seq<nat>)
    requires |t| == NPROCS
  {
    WaitPath(t, path) && |path| >= 2 && WaitsFor(t, path[|path| - 1], path[0])
  }

  lemma PathIsShort(t: Table, path: seq<nat>)
    requires |t| == NPROCS && WaitPath(t, path)
    ensures |path| <= NPROCS
  {
    hide WaitsFor;
    MembersCount(path);
    SizeBelow(Members(path), NPROCS);
  }

  lemma PathExtends(t: Table, path: seq<nat>, p: nat)
    requires |t| == NPROCS && WaitPath(t, path) && IsPid(p) && p !in path && WaitsFor(t, path[|path| - 1], p)
    ensures WaitPath(t, path + [p])
  {
    hide WaitsFor;
  }

  lemma PathCloses(t: Table, path: seq<nat>, k: nat)
    requires |t| == NPROCS && WaitPath(t, path) && k < |path| - 1 && WaitsFor(t, path[|path| - 1], path[k])
    ensures WaitCycle(t, path[k..])
  {
    hide WaitsFor;
  }

  /** When nobody is runnable, following the waits from a blocked process leads into a cycle of processes
      that wait for one another. */
  lemma {:induction false} StuckIsDeadlock(t: Table, path: seq<nat>) returns (whole: seq<nat>, k: nat)
    requires Stuck(t) && |t| == NPROCS && WaitPath(t, path) && t[path[|path| - 1]].state == Blocked
    ensures path <= whole && WaitPath(t, whole) && k < |whole| && WaitCycle(t, whole[k..])
    decreases NPROCS - |path|
  {
    hide Stuck, WaitPath, WaitCycle, Inv;
    var next, closes, at := OneWait(t, path);
    if closes {
      whole, k := path, at;
    } else {
      whole, k := StuckIsDeadlock(t, path + [next]);
      assert (path + [next])[..|path|] == path;
    }
  }

  /** The process that the last one of the path waits for: one of the path, or a new one. */
  lemma OneWait(t: Table, path: seq<nat>) returns (next: nat, closes: bool, k: nat)
    requires Stuck(t) && |t| == NPROCS && WaitPath(t, path) && t[path[|path| - 1]].state == Blocked
    ensures closes ==> k < |path| && WaitCycle(t, path[k..])
    ensures !closes ==> |path| < NPROCS && WaitPath(t, path + [next]) && IsPid(next) && t[next].state == Blocked
  {
    next := Awaited(t, path[|path| - 1]);
    closes, k := next in path, 0;
    hide WaitsFor, Stuck;
    if closes {
      k :| 0 <= k < |path| && path[k] == next;
      PathCloses(t, path, k);
    } else {
      PathExtends(t, path, next);
      PathIsShort(t, path + [next]);
    }
  }

  /** Process i waits, directly or not, for processes that wait for one another. */
  ghost predicate Deadlocked(t: Table, i: nat)
    requires |t| == NPROCS
  {
    exists path, k: nat :: WaitPath(t, path) && path[0] == i && k < |path| && WaitCycle(t, path[k..])
  }

  /** So a call that returns to nobody leaves each blocked process in a deadlock. */
  lemma StuckMeans(t: Table, i: nat)
    requires Stuck(t) && |t| == NPROCS && IsPid(i) && t[i].state == Blocked
    ensures Deadlocked(t, i)
  {
    var whole, k := StuckIsDeadlock(t, [i]);
    assert WaitPath(t, whole) && whole[0] == i && WaitCycle(t, whole[k..]);
  }

  lemma Awaited(t: Table, i: nat) returns (p: nat)
    requires Stuck(t) && |t| == NPROCS && IsPid(i) && t[i].state == Blocked
    ensures IsPid(p) && WaitsFor(t, i, p) && t[p].state == Blocked && p != i
  {
    assert Served(t, i);
    p :| IsPid(p) && WaitsFor(t, i, p);
  }

  // ---------------------------------------------------------------- runs

  /** A run: states and, between them, the calls with their arguments. */
  ghost predicate Run(run: seq<State>, calls: seq<(Call, int)>) {
    && |run| == |calls| + 1 && run[0] == Boot()
    && forall i :: 0 <= i < |calls| ==> Step(run[i], calls[i].0, calls[i].1, run[i + 1])
  }

  lemma RunStart(run: seq<State>, calls: seq<(Call, int)>)
    requires Run(run, calls)
    ensures |run| == |calls| + 1 && run[0] == Boot()
  {
  }

  lemma RunStep(run: seq<State>, calls: seq<(Call, int)>, i: nat)
    requires Run(run, calls) && i < |calls|
    ensures Step(run[i], calls[i].0, calls[i].1, run[i + 1])
  {
  }

  /** No lost wake-ups: the invariant holds in every state of every run. */
  lemma {:induction false} RunGood(run: seq<State>, calls: seq<(Call, int)>, i: nat)
    requires Run(run, calls) && i < |run|
    ensures Good(run[i])
    decreases i
  {
    hide Run, Step, Good, Boot;
    RunStart(run, calls);
    if i == 0 {
      BootGood();
    } else {
      RunStep(run, calls, i - 1);
      RunGood(run, calls, i - 1);
      StepGood(run[i - 1], calls[i - 1].0, calls[i - 1].1, run[i]);
    }
  }

  /** Only the running process can stop being runnable, or have its result overwritten. */
  lemma RunnableStays(s: State, call: Call, arg: int, s': State, p: nat)
    requires Good(s) && Step(s, call, arg, s') && IsPid(p) && p != s.current && s.t[p].state == Runnable
    ensures s'.t[p].state == Runnable && s'.t[p].eax == s.t[p].eax
  {
    NotFlagged(s, p);
    hide Good, Chosen;
    HandleKeeps(s.t, s.current, call, arg, p);
  }

  lemma NotFlagged(s: State, p: nat)
    requires Good(s) && IsPid(p) && s.t[p].state == Runnable
    ensures p !in s.t[s.current].waitingQ
  {
    assert !WaitsFor(s.t, p, s.current);
  }

  /** No call touches the state or the result of another runnable process that the caller has not flagged. */
  lemma HandleKeeps(t: Table, current: nat, call: Call, arg: int, p: nat)
    requires |t| == NPROCS && IsPid(current) && IsPid(p) && p != current
    requires t[p].state == Runnable && p !in t[current].waitingQ
    ensures Handle(t, current, call, arg)[p].state == Runnable && Handle(t, current, call, arg)[p].eax == t[p].eax
  {
    var u := t[current := t[current].(eax := arg)];
    assert u[p] == t[p] && u[current].waitingQ == t[current].waitingQ;
    match call
    case GetPid =>
    case Fork => SpawnKeeps(u, current, p);
    case NewThread => SpawnKeeps(u, current, p);
    case Yield =>
    case Exit => assert ExitTable(u, current)[p] == AfterExit(u, current, p);
    case Wait => WaitKeeps(u, current, p);
  }

  lemma SpawnKeeps(t: Table, current: nat, p: nat)
    requires |t| == NPROCS && IsPid(current) && IsPid(p) && p != current && t[p].state == Runnable
    ensures Spawn(t, current)[p] == t[p]
  {
  }

  lemma WaitKeeps(t: Table, current: nat, p: nat)
    requires |t| == NPROCS && IsPid(current) && IsPid(p) && p != current && t[p].state == Runnable
    ensures WaitTable(t, current)[p].state == Runnable && WaitTable(t, current)[p].eax == t[p].eax
  {
  }

  /** How far p is behind current, around the table. */
  function Distance(current: nat, p: nat): (d: nat)
    requires IsPid(current) && IsPid(p)
    ensures 1 <= d <= NPROCS && Behind(current, d) == p
  {
    if p > current then p - current else p + NPROCS - current
  }

  lemma Closer(current: nat, k: nat, p: nat)
    requires IsPid(current) && IsPid(p) && 1 <= k <= Distance(current, p)
    ensures Behind(current, k) == p || Distance(Behind(current, k), p) < Distance(current, p)
  {
  }

  /** Each schedule() runs p or comes closer to it. */
  lemma ScheduleApproaches(s: State, call: Call, arg: int, s': State, p: nat)
    requires Step(s, call, arg, s') && IsPid(p) && s'.t[p].state == Runnable && IsPid(s'.current)
    ensures Reschedules(call) ==> s'.current == p || Distance(s'.current, p) < Distance(s.current, p)
    ensures !Reschedules(call) ==> s'.current == s.current
  {
    if Reschedules(call) {
      var k, d := NextRunnable(s'.t, s.current, 1), Distance(s.current, p);
      assert k <= d by {
        hide Behind;
        assert s'.t[Behind(s.current, d)].state == Runnable;
      }
      Closer(s.current, k, p);
    }
  }

  /** The number of calls of schedule() from step i to step j. */
  function Schedules(calls: seq<(Call, int)>, i: nat, j: nat): nat
    requires i <= j <= |calls|
    decreases j - i
  {
    if i == j then 0 else (if Reschedules(calls[i].0) then 1 else 0) + Schedules(calls, i + 1, j)
  }

  /** Fairness: a runnable process runs within NPROCS calls of schedule(), with its result intact. */
  lemma {:induction false} RunnableRuns(run: seq<State>, calls: seq<(Call, int)>, i: nat, j: nat, p: nat)
    returns (k: nat)
    requires Run(run, calls) && i <= j <= |calls| && IsPid(p) && IsPid(run[i].current)
    requires |run[i].t| == NPROCS && run[i].t[p].state == Runnable && p != run[i].current
    requires Schedules(calls, i, j) >= Distance(run[i].current, p)
    ensures i < k <= j && run[k].current == p && |run[k].t| == NPROCS && run[k].t[p].eax == run[i].t[p].eax
    decreases j - i
  {
    var (call, arg) := calls[i];
    RunGood(run, calls, i);
    RunGood(run, calls, i + 1);
    RunnableStays(run[i], call, arg, run[i + 1], p);
    ScheduleApproaches(run[i], call, arg, run[i + 1], p);
    if run[i + 1].current == p {
      k := i + 1;
    } else {
      k := RunnableRuns(run, calls, i + 1, j, p);
    }
  }

  lemma ExitWakes(s: State, arg: int, s': State, i: nat)
    requires Good(s) && Step(s, Exit, arg, s') && IsPid(i) && WaitsFor(s.t, i, s.current)
    ensures s'.t[i].state == Runnable && s'.t[i].eax == arg && i != s.current
  {
  }

  lemma FlaggedIsReady(run: seq<State>, calls: seq<(Call, int)>, e: nat, i: nat)
    requires Run(run, calls) && e < |calls| && calls[e].0 == Exit && IsPid(i)
    requires |run[e].t| == NPROCS && IsPid(run[e].current) && WaitsFor(run[e].t, i, run[e].current)
    ensures |run[e + 1].t| == NPROCS && IsPid(run[e + 1].current)
    ensures run[e + 1].t[i].state == Runnable && run[e + 1].t[i].eax == calls[e].1 && i != run[e].current
  {
    RunGood(run, calls, e);
    RunGood(run, calls, e + 1);
    hide Inv, WaitsFor, Boot;
    assert Step(run[e], calls[e].0, calls[e].1, run[e + 1]);
    hide Step;
    ExitWakes(run[e], calls[e].1, run[e + 1], i);
  }

  lemma DistanceBound(current: nat, p: nat)
    requires IsPid(current) && IsPid(p)
    ensures Distance(current, p) <= NPROCS && (p != current ==> Distance(current, p) < NPROCS)
  {
  }

  /** What sys_wait is for: when the process waited for exits, the waiter runs again within NPROCS - 1
      calls of schedule(), that of the exit included, and finds the exit status in eax. */
  lemma WaiterGetsStatus(run: seq<State>, calls: seq<(Call, int)>, e: nat, j: nat, i: nat) returns (k: nat)
    requires Run(run, calls) && e < j <= |calls| && calls[e].0 == Exit && IsPid(i)
    requires |run[e].t| == NPROCS && IsPid(run[e].current) && WaitsFor(run[e].t, i, run[e].current)
    requires Schedules(calls, e, j) >= NPROCS - 1
    ensures e < k <= j && run[k].current == i && |run[k].t| == NPROCS && run[k].t[i].eax == calls[e].1
  {
    FlaggedIsReady(run, calls, e, i);
    RunStep(run, calls, e);
    hide Run, WaitsFor, Distance, Step;
    DistanceBound(run[e].current, i);
    ScheduleApproaches(run[e], calls[e].0, calls[e].1, run[e + 1], i);
    if run[e + 1].current == i {
      k := e + 1;
    } else {
      k := RunnableRuns(run, calls, e + 1, j, i);
    }
  }
}

/** The kernel object: the process table updated in place. */
module Kernel {
  import opened KernelSpec

  class Kernel {
    const procArray: array<Process>
    var current: nat

    ghost predicate Valid()
      reads this, procArray
    {
      procArray.Length == NPROCS && Good(State(procArray[..], current))
    }

    constructor ()
      ensures Valid() && State(procArray[..], current) == Boot() && fresh(procArray)
    {
      procArray := new Process[NPROCS](i => Process({}, Empty, 0, 0));
      current := 1;
      new;
      procArray[current] := procArray[current].(state := Runnable);
      assert procArray[..] == Boot().t;
      BootGood();
    }

    /** do_fork, do_newthread: the pid of the child, or -1. */
    method Spawn() returns (pid: int)
      requires procArray.Length == NPROCS && IsPid(current)
      modifies procArray
      ensures procArray[..][current := procArray[current].(eax := pid)] == KernelSpec.Spawn(old(procArray[..]), current)
    {
      var i := 1;
      while i < NPROCS
        invariant 1 <= i <= NPROCS && procArray[..] == old(procArray[..])
        invariant FirstEmpty(procArray[..], 1) == FirstEmpty(procArray[..], i)
      {
        if procArray[i].state == Empty {
          procArray[i] := procArray[i].(waitingQ := {}, state := Runnable, eax := 0);
          return i;
        }
        i := i + 1;
      }
      return -1;
    }

    /** The waking loop of sys_exit. */
    method ExitCurrent()
      requires procArray.Length == NPROCS && IsPid(current)
      requires forall i :: i in procArray[current].waitingQ ==> 1 <= i < NPROCS && i != current
      modifies procArray
      ensures procArray[..] == ExitTable(old(procArray[..]), current)
    {
      ghost var t := procArray[..];
      procArray[current] := procArray[current].(state := Zombie);
      procArray[current] := procArray[current].(exitStatus := procArray[current].eax);
      var i := 1;
      while i < NPROCS
        invariant 1 <= i <= NPROCS
        invariant procArray[current] == t[current].(exitStatus := t[current].eax,
          state := if exists w :: 1 <= w < i && w in t[current].waitingQ then Empty else Zombie)
        invariant forall k :: 0 <= k < NPROCS && k != current ==>
          procArray[k] == if k < i then AfterExit(t, current, k) else t[k]
      {
        if i in procArray[current].waitingQ {
          procArray[i] := procArray[i].(state := Runnable);
          procArray[i] := procArray[i].(eax := procArray[current].exitStatus);
          procArray[current] := procArray[current].(state := Empty);
        }
        i := i + 1;
      }
      assert t[current].waitingQ != {} ==> exists w :: w in t[current].waitingQ;
      assert procArray[current] == AfterExit(t, current, current);
    }

    /** sys_wait */
    method WaitFor()
      requires procArray.Length == NPROCS && IsPid(current)
      modifies procArray
      ensures procArray[..] == WaitTable(old(procArray[..]), current)
    {
      var p := procArray[current].eax;
      if p <= 0 || p >= NPROCS || p == current || procArray[p].state == Empty {
        procArray[current] := procArray[current].(eax := -1);
      } else if procArray[p].state == Zombie {
        procArray[p] := procArray[p].(state := Empty);
        procArray[current] := procArray[current].(eax := procArray[p].exitStatus);
      } else {
        procArray[p] := procArray[p].(waitingQ := procArray[p].waitingQ + {current});
        procArray[current] := procArray[current].(state := Blocked);
      }
    }

    /** Finds the next runnable process and runs it; false when the search would go on for ever. */
    method Schedule() returns (running: bool)
      requires procArray.Length == NPROCS && IsPid(current)
      modifies `current
      ensures var k := NextRunnable(procArray[..], old(current), 1);
              if running then k <= NPROCS && current == Behind(old(current), k)
              else k == NPROCS + 1 && current == old(current)
    {
      hide Behind, NextRunnable;
      ghost var t, from := procArray[..], current;
      var pid, d := current, 0;
      BehindNext(from, d);
      while d < NPROCS
        invariant 0 <= d <= NPROCS && pid == Behind(from, d) && current == from
        invariant NextRunnable(t, from, 1) == NextRunnable(t, from, d + 1)
      {
        BehindNext(from, d);
        SearchStep(t, from, d + 1);
        pid := (pid + 1) % NPROCS;
        d := d + 1;
        if procArray[pid].state == Runnable {
          current := pid;
          return true;
        }
      }
      SearchEnds(t, from);
      return false;
    }

    /** What the call does before it ends in run(current) or schedule(). */
    method Perform(call: Call, arg: int)
      requires Valid()
      modifies procArray
      ensures procArray[..] == Handle(old(procArray[..]), current, call, arg)
    {
      ghost var u := procArray[..][current := procArray[current].(eax := arg)];
      EaxInv(procArray[..], current, arg);
      procArray[current] := procArray[current].(eax := arg);
      assert procArray[..] == u && Inv(u);
      match call
      case GetPid => procArray[current] := procArray[current].(eax := current);
      case Fork =>
        var pid := Spawn();
        procArray[current] := procArray[current].(eax := pid);
      case NewThread =>
        var pid := Spawn();
        procArray[current] := procArray[current].(eax := pid);
      case Yield =>
      case Exit =>
        NobodyWaitsForItself(u, current);
        ExitCurrent();
      case Wait => WaitFor();
    }

    /** run(current), or schedule(). */
    method Resume(call: Call) returns (running: bool)
      requires procArray.Length == NPROCS && IsPid(current)
      modifies `current
      ensures running ==> Chosen(procArray[..], old(current), call, current)
      ensures !running ==> forall p :: IsPid(p) ==> procArray[p].state != Runnable
    {
      running := true;
      if call == Yield || call == Exit || call == Wait {
        running := Schedule();
        if !running {
          NobodyRunnable(procArray[..], current);
        }
      }
    }

    /** interrupt(): one system call of the current process; false when schedule() finds nobody to run. */
    method Interrupt(call: Call, arg: int) returns (running: bool)
      requires Valid()
      modifies this, procArray
      ensures running ==> Valid() && Step(old(State(procArray[..], current)), call, arg, State(procArray[..], current))
      ensures !running ==> Stuck(procArray[..]) && procArray[..] == Handle(old(procArray[..]), old(current), call, arg)
    {
      ghost var s := State(procArray[..], current);
      hide Inv, Handle, Chosen;
      Perform(call, arg);
      running := Resume(call);
      if running {
        StepGood(s, call, arg, State(procArray[..], current));
      } else {
        HandleInv(s.t, s.current, call, arg);
        assert forall p :: IsPid(p) ==> procArray[..][p].state != Runnable;
      }
    }
  }

  lemma NobodyWaitsForItself(t: Table, current: nat)
    requires Inv(t) && IsPid(current) && t[current].state == Runnable
    ensures forall i :: i in t[current].waitingQ ==> 1 <= i < NPROCS && i != current
  {
    hide BlockedAreServed, ServedOnce;
    forall i | i in t[current].waitingQ ensures 1 <= i < NPROCS && i != current {
      assert IsPid(i) && WaitsFor(t, i, current);
    }
  }

  lemma SearchStep(t: Table, current: nat, d: nat)
    requires |t| == NPROCS && IsPid(current) && 1 <= d <= NPROCS
    ensures NextRunnable(t, current, d) ==
            if t[Behind(current, d)].state == Runnable then d else NextRunnable(t, current, d + 1)
  {
  }

  lemma SearchEnds(t: Table, current: nat)
    requires |t| == NPROCS && IsPid(current)
    ensures NextRunnable(t, current, NPROCS + 1) == NPROCS + 1
  {
  }

  lemma NobodyRunnable(t: Table, current: nat)
    requires |t| == NPROCS && IsPid(current) && NextRunnable(t, current, 1) == NPROCS + 1
    ensures forall p :: IsPid(p) ==> t[p].state != Runnable
  {
    forall p | IsPid(p) ensures t[p].state != Runnable {
      hide Behind;
      var d := Distance(current, p);
      assert t[Behind(current, d)].state != Runnable;
    }
  }
}
