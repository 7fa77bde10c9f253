/** What each system call answers, said of the states before and after it, and what exit and wait
    achieve together over a run. */
module KernelLaws {
  import opened KernelSpec

  /** t and u differ in the processes of S only. */
  ghost predicate SameBut(t: Table, u: Table, S: set<nat>) {
    |t| == NPROCS && |u| == NPROCS && forall i :: IsPid(i) && i !in S ==> u[i] == t[i]
  }

  /** c is the least free pid. */
  ghost predicate LeastFree(t: Table, c: nat)
    requires |t| == NPROCS
  {
    1 <= c < NPROCS && t[c].state == Empty && forall b :: 1 <= b < c ==> t[b].state != Empty
  }

  lemma FirstEmptyIsLeast(t: Table, i: nat)
    requires |t| == NPROCS && 1 <= i <= NPROCS && forall b :: 1 <= b < i ==> t[b].state != Empty
    ensures var c := FirstEmpty(t, i);
            if c < NPROCS then LeastFree(t, c) else forall b :: 1 <= b < NPROCS ==> t[b].state != Empty
    decreases NPROCS - i
  {
    if i == NPROCS || t[i].state == Empty {
    } else {
      FirstEmptyIsLeast(t, i + 1);
    }
  }

  lemma LeastFreeIsFirst(t: Table, c: nat)
    requires |t| == NPROCS && LeastFree(t, c)
    ensures FirstEmpty(t, 1) == c
  {
    FirstEmptyIsLeast(t, 1);
  }

  /** fork and newthread tell the parent the child's pid, the least that was free, and the child 0. */
  lemma SpawnAnswers(s: State, call: Call, arg: int, s': State, c: nat)
    requires Good(s) && Step(s, call, arg, s') && (call == Fork || call == NewThread) && LeastFree(s.t, c)
    ensures c != s.current && s'.current == s.current && SameBut(s.t, s'.t, {c, s.current})
    ensures s'.t[s.current] == s.t[s.current].(eax := c)
    ensures s'.t[c] == s.t[c].(waitingQ := {}, state := Runnable, eax := 0)
  {
    var u := s.t[s.current := s.t[s.current].(eax := arg)];
    assert c != s.current && s'.t == Spawn(u, s.current);
    hide Good, Step;
    assert LeastFree(u, c);
    LeastFreeIsFirst(u, c);
    hide FirstEmpty, LeastFree, Spawn;
    SpawnIs(u, s.current, c);
  }

  lemma SpawnIs(t: Table, current: nat, c: nat)
    requires |t| == NPROCS && IsPid(current) && IsPid(c) && FirstEmpty(t, 1) == c != current
    ensures Spawn(t, current) ==
            t[c := t[c].(waitingQ := {}, state := Runnable, eax := 0)][current := t[current].(eax := c)]
  {
  }

  /** When no descriptor is free, the parent is told -1 and nothing else happens. */
  lemma SpawnFails(s: State, call: Call, arg: int, s': State)
    requires Good(s) && Step(s, call, arg, s') && (call == Fork || call == NewThread)
    requires forall b :: 1 <= b < NPROCS ==> s.t[b].state != Empty
    ensures s'.current == s.current && SameBut(s.t, s'.t, {s.current})
    ensures s'.t[s.current] == s.t[s.current].(eax := -1)
  {
  }

  lemma GetPidAnswers(s: State, arg: int, s': State)
    requires Good(s) && Step(s, GetPid, arg, s')
    ensures s'.current == s.current && SameBut(s.t, s'.t, {s.current})
    ensures s'.t[s.current] == s.t[s.current].(eax := s.current)
  {
  }

  lemma YieldAnswers(s: State, arg: int, s': State)
    requires Good(s) && Step(s, Yield, arg, s')
    ensures SameBut(s.t, s'.t, {s.current}) && s'.t[s.current] == s.t[s.current].(eax := arg)
  {
  }

  /** An exit hands its status to exactly the waiters; without any, it is kept for later.  The table is
      this whether or not anybody is left to run. */
  lemma ExitAnswers(t: Table, current: nat, arg: int)
    requires Inv(t) && IsPid(current) && t[current].state == Runnable
    ensures var u := Handle(t, current, Exit, arg);
            && |u| == NPROCS
            && u[current] == t[current].(eax := arg, exitStatus := arg,
                 state := if exists i :: IsPid(i) && WaitsFor(t, i, current) then Empty else Zombie)
            && forall i :: IsPid(i) && i != current ==>
                 u[i] == if WaitsFor(t, i, current) then t[i].(state := Runnable, eax := arg) else t[i]
  {
    var v := t[current := t[current].(eax := arg)];
    var u := Handle(t, current, Exit, arg);
    forall i | IsPid(i) ensures u[i] == AfterExit(v, current, i) {
    }
    forall i | IsPid(i) ensures WaitsFor(t, i, current) <==> i in t[current].waitingQ {
    }
    if t[current].waitingQ != {} {
      var i :| i in t[current].waitingQ;
      assert IsPid(i) && WaitsFor(t, i, current);
    }
  }

  /** Waiting for nobody that can be waited for is an error. */
  predicate CannotWait(t: Table, current: nat, arg: int)
    requires |t| == NPROCS
  {
    arg <= 0 || arg >= NPROCS || arg == current || t[arg].state == Empty
  }

  /** wait answers -1, or the status of a dead process, which is freed, or blocks the caller behind a
      live one. */
  lemma WaitAnswers(t: Table, current: nat, arg: int)
    requires Inv(t) && IsPid(current) && t[current].state == Runnable
    ensures var u := Handle(t, current, Wait, arg);
            if CannotWait(t, current, arg) then
              SameBut(t, u, {current}) && u[current] == t[current].(eax := -1)
            else
              && SameBut(t, u, {current, arg})
              && if t[arg].state == Zombie then
                   u[current] == t[current].(eax := t[arg].exitStatus) && u[arg] == t[arg].(state := Empty)
                 else
                   && u[current] == t[current].(eax := arg, state := Blocked)
                   && u[arg] == t[arg].(waitingQ := t[arg].waitingQ + {current})
                   && WaitsFor(u, current, arg)
  {
  }

  /** schedule() goes round: nobody runnable comes between the old and the new process. */
  lemma RoundRobin(s: State, call: Call, arg: int, s': State, q: nat)
    requires Good(s) && Step(s, call, arg, s') && (call == Yield || call == Exit || call == Wait) && IsPid(q)
    requires if s'.current > s.current then s.current < q < s'.current else q > s.current || q < s'.current
    ensures s'.t[q].state != Runnable
  {
    var k := NextRunnable(s'.t, s.current, 1);
    var j := if q > s.current then q - s.current else q + NPROCS - s.current;
    BehindIs(s.current, j);
    BehindIs(s.current, k);
    assert s'.t[Behind(s.current, j)].state != Runnable;
  }

  lemma BehindIs(current: nat, d: nat)
    requires IsPid(current) && d <= NPROCS
    ensures Behind(current, d) == if current + d < NPROCS then current + d else current + d - NPROCS
  {
  }

  // ---------------------------------------------------------------- collecting a dead process

  /** Nobody waits for p between the steps i and j. */
  predicate NobodyAsks(calls: seq<(Call, int)>, i: nat, j: nat, p: nat)
    requires i <= j <= |calls|
  {
    forall k :: i <= k < j ==> calls[k] != (Wait, p as int)
  }

  /** A dead process stays dead, with its status, until somebody waits for it. */
  lemma ZombieStays(s: State, call: Call, arg: int, s': State, p: nat)
    requires Good(s) && Step(s, call, arg, s') && IsPid(p) && s.t[p].state == Zombie && (call, arg) != (Wait, p as int)
    ensures s'.t[p] == s.t[p]
  {
    assert p != s.current;
    match call
    case GetPid => GetPidAnswers(s, arg, s');
    case Fork => SpawnKeepsZombie(s, call, arg, s', p);
    case NewThread => SpawnKeepsZombie(s, call, arg, s', p);
    case Yield => YieldAnswers(s, arg, s');
    case Exit =>
      ExitAnswers(s.t, s.current, arg);
      assert !WaitsFor(s.t, p, s.current);
    case Wait => WaitAnswers(s.t, s.current, arg);
  }

  lemma SpawnKeepsZombie(s: State, call: Call, arg: int, s': State, p: nat)
    requires Good(s) && Step(s, call, arg, s') && (call == Fork || call == NewThread)
    requires IsPid(p) && s.t[p].state == Zombie
    ensures s'.t[p] == s.t[p]
  {
    assert |s.t| == NPROCS && s.t[s.current].state == Runnable;
    hide Good, Step, FirstEmpty;
    FirstEmptyIsLeast(s.t, 1);
    var c := FirstEmpty(s.t, 1);
    if c < NPROCS {
      SpawnAnswers(s, call, arg, s', c);
    } else {
      SpawnFails(s, call, arg, s');
    }
  }

  lemma {:induction false} ZombieKept(run: seq<State>, calls: seq<(Call, int)>, i: nat, j: nat, p: nat)
    requires Run(run, calls) && i <= j <= |calls| && IsPid(p) && NobodyAsks(calls, i, j, p)
    requires |run[i].t| == NPROCS && run[i].t[p].state == Zombie
    ensures |run[j].t| == NPROCS && run[j].t[p] == run[i].t[p]
    decreases j
  {
    if i == j {
    } else {
      ZombieKept(run, calls, i, j - 1, p);
      RunGood(run, calls, j - 1);
      RunStep(run, calls, j - 1);
      hide Run, Good, Step;
      ZombieStays(run[j - 1], calls[j - 1].0, calls[j - 1].1, run[j], p);
    }
  }

  /** What a zombie is for: the first process that waits for one that exited unnoticed finds the exit
      status in eax, however much later. */
  lemma WaitCollectsStatus(run: seq<State>, calls: seq<(Call, int)>, e: nat, w: nat)
    requires Run(run, calls) && e < w < |calls| && calls[e].0 == Exit
    requires |run[e].t| == NPROCS && IsPid(run[e].current) && run[e].current > 0
    requires forall i :: IsPid(i) ==> !WaitsFor(run[e].t, i, run[e].current)
    requires calls[w] == (Wait, run[e].current as int) && NobodyAsks(calls, e + 1, w, run[e].current)
    ensures |run[w + 1].t| == NPROCS && IsPid(run[w].current)
    ensures run[w + 1].t[run[w].current].eax == calls[e].1
    ensures run[w + 1].t[run[e].current].state == Empty
  {
    var p := run[e].current;
    RunGood(run, calls, e);
    RunStep(run, calls, e);
    ExitAnswers(run[e].t, p, calls[e].1);
    ZombieKept(run, calls, e + 1, w, p);
    RunGood(run, calls, w);
    RunStep(run, calls, w);
    WaitAnswers(run[w].t, run[w].current, p);
  }
}
