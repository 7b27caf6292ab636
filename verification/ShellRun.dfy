/**
 * The shell's main loop, its SIGCHLD handler and its children, in any order the signal masks allow:
 * shell/tsh.c:201-483.
 */
module ShellRun {
  import opened JobTable

  /** Where the main program is. Signals are blocked in `Forked` and `Waiting`, unblocked everywhere else. */
  datatype Phase =
    | Prompt
    | Forked(child: int, background: bool)
    | Waiting
    | Suspended
    | Continuing(jid: int, foreground: bool)
    | Aborted

  /** A child as the kernel sees it; `news` says that `waitpid` has something to report. */
  datatype Child = Child(status: Status, news: bool)

  datatype Status = Running | Stopped | Dead

  /** `lost` are the children for which `add_job` had no room. */
  datatype Shell = Shell(table: Table, phase: Phase, children: map<int, Child>, lost: set<int>, past: set<int>)

  predicate Unblocked(p: Phase) {
    p.Prompt? || p.Suspended? || p.Continuing?
  }

  datatype Event =
    | Forks(pid: int, background: bool)
    | Adds(cmdline: string)
    | Tests
    | Wakes
    | Resumes(target: int, byPid: bool, foreground: bool)
    | Goes
    | Exits(pid: int)
    | Stops(pid: int)
    | Continues(pid: int)
    | Reaps(pid: int)

  /** `eval` blocks the signals and forks; process ids are not used twice. */
  ghost predicate Fork(s: Shell, r: Shell, pid: int, background: bool) {
    && s.phase.Prompt? && pid > 0 && pid !in s.past
    && r == s.(
         phase := Forked(pid, background),
         children := s.children[pid := Child(Running, false)],
         past := s.past + {pid})
  }

  /** `add_job`, still with the signals blocked; then back to the prompt or into the wait loop. */
  ghost predicate Add(s: Shell, r: Shell, cmdline: string) {
    && s.phase.Forked?
    && r == match AddJob(s.table, s.phase.child, if s.phase.background then BG else FG, cmdline)
       case Abort => s.(phase := Aborted)
       case Done(t, jid) => s.(
         table := t,
         phase := if s.phase.background then Prompt else Waiting,
         lost := if jid == 0 then s.lost + {s.phase.child} else s.lost)
  }

  /** `while (fg_job() != 0)` */
  ghost predicate Test(s: Shell, r: Shell) {
    s.phase.Waiting? && r == s.(phase := if FgJob(s.table) != 0 then Suspended else Prompt)
  }

  /** `sigsuspend` comes back with the signals blocked again. */
  ghost predicate Wake(s: Shell, r: Shell) {
    s.phase.Suspended? && r == s.(phase := Waiting)
  }

  /** The critical section of `bg` and `fg`. */
  ghost predicate Resume(s: Shell, r: Shell, target: int, byPid: bool, foreground: bool) {
    && s.phase.Prompt?
    && var jid := if byPid then JobFromPid(s.table, target) else target;
       r == if target <= 0 || !Exists(s.table, jid) then s else AfterSet(s, jid, if foreground then FG else BG)
  }

  ghost function AfterSet(s: Shell, jid: int, state: JobState): Shell {
    match SetState(s.table, jid, state)
    case Abort => s.(phase := Aborted)
    case Done(t, _) => s.(table := t, phase := Continuing(jid, state == FG))
  }

  /** After SIGCONT: `fg` waits, `bg` looks up the command line, which aborts when the job is gone. */
  ghost predicate Go(s: Shell, r: Shell) {
    && s.phase.Continuing?
    && r == s.(phase :=
         if s.phase.foreground then Waiting else if Exists(s.table, s.phase.jid) then Prompt else Aborted)
  }

  ghost predicate Exit(s: Shell, r: Shell, pid: int) {
    && pid in s.children && s.children[pid].status != Dead
    && r == s.(children := s.children[pid := Child(Dead, true)])
  }

  ghost predicate Stop(s: Shell, r: Shell, pid: int) {
    && pid in s.children && s.children[pid].status == Running
    && r == s.(children := s.children[pid := Child(Stopped, true)])
  }

  ghost predicate Continue(s: Shell, r: Shell, pid: int) {
    && pid in s.children && s.children[pid].status == Stopped
    && r == s.(children := s.children[pid := Child(Running, false)])
  }

  /** One round of the loop in `sigchld_handler`, which runs only while the signals are unblocked. */
  ghost predicate Reap(s: Shell, r: Shell, pid: int) {
    && Unblocked(s.phase) && pid in s.children && s.children[pid].news
    && r == if s.children[pid].status == Dead then Buried(s, pid) else Noted(s, pid)
  }

  ghost function Buried(s: Shell, pid: int): Shell {
    s.(table := DeleteJob(s.table, JobFromPid(s.table, pid)), children := s.children - {pid}, lost := s.lost - {pid})
  }

  ghost function Noted(s: Shell, pid: int): Shell
    requires pid in s.children
  {
    match SetState(s.table, JobFromPid(s.table, pid), ST)
    case Abort => s.(phase := Aborted)
    case Done(t, _) => s.(table := t, children := s.children[pid := s.children[pid].(news := false)])
  }

  ghost predicate Step(s: Shell, r: Shell, e: Event) {
    match e
    case Forks(pid, background) => Fork(s, r, pid, background)
    case Adds(cmdline) => Add(s, r, cmdline)
    case Tests => Test(s, r)
    case Wakes => Wake(s, r)
    case Resumes(target, byPid, foreground) => Resume(s, r, target, byPid, foreground)
    case Goes => Go(s, r)
    case Exits(pid) => Exit(s, r, pid)
    case Stops(pid) => Stop(s, r, pid)
    case Continues(pid) => Continue(s, r, pid)
    case Reaps(pid) => Reap(s, r, pid)
  }

  /** The shell is alive, and no job is in the foreground while it is not waiting for one. */
  ghost predicate FgOk(s: Shell) {
    match s.phase
    case Waiting => true
    case Suspended => true
    case Continuing(_, foreground) => foreground || FgJob(s.table) == 0
    case Aborted => false
    case _ => FgJob(s.table) == 0
  }

  /**
   * Every child is in the list, or there was no room for it, or it has just been forked; and the list has only
   * children.
   */
  ghost predicate ChildOk(s: Shell, pid: int) {
    && pid in s.children && (s.children[pid].news ==> s.children[pid].status != Running)
    && pid in s.past && pid > 0
    && (HasPid(s.table, pid) <==> pid !in s.lost && !(s.phase.Forked? && s.phase.child == pid))
    && (pid in s.lost ==> !(s.phase.Forked? && s.phase.child == pid))
  }

  ghost predicate Inv(s: Shell) {
    && TableOk(s.table) && DistinctPids(s.table) && FgOk(s)
    && (forall pid | pid in s.children :: ChildOk(s, pid))
    && (forall pid | HasPid(s.table, pid) :: pid in s.children)
    && (forall pid | pid in s.lost :: pid in s.children)
    && (s.phase.Forked? ==> s.phase.child in s.children)
  }

  /**
   * Only these two steps can abort the shell: a stop of a child the list had no room for, and `bg` on a job that has
   * just gone.
   */
  ghost predicate Fatal(s: Shell, e: Event) {
    || (e.Reaps? && e.pid in s.children && s.children[e.pid].status == Stopped && e.pid in s.lost)
    || (e.Goes? && s.phase.Continuing? && !s.phase.foreground && !Exists(s.table, s.phase.jid))
  }

  ghost predicate NoFg(t: Table) {
    forall i | 0 <= i < |t.jobs| :: t.jobs[i].state != FG
  }

  lemma FgJobIs(t: Table)
    ensures FgJob(t) == 0 <==> NoFg(t)
  {
  }

  /** The job found by its process id is the only one that has it. */
  lemma FoundByPid(t: Table, pid: int)
    requires pid > 0
    ensures JobFromPid(t, pid) != 0 <==> HasPid(t, pid)
    ensures var jid := JobFromPid(t, pid); jid != 0 ==> Exists(t, jid) && t.jobs[jid - 1].pid == pid
  {
  }

  /** What a new job does to the list of process ids. */
  lemma AddedPids(t: Table, pid: int, state: JobState, cmdline: string)
    requires TableOk(t) && DistinctPids(t) && !HasPid(t, pid) && AddJob(t, pid, state, cmdline).Done?
    ensures var r := AddJob(t, pid, state, cmdline);
            && TableOk(r.table) && DistinctPids(r.table) && r.jid >= 0
            && (r.jid == 0 ==> r.table == t)
            && (r.jid > 0 ==> HasPid(r.table, pid))
            && (forall p | p != pid :: HasPid(r.table, p) <==> HasPid(t, p))
            && (NoFg(t) && state != FG ==> NoFg(r.table))
  {
    AddJobOk(t, pid, state, cmdline);
    var r := AddJob(t, pid, state, cmdline);
    if r.jid > 0 {
      SlotChanged(t, r.table, r.jid - 1);
      assert r.table.jobs[r.jid - 1].pid == pid;
      forall p | p != pid ensures HasPid(r.table, p) <==> HasPid(t, p) {
        SlotPids(t, r.table, r.jid - 1, p);
      }
    }
  }

  ghost predicate OnlySlot(t: Table, r: Table, k: nat) {
    |r.jobs| == |t.jobs| && k < |t.jobs| && forall i | 0 <= i < |t.jobs| && i != k :: r.jobs[i] == t.jobs[i]
  }

  ghost predicate PidAt(t: Table, i: nat, pid: int) {
    i < |t.jobs| && t.jobs[i].state != UNDEF && t.jobs[i].pid == pid
  }

  lemma SlotChanged(t: Table, r: Table, k: nat)
    requires OnlySlot(t, r, k) && DistinctPids(t)
             && (r.jobs[k].state != UNDEF ==> !HasPid(t, r.jobs[k].pid) || PidAt(t, k, r.jobs[k].pid))
    ensures DistinctPids(r)
  {
  }

  /** A process id that slot `k` neither had nor has. */
  lemma SlotPids(t: Table, r: Table, k: nat, p: int)
    requires OnlySlot(t, r, k) && !PidAt(t, k, p) && !PidAt(r, k, p)
    ensures HasPid(r, p) <==> HasPid(t, p)
  {
  }

  lemma DeletedPids(t: Table, pid: int)
    requires TableOk(t) && DistinctPids(t) && pid > 0
    ensures var r := DeleteJob(t, JobFromPid(t, pid));
            && TableOk(r) && DistinctPids(r) && !HasPid(r, pid)
            && (forall p | p != pid :: HasPid(r, p) <==> HasPid(t, p))
            && (NoFg(t) ==> NoFg(r))
  {
    var jid := JobFromPid(t, pid);
    FoundByPid(t, pid);
    DeleteJobOk(t, jid);
    var r := DeleteJob(t, jid);
    if jid != 0 {
      SlotChanged(t, r, jid - 1);
      forall p | p != pid ensures HasPid(r, p) <==> HasPid(t, p) {
        SlotPids(t, r, jid - 1, p);
      }
    }
  }

  lemma SetPids(t: Table, jid: int, state: JobState)
    requires TableOk(t) && DistinctPids(t) && SetState(t, jid, state).Done?
    ensures var r := SetState(t, jid, state).table;
            && TableOk(r) && DistinctPids(r) && Exists(r, jid)
            && (forall p :: HasPid(r, p) <==> HasPid(t, p))
            && (NoFg(t) && state != FG ==> NoFg(r))
  {
    SetStateOk(t, jid, state);
    var r := SetState(t, jid, state).table;
    SlotChanged(t, r, jid - 1);
    forall p ensures HasPid(r, p) <==> HasPid(t, p) {
      if PidAt(t, jid - 1, p) {
        assert r.jobs[jid - 1].pid == p;
      } else {
        SlotPids(t, r, jid - 1, p);
      }
    }
  }

  /** What a step has to show. */
  ghost predicate Good(s: Shell, r: Shell, e: Event) {
    if Fatal(s, e) then r.phase.Aborted? else !r.phase.Aborted? && Inv(r)
  }

  lemma ForkGood(s: Shell, r: Shell, pid: int, background: bool)
    requires Inv(s) && Fork(s, r, pid, background)
    ensures Good(s, r, Forks(pid, background))
  {
    assert pid in s.children ==> ChildOk(s, pid);
    forall p | p in r.children ensures ChildOk(r, p) {
      assert p != pid ==> ChildOk(s, p);
    }
  }

  /** `add_job` is never asked for a second foreground job. */
  lemma AddGood(s: Shell, r: Shell, cmdline: string)
    requires Inv(s) && Add(s, r, cmdline)
    ensures Good(s, r, Adds(cmdline))
  {
    var pid := s.phase.child;
    var state := if s.phase.background then BG else FG;
    assert ChildOk(s, pid);
    FgJobIs(s.table);
    AddedPids(s.table, pid, state, cmdline);
    FgJobIs(r.table);
    forall p | p in r.children ensures ChildOk(r, p) {
      assert ChildOk(s, p);
    }
  }

  lemma QuietGood(s: Shell, r: Shell)
    requires Inv(s) && r == s.(phase := r.phase) && !s.phase.Forked? && !r.phase.Forked? && FgOk(r)
    ensures Inv(r)
  {
    forall p | p in r.children ensures ChildOk(r, p) {
      assert ChildOk(s, p);
    }
  }

  /** `fg` is never asked to make a second foreground job. */
  lemma ResumeGood(s: Shell, r: Shell, target: int, byPid: bool, foreground: bool)
    requires Inv(s) && Resume(s, r, target, byPid, foreground)
    ensures Good(s, r, Resumes(target, byPid, foreground))
  {
    var jid := if byPid then JobFromPid(s.table, target) else target;
    if target > 0 && Exists(s.table, jid) {
      var state := if foreground then FG else BG;
      FgJobIs(s.table);
      SetStateOk(s.table, jid, state);
      SetPids(s.table, jid, state);
      FgJobIs(r.table);
      forall p | p in r.children ensures ChildOk(r, p) {
        assert ChildOk(s, p);
      }
    }
  }

  lemma ChildGood(s: Shell, r: Shell, pid: int, c: Child)
    requires Inv(s) && pid in s.children && r == s.(children := s.children[pid := c])
             && (c.news ==> c.status != Running)
    ensures Inv(r)
  {
    forall p | p in r.children ensures ChildOk(r, p) {
      assert ChildOk(s, p);
    }
  }

  lemma BuriedGood(s: Shell, r: Shell, pid: int)
    requires Inv(s) && Unblocked(s.phase) && pid in s.children && r == Buried(s, pid)
    ensures Inv(r)
  {
    assert ChildOk(s, pid);
    FgJobIs(s.table);
    DeletedPids(s.table, pid);
    FgJobIs(r.table);
    forall p | p in r.children ensures ChildOk(r, p) {
      assert ChildOk(s, p);
    }
  }

  lemma NotedGood(s: Shell, r: Shell, pid: int)
    requires Inv(s) && Unblocked(s.phase) && pid in s.children && s.children[pid].news && s.children[pid].status != Dead
    requires r == Noted(s, pid)
    ensures Good(s, r, Reaps(pid))
  {
    assert ChildOk(s, pid);
    FgJobIs(s.table);
    FoundByPid(s.table, pid);
    var jid := JobFromPid(s.table, pid);
    SetStateOk(s.table, jid, ST);
    if SetState(s.table, jid, ST).Done? {
      SetPids(s.table, jid, ST);
      FgJobIs(r.table);
      forall p | p in r.children ensures ChildOk(r, p) {
        ChildStays(s, r, p);
      }
    }
  }

  /** A child stays right while the list keeps its process id. */
  lemma ChildStays(s: Shell, r: Shell, p: int)
    requires ChildOk(s, p) && p in r.children && r.children[p].status == s.children[p].status
    requires r.children[p].news ==> s.children[p].news
    requires r.past == s.past && r.lost == s.lost && r.phase == s.phase && HasPid(r.table, p) == HasPid(s.table, p)
    ensures ChildOk(r, p)
  {
  }

  /** Every step keeps the invariant, and aborts the shell exactly when it is one of the two fatal ones. */
  lemma StepGood(s: Shell, r: Shell, e: Event)
    requires Inv(s) && Step(s, r, e)
    ensures Good(s, r, e)
  {
    match e
    case Forks(pid, background) => ForkGood(s, r, pid, background);
    case Adds(cmdline) => AddGood(s, r, cmdline);
    case Tests => QuietGood(s, r);
    case Wakes => QuietGood(s, r);
    case Resumes(target, byPid, foreground) => ResumeGood(s, r, target, byPid, foreground);
    case Goes => if !Fatal(s, e) { QuietGood(s, r); }
    case Exits(pid) => ChildGood(s, r, pid, Child(Dead, true));
    case Stops(pid) => ChildGood(s, r, pid, Child(Stopped, true));
    case Continues(pid) => ChildGood(s, r, pid, Child(Running, false));
    case Reaps(pid) => if s.children[pid].status == Dead { BuriedGood(s, r, pid); } else { NotedGood(s, r, pid); }
  }

  ghost predicate Fresh(s: Shell) {
    && s.table == Table(seq(MAXJOBS, _ => NO_JOB), 1) && s.phase.Prompt? && s.children == map[] && s.lost == {}
        && s.past == {}
  }

  ghost predicate Run(states: seq<Shell>, events: seq<Event>) {
    && |states| == |events| + 1 && Fresh(states[0])
    && forall i | 0 <= i < |events| :: Step(states[i], states[i + 1], events[i])
  }

  ghost predicate Unharmed(states: seq<Shell>, events: seq<Event>, k: nat)
    requires |states| == |events| + 1 && k <= |events|
  {
    forall i | 0 <= i < k :: !Fatal(states[i], events[i])
  }

  /** In every run the invariant holds as long as neither fatal step is taken. */
  lemma {:induction false} RunInv(states: seq<Shell>, events: seq<Event>, k: nat)
    requires Run(states, events) && k <= |events| && Unharmed(states, events, k)
    ensures Inv(states[k])
  {
    if k == 0 {
      FreshGood(states[0]);
    } else {
      var s, r, e := states[k - 1], states[k], events[k - 1];
      RunInv(states, events, k - 1);
      assert Step(s, r, e) && !Fatal(s, e);
      StepGood(s, r, e);
    }
  }

  /** The shell aborts at a step exactly when that is the first fatal one. */
  lemma AbortsExactly(states: seq<Shell>, events: seq<Event>, k: nat)
    requires Run(states, events) && k < |events| && Unharmed(states, events, k)
    ensures states[k + 1].phase.Aborted? <==> Fatal(states[k], events[k])
  {
    RunInv(states, events, k);
    var s, r, e := states[k], states[k + 1], events[k];
    assert Step(s, r, e);
    StepGood(s, r, e);
  }

  lemma FreshGood(s: Shell)
    requires Fresh(s)
    ensures Inv(s)
  {
    MaxJidIs(s.table.jobs, MAXJOBS, 0);
    FgJobIs(s.table);
    assert forall i | 0 <= i < MAXJOBS :: JobOk(s.table.jobs, i);
  }

  /** At most one job is in the foreground, and none at the prompt or while a job is added. */
  lemma OneForeground(states: seq<Shell>, events: seq<Event>, k: nat)
    requires Run(states, events) && k <= |events| && Unharmed(states, events, k)
    ensures AtMostOneFg(states[k].table.jobs)
    ensures states[k].phase.Prompt? || states[k].phase.Forked? ==> NoFg(states[k].table)
  {
    RunInv(states, events, k);
    FgJobIs(states[k].table);
  }

  /**
   * A child is not reaped before its job is in the list: it is still there when it is added, and its job goes when it
   * goes.
   */
  lemma ReapedAfterAdded(states: seq<Shell>, events: seq<Event>, k: nat)
    requires Run(states, events) && k < |events| && Unharmed(states, events, k)
    ensures var s, r := states[k], states[k + 1];
            && (s.phase.Forked? ==> s.phase.child in s.children && !HasPid(s.table, s.phase.child) && !events[k].Reaps?)
            && (events[k].Reaps? && s.children[events[k].pid].status == Dead && events[k].pid !in s.lost
                ==> HasPid(s.table, events[k].pid) && !HasPid(r.table, events[k].pid))
  {
    RunInv(states, events, k);
    var s := states[k];
    assert Step(s, states[k + 1], events[k]);
    if s.phase.Forked? {
      assert ChildOk(s, s.phase.child);
    }
    if events[k].Reaps? {
      assert ChildOk(s, events[k].pid);
      DeletedPids(s.table, events[k].pid);
    }
  }

  // What becomes of the entry of a child.

  /** The entry of the child is in that state. */
  ghost predicate HasState(t: Table, pid: int, state: JobState) {
    exists i: nat :: PidAt(t, i, pid) && t.jobs[i].state == state
  }

  lemma StateAt(t: Table, i: nat, pid: int, state: JobState)
    requires DistinctPids(t) && PidAt(t, i, pid)
    ensures HasState(t, pid, state) <==> t.jobs[i].state == state
  {
    if HasState(t, pid, state) {
      var j: nat :| PidAt(t, j, pid) && t.jobs[j].state == state;
      assert i == j;
    }
  }

  /** When one slot changes, only the process ids it had or has are concerned. */
  lemma OtherStates(t: Table, r: Table, k: nat, p: int, state: JobState)
    requires OnlySlot(t, r, k) && !PidAt(t, k, p) && !PidAt(r, k, p)
    ensures HasState(r, p, state) <==> HasState(t, p, state)
  {
    forall i: nat ensures PidAt(t, i, p) && t.jobs[i].state == state <==> PidAt(r, i, p) && r.jobs[i].state == state {
    }
  }

  /** The child whose entry a step puts in, changes or takes out; 0 if it is none. */
  ghost function Concerned(s: Shell, e: Event): int
    requires |s.table.jobs| == MAXJOBS
  {
    match e
    case Adds(_) => if s.phase.Forked? && s.table.jobs[MAXJOBS - 1].state == UNDEF then s.phase.child else 0
    case Resumes(target, byPid, _) =>
      if byPid then if HasPid(s.table, target) then target else 0
      else if 1 <= target <= MAXJOBS && s.table.jobs[target - 1].state != UNDEF then s.table.jobs[target - 1].pid
      else 0
    case Reaps(pid) => if HasPid(s.table, pid) then pid else 0
    case _ => 0
  }

  /** The state the step leaves that entry in, UNDEF if it takes it out. */
  ghost function Becomes(s: Shell, e: Event): JobState {
    match e
    case Adds(_) => if s.phase.Forked? && s.phase.background then BG else FG
    case Resumes(_, _, foreground) => if foreground then FG else BG
    case Reaps(pid) => if pid in s.children && s.children[pid].status == Dead then UNDEF else ST
    case _ => UNDEF
  }

  /** The entries after a step: one of them is as the step leaves it, the others are as they were. */
  ghost predicate StatesFollow(s: Shell, r: Shell, e: Event)
    requires |s.table.jobs| == MAXJOBS
  {
    forall p, state | p > 0 && state != UNDEF ::
      HasState(r.table, p, state) <==>
        if p == Concerned(s, e) then state == Becomes(s, e) else HasState(s.table, p, state)
  }

  /** When slot `k` has got or lost an entry, or changed its state. */
  lemma SlotStates(t: Table, r: Table, k: nat, pid: int, next: JobState)
    requires OnlySlot(t, r, k) && DistinctPids(t) && DistinctPids(r) && pid > 0
    requires if next == UNDEF then PidAt(t, k, pid) && r.jobs[k].state == UNDEF
             else PidAt(r, k, pid) && r.jobs[k].state == next && (PidAt(t, k, pid) || t.jobs[k].state == UNDEF)
    ensures forall p, state | p > 0 && state != UNDEF ::
              HasState(r, p, state) <==> if p == pid then state == next else HasState(t, p, state)
  {
    forall p, state | p > 0 && state != UNDEF
      ensures HasState(r, p, state) <==> if p == pid then state == next else HasState(t, p, state) {
      if p != pid {
        OtherStates(t, r, k, p, state);
      } else if next != UNDEF {
        StateAt(r, k, p, state);
      } else {
        forall i: nat ensures !PidAt(r, i, pid) {
          assert i != k && PidAt(r, i, pid) ==> PidAt(t, i, pid);
        }
      }
    }
  }

  lemma AddStates(s: Shell, r: Shell, cmdline: string)
    requires Inv(s) && Add(s, r, cmdline)
    ensures StatesFollow(s, r, Adds(cmdline))
  {
    assert ChildOk(s, s.phase.child);
    FgJobIs(s.table);
    AddedStates(s.table, s.phase.child, if s.phase.background then BG else FG, cmdline);
  }

  lemma AddedStates(t: Table, pid: int, state: JobState, cmdline: string)
    requires TableOk(t) && DistinctPids(t) && !HasPid(t, pid) && pid > 0 && AddJob(t, pid, state, cmdline).Done?
    ensures var a := AddJob(t, pid, state, cmdline);
            && (t.jobs[MAXJOBS - 1].state != UNDEF ==> a.table == t)
            && (t.jobs[MAXJOBS - 1].state == UNDEF ==> forall p, st | p > 0 && st != UNDEF ::
                  HasState(a.table, p, st) <==> if p == pid then st == state else HasState(t, p, st))
  {
    AddJobOk(t, pid, state, cmdline);
    AddedPids(t, pid, state, cmdline);
    var a := AddJob(t, pid, state, cmdline);
    if a.jid > 0 {
      SlotStates(t, a.table, a.jid - 1, pid, state);
    }
  }

  lemma SetStates(t: Table, jid: int, next: JobState)
    requires TableOk(t) && DistinctPids(t) && SetState(t, jid, next).Done?
    ensures Exists(t, jid) && forall p, state | p > 0 && state != UNDEF ::
              HasState(SetState(t, jid, next).table, p, state) <==>
                if p == t.jobs[jid - 1].pid then state == next else HasState(t, p, state)
  {
    SetStateOk(t, jid, next);
    SetPids(t, jid, next);
    assert JobOk(t.jobs, jid - 1);
    SlotStates(t, SetState(t, jid, next).table, jid - 1, t.jobs[jid - 1].pid, next);
  }

  lemma ResumeStates(s: Shell, r: Shell, target: int, byPid: bool, foreground: bool)
    requires Inv(s) && Resume(s, r, target, byPid, foreground)
    ensures StatesFollow(s, r, Resumes(target, byPid, foreground))
  {
    var jid := if byPid then JobFromPid(s.table, target) else target;
    if target > 0 {
      FoundByPid(s.table, target);
      if Exists(s.table, jid) {
        var state := if foreground then FG else BG;
        FgJobIs(s.table);
        SetStateOk(s.table, jid, state);
        SetStates(s.table, jid, state);
      }
    } else if byPid {
      assert forall i | 0 <= i < MAXJOBS :: JobOk(s.table.jobs, i);
    }
  }

  lemma ReapStates(s: Shell, r: Shell, pid: int)
    requires Inv(s) && Reap(s, r, pid) && !Fatal(s, Reaps(pid))
    ensures StatesFollow(s, r, Reaps(pid))
  {
    assert ChildOk(s, pid);
    FoundByPid(s.table, pid);
    var jid := JobFromPid(s.table, pid);
    if s.children[pid].status == Dead {
      DeleteJobOk(s.table, jid);
      DeletedPids(s.table, pid);
      if jid != 0 {
        SlotStates(s.table, r.table, jid - 1, pid, UNDEF);
      }
    } else {
      SetStateOk(s.table, jid, ST);
      SetStates(s.table, jid, ST);
    }
  }

  /**
   * In every run a foreground command is listed as FG and a background one as BG, `fg` and `bg` make the job they name
   * FG and BG, a stop makes it ST, an end takes it out, and no other entry ever changes.
   */
  lemma EntriesFollow(states: seq<Shell>, events: seq<Event>, k: nat)
    requires Run(states, events) && k < |events| && Unharmed(states, events, k + 1)
    ensures |states[k].table.jobs| == MAXJOBS && StatesFollow(states[k], states[k + 1], events[k])
  {
    RunInv(states, events, k);
    var s, r := states[k], states[k + 1];
    assert Step(s, r, events[k]);
    match events[k]
    case Adds(cmdline) => AddStates(s, r, cmdline);
    case Resumes(target, byPid, foreground) => ResumeStates(s, r, target, byPid, foreground);
    case Reaps(pid) => ReapStates(s, r, pid);
    case _ =>
  }

  /** The step puts the child into the foreground: a command just forked, or a job resumed by `fg`. */
  ghost predicate PutsForeground(s: Shell, e: Event, pid: int)
    requires |s.table.jobs| == MAXJOBS
  {
    (e.Adds? || e.Resumes?) && pid > 0 && Concerned(s, e) == pid && Becomes(s, e) == FG
  }

  /** The shell waits for a foreground job, or is about to. */
  ghost predicate Waits(p: Phase) {
    p.Waiting? || p.Suspended? || (p.Continuing? && p.foreground)
  }

  /** The wait loop ends exactly when no job is in the foreground. */
  lemma TestsExactly(states: seq<Shell>, events: seq<Event>, k: nat)
    requires Run(states, events) && k < |events| && events[k] == Tests
    ensures states[k + 1].phase == if NoFg(states[k].table) then Prompt else Suspended
    ensures states[k + 1].table == states[k].table
  {
    assert Step(states[k], states[k + 1], events[k]);
    FgJobIs(states[k].table);
  }

  lemma PutsForegroundWaits(states: seq<Shell>, events: seq<Event>, k: nat, pid: int)
    requires Run(states, events) && k < |events| && Unharmed(states, events, k + 1)
    requires |states[k].table.jobs| == MAXJOBS && PutsForeground(states[k], events[k], pid)
    ensures var r := states[k + 1];
            HasState(r.table, pid, FG) && Waits(r.phase) && (events[k].Adds? ==> !r.phase.Continuing?)
  {
    RunInv(states, events, k);
    EntriesFollow(states, events, k);
    var s, r, e := states[k], states[k + 1], events[k];
    assert Step(s, r, e);
    StepGood(s, r, e);
    if e.Resumes? {
      FoundByPid(s.table, e.target);
    }
  }

  lemma StaysForeground(states: seq<Shell>, events: seq<Event>, k: nat, pid: int)
    requires Run(states, events) && k < |events| && Unharmed(states, events, k + 1)
    requires pid > 0 && HasState(states[k].table, pid, FG) && Waits(states[k].phase) && events[k] != Reaps(pid)
    ensures var s, r := states[k], states[k + 1];
            HasState(r.table, pid, FG) && Waits(r.phase) && (s.phase.Continuing? || !r.phase.Continuing?)
  {
    RunInv(states, events, k);
    EntriesFollow(states, events, k);
    var s, r, e := states[k], states[k + 1], events[k];
    assert Step(s, r, e);
    FgJobIs(s.table);
    StepGood(s, r, e);
  }

  /**
   * In every run: once a child is in the foreground, it stays there and the shell waits, until the handler reports that
   * it has ended or stopped.
   */
  lemma {:induction false} ForegroundIsWaitedFor(states: seq<Shell>, events: seq<Event>, j: nat, k: nat, pid: int)
    requires Run(states, events) && j < k <= |events| && Unharmed(states, events, k)
    requires |states[j].table.jobs| == MAXJOBS && PutsForeground(states[j], events[j], pid)
    requires forall i | j < i < k :: events[i] != Reaps(pid)
    ensures HasState(states[k].table, pid, FG) && Waits(states[k].phase)
    ensures events[j].Adds? ==> states[k].phase.Waiting? || states[k].phase.Suspended?
  {
    if j == k - 1 {
      PutsForegroundWaits(states, events, j, pid);
    } else {
      ForegroundIsWaitedFor(states, events, j, k - 1, pid);
      StaysForeground(states, events, k - 1, pid);
    }
  }

  /** The first job on an empty list, and what later calls make of it. */
  lemma FirstJob(t: Table, pid: int, state: JobState)
    requires t == Table(seq(MAXJOBS, _ => NO_JOB), 1) && pid > 0 && state == BG
    ensures var r := AddJob(t, pid, state, "");
            r.Done? && r.jid == 1 && TableOk(r.table) && Exists(r.table, 1) && JobFromPid(r.table, pid) == 1
  {
    MaxJidIs(t.jobs, MAXJOBS, 0);
    assert forall i | 0 <= i < MAXJOBS :: JobOk(t.jobs, i);
    AddJobOk(t, pid, state, "");
  }

  lemma FirstJobSet(t: Table, pid: int, state: JobState)
    requires TableOk(t) && Exists(t, 1) && JobFromPid(t, pid) == 1 && (state == BG || state == ST)
    ensures var r := SetState(t, 1, state);
            r.Done? && TableOk(r.table) && Exists(r.table, 1) && JobFromPid(r.table, pid) == 1
  {
    SetStateOk(t, 1, state);
  }

  /** The job list from the start over a first job that stops and is resumed in the background. */
  lemma FirstJobLife() returns (t0: Table, t1: Table, t2: Table, t3: Table)
    ensures t0 == Table(seq(MAXJOBS, _ => NO_JOB), 1) && AddJob(t0, 5, BG, "") == Done(t1, 1)
    ensures JobFromPid(t1, 5) == 1 && SetState(t1, 1, ST) == Done(t2, 1)
    ensures JobFromPid(t2, 5) == 1 && Exists(t2, 1) && SetState(t2, 1, BG) == Done(t3, 1)
    ensures JobFromPid(t3, 5) == 1 && !Exists(DeleteJob(t3, 1), 1)
  {
    t0 := Table(seq(MAXJOBS, _ => NO_JOB), 1);
    FirstJob(t0, 5, BG);
    t1 := AddJob(t0, 5, BG, "").table;
    FirstJobSet(t1, 5, ST);
    t2 := SetState(t1, 1, ST).table;
    FirstJobSet(t2, 5, BG);
    t3 := SetState(t2, 1, BG).table;
    DeleteJobOk(t3, 1);
  }

  /** A run goes on by one step. */
  lemma OneStepMore(states: seq<Shell>, events: seq<Event>, r: Shell, e: Event) returns (t: seq<Shell>, f: seq<Event>)
    requires Run(states, events) && Step(states[|events|], r, e)
    ensures t == states + [r] && f == events + [e] && Run(t, f) && t[|f|] == r && f[|f| - 1] == e
  {
    t, f := states + [r], events + [e];
    forall i | 0 <= i < |f| ensures Step(t[i], t[i + 1], f[i]) {
      assert i < |events| ==> Step(states[i], states[i + 1], events[i]);
    }
  }

  /** A run in which the first job is stopped, and the shell has taken note of it. */
  lemma FirstJobStops(t0: Table, t1: Table, t2: Table) returns (states: seq<Shell>, events: seq<Event>)
    requires t0 == Table(seq(MAXJOBS, _ => NO_JOB), 1) && AddJob(t0, 5, BG, "") == Done(t1, 1)
    requires JobFromPid(t1, 5) == 1 && SetState(t1, 1, ST) == Done(t2, 1)
    ensures Run(states, events) && states[|events|] == Shell(t2, Prompt, map[5 := Child(Stopped, false)], {}, {5})
  {
    var s0 := Shell(t0, Prompt, map[], {}, {});
    var s1 := Shell(t0, Forked(5, true), map[5 := Child(Running, false)], {}, {5});
    var s2 := Shell(t1, Prompt, s1.children, {}, {5});
    var s3 := s2.(children := s2.children[5 := Child(Stopped, true)]);
    states, events := OneStepMore([s0], [], s1, Forks(5, true));
    states, events := OneStepMore(states, events, s2, Adds(""));
    states, events := OneStepMore(states, events, s3, Stops(5));
    states, events := OneStepMore(states, events, Shell(t2, Prompt, map[5 := Child(Stopped, false)], {}, {5}),
        Reaps(5));
  }

  /** A run in which `bg` finds that the job it has just resumed is gone, and aborts the shell. */
  lemma BgCanAbort() returns (states: seq<Shell>, events: seq<Event>)
    ensures Run(states, events) && states[|events|].phase.Aborted? && events[|events| - 1].Goes?
  {
    var t0, t1, t2, t3 := FirstJobLife();
    states, events := FirstJobStops(t0, t1, t2);
    var s5 := Shell(t3, Continuing(1, false), map[5 := Child(Stopped, false)], {}, {5});
    var s6 := s5.(children := s5.children[5 := Child(Dead, true)]);
    var s7 := Buried(s6, 5);
    states, events := OneStepMore(states, events, s5, Resumes(1, false, false));
    states, events := OneStepMore(states, events, s6, Exits(5));
    states, events := OneStepMore(states, events, s7, Reaps(5));
    states, events := OneStepMore(states, events, s7.(phase := Aborted), Goes);
  }

  /** A run goes on by a step that is not fatal. */
  lemma StepFollows(states: seq<Shell>, events: seq<Event>, r: Shell, e: Event)
    requires Run(states, events) && Unharmed(states, events, |events|)
    requires Step(states[|events|], r, e) && !Fatal(states[|events|], e)
    ensures Run(states + [r], events + [e]) && Unharmed(states + [r], events + [e], |events| + 1)
  {
    var t, f := OneStepMore(states, events, r, e);
    forall i | 0 <= i < |f| ensures !Fatal(t[i], f[i]) {
      assert i < |events| ==> !Fatal(states[i], events[i]);
    }
  }

  /** At the prompt with `n` jobs in the first `n` slots, of children with process ids up to `n`. */
  ghost predicate HasSlots(s: Shell, n: nat) {
    TableOk(s.table) && s.phase.Prompt? && s.table.nextjid == n + 1 && forall p | p in s.past :: p <= n
  }

  /** From there the shell forks one more child in the background and adds it, if there is room. */
  lemma ForksAndAdds(states: seq<Shell>, events: seq<Event>, n: nat) returns (t: seq<Shell>, f: seq<Event>)
    requires Run(states, events) && Unharmed(states, events, |events|) && HasSlots(states[|events|], n) && n <= MAXJOBS
    ensures Run(t, f) && Unharmed(t, f, |f|) && |f| == |events| + 2
    ensures n < MAXJOBS ==> HasSlots(t[|f|], n + 1)
    ensures var r := t[|f|]; r.phase.Prompt? && n + 1 in r.children && r.children[n + 1] == Child(Running, false)
    ensures n == MAXJOBS ==> n + 1 in t[|f|].lost
  {
    var s := states[|events|];
    var pid := n + 1;
    var children := s.children[pid := Child(Running, false)];
    var forked := s.(phase := Forked(pid, true), children := children, past := s.past + {pid});
    StepFollows(states, events, forked, Forks(pid, true));
    AddJobOk(s.table, pid, BG, "");
    var added := AddJob(s.table, pid, BG, "");
    var r := forked.(table := added.table, phase := Prompt, lost := if added.jid == 0 then s.lost + {pid} else s.lost);
    StepFollows(states + [forked], events + [Forks(pid, true)], r, Adds(""));
    t, f := states + [forked] + [r], events + [Forks(pid, true)] + [Adds("")];
  }

  /** The shell can come to have a job in each of the first `n` slots. */
  lemma {:induction false} SlotsFill(n: nat) returns (states: seq<Shell>, events: seq<Event>)
    requires n <= MAXJOBS
    ensures Run(states, events) && Unharmed(states, events, |events|) && HasSlots(states[|events|], n)
  {
    if n == 0 {
      var s := Shell(Table(seq(MAXJOBS, _ => NO_JOB), 1), Prompt, map[], {}, {});
      FreshGood(s);
      states, events := [s], [];
    } else {
      states, events := SlotsFill(n - 1);
      states, events := ForksAndAdds(states, events, n - 1);
    }
  }

  /**
   * A run in which a child that found no room in the job list is reported stopped, and the handler aborts the shell.
   */
  lemma LostChildCanAbort() returns (states: seq<Shell>, events: seq<Event>)
    ensures Run(states, events) && states[|events|].phase.Aborted? && events[|events| - 1].Reaps?
  {
    var pid: int := MAXJOBS + 1;
    states, events := SlotsFill(MAXJOBS);
    states, events := ForksAndAdds(states, events, MAXJOBS);
    var s := states[|events|];
    var stopped := s.(children := s.children[pid := Child(Stopped, true)]);
    StepFollows(states, events, stopped, Stops(pid));
    states, events := states + [stopped], events + [Stops(pid)];
    var r := Noted(stopped, pid);
    var t, f := states + [r], events + [Reaps(pid)];
    assert Step(stopped, r, Reaps(pid));
    forall i | 0 <= i < |f| ensures Step(t[i], t[i + 1], f[i]) {
      assert i < |events| ==> Step(states[i], states[i + 1], events[i]);
    }
    assert Unharmed(t, f, |events|);
    AbortsExactly(t, f, |events|);
    states, events := t, f;
  }
}
