/** The shell's job list as a value: shell/tsh_helper.c:220-430. */
module JobTable {
  const MAXJOBS: nat := 64

  datatype JobState = UNDEF | FG | BG | ST

  /** A `struct job_t`; a cleared job keeps its command line. */
  datatype Job = Job(pid: int, jid: int, state: JobState, cmdline: string)

  /** The list and `nextjid`. */
  datatype Table = Table(jobs: seq<Job>, nextjid: int)

  const NO_JOB: Job := Job(0, 0, UNDEF, "")

  function Cleared(j: Job): Job { j.(pid := 0, jid := 0, state := UNDEF) }

  ghost predicate Exists(t: Table, jid: int) {
    1 <= jid <= |t.jobs| && t.jobs[jid - 1].state != UNDEF
  }

  /** The largest job id among the first `n` that exists, or 0. */
  ghost function MaxJid(jobs: seq<Job>, n: nat): (m: nat)
    requires n <= |jobs|
    ensures m <= n && (m > 0 ==> jobs[m - 1].state != UNDEF) && forall i | m <= i < n :: jobs[i].state == UNDEF
  {
    if n == 0 then 0 else if jobs[n - 1].state != UNDEF then n else MaxJid(jobs, n - 1)
  }

  /** The first foreground job from index `from` on, or 0. */
  ghost function FgFrom(jobs: seq<Job>, from: nat): (jid: nat)
    requires from <= |jobs|
    ensures jid == 0 ==> forall i | from <= i < |jobs| :: jobs[i].state != FG
    ensures jid > 0 ==> from < jid <= |jobs| && jobs[jid - 1].state == FG
    decreases |jobs| - from
  {
    if from == |jobs| then 0 else if jobs[from].state == FG then from + 1 else FgFrom(jobs, from + 1)
  }

  ghost function FgJob(t: Table): nat { FgFrom(t.jobs, 0) }

  /** The first job with the process id from index `from` on, or 0. */
  ghost function PidFrom(jobs: seq<Job>, pid: int, from: nat): (jid: nat)
    requires from <= |jobs|
    ensures jid == 0 ==> forall i | from <= i < |jobs| :: jobs[i].state == UNDEF || jobs[i].pid != pid
    ensures jid > 0 ==> from < jid <= |jobs| && jobs[jid - 1].state != UNDEF && jobs[jid - 1].pid == pid
    decreases |jobs| - from
  {
    if from == |jobs| then 0
    else if jobs[from].state != UNDEF && jobs[from].pid == pid then from + 1
    else PidFrom(jobs, pid, from + 1)
  }

  ghost function JobFromPid(t: Table, pid: int): nat {
    if pid < 1 then 0 else PidFrom(t.jobs, pid, 0)
  }

  /** What a call came to: the program may be aborted, otherwise there is a new list. */
  datatype Outcome = Abort | Done(table: Table, jid: int)

  /** `add_job`; job id 0 when there is no room. */
  ghost function AddJob(t: Table, pid: int, state: JobState, cmdline: string): Outcome {
    if !((state == FG && FgJob(t) == 0) || state == BG || state == ST) || pid <= 0 || t.nextjid <= 0 then Abort
    else if t.nextjid > MAXJOBS then Done(t, 0)
    else if t.nextjid > |t.jobs| || t.jobs[t.nextjid - 1].state != UNDEF then Abort
    else Done(Table(t.jobs[t.nextjid - 1 := Job(pid, t.nextjid, state, cmdline)], t.nextjid + 1), t.nextjid)
  }

  /** `delete_job`: nothing happens when there is no such job. */
  ghost function DeleteJob(t: Table, jid: int): Table {
    if !Exists(t, jid) then t
    else
      var jobs := t.jobs[jid - 1 := Cleared(t.jobs[jid - 1])];
      Table(jobs, MaxJid(jobs, |jobs|) + 1)
  }

  /** `job_set_state`. */
  ghost function SetState(t: Table, jid: int, state: JobState): Outcome {
    if !Exists(t, jid) || state == UNDEF || (state == FG && FgJob(t) != 0) then Abort
    else Done(t.(jobs := t.jobs[jid - 1 := t.jobs[jid - 1].(state := state)]), jid)
  }

  /** Used jobs carry their own id and a process id; free ones carry zeros. */
  ghost predicate JobOk(jobs: seq<Job>, i: nat)
    requires i < |jobs|
  {
    if jobs[i].state == UNDEF then jobs[i].pid == 0 && jobs[i].jid == 0 else jobs[i].pid > 0 && jobs[i].jid == i + 1
  }

  ghost predicate AtMostOneFg(jobs: seq<Job>) {
    forall i, j | 0 <= i < j < |jobs| :: jobs[i].state != FG || jobs[j].state != FG
  }

  /**
   * What every call keeps: the next id is one past the largest, so its slot is free, and at most one job is in the
   * foreground.
   */
  ghost predicate TableOk(t: Table) {
    && |t.jobs| == MAXJOBS && t.nextjid == MaxJid(t.jobs, |t.jobs|) + 1
    && (forall i | 0 <= i < |t.jobs| :: JobOk(t.jobs, i))
    && AtMostOneFg(t.jobs)
  }

  ghost predicate DistinctPids(t: Table) {
    forall i, j | 0 <= i < j < |t.jobs| && t.jobs[i].state != UNDEF && t.jobs[j].state != UNDEF ::
        t.jobs[i].pid != t.jobs[j].pid
  }

  ghost predicate HasPid(t: Table, pid: int) {
    exists i :: 0 <= i < |t.jobs| && t.jobs[i].state != UNDEF && t.jobs[i].pid == pid
  }

  lemma MaxJidIs(jobs: seq<Job>, n: nat, m: nat)
    requires m <= n <= |jobs| && (m > 0 ==> jobs[m - 1].state != UNDEF)
    requires forall i | m <= i < n :: jobs[i].state == UNDEF
    ensures MaxJid(jobs, n) == m
  {
  }

  /**
   * `add_job` never meets a used slot, and aborts exactly when it is asked for a second foreground job or for nonsense.
   */
  lemma AddJobOk(t: Table, pid: int, state: JobState, cmdline: string)
    requires TableOk(t)
    ensures AddJob(t, pid, state, cmdline).Abort?
            <==> pid <= 0 || state == UNDEF || (state == FG && exists i :: 0 <= i < MAXJOBS && t.jobs[i].state == FG)
    ensures var r := AddJob(t, pid, state, cmdline);
            r.Done? ==> && TableOk(r.table) && r.jid >= 0
                        && (r.jid == 0 ==> r.table == t && t.jobs[MAXJOBS - 1].state != UNDEF)
                        && (r.jid > 0 ==> && r.jid == t.nextjid <= MAXJOBS && !Exists(t, r.jid)
                                          && r.table.jobs == t.jobs[r.jid - 1 := Job(pid, r.jid, state, cmdline)])
  {
    var r := AddJob(t, pid, state, cmdline);
    if r.Done? && r.jid > 0 {
      var jobs := r.table.jobs;
      MaxJidIs(jobs, |jobs|, r.jid);
      forall i | 0 <= i < |jobs| ensures JobOk(jobs, i) {
        assert JobOk(t.jobs, i);
      }
    }
  }

  lemma DeleteJobOk(t: Table, jid: int)
    requires TableOk(t)
    ensures TableOk(DeleteJob(t, jid)) && !Exists(DeleteJob(t, jid), jid)
    ensures forall k | k != jid :: Exists(DeleteJob(t, jid), k) <==> Exists(t, k)
    ensures forall i | 0 <= i < MAXJOBS && i != jid - 1 :: DeleteJob(t, jid).jobs[i] == t.jobs[i]
  {
    var jobs := DeleteJob(t, jid).jobs;
    forall i | 0 <= i < |jobs| ensures JobOk(jobs, i) {
      assert JobOk(t.jobs, i);
    }
  }

  /**
   * `job_set_state` aborts exactly when there is no such job, no such state, or a second foreground job is asked for.
   */
  lemma SetStateOk(t: Table, jid: int, state: JobState)
    requires TableOk(t)
    ensures SetState(t, jid, state).Abort?
            <==> !Exists(t, jid) || state == UNDEF
                 || (state == FG && exists i :: 0 <= i < MAXJOBS && t.jobs[i].state == FG)
    ensures var r := SetState(t, jid, state);
            r.Done? ==> TableOk(r.table) && r.table.jobs == t.jobs[jid - 1 := t.jobs[jid - 1].(state := state)]
  {
    var r := SetState(t, jid, state);
    if r.Done? {
      var jobs := r.table.jobs;
      MaxJidIs(jobs, |jobs|, MaxJid(t.jobs, |t.jobs|));
      forall i | 0 <= i < |jobs| ensures JobOk(jobs, i) {
        assert JobOk(t.jobs, i);
      }
    }
  }
}
