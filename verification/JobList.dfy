/** The shell's job list in place: shell/tsh_helper.c:220-430. */
module JobList {
  import opened JobTable

  class JobList {
    const jobs: array<Job>
    var nextjid: int

    ghost function Abs(): Table
      reads this, jobs
    {
      Table(jobs[..], nextjid)
    }

    ghost predicate Valid()
      reads this, jobs
    {
      TableOk(Abs())
    }

    /** `init_job_list`. */
    constructor ()
      ensures Valid() && fresh(jobs) && forall i | 0 <= i < MAXJOBS :: jobs[i] == NO_JOB
    {
      jobs := new Job[MAXJOBS](_ => NO_JOB);
      nextjid := 1;
      new;
      var jid := 1;
      while jid <= MAXJOBS
        invariant 1 <= jid <= MAXJOBS + 1 && fresh(jobs) && jobs.Length == MAXJOBS && nextjid == 1
        invariant forall i | 0 <= i < MAXJOBS :: jobs[i] == NO_JOB
      {
        jobs[jid - 1] := Cleared(jobs[jid - 1]).(cmdline := "");
        jid := jid + 1;
      }
      MaxJidIs(jobs[..], MAXJOBS, 0);
      assert forall i | 0 <= i < MAXJOBS :: JobOk(jobs[..], i);
    }

    /** `job_exists`. */
    method JobExists(jid: int) returns (found: bool)
      requires jobs.Length == MAXJOBS
      ensures found == Exists(Abs(), jid)
    {
      if jid < 1 || jid > MAXJOBS {
        return false;
      }
      found := jobs[jid - 1].state != UNDEF;
    }

    /** `maxjid`, from the largest id down. */
    method FindMaxJid() returns (m: nat)
      requires jobs.Length == MAXJOBS
      ensures m == MaxJid(jobs[..], MAXJOBS)
    {
      var jid: int := MAXJOBS;
      while jid >= 1
        invariant 0 <= jid <= MAXJOBS && forall i | jid <= i < MAXJOBS :: jobs[i].state == UNDEF
      {
        var e := JobExists(jid);
        if e {
          MaxJidIs(jobs[..], MAXJOBS, jid);
          return jid;
        }
        jid := jid - 1;
      }
      MaxJidIs(jobs[..], MAXJOBS, 0);
      m := 0;
    }

    /** `fg_job`. */
    method FindFgJob() returns (jid: nat)
      requires jobs.Length == MAXJOBS
      ensures jid == FgJob(Abs())
    {
      var i := 1;
      while i <= MAXJOBS
        invariant 1 <= i <= MAXJOBS + 1 && FgFrom(jobs[..], i - 1) == FgFrom(jobs[..], 0)
      {
        if jobs[i - 1].state == FG {
          return i;
        }
        i := i + 1;
      }
      jid := 0;
    }

    /** `job_from_pid`. */
    method FindPid(pid: int) returns (jid: nat)
      requires jobs.Length == MAXJOBS
      ensures jid == JobFromPid(Abs(), pid)
    {
      if pid < 1 {
        return 0;
      }
      var i := 1;
      while i <= MAXJOBS
        invariant 1 <= i <= MAXJOBS + 1 && PidFrom(jobs[..], pid, i - 1) == PidFrom(jobs[..], pid, 0)
      {
        if jobs[i - 1].state != UNDEF && jobs[i - 1].pid == pid {
          return i;
        }
        i := i + 1;
      }
      jid := 0;
    }

    /** `add_job`; `aborted` stands for the program's end. */
    method Add(pid: int, state: JobState, cmdline: string) returns (aborted: bool, jid: int)
      requires Valid()
      modifies this, jobs
      ensures Valid() && aborted == AddJob(old(Abs()), pid, state, cmdline).Abort?
      ensures if aborted then Abs() == old(Abs()) else Done(Abs(), jid) == AddJob(old(Abs()), pid, state, cmdline)
    {
      AddJobOk(Abs(), pid, state, cmdline);
      aborted, jid := false, 0;
      var fg := FindFgJob();
      if !((state == FG && fg == 0) || state == BG || state == ST) {
        return true, 0;
      }
      if pid <= 0 {
        return true, 0;
      }
      if nextjid > MAXJOBS {
        return false, 0;
      }
      assert nextjid > 0 && jobs[nextjid - 1].state == UNDEF;
      jid := nextjid;
      jobs[jid - 1] := Job(pid, jid, state, cmdline);
      nextjid := nextjid + 1;
    }

    /** `delete_job`. */
    method Delete(jid: int) returns (deleted: bool)
      requires Valid()
      modifies this, jobs
      ensures Valid() && Abs() == DeleteJob(old(Abs()), jid) && deleted == Exists(old(Abs()), jid)
    {
      DeleteJobOk(Abs(), jid);
      deleted := JobExists(jid);
      if deleted {
        jobs[jid - 1] := Cleared(jobs[jid - 1]);
        var m := FindMaxJid();
        nextjid := m + 1;
      }
    }

    /** `job_set_state`. */
    method Change(jid: int, state: JobState) returns (aborted: bool)
      requires Valid()
      modifies jobs
      ensures Valid() && aborted == SetState(old(Abs()), jid, state).Abort?
      ensures if aborted then Abs() == old(Abs()) else Done(Abs(), jid) == SetState(old(Abs()), jid, state)
    {
      SetStateOk(Abs(), jid, state);
      var e := JobExists(jid);
      if !e {
        return true;
      }
      if state == UNDEF {
        return true;
      }
      var fg := FindFgJob();
      if state == FG && fg != 0 {
        return true;
      }
      jobs[jid - 1] := jobs[jid - 1].(state := state);
      aborted := false;
    }
  }
}
