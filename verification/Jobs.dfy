/** The job table of csh (src/bin/csh/proc.c).

    Processes are nodes of a list, newest first; the processes of each job form a ring, and pcurrent
    and pprevious name two jobs.  Creating, stopping, continuing, ending, reaping and flushing them are
    the operations; which of them comes next, and for which process, is not known.
  */
module Jobs {

  datatype Flag =
    | Running | Stopped | NormalExit | AbnormalExit | Signaled | Interrupted
    | Notify | Foreground | Reported | NeedNote

  class Process {
    var p_next: Process?
    var p_friends: Process?
    var p_flags: set<Flag>
    var p_index: nat
    var p_pid: nat
    var p_jobid: nat

    constructor ()
      ensures p_next == null && p_friends == null && p_flags == {} && p_index == 0 && p_pid == 0 && p_jobid == 0
    {
      p_next, p_friends, p_flags, p_index, p_pid, p_jobid := null, null, {}, 0, 0, 0;
    }
  }

  /** The processes of a job, the leader first. */
  type Job = seq<Process>

  // ---------------------------------------------------------------- the list

  ghost predicate Distinct(s: seq<Process>) {
    forall i, j :: 0 <= i < j < |s| ==> s[i] != s[j]
  }

  function Next(s: seq<Process>, i: int, last: Process?): Process? {
    if 0 <= i + 1 < |s| then s[i + 1] else last
  }

  /** The list that hangs from head has these processes. */
  ghost predicate Chain(head: Process, procs: seq<Process>)
    reads head`p_next, procs`p_next
  {
    && head !in procs && Distinct(procs)
    && head.p_next == (if procs == [] then null else procs[0])
    && forall i :: 0 <= i < |procs| ==> procs[i].p_next == Next(procs, i, null)
  }

  // ---------------------------------------------------------------- the rings

  ghost function SetOf(s: seq<Process>): set<Process> {
    set p | p in s
  }

  /** The processes are linked in a circle. */
  ghost predicate Ring(s: seq<Process>)
    reads SetOf(s)`p_friends
  {
    && s != [] && Distinct(s)
    && forall i :: 0 <= i < |s| ==> s[i].p_friends == Next(s, i, s[0])
  }

  function Turned(i: int, k: int, n: int): int {
    if i + k < n then i + k else i + k - n
  }

  /** The same circle, from another of its processes on. */
  lemma Rotated(s: seq<Process>, k: nat)
    requires Ring(s) && k < |s|
    ensures var t := s[k..] + s[..k];
            Ring(t) && t[0] == s[k] && forall p :: p in t <==> p in s
  {
    var t := s[k..] + s[..k];
    TurnedAre(s, k);
    forall i | 0 <= i < |t|
      ensures t[i].p_friends == Next(t, i, t[0])
    {
      var j := Turned(i, k, |s|);
      assert s[j].p_friends == Next(s, j, s[0]);
      if i + 1 < |t| { assert t[i + 1] == s[Turned(i + 1, k, |s|)]; }
    }
    assert forall i, j :: 0 <= i < j < |t| ==> Turned(i, k, |s|) != Turned(j, k, |s|);
  }

  lemma TurnedAre(s: seq<Process>, k: nat)
    requires k < |s|
    ensures var t := s[k..] + s[..k];
            (forall i :: 0 <= i < |t| ==> t[i] == s[Turned(i, k, |s|)]) && forall p :: p in t <==> p in s
  {
    var t := s[k..] + s[..k];
    forall p
      ensures p in t <==> p in s
    {
      if p in s {
        var i :| 0 <= i < |s| && s[i] == p;
        assert t[if i >= k then i - k else i + |s| - k] == p;
      }
    }
  }

  // ---------------------------------------------------------------- the jobs

  ghost predicate Within(procs: seq<Process>, jobs: set<Job>) {
    forall J: Job, p :: J in jobs && p in J ==> p in procs
  }

  ghost predicate Owned(p: Process, jobs: set<Job>) {
    exists J: Job :: J in jobs && p in J
  }

  /** The processes with a pid belong to one job each, whose leader has the pid that is the job id of
      them all; the others have been flushed. */
  ghost predicate Grouped(procs: seq<Process>, jobs: set<Job>)
    requires Within(procs, jobs)
    reads procs`p_pid, procs`p_jobid, procs`p_index
  {
    && (forall p :: p in procs ==> (p.p_pid != 0 <==> Owned(p, jobs)) && (p.p_pid == 0 ==> p.p_index == 0))
    && (forall J: Job, p :: J in jobs && p in J ==> SameJob(procs, J, p))
    && (forall J: Job, K: Job, p :: J in jobs && K in jobs && p in J && p in K ==> J == K)
    && (forall p, q :: p in procs && q in procs && p.p_pid == q.p_pid != 0 ==> p == q)
    && (forall p, q :: p in procs && q in procs && p.p_index == q.p_index != 0 ==> p.p_jobid == q.p_jobid)
  }

  ghost predicate SameJob(procs: seq<Process>, J: Job, p: Process)
    requires p in J && forall q :: q in J ==> q in procs
    reads procs`p_pid, procs`p_jobid, procs`p_index
  {
    assert J[0] in J;
    p.p_jobid == J[0].p_pid && p.p_index == J[0].p_index && p.p_index > 0
  }

  ghost predicate Rings(procs: seq<Process>, jobs: set<Job>)
    requires Within(procs, jobs)
    reads procs`p_friends
  {
    forall J: Job :: J in jobs ==> Ring(J)
  }

  ghost function Leaders(jobs: set<Job>): set<Process> {
    set J | J in jobs && J != [] :: J[0]
  }

  ghost predicate Used(procs: seq<Process>, i: nat)
    reads procs`p_index
  {
    exists p :: p in procs && p.p_index == i
  }

  /** The largest index of a job, or 0. */
  ghost predicate IsMax(procs: seq<Process>, m: nat)
    reads procs`p_index
  {
    (forall p :: p in procs ==> p.p_index <= m) && (m > 0 ==> exists p :: p in procs && p.p_index == m)
  }

  /** The current and the previous job are different jobs, and there is no previous one without a
      current one. */
  ghost predicate Marks(jobs: set<Job>, current: Process?, previous: Process?) {
    && (current != null ==> current in Leaders(jobs))
    && (previous != null ==> previous in Leaders(jobs) && current != null && previous != current)
  }

  /** A process that has a pid, and the job it belongs to. */
  lemma JobOf(procs: seq<Process>, jobs: set<Job>, p: Process) returns (J: Job)
    requires Within(procs, jobs) && Grouped(procs, jobs) && p in procs && p.p_pid != 0
    ensures J in jobs && p in J
  {
    J :| J in jobs && p in J;
  }

  /** The leaders are the processes whose pid is their job id. */
  lemma LeaderIs(procs: seq<Process>, jobs: set<Job>, J: Job, p: Process)
    requires Within(procs, jobs) && Grouped(procs, jobs) && J in jobs && p in J
    ensures p.p_pid != 0 && (p.p_pid == p.p_jobid <==> p == J[0])
    ensures J[0] in J && J[0] in procs && J[0] in Leaders(jobs) && J[0].p_pid == p.p_jobid
  {
    assert J[0] in J;
    assert SameJob(procs, J, p) && SameJob(procs, J, J[0]) && Owned(p, jobs) && Owned(J[0], jobs);
  }

  class JobTable {
    const proclist: Process
    var pcurrjob: Process?
    var pcurrent: Process?
    var pprevious: Process?
    var pmaxindex: nat
    ghost var procs: seq<Process>
    ghost var jobs: set<Job>

    ghost predicate Valid()
      reads this, proclist`p_next, procs`p_next, procs`p_pid, procs`p_jobid, procs`p_index, procs`p_friends
    {
      && Chain(proclist, procs) && Within(procs, jobs) && Grouped(procs, jobs) && Rings(procs, jobs)
      && IsMax(procs, pmaxindex)
      && Marks(jobs, pcurrent, pprevious) && (pcurrjob != null ==> pcurrjob in Leaders(jobs))
    }

    constructor ()
      ensures Valid() && fresh(proclist) && procs == [] && jobs == {}
    {
      proclist := new Process();
      pcurrjob, pcurrent, pprevious, pmaxindex := null, null, null, 0;
      procs, jobs := [], {};
    }

    /** Whether a process may be marked: a live leader, and not one of these two. */
    ghost predicate Eligible(np: Process, pp: Process?)
      reads this`pcurrent, np`p_pid, np`p_jobid
    {
      np != pcurrent && np != pp && np.p_pid != 0 && np.p_pid == np.p_jobid
    }

    /** The process at k is the first stopped one, or the first one if none is stopped, of those that
        may be marked. */
    ghost predicate First(k: nat, pp: Process?)
      requires k < |procs|
      reads this`pcurrent, this`procs, procs
    {
      && Eligible(procs[k], pp)
      && forall i :: 0 <= i < |procs| && Eligible(procs[i], pp) ==>
        (if Stopped in procs[k].p_flags then i < k ==> Stopped !in procs[i].p_flags
         else i >= k && Stopped !in procs[i].p_flags)
    }

    /** The most recent job that is neither the current one nor pp, preferably a stopped one. */
    method Pgetcurr(pp: Process?) returns (r: Process?)
      requires Chain(proclist, procs) && Within(procs, jobs) && Grouped(procs, jobs)
      ensures r == null ==> forall p :: p in Leaders(jobs) ==> p == pcurrent || p == pp
      ensures r != null ==> r in Leaders(jobs) && r != pcurrent && r != pp
      ensures r != null ==> exists k :: 0 <= k < |procs| && procs[k] == r && First(k, pp)
    {
      hide Grouped, Leaders, Within;
      assert allocated(procs);
      var np := proclist.p_next;
      r := null;
      ghost var n, k := 0, 0;
      while np != null
        invariant Grouped(procs, jobs) && Chain(proclist, procs)
        invariant 0 <= n <= |procs| && np == (if n < |procs| then procs[n] else null)
        invariant forall i :: 0 <= i < n && Eligible(procs[i], pp) ==> Stopped !in procs[i].p_flags
        invariant r == null ==> forall i :: 0 <= i < n ==> !Eligible(procs[i], pp)
        invariant r != null ==> r in Leaders(jobs) && 0 <= k < n && procs[k] == r && Eligible(r, pp)
        invariant r != null ==> forall i :: 0 <= i < k ==> !Eligible(procs[i], pp)
        decreases |procs| - n
      {
        if np != pcurrent && np != pp && np.p_pid != 0 && np.p_pid == np.p_jobid {
          EligibleIsLeader(np, pp);
          if Stopped in np.p_flags { return np; }
          if r == null {
            r, k := np, n;
          }
        }
        np := np.p_next;
        n := n + 1;
      }
      if r == null { NoneEligible(pp); }
    }

    lemma NoneEligible(pp: Process?)
      requires Within(procs, jobs) && Grouped(procs, jobs) && forall i :: 0 <= i < |procs| ==> !Eligible(procs[i], pp)
      ensures forall p :: p in Leaders(jobs) ==> p == pcurrent || p == pp
    {
      forall p | p in Leaders(jobs)
        ensures p == pcurrent || p == pp
      {
        var J :| J in jobs && J != [] && J[0] == p;
        LeaderIs(procs, jobs, J, p);
        assert !Eligible(p, pp);
      }
    }

    /** A process that may be marked is a leader. */
    lemma EligibleIsLeader(p: Process, pp: Process?)
      requires Within(procs, jobs) && Grouped(procs, jobs) && p in procs && Eligible(p, pp)
      ensures p in Leaders(jobs)
    {
      var J := JobOf(procs, jobs, p);
      LeaderIs(procs, jobs, J, p);
    }

    /** Makes sure that the job of pp is neither the current nor the previous one. */
    method Pclrcurr(pp: Process)
      requires Valid() && pp in Leaders(jobs)
      modifies this`pcurrent, this`pprevious
      ensures Valid() && pcurrent != pp && pprevious != pp
      ensures pp != old(pcurrent) && pp != old(pprevious) ==> pcurrent == old(pcurrent) && pprevious == old(pprevious)
      ensures pp == old(pcurrent) && old(pprevious) != null ==> pcurrent == old(pprevious)
      ensures pp == old(pprevious) ==> pcurrent == old(pcurrent)
      ensures pp == old(pcurrent) && pcurrent == null ==> Leaders(jobs) == {pp}
    {
      hide Chain, Grouped, Rings, IsMax, Leaders, First, Ring, Within;
      assert allocated(procs);
      if pp == pcurrent {
        if pprevious != null {
          pcurrent := pprevious;
          pprevious := Pgetcurr(pp);
        } else {
          pcurrent := Pgetcurr(pp);
          pprevious := Pgetcurr(pp);
        }
      } else if pp == pprevious {
        pprevious := Pgetcurr(pp);
      }
    }

    /** The leader of the job J, from one of its processes. */
    method FindLeader(pp0: Process, ghost J: Job) returns (pp: Process)
      requires Valid() && J in jobs && pp0 in J
      ensures pp == J[0]
    {
      hide *;
      ghost var t, l := WayToLeader(J, pp0);
      ghost var i := 0;
      pp := pp0;
      while pp.p_pid != pp.p_jobid
        invariant 0 <= i <= l && pp == t[i]
        decreases l - i
      {
        assert t[i].p_friends == Next(t, i, null) == t[i + 1];
        pp := pp.p_friends;
        i := i + 1;
      }
    }

    /** The ring from pp on, and the place of the leader in it. */
    lemma WayToLeader(J: Job, pp: Process) returns (t: Job, l: nat)
      requires Valid() && J in jobs && pp in J
      ensures l < |t| && t[0] == pp && t[l] == J[0]
      ensures forall i :: 0 <= i <= l ==> (t[i].p_pid == t[i].p_jobid <==> t[i] == J[0])
      ensures forall i :: 0 <= i < l ==> t[i].p_friends == Next(t, i, null) == t[i + 1]
    {
      t := RingFrom(J, pp);
      LeaderIs(procs, jobs, J, pp);
      l :| 0 <= l < |t| && t[l] == J[0];
      forall i | 0 <= i <= l
        ensures t[i].p_pid == t[i].p_jobid <==> t[i] == J[0]
      {
        assert t[i] in J;
        LeaderIs(procs, jobs, J, t[i]);
      }
      hide *;
      RingLinks(t);
    }

    static lemma RingLinks(t: Job)
      requires Ring(t)
      ensures forall i :: 0 <= i < |t| - 1 ==> t[i].p_friends == Next(t, i, null) == t[i + 1]
    {
      assert forall i :: 0 <= i < |t| - 1 ==> t[i].p_friends == Next(t, i, t[0]);
    }

    /** The largest index in the list. */
    method MaxIndex() returns (idx: nat)
      requires Chain(proclist, procs)
      ensures IsMax(procs, idx)
    {
      idx := 0;
      var np := proclist.p_next;
      ghost var n := 0;
      assert allocated(procs);
      while np != null
        invariant 0 <= n <= |procs| && np == (if n < |procs| then procs[n] else null)
        invariant forall i :: 0 <= i < n ==> procs[i].p_index <= idx
        invariant idx > 0 ==> exists p :: p in procs && p.p_index == idx
        decreases |procs| - n
      {
        assert np in procs;
        if np.p_index > idx { idx := np.p_index; }
        np := np.p_next;
        n := n + 1;
      }
    }

    /** The loop of pflush over the processes of the job. */
    method ClearRing(pp: Process, ghost J: Job)
      requires Ring(J) && pp == J[0]
      modifies SetOf(J)`p_index, SetOf(J)`p_pid, SetOf(J)`p_flags
      ensures forall p :: p in J ==> p.p_pid == 0 && p.p_index == 0 && p.p_flags == old(p.p_flags) - {NeedNote}
    {
      var np := pp;
      ghost var n := 0;
      while true
        invariant 0 <= n < |J| && np == J[n]
        invariant forall i :: 0 <= i < n ==>
          J[i].p_pid == 0 && J[i].p_index == 0 && J[i].p_flags == old(J[i].p_flags) - {NeedNote}
        invariant forall i :: n <= i < |J| ==> J[i].p_flags == old(J[i].p_flags)
        decreases |J| - n
      {
        np.p_index, np.p_pid := 0, 0;
        np.p_flags := np.p_flags - {NeedNote};
        np := np.p_friends;
        n := n + 1;
        if np == pp { break; }
      }
    }

    /** What is left is grouped once the processes of the job J are cleared. */
    method ClearJob(pp: Process, ghost J: Job)
      requires Within(procs, jobs) && Grouped(procs, jobs) && Rings(procs, jobs) && J in jobs && pp == J[0]
      modifies SetOf(J)`p_index, SetOf(J)`p_pid, SetOf(J)`p_flags
      ensures Within(procs, jobs - {J}) && Grouped(procs, jobs - {J}) && Rings(procs, jobs - {J})
      ensures forall p :: p in J ==> p.p_pid == 0 && p.p_index == 0 && p.p_flags == old(p.p_flags) - {NeedNote}
      ensures forall m :: old(IsMax(procs, m)) && old(pp.p_index) != m ==> IsMax(procs, m)
    {
      ghost var rest := jobs - {J};
      ClearRing(pp, J);
      forall p | p in J
        ensures old(p.p_index) == old(pp.p_index)
      {
        assert old(SameJob(procs, J, p));
      }
      forall p | p in procs
        ensures p.p_pid != 0 <==> Owned(p, rest)
      {
        if p.p_pid != 0 {
          assert Owned(p, jobs);
          var K: Job :| K in jobs && p in K;
          assert K in rest;
        }
        if Owned(p, rest) {
          var K: Job :| K in rest && p in K;
          assert K in jobs && Owned(p, jobs) && p !in J;
        }
      }
      forall K: Job, p | K in rest && p in K
        ensures SameJob(procs, K, p)
      {
        assert K in jobs && old(SameJob(procs, K, p)) && K[0] in K;
        assert p !in J && K[0] !in J;
      }
      forall K: Job | K in rest
        ensures Ring(K)
      {
        assert K in jobs && old(Ring(K));
      }
    }

    /** Takes the job of a process out of the table; nothing happens if that was done before. */
    method Pflush(pp0: Process) returns (ghost J: Job)
      requires Valid() && pp0 in procs
      modifies this`pcurrjob, this`pcurrent, this`pprevious, this`pmaxindex, this`jobs
      modifies SetOf(procs)`p_index, SetOf(procs)`p_pid, SetOf(procs)`p_flags
      ensures Valid()
      ensures old(pp0.p_pid) == 0 ==> jobs == old(jobs) && J == []
      ensures old(pp0.p_pid) != 0 ==> J in old(jobs) && pp0 in J && jobs == old(jobs) - {J}
      ensures old(pp0.p_pid) != 0 ==> J != [] && pcurrent != J[0] && pprevious != J[0]
      ensures old(pp0.p_pid) != 0 ==> pcurrjob == if old(pcurrjob) == J[0] then null else old(pcurrjob)
      ensures forall p :: p in procs && p in J ==>
        p.p_pid == 0 && p.p_index == 0 && p.p_flags == old(p.p_flags) - {NeedNote}
      ensures forall p :: p in procs && p !in J ==>
        p.p_pid == old(p.p_pid) && p.p_index == old(p.p_index) && p.p_flags == old(p.p_flags)
    {
      hide *;
      J := [];
      if pp0.p_pid == 0 { return; }
      J := JobFacts(pp0);
      var pp := FindLeader(pp0, J);
      Pclrcurr(pp);
      DropJob(pp, J);
      IsValid();
    }

    lemma JobFacts(pp: Process) returns (J: Job)
      requires Valid() && pp in procs && pp.p_pid != 0
      ensures J in jobs && pp in J && J != [] && J[0] in Leaders(jobs) && J[0] in J && J[0] in procs
      ensures SetOf(J) <= SetOf(procs)
      ensures (forall p :: p in SetOf(J) <==> p in J) && forall p :: p in SetOf(procs) <==> p in procs
    {
      J := JobOf(procs, jobs, pp);
      LeaderIs(procs, jobs, J, pp);
      SubSet(procs, jobs, J);
    }

    /** Takes the job J, which is not marked any more, out of the table. */
    method DropJob(pp: Process, ghost J: Job)
      requires Valid() && J in jobs && J != [] && pp == J[0] && pcurrent != pp && pprevious != pp
      modifies this`pcurrjob, this`pmaxindex, this`jobs, SetOf(J)`p_index, SetOf(J)`p_pid, SetOf(J)`p_flags
      ensures Chain(proclist, procs) && Ready(procs) && jobs == old(jobs) - {J}
      ensures pcurrjob == if old(pcurrjob) == J[0] then null else old(pcurrjob)
      ensures forall p :: p in J ==> p.p_pid == 0 && p.p_index == 0 && p.p_flags == old(p.p_flags) - {NeedNote}
    {
      hide Chain, Grouped, Rings, Ring, IsMax, Within, Leaders, SetOf, Marks;
      assert allocated(procs);
      if pp == pcurrjob { pcurrjob := null; }
      var idx := pp.p_index;
      ClearJob(pp, J);
      LeadersLeft(jobs, J, pcurrent, pprevious, pcurrjob);
      jobs := jobs - {J};
      if idx == pmaxindex {
        pmaxindex := MaxIndex();
      }
    }

    lemma SubSet(procs: seq<Process>, jobs: set<Job>, J: Job)
      requires Within(procs, jobs) && J in jobs
      ensures SetOf(J) <= SetOf(procs)
      ensures forall p :: p in SetOf(J) <==> p in J
      ensures forall p :: p in SetOf(procs) <==> p in procs
    {
    }

    lemma LeadersLeft(jobs: set<Job>, J: Job, current: Process?, previous: Process?, job: Process?)
      requires J in jobs && J != [] && Marks(jobs, current, previous) && (job != null ==> job in Leaders(jobs))
      requires current != J[0] && previous != J[0] && job != J[0]
      ensures Marks(jobs - {J}, current, previous) && (job != null ==> job in Leaders(jobs - {J}))
    {
      forall p | p in Leaders(jobs) && p != J[0]
        ensures p in Leaders(jobs - {J})
      {
        var K: Job :| K in jobs && K != [] && K[0] == p;
        assert K in jobs - {J};
      }
    }

    /** Whether some process in the list has this index. */
    method Uses(i: nat) returns (used: bool)
      requires Chain(proclist, procs)
      ensures used <==> Used(procs, i)
    {
      var np := proclist.p_next;
      ghost var n := 0;
      assert allocated(procs);
      while np != null
        invariant 0 <= n <= |procs| && np == (if n < |procs| then procs[n] else null)
        invariant forall k :: 0 <= k < n ==> procs[k].p_index != i
        decreases |procs| - n
      {
        assert np in procs;
        if np.p_index == i { return true; }
        np := np.p_next;
        n := n + 1;
      }
      used := false;
    }

    /** The index of a new job: the next one, or if that gets big the first that is free. */
    method NewIndex() returns (i: nat)
      requires Chain(proclist, procs) && IsMax(procs, pmaxindex)
      modifies this`pmaxindex
      ensures i > 0 && !Used(procs, i)
      ensures pmaxindex == if i > old(pmaxindex) then i else old(pmaxindex)
      ensures old(pmaxindex) >= BIGINDEX ==> forall k :: 0 < k < i ==> Used(procs, k)
      ensures old(pmaxindex) < BIGINDEX ==> i == old(pmaxindex) + 1
    {
      if pmaxindex < BIGINDEX {
        pmaxindex := pmaxindex + 1;
        return pmaxindex;
      }
      hide Chain;
      assert !Used(procs, pmaxindex + 1);
      hide Used, IsMax;
      i := 1;
      assert allocated(procs);
      var used := Uses(i);
      while used
        invariant 1 <= i <= pmaxindex + 1 && pmaxindex == old(pmaxindex) && !Used(procs, pmaxindex + 1)
        invariant (used <==> Used(procs, i)) && forall k :: 0 < k < i ==> Used(procs, k)
        decreases pmaxindex + 1 - i
      {
        i := i + 1;
        used := Uses(i);
      }
      if i > pmaxindex { pmaxindex := i; }
    }

    /** Adds a process to the job being started, at the end of its ring. */
    method JoinJob(pp: Process, pid: nat, ghost J: Job)
      requires Valid() && pp !in procs && pid > 0 && J in jobs && pcurrjob == J[0]
      modifies pp`p_pid, pp`p_jobid, pp`p_friends, pp`p_index, SetOf(J)`p_friends
      ensures pp.p_pid == pid && pp.p_jobid == J[0].p_pid && pp.p_index == J[0].p_index
      ensures Ring(J + [pp]) && forall K: Job :: K in jobs && K != J ==> Ring(K)
    {
      hide *;
      OthersApart(J, pp);
      assert allocated(J) && allocated(SetOf(J));
      SetIs(J);
      pp.p_pid := pid;
      pp.p_index := pcurrjob.p_index;
      pp.p_friends := pcurrjob;
      pp.p_jobid := pcurrjob.p_pid;
      label B:
      LinkLast(pp, J);
      forall K: Job | K in jobs && K != J
        ensures Ring(K)
      {
        SetIs(K);
        assert old(Ring(K)) && allocated(SetOf(K));
        assert forall p :: p in SetOf(K) ==> p !in SetOf(J) && p != pp;
      }
    }

    /** Puts pp, which leads back to the leader, at the end of the ring. */
    method LinkLast(pp: Process, ghost J: Job)
      requires Ring(J) && pp !in J && pp.p_friends == J[0]
      modifies SetOf(J)`p_friends
      ensures Ring(J + [pp])
    {
      var fp := LastOf(pp.p_friends, J);
      fp.p_friends := pp;
      Extended(J, pp);
    }

    /** The last process of a ring. */
    static method LastOf(pp: Process, ghost J: Job) returns (fp: Process)
      requires Ring(J) && pp == J[0]
      ensures fp == J[|J| - 1]
    {
      fp := pp;
      ghost var n := 0;
      while fp.p_friends != pp
        invariant 0 <= n < |J| && fp == J[n]
        decreases |J| - n
      {
        fp := fp.p_friends;
        n := n + 1;
      }
      RingEnd(J, n);
    }

    lemma OthersApart(J: Job, pp: Process)
      requires Valid() && J in jobs && pp !in procs
      ensures Ring(J) && pp !in J && J[0] in J
      ensures forall K: Job, p :: K in jobs && K != J && p in K ==> p !in J && p != pp
      ensures forall K: Job :: K in jobs && K != J ==> Ring(K)
    {
    }

    static lemma RingEnd(J: Job, n: nat)
      requires Ring(J) && n < |J| && J[n].p_friends == J[0]
      ensures n == |J| - 1
    {
      assert J[n].p_friends == Next(J, n, J[0]);
    }

    static lemma Extended(J: Job, pp: Process)
      requires J != [] && Distinct(J) && pp !in J && pp.p_friends == J[0] && J[|J| - 1].p_friends == pp
      requires forall i :: 0 <= i < |J| - 1 ==> J[i].p_friends == Next(J, i, J[0])
      ensures Ring(J + [pp])
    {
    }

    /** Enters a new process, as the leader of a new job or into the job that is being started. */
    method Palloc(pid: nat, background: bool) returns (pp: Process, ghost J: Job)
      requires Valid() && pid > 0 && forall p :: p in procs ==> p.p_pid != pid
      modifies this, proclist`p_next, SetOf(procs)`p_friends
      ensures Valid() && fresh(pp) && procs == [pp] + old(procs)
      ensures pp.p_pid == pid && pp.p_flags == (if background then {Running} else {Running, Foreground})
      ensures old(pcurrjob) == null ==>
        jobs == old(jobs) + {[pp]} && pcurrjob == pp && pp.p_jobid == pid && !Used(old(procs), pp.p_index)
      ensures old(pcurrjob) == null ==> pcurrent == if old(pcurrent) == null then pp else old(pcurrent)
      ensures old(pcurrjob) == null ==>
        pprevious == if old(pcurrent) != null && old(pprevious) == null then pp else old(pprevious)
      ensures old(pcurrjob) != null ==>
        J in old(jobs) && J[0] == old(pcurrjob) && jobs == old(jobs) - {J} + {J + [pp]}
      ensures old(pcurrjob) != null ==>
        pcurrjob == old(pcurrjob) && pcurrent == old(pcurrent) && pprevious == old(pprevious)
    {
      hide *;
      J := [];
      pp := new Process();
      pp.p_flags := if background then {Running} else {Running, Foreground};
      if pcurrjob != null {
        J := AddToJob(pp, pid);
      } else {
        AddJob(pp, pid);
      }
      Link(pp);
      IsValid();
    }

    lemma IsValid()
      requires Chain(proclist, procs) && Ready(procs)
      ensures Valid()
    {
    }

    /** All that makes a table valid, but for the links of the list, which is to have these processes. */
    ghost predicate Ready(all: seq<Process>)
      reads this`jobs, this`pcurrjob, this`pcurrent, this`pprevious, this`pmaxindex
      reads all`p_pid, all`p_jobid, all`p_index, all`p_friends
    {
      && Within(all, jobs) && Grouped(all, jobs) && Rings(all, jobs) && IsMax(all, pmaxindex)
      && Marks(jobs, pcurrent, pprevious) && (pcurrjob != null ==> pcurrjob in Leaders(jobs))
    }

    method AddToJob(pp: Process, pid: nat) returns (ghost J: Job)
      requires Valid() && pcurrjob != null && pp !in procs && pp != proclist
      requires pid > 0 && forall p :: p in procs ==> p.p_pid != pid
      modifies this`jobs, pp`p_pid, pp`p_jobid, pp`p_friends, pp`p_index, SetOf(procs)`p_friends
      ensures pp.p_pid == pid && J in old(jobs) && J[0] == pcurrjob && jobs == old(jobs) - {J} + {J + [pp]}
      ensures Chain(proclist, procs) && Ready([pp] + procs)
    {
      hide Leaders, Chain, IsMax, Marks, Grouped, Rings, Within, Ring, Used, SetOf;
      assert allocated(procs);
      J := JobLedBy(jobs, pcurrjob);
      SubSet(procs, jobs, J);
      JoinJob(pp, pid, J);
      WithJoined(procs, jobs, J, pp, pmaxindex);
      LeadersAfter(jobs, J, pp);
      SameMarks(jobs, jobs - {J} + {J + [pp]}, pcurrent, pprevious);
      jobs := jobs - {J} + {J + [pp]};
    }

    method AddJob(pp: Process, pid: nat)
      requires Valid() && pcurrjob == null && pp !in procs && pp != proclist
      requires pid > 0 && forall p :: p in procs ==> p.p_pid != pid
      modifies this`jobs, this`pcurrjob, this`pcurrent, this`pprevious, this`pmaxindex
      modifies pp`p_pid, pp`p_jobid, pp`p_friends, pp`p_index
      ensures pp.p_pid == pp.p_jobid == pid && jobs == old(jobs) + {[pp]} && pcurrjob == pp && !Used(procs, pp.p_index)
      ensures pcurrent == if old(pcurrent) == null then pp else old(pcurrent)
      ensures pprevious == if old(pcurrent) != null && old(pprevious) == null then pp else old(pprevious)
      ensures Chain(proclist, procs) && Ready([pp] + procs)
    {
      hide Leaders, Chain, IsMax, Marks, Grouped, Rings, Within, Ring, Used, SetOf;
      assert allocated(procs);
      NotMarked(pp);
      NewJob(pp, pid);
      WithNewJob(procs, jobs, pp, old(pmaxindex));
      MarksMore(jobs, pp, old(pcurrent), old(pprevious));
      jobs := jobs + {[pp]};
    }

    lemma NotMarked(pp: Process)
      requires Within(procs, jobs) && Marks(jobs, pcurrent, pprevious) && pp !in procs
      ensures pcurrent != pp
    {
    }

    static lemma SameMarks(jobs: set<Job>, more: set<Job>, current: Process?, previous: Process?)
      requires Marks(jobs, current, previous) && Leaders(jobs) == Leaders(more)
      ensures Marks(more, current, previous)
    {
    }

    /** Puts a process at the front of the list. */
    method Link(pp: Process)
      requires Chain(proclist, procs) && pp !in procs && pp != proclist
      modifies this`procs, pp`p_next, proclist`p_next
      ensures procs == [pp] + old(procs) && Chain(proclist, procs)
    {
      assert allocated(procs);
      pp.p_next := proclist.p_next;
      proclist.p_next := pp;
      ghost var all := [pp] + procs;
      assert forall i :: 0 <= i < |procs| ==> procs[i].p_next == Next(procs, i, null);
      NewFirst(proclist, pp, procs);
      procs := all;
    }

    static lemma NewFirst(head: Process, pp: Process, procs: seq<Process>)
      requires head !in procs && head != pp && pp !in procs && Distinct(procs)
      requires head.p_next == pp && pp.p_next == (if procs == [] then null else procs[0])
      requires forall i :: 0 <= i < |procs| ==> procs[i].p_next == Next(procs, i, null)
      ensures Chain(head, [pp] + procs)
    {
      var all := [pp] + procs;
      forall i | 0 <= i < |all|
        ensures all[i].p_next == Next(all, i, null)
      {
        if i > 0 { assert all[i] == procs[i - 1]; }
      }
      assert forall i :: 1 <= i < |all| ==> all[i] == procs[i - 1];
    }

    static lemma JobLedBy(jobs: set<Job>, p: Process) returns (J: Job)
      requires p in Leaders(jobs)
      ensures J in jobs && J != [] && J[0] == p
    {
      J :| J in jobs && J != [] && J[0] == p;
    }

    static lemma MarksMore(jobs: set<Job>, pp: Process, current: Process?, previous: Process?)
      requires Marks(jobs, current, previous) && current != pp
      ensures pp in Leaders(jobs + {[pp]})
      ensures Marks(jobs + {[pp]}, if current == null then pp else current,
                    if current != null && previous == null then pp else previous)
    {
      LeadersAfter(jobs, [], pp);
    }

    /** Makes a process the leader of a new job. */
    method NewJob(pp: Process, pid: nat)
      requires Valid() && pp !in procs && pp != proclist && pid > 0 && forall p :: p in procs ==> p.p_pid != pid
      modifies this`pcurrjob, this`pcurrent, this`pprevious, this`pmaxindex, pp`p_pid, pp`p_jobid, pp`p_friends,
          pp`p_index
      ensures pp.p_pid == pp.p_jobid == pid && pp.p_index > 0 && pp.p_friends == pp && pcurrjob == pp
      ensures !Used(procs, pp.p_index)
      ensures pmaxindex == if pp.p_index > old(pmaxindex) then pp.p_index else old(pmaxindex)
      ensures pcurrent == if old(pcurrent) == null then pp else old(pcurrent)
      ensures pprevious == if old(pcurrent) != null && old(pprevious) == null then pp else old(pprevious)
    {
      hide Grouped, Rings, Within, Leaders, Chain, IsMax, Marks, Used;
      assert allocated(procs);
      pcurrjob := pp;
      pp.p_pid, pp.p_jobid := pid, pid;
      pp.p_friends := pp;
      var i := NewIndex();
      pp.p_index := i;
      if pcurrent == null {
        pcurrent := pp;
      } else if pprevious == null {
        pprevious := pp;
      }
    }

    /** A process in the list with this pid. */
    method FindPid(pid: nat) returns (pp: Process?)
      requires Chain(proclist, procs)
      ensures pp == null ==> forall p :: p in procs ==> p.p_pid != pid
      ensures pp != null ==> pp in procs && pp.p_pid == pid
    {
      pp := proclist.p_next;
      ghost var n := 0;
      assert allocated(procs);
      while pp != null
        invariant 0 <= n <= |procs| && pp == (if n < |procs| then procs[n] else null)
        invariant forall k :: 0 <= k < n ==> procs[k].p_pid != pid
        decreases |procs| - n
      {
        assert pp in procs;
        if pp.p_pid == pid { return; }
        pp := pp.p_next;
        n := n + 1;
      }
    }

    /** All flags of the processes in a ring. */
    static method JobFlags(pp: Process, ghost J: Job) returns (flags: set<Flag>)
      requires Ring(J) && pp == J[0]
      ensures flags == FlagsOf(J)
    {
      flags := {};
      var fp := pp;
      ghost var n := 0;
      while true
        invariant 0 <= n < |J| && fp == J[n]
        invariant flags == FlagsOf(J[..n])
        decreases |J| - n
      {
        FlagsOneMore(J, n);
        flags := flags + fp.p_flags;
        fp := fp.p_friends;
        n := n + 1;
        if fp == pp { break; }
      }
      assert J[..n] == J;
    }

    /** Marks the stopped processes of a ring as reported. */
    method MarkReported(pp: Process, ghost J: Job)
      requires Ring(J) && pp == J[0]
      modifies SetOf(J)`p_flags
      ensures forall p :: p in J ==>
        p.p_flags == old(p.p_flags) + if Stopped in old(p.p_flags) then {Reported} else {}
    {
      hide Chain, Marks, Valid;
      var fp := pp;
      ghost var n := 0;
      while true
        invariant 0 <= n < |J| && fp == J[n]
        invariant forall i :: 0 <= i < n ==>
          J[i].p_flags == old(J[i].p_flags) + if Stopped in old(J[i].p_flags) then {Reported} else {}
        invariant forall i :: n <= i < |J| ==> J[i].p_flags == old(J[i].p_flags)
        decreases |J| - n
      {
        if Stopped in fp.p_flags { fp.p_flags := fp.p_flags + {Reported}; }
        fp := fp.p_friends;
        n := n + 1;
        if fp == pp { break; }
      }
    }

    /** A ring from one of its processes on. */
    static lemma RingFrom(J: Job, pp: Process) returns (t: Job)
      requires Ring(J) && pp in J
      ensures Ring(t) && t[0] == pp && (forall p :: p in t <==> p in J) && SetOf(t) == SetOf(J)
    {
      var k :| 0 <= k < |J| && J[k] == pp;
      Rotated(J, k);
      t := J[k..] + J[..k];
      assert forall p :: p in t <==> p in J;
    }

    /** The job of fp becomes the current one, and the current one the previous one. */
    method MakeCurrent(fp: Process)
      requires Valid() && fp in Leaders(jobs)
      modifies this`pcurrent, this`pprevious
      ensures Valid() && pcurrent == fp
      ensures pprevious == if old(pcurrent) != null && old(pcurrent) != fp then old(pcurrent) else old(pprevious)
    {
      hide Leaders, Chain, IsMax, Grouped, Rings, Within;
      assert allocated(procs);
      if pcurrent != null && pcurrent != fp {
        pprevious := pcurrent;
      }
      pcurrent := fp;
    }

    /** A child has changed its status.  A job none of whose processes runs any more, or has been
        reported, becomes the current job if one of them is stopped, and loses its marks if not; in
        the latter case it is flushed at once if it is in the background and wants notice. */
    method Pchild(pid: nat, w: Wait, notify: bool) returns (pp: Process?, ghost J: Job, ghost flags: set<Flag>)
      requires Valid() && pid > 0
      modifies this`pcurrjob, this`pcurrent, this`pprevious, this`pmaxindex, this`jobs
      modifies SetOf(procs)`p_index, SetOf(procs)`p_pid, SetOf(procs)`p_flags
      ensures Valid()
      ensures pp == null ==> J == [] && forall p :: p in procs ==> old(p.p_pid) != pid
      ensures pp != null ==> J in old(jobs) && J != [] && pp in J && old(pp.p_pid) == pid
      ensures pp != null ==> flags == NewFlags(old(pp.p_flags), w) + old(FlagsBut(J, pp))
      ensures J == [] || Running in flags || Reported in flags ==>
        jobs == old(jobs) && pcurrent == old(pcurrent) && pprevious == old(pprevious)
      ensures J != [] && flags !! {Running, Reported} && Stopped in flags ==>
        jobs == old(jobs) && pcurrent == J[0]
        && pprevious == if old(pcurrent) != null && old(pcurrent) != J[0] then old(pcurrent) else old(pprevious)
      ensures J != [] && flags !! {Running, Reported, Stopped} ==>
        pcurrent != J[0] && pprevious != J[0]
        && jobs == if Foreground !in flags && (Notify in flags || notify) then old(jobs) - {J} else old(jobs)
      ensures forall p :: p in procs ==>
        var f := if p == pp then NewFlags(old(p.p_flags), w) - {Foreground} else old(p.p_flags);
        p.p_flags == if p in J && flags !! {Running, Reported} then SettledFlags(f, p == J[0], flags, notify) else f
    {
      hide *;
      J, flags := [], {};
      pp := FindChild(pid);
      if pp == null { return; }
      J := JobFacts(pp);
      ghost var t := RingOf(J, pp);
      assert allocated(procs) && allocated(J) && allocated(t);
      assert allocated(SetOf(t)) && allocated(SetOf(J)) && allocated(SetOf(procs));
      SetStatus(pp, w, J);
      FlagsAre(pp, J, t);
      var jobflags := JobFlags(pp, t);
      flags := jobflags;
      pp.p_flags := pp.p_flags - {Foreground};
      if Running !in jobflags && Reported !in jobflags {
        Settle(pp, jobflags, notify, J, t);
      }
    }

    method SetStatus(pp: Process, w: Wait, ghost J: Job)
      modifies pp`p_flags
      ensures pp.p_flags == NewFlags(old(pp.p_flags), w) && FlagsBut(J, pp) == old(FlagsBut(J, pp))
    {
      pp.p_flags := NewFlags(pp.p_flags, w);
    }

    method FindChild(pid: nat) returns (pp: Process?)
      requires Valid()
      ensures pp == null ==> forall p :: p in procs ==> p.p_pid != pid
      ensures pp != null ==> pp in procs && pp.p_pid == pid
    {
      hide Leaders, IsMax, Marks, Grouped, Rings, Within;
      pp := FindPid(pid);
    }

    lemma RingOf(J: Job, pp: Process) returns (t: Job)
      requires Valid() && J in jobs && pp in J
      ensures Ring(t) && t[0] == pp && (forall p :: p in t <==> p in J) && SetOf(t) == SetOf(J)
    {
      t := RingFrom(J, pp);
    }

    /** The job of pp has stopped or ended. */
    method Settle(pp: Process, jobflags: set<Flag>, notify: bool, ghost J: Job, ghost t: Job)
      requires Valid() && J in jobs && pp in J && J != [] && J[0] in Leaders(jobs) && J[0] in procs && pp in procs
      requires Ring(t) && t[0] == pp && SetOf(t) == SetOf(J) && SetOf(J) <= SetOf(procs)
      modifies this`pcurrjob, this`pcurrent, this`pprevious, this`pmaxindex, this`jobs
      modifies SetOf(procs)`p_index, SetOf(procs)`p_pid, SetOf(procs)`p_flags
      ensures Valid()
      ensures Stopped in jobflags ==>
        jobs == old(jobs) && pcurrent == J[0]
        && pprevious == if old(pcurrent) != null && old(pcurrent) != J[0] then old(pcurrent) else old(pprevious)
      ensures Stopped !in jobflags ==>
        pcurrent != J[0] && pprevious != J[0]
        && jobs == if Foreground !in jobflags && (Notify in jobflags || notify) then old(jobs) - {J} else old(jobs)
      ensures forall p :: p in procs ==>
        p.p_flags == if p in J then SettledFlags(old(p.p_flags), p == J[0], jobflags, notify) else old(p.p_flags)
    {
      hide Valid, Chain, Ready, Within, Grouped, Rings, Ring, IsMax, Marks, Leaders, SetOf, FlagsOf, FlagsBut;
      assert allocated(procs);
      SetIs(procs);
      SetIs(t);
      SetIs(J);
      MarkReported(pp, t);
      var fp := FindLeader(pp, J);
      if Stopped in jobflags {
        MakeCurrent(fp);
      } else {
        Pclrcurr(fp);
      }
      if Foreground !in jobflags {
        if Notify in jobflags || notify {
          if Stopped !in jobflags { FlushJob(pp, J); }
        } else {
          fp.p_flags := fp.p_flags + {NeedNote};
        }
      }
    }

    /** Flushes a job that is no longer marked. */
    method FlushJob(pp: Process, ghost J: Job)
      requires Valid() && J in jobs && pp in J && J != [] && pp in procs && pcurrent != J[0] && pprevious != J[0]
      modifies this`pcurrjob, this`pcurrent, this`pprevious, this`pmaxindex, this`jobs
      modifies SetOf(procs)`p_index, SetOf(procs)`p_pid, SetOf(procs)`p_flags
      ensures Valid() && jobs == old(jobs) - {J} && pcurrent != J[0] && pprevious != J[0]
      ensures forall p :: p in procs ==> p.p_flags == old(p.p_flags) - if p in J then {NeedNote} else {}
    {
      hide *;
      OnlyJob(J, pp);
      ghost var K := Pflush(pp);
    }

    lemma OnlyJob(J: Job, pp: Process)
      requires Valid() && J in jobs && pp in J
      ensures pp.p_pid != 0 && forall K: Job :: K in jobs && pp in K ==> K == J
    {
      LeaderIs(procs, jobs, J, pp);
    }

    method Restart(np: Process, foregnd: bool)
      modifies np`p_flags
      ensures np.p_flags == Restarted(old(np.p_flags), foregnd)
    {
      if Running in np.p_flags || Stopped in np.p_flags {
        np.p_flags := np.p_flags + {Running};
        np.p_flags := np.p_flags - {Stopped};
        if foregnd {
          np.p_flags := np.p_flags + {Foreground};
        } else {
          np.p_flags := np.p_flags - {Foreground};
        }
      }
    }

    /** The loop of pstart: every process that runs or is stopped runs now, in the foreground or not. */
    method RunRing(pp: Process, foregnd: bool, ghost J: Job)
      requires Ring(J) && pp == J[0]
      modifies SetOf(J)`p_flags
      ensures forall p :: p in J ==> p.p_flags == Restarted(old(p.p_flags), foregnd)
    {
      hide Restarted;
      var np := pp;
      ghost var n := 0;
      while true
        invariant 0 <= n < |J| && np == J[n]
        invariant forall i :: 0 <= i < n ==> J[i].p_flags == Restarted(old(J[i].p_flags), foregnd)
        invariant forall i :: n <= i < |J| ==> J[i].p_flags == old(J[i].p_flags)
        decreases |J| - n
      {
        Restart(np, foregnd);
        np := np.p_friends;
        n := n + 1;
        if np == pp { break; }
      }
    }

    /** Starts a job in the foreground or in the background; in the latter case it loses its marks. */
    method Pstart(pp: Process, foregnd: bool) returns (ghost J: Job)
      requires Valid() && pp in Leaders(jobs)
      modifies this`pcurrent, this`pprevious, SetOf(procs)`p_flags
      ensures Valid() && jobs == old(jobs) && J in jobs && J[0] == pp
      ensures forall p :: p in procs ==>
        p.p_flags == if p in J then Restarted(old(p.p_flags), foregnd) else old(p.p_flags)
      ensures if foregnd then pcurrent == old(pcurrent) && pprevious == old(pprevious)
              else pcurrent != pp && pprevious != pp
    {
      hide *;
      J := StartFacts(pp);
      assert allocated(procs);
      SetIs(procs);
      SetIs(J);
      RunRing(pp, foregnd, J);
      if !foregnd { Pclrcurr(pp); }
    }

    lemma StartFacts(pp: Process) returns (J: Job)
      requires Valid() && pp in Leaders(jobs)
      ensures J in jobs && J != [] && J[0] == pp && Ring(J) && SetOf(J) <= SetOf(procs)
    {
      J := JobLedBy(jobs, pp);
      SubSet(procs, jobs, J);
    }

    /** The part of pwait that frees the flushed processes. */
    method Reap()
      requires Valid()
      modifies this`procs, proclist`p_next, SetOf(procs)`p_next
      ensures Valid() && jobs == old(jobs)
      ensures procs == Live(old(procs)) && forall p :: p in old(procs) && p !in procs ==> p.p_pid == 0
    {
      hide *;
      ghost var all, done, n := procs, [], 0;
      StartReaping();
      assert allocated(all) && allocated(SetOf(all));
      var fp, pp := proclist, proclist.p_next;
      while pp != null
        invariant 0 <= n <= |all| && done == Live(all[..n]) && Reaping(proclist, fp, pp, done, all[n..])
        invariant Ready(procs) && procs == all && (fp == proclist || fp in SetOf(all))
        decreases |all| - n
      {
        fp, pp, done := ReapOne(proclist, fp, pp, done, all[n..]);
        LiveOneMore(all, n);
        n := n + 1;
      }
      EndReaping(proclist, fp, done, all, n);
      LiveIsReady(all);
      procs := done;
      IsValid();
    }

    lemma StartReaping()
      requires Valid()
      ensures Ready(procs) && Reaping(proclist, proclist, proclist.p_next, [], procs[0..]) && Live(procs[..0]) == []
    {
      assert [] + procs[0..] == procs && procs[0..] == procs;
    }

    lemma LiveIsReady(all: seq<Process>)
      requires Ready(all)
      ensures Ready(Live(all)) && forall p :: p in all && p !in Live(all) ==> p.p_pid == 0
    {
      hide Live, Marks, Leaders, Ring;
      LiveAre(all);
      LiveIsGrouped(all, Live(all), jobs, pmaxindex);
      hide *;
      AreReady(Live(all));
    }

    lemma AreReady(all: seq<Process>)
      requires Within(all, jobs) && Grouped(all, jobs) && Rings(all, jobs) && IsMax(all, pmaxindex)
      requires Marks(jobs, pcurrent, pprevious) && (pcurrjob != null ==> pcurrjob in Leaders(jobs))
      ensures Ready(all)
    {
    }
  }

  /** The table without the flushed processes. */
  lemma LiveIsGrouped(all: seq<Process>, live: seq<Process>, jobs: set<Job>, m: nat)
    requires Within(all, jobs) && Grouped(all, jobs) && Rings(all, jobs) && IsMax(all, m)
    requires forall p :: p in live <==> p in all && p.p_pid != 0
    ensures Within(live, jobs) && Grouped(live, jobs) && Rings(live, jobs) && IsMax(live, m)
  {
    hide Ring;
    forall J: Job, p | J in jobs && p in J
      ensures p in live && SameJob(all, J, p)
    {
      assert p in all && Owned(p, jobs);
    }
    forall J: Job, p | J in jobs && p in J
      ensures SameJob(live, J, p)
    {
      assert SameJob(all, J, p);
    }
    if m > 0 {
      var p :| p in all && p.p_index == m;
      assert p in live;
    }
  }

  ghost function FlagsOf(s: seq<Process>): set<Flag>
    reads s`p_flags
  {
    set p, f | p in s && f in p.p_flags :: f
  }

  /** The flags of the other processes of a job. */
  ghost function FlagsBut(s: seq<Process>, pp: Process): set<Flag>
    reads s`p_flags
  {
    set p, f | p in s && p != pp && f in p.p_flags :: f
  }

  lemma FlagsAre(pp: Process, J: Job, t: Job)
    requires pp in J && forall p :: p in t <==> p in J
    ensures FlagsOf(t) == pp.p_flags + FlagsBut(J, pp)
  {
  }

  lemma FlagsOneMore(s: seq<Process>, n: nat)
    requires n < |s|
    ensures FlagsOf(s[..n + 1]) == FlagsOf(s[..n]) + s[n].p_flags
  {
    assert s[..n + 1] == s[..n] + [s[n]];
  }

  lemma SetIs(s: seq<Process>)
    ensures forall p :: p in SetOf(s) <==> p in s
  {
  }

  function Restarted(flags: set<Flag>, foregnd: bool): set<Flag> {
    if Running !in flags && Stopped !in flags then flags
    else if foregnd then flags - {Stopped} + {Running, Foreground}
    else flags - {Stopped, Foreground} + {Running}
  }

  /** The processes that have not been flushed. */
  ghost function Live(s: seq<Process>): seq<Process>
    reads s`p_pid
  {
    if s == [] then []
    else Live(s[..|s| - 1]) + if s[|s| - 1].p_pid == 0 then [] else [s[|s| - 1]]
  }

  /** The links lead from `from` through s to `to`. */
  ghost predicate Path(from: Process?, s: seq<Process>, to: Process?)
    reads s`p_next
  {
    && from == (if s == [] then to else s[0])
    && forall i :: 0 <= i < |s| ==> s[i].p_next == Next(s, i, to)
  }

  /** What the loop of pwait keeps: done is linked up to fp, and the rest starts at pp. */
  ghost predicate Reaping(head: Process, fp: Process, pp: Process?, done: seq<Process>, rest: seq<Process>)
    reads head`p_next, done`p_next, rest`p_next
  {
    && Path(head.p_next, done, pp) && Path(pp, rest, null) && Distinct(done + rest) && head !in done + rest
    && fp == if done == [] then head else done[|done| - 1]
  }

  /** A round of the loop: a flushed process is unlinked. */
  method ReapOne(head: Process, fp0: Process, pp0: Process, ghost done0: seq<Process>, ghost rest: seq<Process>)
      returns (fp: Process, pp: Process?, ghost done: seq<Process>)
    requires Reaping(head, fp0, pp0, done0, rest)
    modifies fp0`p_next
    ensures rest != [] && rest[0] == pp0 && Reaping(head, fp, pp, done, rest[1..])
    ensures done == done0 + (if pp0.p_pid == 0 then [] else [pp0]) && fp == if pp0.p_pid == 0 then fp0 else pp0
  {
    fp, pp, done := fp0, pp0, done0;
    assert rest[0] == pp0;
    assert pp0.p_next == Next(rest, 0, null);
    Shorter(done0, rest);
    assert forall i :: 0 <= i < |rest| - 1 ==>
      rest[1..][i] == rest[i + 1] && Next(rest[1..], i, null) == Next(rest, i + 1, null);
    if pp.p_pid == 0 {
      fp.p_next := pp.p_next;
      pp := pp.p_next;
    } else {
      done := done0 + [pp];
      assert done + rest[1..] == done0 + rest;
      assert forall i :: 0 <= i < |done0| ==> done[i] == done0[i] && Next(done, i, pp.p_next) == Next(done0, i, pp);
      fp := pp;
      pp := pp.p_next;
    }
  }

  lemma Shorter(s: seq<Process>, t: seq<Process>)
    requires Distinct(s + t) && t != []
    ensures Distinct(s + t[1..])
    ensures forall i :: 0 <= i < |s| - 1 ==> s[i] != s[|s| - 1]
    ensures s != [] ==> s[|s| - 1] !in t
  {
    var u, v := s + t, s + t[1..];
    assert forall i :: 0 <= i < |v| ==> v[i] == u[if i < |s| then i else i + 1];
    assert forall i :: 0 <= i < |s| ==> u[i] == s[i];
    forall i | 0 <= i < |t| && s != []
      ensures t[i] != s[|s| - 1]
    {
      assert u[|s| + i] == t[i] && u[|s| - 1] == s[|s| - 1];
    }
  }

  lemma LiveOneMore(s: seq<Process>, n: nat)
    requires n < |s|
    ensures Live(s[..n + 1]) == Live(s[..n]) + (if s[n].p_pid == 0 then [] else [s[n]]) && s[n..][0] == s[n]
    ensures s[n..][1..] == s[n + 1..] && s[n] in SetOf(s)
  {
    assert s[..n + 1][..n] == s[..n];
  }

  lemma EndReaping(head: Process, fp: Process, done: seq<Process>, all: seq<Process>, n: nat)
    requires n <= |all| && Reaping(head, fp, null, done, all[n..]) && done == Live(all[..n])
    ensures done == Live(all) && Chain(head, done)
  {
    assert all[n..] == [];
    assert all[..n] == all && done + [] == done;
  }

  lemma {:induction false} LiveAre(s: seq<Process>)
    ensures forall p :: p in Live(s) <==> p in s && p.p_pid != 0
  {
    if s != [] {
      LiveAre(s[..|s| - 1]);
      assert s == s[..|s| - 1] + [s[|s| - 1]];
    }
  }

  /** What wait reports: a stop, the end by a signal, or an exit. */
  datatype Wait = StopSignal | EndSignal(interrupt: bool) | Exit(zero: bool)

  function Status(w: Wait): Flag {
    match w
    case StopSignal => Stopped
    case EndSignal(interrupt) => if interrupt then Interrupted else Signaled
    case Exit(zero) => if zero then NormalExit else AbnormalExit
  }

  /** The flags of a process once its new status is known. */
  function NewFlags(flags: set<Flag>, w: Wait): set<Flag> {
    flags - {Running, Stopped, Reported} + {Status(w)}
  }

  /** The flags of a process of a job that has stopped or ended: a stopped process is reported, and the
      leader of a job in the background is to be told of at the next prompt, if it is not told of now. */
  function SettledFlags(f: set<Flag>, leader: bool, jobflags: set<Flag>, notify: bool): set<Flag> {
    var r := f + if Stopped in f then {Reported} else {};
    if Foreground in jobflags then r
    else if Notify in jobflags || notify then if Stopped in jobflags then r else r - {NeedNote}
    else if leader then r + {NeedNote}
    else r
  }

  const BIGINDEX := 9

  /** The table with a new job of one process. */
  lemma WithNewJob(procs: seq<Process>, jobs: set<Job>, pp: Process, m: nat)
    requires Within(procs, jobs) && Grouped(procs, jobs) && Rings(procs, jobs) && IsMax(procs, m) && pp !in procs
    requires pp.p_pid == pp.p_jobid > 0 && pp.p_index > 0 && pp.p_friends == pp
    requires !Used(procs, pp.p_index) && forall p :: p in procs ==> p.p_pid != pp.p_pid
    ensures var all, more := [pp] + procs, jobs + {[pp]};
            && Within(all, more) && Grouped(all, more) && Rings(all, more)
            && IsMax(all, if pp.p_index > m then pp.p_index else m)
  {
    var all, more, one := [pp] + procs, jobs + {[pp]}, [pp];
    assert forall p :: p in all <==> p == pp || p in procs;
    forall J: Job, p | J in more && p in J
      ensures p in all && (J in jobs ==> J != one && p != pp)
    {
      if J in jobs { assert p in procs; }
    }
    forall p | p in all
      ensures p.p_pid != 0 <==> Owned(p, more)
    {
      if p == pp {
        assert pp in one && one in more;
      } else {
        if p.p_pid != 0 {
          assert Owned(p, jobs);
          var J: Job :| J in jobs && p in J;
          assert J in more;
        }
        if Owned(p, more) {
          var J: Job :| J in more && p in J;
          assert J in jobs && Owned(p, jobs);
        }
      }
    }
    forall J: Job, p | J in more && p in J
      ensures SameJob(all, J, p)
    {
      if J in jobs { assert SameJob(procs, J, p); }
    }
    forall p, q | p in all && q in all && p.p_index == q.p_index != 0
      ensures p.p_jobid == q.p_jobid
    {
    }
  }

  /** The table with one more process in a job. */
  lemma WithJoined(procs: seq<Process>, jobs: set<Job>, J: Job, pp: Process, m: nat)
    requires Within(procs, jobs) && Grouped(procs, jobs) && IsMax(procs, m) && pp !in procs && J in jobs && J != []
    requires Ring(J + [pp]) && forall K: Job :: K in jobs && K != J ==> Ring(K)
    requires pp.p_pid > 0 && pp.p_jobid == J[0].p_pid && pp.p_index == J[0].p_index
    requires forall p :: p in procs ==> p.p_pid != pp.p_pid
    ensures var all, more := [pp] + procs, jobs - {J} + {J + [pp]};
            Within(all, more) && Grouped(all, more) && Rings(all, more) && IsMax(all, m)
  {
    hide Ring;
    var big, all := J + [pp], [pp] + procs;
    var more := jobs - {J} + {big};
    assert forall p :: p in all <==> p == pp || p in procs;
    assert forall p :: p in big <==> p == pp || p in J;
    assert J[0] in J && big[0] == J[0] && SameJob(procs, J, J[0]);
    forall K: Job, p | K in more && p in K
      ensures p in all && (K != big ==> K in jobs && K != J && p != pp)
    {
      if K in jobs { assert p in procs; }
    }
    forall p | p in all
      ensures p.p_pid != 0 <==> Owned(p, more)
    {
      if p == pp {
        assert pp in big && big in more;
      } else {
        if p.p_pid != 0 {
          assert Owned(p, jobs);
          var K: Job :| K in jobs && p in K;
          assert (if K == J then big else K) in more;
        }
        if Owned(p, more) {
          var K: Job :| K in more && p in K;
          assert (if K == big then J else K) in jobs && Owned(p, jobs);
        }
      }
    }
    forall K: Job, p | K in more && p in K
      ensures SameJob(all, K, p)
    {
      if K == big {
        if p != pp { assert SameJob(procs, J, p); }
      } else {
        assert SameJob(procs, K, p);
      }
    }
    forall p, q | p in all && q in all && p.p_index == q.p_index != 0
      ensures p.p_jobid == q.p_jobid
    {
      assert J[0].p_jobid == J[0].p_pid;
    }
  }

  lemma LeadersAfter(jobs: set<Job>, J: Job, pp: Process)
    ensures J in jobs && J != [] ==> Leaders(jobs - {J} + {J + [pp]}) == Leaders(jobs)
    ensures Leaders(jobs + {[pp]}) == Leaders(jobs) + {pp}
  {
    if J in jobs && J != [] {
      var big := J + [pp];
      var more := jobs - {J} + {big};
      assert big[0] == J[0];
      forall p
        ensures p in Leaders(more) <==> p in Leaders(jobs)
      {
        if p in Leaders(jobs) {
          var K: Job :| K in jobs && K != [] && K[0] == p;
          var L := if K == J then big else K;
          assert L in more && L[0] == p;
        }
        if p in Leaders(more) {
          var K: Job :| K in more && K != [] && K[0] == p;
          var L := if K == big then J else K;
          assert L in jobs && L[0] == p;
        }
      }
    }
    var one := [pp];
    assert one in jobs + {[pp]} && one[0] == pp;
  }
}