/** The flags of processes, one by one, and what they say of a process. */
module JobFlags {
  import opened Jobs

  /** A process is running, is stopped, or has ended in one of four ways. */
  predicate IsState(f: Flag) {
    f == Running || f == Stopped || f == NormalExit || f == AbnormalExit || f == Signaled || f == Interrupted
  }

  /** Its flags say which. */
  ghost predicate InState(flags: set<Flag>, state: Flag) {
    IsState(state) && forall f: Flag :: IsState(f) ==> (f in flags <==> f == state)
  }

  /** What wait has said of a process that was running or stopped is what its flags say afterwards; it is no longer
      taken as reported, and no other flag changes. */
  lemma WaitTells(flags: set<Flag>, was: Flag, w: Wait)
    requires InState(flags, was) && (was == Running || was == Stopped)
    ensures InState(NewFlags(flags, w),
              match w
              case StopSignal => Stopped
              case EndSignal(interrupt) => if interrupt then Interrupted else Signaled
              case Exit(zero) => if zero then NormalExit else AbnormalExit)
    ensures forall f: Flag :: !IsState(f) ==> (f in NewFlags(flags, w) <==> f in flags && f != Reported)
  {
  }

  /** A process that is started again runs, in the foreground or not as is asked for; one that has ended does not. */
  lemma StartTells(flags: set<Flag>, was: Flag, foregnd: bool)
    requires InState(flags, was)
    ensures InState(Restarted(flags, foregnd), if was == Stopped then Running else was)
    ensures forall f: Flag :: !IsState(f) ==>
      (f in Restarted(flags, foregnd) <==>
         if f == Foreground && (was == Running || was == Stopped) then foregnd else f in flags)
  {
  }

  /** When a job has stopped or ended, its stopped processes are reported.  If the job is in the background and
      nobody is told of it now, its leader is marked so that it is told of at the next prompt; if it is told of now
      and has ended, that mark goes from all its processes.  No other flag changes. */
  lemma SettlingTells(flags: set<Flag>, leader: bool, jobflags: set<Flag>, notify: bool, f: Flag)
    ensures f in SettledFlags(flags, leader, jobflags, notify) <==>
      var now := Notify in jobflags || notify;
      if f == Reported then Reported in flags || Stopped in flags
      else if f == NeedNote && Foreground !in jobflags then
        if now then NeedNote in flags && Stopped in jobflags else NeedNote in flags || leader
      else f in flags
  {
  }
}
