/** What redirections do to the descriptors that commands can name, told one after the other. */
module RedirectionMeaning {
  import opened Redirections

  predicate SameBut(fd: int, t: Fds, u: Fds) {
    forall f :: f in t.Keys + u.Keys && f != fd ==> f in t && f in u && t[f] == u[f]
  }

  /** One redirection takes the table t to u.  The descriptor gets the file, or what the one copied has, if that is
      open or the same; or it is closed, if that may be done.  No other descriptor changes. */
  predicate Does(n: Redir, t: Fds, u: Fds, mayClose: bool) {
    && SameBut(n.fd, t, u)
    && match n
       case ToFile(fd, file) => fd in u && u[fd] == file
       case ToFd(fd, dupfd) =>
         if dupfd < 0 then mayClose && fd !in u
         else if dupfd in t then fd in u && u[fd] == t[dupfd]
         else dupfd == fd && fd !in u
  }

  /** There is only one table that it can lead to. */
  lemma OneTable(n: Redir, t: Fds, u: Fds, v: Fds, mayClose: bool)
    requires Does(n, t, u, mayClose) && Does(n, t, v, mayClose)
    ensures u == v
  {
    forall f | f in u.Keys + v.Keys
      ensures f in u && f in v && u[f] == v[f]
    {
      if f != n.fd { assert f in t.Keys + u.Keys || f in t.Keys + v.Keys; }
    }
    assert u.Keys == v.Keys;
  }

  /** One of the first i redirections is of this descriptor, while it is open, and not to itself. */
  predicate Earlier(list: seq<Redir>, ts: seq<Fds>, fd: int, i: nat)
    requires i <= |list| && i <= |ts|
  {
    exists j :: 0 <= j < i && list[j].fd == fd && list[j] != ToFd(list[j].fd, list[j].fd) && fd in ts[j]
  }

  /** With REDIR_PUSH, what is to be closed must be open, or have been open when it was redirected before. */
  predicate MayClose(list: seq<Redir>, ts: seq<Fds>, i: nat, saved: set<int>, push: bool)
    requires i < |list| && i < |ts|
  {
    var fd := list[i].fd;
    !push || fd in ts[i] || fd in saved || Earlier(list, ts, fd, i)
  }

  /** The tables before and after each redirection of a list. */
  ghost predicate Leads(list: seq<Redir>, ts: seq<Fds>, saved: set<int>, push: bool) {
    && |ts| == |list| + 1
    && forall i :: 0 <= i < |list| ==> Does(list[i], ts[i], ts[i + 1], MayClose(list, ts, i, saved, push))
  }

  // ---------------------------------------------------------------- that is what is computed

  lemma EffectDoes(n: Redir, t: Fds, saved: set<int>, push: bool)
    ensures Possible(n, t, saved, push) ==> Does(n, t, Effect(n, t), !push || n.fd in t || n.fd in saved)
  {
  }

  lemma OnlyIfPossible(n: Redir, t: Fds, u: Fds, saved: set<int>, push: bool)
    requires Does(n, t, u, !push || n.fd in t || n.fd in saved)
    ensures Possible(n, t, saved, push) && u == Effect(n, t)
  {
    EffectDoes(n, t, saved, push);
    OneTable(n, t, u, Effect(n, t), !push || n.fd in t || n.fd in saved);
  }

  /** The tables of a list are those of its first redirection and of the rest. */
  lemma LeadsOn(list: seq<Redir>, ts: seq<Fds>, saved: set<int>, push: bool)
    requires list != [] && |ts| == |list| + 1
    ensures Leads(list, ts, saved, push)
      <==> Does(list[0], ts[0], ts[1], !push || list[0].fd in ts[0] || list[0].fd in saved)
           && Leads(list[1..], ts[1..], SavedAfter(list[0], ts[0], saved, push), push)
  {
    hide Does, SameBut;
    var later, us, saved1 := list[1..], ts[1..], SavedAfter(list[0], ts[0], saved, push);
    assert MayClose(list, ts, 0, saved, push) == (!push || list[0].fd in ts[0] || list[0].fd in saved);
    forall i | 1 <= i < |list|
      ensures later[i - 1] == list[i] && us[i - 1] == ts[i] && us[i] == ts[i + 1]
      ensures MayClose(list, ts, i, saved, push) == MayClose(later, us, i - 1, saved1, push)
    {
      SavedEarlier(list, ts, list[i].fd, i, saved, push);
    }
    if Leads(later, us, saved1, push) {
      forall i | 1 <= i < |list|
        ensures Does(list[i], ts[i], ts[i + 1], MayClose(list, ts, i, saved, push))
      {
        assert Does(later[i - 1], us[i - 1], us[i], MayClose(later, us, i - 1, saved1, push));
      }
    }
  }

  lemma SavedEarlier(list: seq<Redir>, ts: seq<Fds>, fd: int, i: nat, saved: set<int>, push: bool)
    requires 1 <= i < |list| && |ts| == |list| + 1
    ensures push ==>
      (fd in saved || Earlier(list, ts, fd, i)
       <==> fd in SavedAfter(list[0], ts[0], saved, push) || Earlier(list[1..], ts[1..], fd, i - 1))
  {
    if Earlier(list, ts, fd, i) {
      var j :| 0 <= j < i && list[j].fd == fd && list[j] != ToFd(list[j].fd, list[j].fd) && fd in ts[j];
      assert j > 0 ==> list[1..][j - 1] == list[j] && ts[1..][j - 1] == ts[j];
    }
    if Earlier(list[1..], ts[1..], fd, i - 1) {
      var j :| 0 <= j < i - 1 && list[1..][j].fd == fd && list[1..][j] != ToFd(list[1..][j].fd, list[1..][j].fd)
        && fd in ts[1..][j];
      assert list[j + 1] == list[1..][j] && ts[j + 1] == ts[1..][j];
    }
  }

  /** The tables that a list of redirections leads through, if all of them succeed. */
  lemma {:induction false} DoneLeads(list: seq<Redir>, t: Fds, saved: set<int>, push: bool) returns (ts: seq<Fds>)
    requires Done(list, t, saved, push) == |list|
    ensures Leads(list, ts, saved, push) && ts[0] == t && ts[|list|] == EffectOf(list, t)
    decreases |list|
  {
    hide Does, Possible, Effect, SavedAfter;
    if list == [] {
      ts := [t];
    } else {
      EffectDoes(list[0], t, saved, push);
      var us := DoneLeads(list[1..], Effect(list[0], t), SavedAfter(list[0], t, saved, push), push);
      ts := [t] + us;
      assert ts[1..] == us;
      LeadsOn(list, ts, saved, push);
    }
  }

  lemma {:induction false} LeadsIsDone(list: seq<Redir>, ts: seq<Fds>, saved: set<int>, push: bool)
    requires Leads(list, ts, saved, push)
    ensures Done(list, ts[0], saved, push) == |list| && ts[|list|] == EffectOf(list, ts[0])
    decreases |list|
  {
    hide Does, Possible, Effect, SavedAfter;
    if list != [] {
      LeadsOn(list, ts, saved, push);
      OnlyIfPossible(list[0], ts[0], ts[1], saved, push);
      LeadsIsDone(list[1..], ts[1..], SavedAfter(list[0], ts[0], saved, push), push);
    }
  }

  ghost predicate LeadsTo(list: seq<Redir>, t: Fds, u: Fds, push: bool) {
    exists ts :: Leads(list, ts, {}, push) && ts[0] == t && ts[|list|] == u
  }

  /** Some table is the outcome of the list. */
  ghost predicate CanBeDone(list: seq<Redir>, t: Fds, push: bool) {
    exists ts :: Leads(list, ts, {}, push) && ts[0] == t
  }

  /** A list of redirections succeeds if and only if there are tables that it leads through, from that of the
      descriptors 0 to 9 on entry; and the last of them is what is left. */
  method RedirectAll(shell: Shell, list: seq<Redir>, push: bool) returns (ok: bool)
    requires shell.Valid()
    modifies shell
    ensures shell.Valid()
    ensures ok <==> CanBeDone(list, User(old(shell.fds)), push)
    ensures ok ==> LeadsTo(list, User(old(shell.fds)), User(shell.fds), push)
  {
    hide *;
    ghost var t := User(shell.fds);
    WhenDone(list, t, push);
    ok := shell.Redirect(list, push);
  }

  lemma WhenDone(list: seq<Redir>, t: Fds, push: bool)
    ensures Done(list, t, {}, push) == |list| <==> CanBeDone(list, t, push)
    ensures Done(list, t, {}, push) == |list| ==> LeadsTo(list, t, EffectOf(list, t), push)
  {
    hide Done, EffectOf, Does, MayClose;
    if Done(list, t, {}, push) == |list| { var ts := DoneLeads(list, t, {}, push); }
    forall ts | Leads(list, ts, {}, push) && ts[0] == t
      ensures Done(list, t, {}, push) == |list|
    {
      LeadsIsDone(list, ts, {}, push);
    }
  }
}
