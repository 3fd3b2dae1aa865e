/** The redirection stack of sh (src/bin/sh/redir.c).

    Descriptors are numbers, and a table says which file each open one is for.  Of the system only this
    is known: a new descriptor is the lowest free one.  Descriptors from 0 to 9 are the user's; those
    from 10 on hold copies of descriptors that are to be put back.
  */
module Redirections {

  /** Open files are told apart by number. */
  type File = int
  type Fds = map<int, File>
  type Digit = d: nat | d < 10
  type Source = d: int | d < 10

  const EMPTY := -2

  /** A redirection of a descriptor to a file that open returns, or to a copy of another descriptor;
      a negative dupfd stands for "-", which closes. */
  datatype Redir =
    | ToFile(fd: Digit, file: File)
    | ToFd(fd: Digit, dupfd: Source)

  /** A redirection of a descriptor to itself is skipped. */
  predicate Effective(n: Redir) {
    !(n.ToFd? && n.dupfd == n.fd)
  }

  // ---------------------------------------------------------------- the effect, seen by the user

  /** The descriptors that commands can name. */
  function User(fds: Fds): Fds {
    map f | f in fds && 0 <= f < 10 :: fds[f]
  }

  /** The effect of one redirection, by POSIX Shell Command Language, section 2.7. */
  function Effect(n: Redir, t: Fds): Fds {
    if !Effective(n) then t
    else if n.ToFile? then t[n.fd := n.file]
    else if n.dupfd < 0 then t - {n.fd}
    else if n.dupfd in t then t[n.fd := t[n.dupfd]]
    else t - {n.fd}
  }

  /** Whether a redirection succeeds: what is copied must be open, and with REDIR_PUSH what is closed
      must be open too, or have been saved. */
  predicate Possible(n: Redir, t: Fds, saved: set<int>, push: bool) {
    Effective(n) && n.ToFd? ==> if n.dupfd < 0 then push ==> n.fd in t || n.fd in saved else n.dupfd in t
  }

  function SavedAfter(n: Redir, t: Fds, saved: set<int>, push: bool): set<int> {
    if push && Effective(n) && n.fd in t then saved + {n.fd} else saved
  }

  /** How many redirections of a list are done before one fails. */
  function Done(list: seq<Redir>, t: Fds, saved: set<int>, push: bool): (d: nat)
    ensures d <= |list|
  {
    if list == [] || !Possible(list[0], t, saved, push) then 0
    else 1 + Done(list[1..], Effect(list[0], t), SavedAfter(list[0], t, saved, push), push)
  }

  function EffectOf(list: seq<Redir>, t: Fds): Fds {
    if list == [] then t else EffectOf(list[1..], Effect(list[0], t))
  }

  // ---------------------------------------------------------------- the saved descriptors

  /** The array renamed: where each of the descriptors 0 to 9 was saved. */
  type Renamed = r: seq<int> | |r| == 10 witness [0, 0, 0, 0, 0, 0, 0, 0, 0, 0]

  ghost predicate Slot(r: Renamed, f: int) {
    SlotUpTo(r, f, 10)
  }

  /** Each saved descriptor is an open one from 10 up, and they are all different. */
  ghost predicate GoodFrame(r: Renamed, fds: Fds) {
    && (forall i :: 0 <= i < 10 && r[i] != EMPTY ==> r[i] >= 10 && r[i] in fds)
    && (forall i, j :: 0 <= i < j < 10 && r[i] != EMPTY ==> r[i] != r[j])
  }

  ghost predicate Good(frames: seq<Renamed>, fds: Fds) {
    && (forall k :: 0 <= k < |frames| ==> GoodFrame(frames[k], fds))
    && (forall k, l, f :: 0 <= k < l < |frames| && Slot(frames[k], f) ==> !Slot(frames[l], f))
  }

  /** The table once the descriptors of a frame are put back. */
  ghost function Popped(fds: Fds, r: Renamed): Fds
    requires GoodFrame(r, fds)
  {
    PoppedTo(fds, r, 10)
  }

  /** The table once the first n of them are put back. */
  ghost function PoppedTo(fds: Fds, r: Renamed, n: nat): Fds
    requires GoodFrame(r, fds) && n <= 10
  {
    map f | f in fds.Keys + {0, 1, 2, 3, 4, 5, 6, 7, 8, 9}
          && (if PutBack(r, f, n) then true else f in fds && !SlotUpTo(r, f, n))
      :: if PutBack(r, f, n) then fds[r[f]] else fds[f]
  }

  predicate SlotUpTo(r: Renamed, f: int, n: nat)
    requires n <= 10
  {
    f != EMPTY && exists i :: 0 <= i < n && r[i] == f
  }

  predicate PutBack(r: Renamed, f: int, n: int) {
    0 <= f < n && f < 10 && r[f] != EMPTY
  }

  /** The open descriptors from 10 up that no frame accounts for. */
  ghost function Stray(fds: Fds, frames: seq<Renamed>): set<int> {
    set f | f in fds && f >= 10 && !(exists k :: 0 <= k < |frames| && Slot(frames[k], f))
  }

  // ---------------------------------------------------------------- the shell

  class Shell {
    var fds: Fds
    var redirlist: seq<Renamed>

    ghost predicate Valid()
      reads this
    {
      Good(redirlist, fds)
    }

    constructor (fds: Fds)
      ensures Valid() && this.fds == fds && redirlist == []
    {
      this.fds, redirlist := fds, [];
    }

    /** fcntl(fd, F_DUPFD, min), which fails if fd is closed. */
    method DupFd(fd: nat, min: nat) returns (i: int)
      modifies this`fds
      ensures old(fd in fds) ==> i >= min && i !in old(fds) && fds == old(fds)[i := old(fds)[fd]]
      ensures old(fd in fds) ==> forall g: nat :: min <= g < i ==> g in old(fds)
      ensures !old(fd in fds) ==> i == -1 && fds == old(fds)
    {
      if fd !in fds { return -1; }
      i := LowestFree(min);
      fds := fds[i := fds[fd]];
    }

    method LowestFree(min: nat) returns (f: int)
      ensures f >= min && f !in fds && forall g: nat :: min <= g < f ==> g in fds
    {
      f := min;
      while f in fds
        invariant f >= min && forall g: nat :: min <= g < f ==> g in fds
        decreases set g | g in fds && g >= f
      {
        ghost var above := set g | g in fds && g >= f;
        f := f + 1;
        assert f - 1 in above && f - 1 !in (set g | g in fds && g >= f);
      }
    }

    method Close(fd: nat)
      modifies this`fds
      ensures fds == old(fds) - {fd}
    {
      fds := fds - {fd};
    }

    /** copyfd, from a descriptor that is open to one that is free. */
    method CopyFd(from: nat, to: nat)
      requires from in fds && to !in fds
      modifies this`fds
      ensures fds == old(fds)[to := old(fds)[from]]
    {
      var newfd := DupFd(from, to);
    }

    /** Opens what a redirection names, on a descriptor that is closed. */
    method OpenRedirect(n: Redir) returns (ok: bool)
      requires Effective(n) && n.fd !in fds
      modifies this`fds
      ensures ok <==> n.ToFile? || n.dupfd < 0 || n.dupfd in old(fds)
      ensures fds == Effect(n, old(fds))
    {
      ok := true;
      match n {
        case ToFile(fd, file) =>
          var f := LowestFree(0);
          fds := fds[f := file];
          if f != fd {
            CopyFd(f, fd);
            Close(f);
          }
        case ToFd(fd, dupfd) =>
          if dupfd >= 0 {
            if dupfd !in fds { return false; }
            CopyFd(dupfd, fd);
          }
      }
    }

    /** The part of redirect for a descriptor that is to be saved: the label `again`. */
    method Save(n: Redir) returns (ok: bool, tried: bool)
      requires Valid() && redirlist != [] && Effective(n) && redirlist[0][n.fd] == EMPTY
      modifies this
      ensures Valid() && |redirlist| == |old(redirlist)| && redirlist[1..] == old(redirlist[1..])
      ensures tried <==> n.fd !in old(fds)
      ensures old(n.fd in fds) ==>
        Saved(redirlist[0], fds, old(redirlist[0]), old(fds), n.fd) && n.fd !in fds && ok
      ensures !old(n.fd in fds) ==> redirlist == old(redirlist)
      ensures !old(n.fd in fds) ==> (ok <==> Possible(n, User(old(fds)), {}, true))
      ensures !old(n.fd in fds) && !ok ==> fds == old(fds)
      ensures !old(n.fd in fds) && ok ==> Leaked(fds, Effect(n, old(fds)))
    {
      var i := DupFd(n.fd, 10);
      if i != -1 {
        redirlist := [redirlist[0][n.fd := i]] + redirlist[1..];
        Close(n.fd);
        SavedIsGood(old(redirlist), old(fds), redirlist, fds, n.fd, i);
        return true, false;
      }
      tried := true;
      ok := OpenRedirect(n);
      if !ok { return; }
      assert n.ToFd? && n.dupfd < 0 ==> fds == old(fds);
      ghost var wanted := fds;
      i := DupFd(n.fd, 10);
      ok := i != -1;
      assert ok ==> fds - {i} == wanted;
    }

    /** One round of the loop of redirect. */
    method RedirectOne(n: Redir, push: bool) returns (ok: bool)
      requires Valid() && (push ==> redirlist != [])
      modifies this
      ensures Valid() && |redirlist| == |old(redirlist)| && (!push ==> redirlist == old(redirlist))
      ensures push ==> redirlist[1..] == old(redirlist[1..])
      ensures ok <==> Possible(n, User(old(fds)), if push then SavedIn(old(redirlist[0])) else {}, push)
      ensures ok ==> User(fds) == Effect(n, User(old(fds)))
      ensures ok && push ==>
        SavedIn(redirlist[0]) == SavedAfter(n, User(old(fds)), SavedIn(old(redirlist[0])), push)
      ensures !push ==> SameHigh(fds, old(fds))
      ensures push && !LeaksAt(n, old(fds), old(redirlist[0])) ==>
        Kept(fds, redirlist, old(fds), old(redirlist))
      ensures push && LeaksAt(n, old(fds), old(redirlist[0])) ==>
        if ok then Stray(old(fds), old(redirlist)) < Stray(fds, redirlist)
        else fds == old(fds) && redirlist == old(redirlist)
    {
      hide Good, Possible, User, Effect, SavedIn, SavedAfter, SameHigh, LeaksAt, Kept, Stray, Saved, Leaked, Effective;
      if !Effective(n) {
        NothingDone(n, fds, redirlist, push);
        return true;
      }
      if push && redirlist[0][n.fd] == EMPTY {
        var tried;
        ok, tried := Save(n);
        ghost var fds1 := fds;
        if tried {
          if ok { LeakIsStray(n, fds, old(fds), redirlist); }
          NotSaved(n, old(fds), redirlist[0]);
        } else {
          ok := OpenRedirect(n);
          OpenedAfterSave(n, fds, fds1, redirlist, old(fds), old(redirlist));
        }
      } else {
        Close(n.fd);
        ok := OpenRedirect(n);
        OpenedInPlace(n, fds, old(fds), redirlist, push);
      }
    }

    /** Processes a list of redirections, with REDIR_PUSH (push) or without. */
    method Redirect(list: seq<Redir>, push: bool) returns (ok: bool)
      requires Valid()
      modifies this
      ensures Valid()
      ensures if push then redirlist != [] && redirlist[1..] == old(redirlist) else redirlist == old(redirlist)
      ensures ok <==> Done(list, User(old(fds)), {}, push) == |list|
      ensures ok ==> User(fds) == EffectOf(list, User(old(fds)))
      ensures !push ==> SameHigh(fds, old(fds))
      ensures push ==>
        if AllOpen(list[..Done(list, User(old(fds)), {}, push)], User(old(fds)))
        then Restores(fds, redirlist, old(fds), old(redirlist))
        else Stray(old(fds), old(redirlist)) < Stray(fds, redirlist)
    {
      hide Good, Possible, User, Effect, SavedIn, SavedAfter, SameHigh, LeaksAt, Kept, Stray, Saved, Leaked;
      hide Effective, Done, EffectOf, Restores, AllOpen;
      ghost var t0 := User(fds);
      if push {
        redirlist := [NOTHING_SAVED] + redirlist;
        NewFrame(fds, old(redirlist));
      }
      SameHighAtStart(fds);
      NoneYet(list, t0);
      var j := 0;
      while j < |list|
        invariant j <= |list| && Valid()
        invariant if push then redirlist != [] && redirlist[1..] == old(redirlist) else redirlist == old(redirlist)
        invariant Done(list, t0, {}, push)
               == j + Done(list[j..], User(fds), if push then SavedIn(redirlist[0]) else {}, push)
        invariant EffectOf(list, t0) == EffectOf(list[j..], User(fds))
        invariant !push ==> SameHigh(fds, old(fds))
        invariant push ==>
          if AllOpen(list[..j], t0)
          then Restores(fds, redirlist, old(fds), old(redirlist))
          else Stray(old(fds), old(redirlist)) < Stray(fds, redirlist)
      {
        label B:
        ghost var fds1, frames1 := fds, redirlist;
        OneMore(list, j, User(fds), if push then SavedIn(redirlist[0]) else {}, push);
        ok := RedirectOne(list[j], push);
        if push {
          OneMoreKept(list, j, ok, fds, redirlist, fds1, frames1, old(fds), old(redirlist));
        } else {
          SameHighStill(fds, fds1, old(fds));
        }
        if !ok { return; }
        j := j + 1;
      }
      ok := true;
      AllDone(list, User(fds), if push then SavedIn(redirlist[0]) else {}, push);
    }

    /** Undoes the last redirection with REDIR_PUSH. */
    method Popredir()
      requires Valid() && redirlist != []
      modifies this
      ensures Valid() && redirlist == old(redirlist[1..])
      ensures GoodFrame(old(redirlist)[0], old(fds)) && fds == Popped(old(fds), old(redirlist)[0])
      ensures Stray(fds, redirlist) == Stray(old(fds), old(redirlist))
    {
      hide Good, Stray, PoppedTo, Popped;
      var rp := redirlist[0];
      TopIsGood(fds, redirlist);
      PoppedNone(fds, rp);
      for i := 0 to 10
        invariant fds == PoppedTo(old(fds), rp, i) && redirlist == old(redirlist)
      {
        PoppedStep(old(fds), rp, i);
        if rp[i] != EMPTY {
          Close(i);
          if rp[i] >= 0 {
            CopyFd(rp[i], i);
            Close(rp[i]);
          }
        }
      }
      PoppedOne(old(fds), redirlist);
      redirlist := redirlist[1..];
    }

    /** Runs a command; false if a redirection in it fails. */
    method RunCmd(c: Cmd) returns (ok: bool)
      requires Valid()
      modifies this
      ensures Settled(Clean(c, User(old(fds))), fds, redirlist, old(fds), old(redirlist))
      ensures Clean(c, User(old(fds))) ==> (ok <==> Succeeds(c, User(old(fds))))
      ensures ok ==> redirlist == old(redirlist)
      decreases c
    {
      hide Good, User, EffectOf, Stray, Settled, Restores, Done, AllOpen;
      SettledAtOnce(fds, redirlist);
      match c {
        case Simple =>
          ok := true;
        case Semi(a, b) =>
          ok := RunCmd(a);
          if ok {
            ghost var fds1 := fds;
            SettledIsGood(Clean(a, User(old(fds))), fds, redirlist, old(fds), old(redirlist));
            ok := RunCmd(b);
            SettledBoth(Clean(a, User(old(fds))), Clean(b, User(fds1)), fds, redirlist, fds1, old(redirlist),
                        old(fds), old(redirlist));
          }
        case Redirected(list, body) =>
          ok := Redirect(list, true);
          ghost var a := AllOpen(list[..Done(list, User(old(fds)), {}, true)], User(old(fds)));
          ghost var fds1, frames1 := fds, redirlist;
          SettledAtOnce(fds1, frames1);
          SettledUnder(a, true, fds, redirlist, fds1, frames1, old(fds), old(redirlist));
          if ok {
            ok := RunCmd(body);
            SettledIsGood(Clean(body, User(fds1)), fds, redirlist, fds1, frames1);
            SettledUnder(a, Clean(body, User(fds1)), fds, redirlist, fds1, frames1, old(fds), old(redirlist));
            if ok {
              ghost var fds2, frames2 := fds, redirlist;
              Popredir();
              SettledPopped(Clean(c, User(old(fds))), fds2, frames2, old(fds), old(redirlist), fds);
            }
          }
      }
    }

    /** Runs a command at the outermost level, where after a failure all redirections are undone. */
    method RunAtTop(c: Cmd)
      requires Valid() && redirlist == []
      modifies this
      ensures Valid() && redirlist == []
      ensures fds == old(fds) <==> Clean(c, User(old(fds)))
      ensures !Clean(c, User(old(fds))) ==> exists f :: f in fds && f >= 10 && f !in old(fds)
    {
      hide Good, User, EffectOf, Stray, Settled, Restores, Done, AllOpen, Clean;
      var ok := RunCmd(c);
      ghost var clean := Clean(c, User(old(fds)));
      SettledIsGood(clean, fds, redirlist, old(fds), []);
      if !ok {
        while redirlist != []
          invariant Valid() && Settled(clean, fds, redirlist, old(fds), [])
          decreases |redirlist|
        {
          ghost var fds1, frames1 := fds, redirlist;
          Popredir();
          SettledPopped(clean, fds1, frames1, old(fds), [], fds);
        }
      }
      SettledAtTop(clean, fds, old(fds));
    }
  }

  const NOTHING_SAVED: Renamed :=
    [EMPTY, EMPTY, EMPTY, EMPTY, EMPTY, EMPTY, EMPTY, EMPTY, EMPTY, EMPTY]

  /** Every redirected descriptor is open. */
  predicate AllOpen(list: seq<Redir>, t: Fds) {
    forall k :: 0 <= k < |list| && Effective(list[k]) ==> list[k].fd in t
  }

  /** Putting back the top frame gives back the table fds0, and leaves the frames frames0. */
  ghost predicate Restores(fds: Fds, frames: seq<Renamed>, fds0: Fds, frames0: seq<Renamed>) {
    && frames != [] && frames[1..] == frames0 && GoodFrame(frames[0], fds)
    && Popped(fds, frames[0]) == fds0 && Stray(fds, frames) == Stray(fds0, frames0)
  }

  function SavedIn(r: Renamed): set<int> {
    set i | 0 <= i < 10 && r[i] != EMPTY
  }

  /** Nothing has changed from descriptor 10 up. */
  ghost predicate SameHigh(fds: Fds, fds0: Fds) {
    forall f :: f >= 10 || f < 0 ==> (f in fds <==> f in fds0) && (f in fds ==> fds[f] == fds0[f])
  }

  /** Putting back the top frame gives the same table as before. */
  ghost predicate Kept(fds: Fds, frames: seq<Renamed>, fds0: Fds, frames0: seq<Renamed>) {
    && frames != [] && frames0 != [] && GoodFrame(frames[0], fds) && GoodFrame(frames0[0], fds0)
    && Popped(fds, frames[0]) == Popped(fds0, frames0[0]) && Stray(fds, frames) == Stray(fds0, frames0)
  }

  /** The case of redirect in which the duplicate that it makes is never closed. */
  predicate LeaksAt(n: Redir, fds: Fds, r: Renamed) {
    Effective(n) && n.fd !in fds && r[n.fd] == EMPTY
  }

  /** The descriptor fd has been saved in the frame r, which was r0. */
  ghost predicate Saved(r: Renamed, fds: Fds, r0: Renamed, fds0: Fds, fd: Digit) {
    && fd in fds0 && r[fd] >= 10 && r[fd] !in fds0 && r == r0[fd := r[fd]]
    && fds == fds0[r[fd] := fds0[fd]] - {fd}
  }

  /** There is one more descriptor than wanted. */
  ghost predicate Leaked(fds: Fds, wanted: Fds) {
    exists i :: i in fds && i >= 10 && i !in wanted && fds - {i} == wanted
  }

  lemma SavedIsGood(frames0: seq<Renamed>, fds0: Fds, frames: seq<Renamed>, fds: Fds, fd: Digit, i: int)
    requires Good(frames0, fds0) && frames0 != [] && frames0[0][fd] == EMPTY
    requires |frames| == |frames0| && frames[1..] == frames0[1..] && frames[0] == frames0[0][fd := i]
    requires i >= 10 && i !in fds0 && fd in fds0 && fds == fds0[i := fds0[fd]] - {fd}
    ensures Good(frames, fds)
  {
    forall k | 0 <= k < |frames|
      ensures GoodFrame(frames[k], fds)
    {
      assert GoodFrame(frames0[k], fds0);
      assert k > 0 ==> frames[k] == frames[1..][k - 1] == frames0[1..][k - 1] == frames0[k];
    }
    forall k, l, f | 0 <= k < l < |frames| && Slot(frames[k], f)
      ensures !Slot(frames[l], f)
    {
      assert frames[l] == frames[1..][l - 1] == frames0[1..][l - 1] == frames0[l];
      assert k > 0 ==> frames[k] == frames[1..][k - 1] == frames0[1..][k - 1] == frames0[k];
      assert GoodFrame(frames0[l], fds0);
      if f != i {
        assert Slot(frames0[k], f);
      }
    }
  }

  lemma NothingDone(n: Redir, fds: Fds, frames: seq<Renamed>, push: bool)
    requires !Effective(n) && Good(frames, fds) && (push ==> frames != [])
    ensures Possible(n, User(fds), if push then SavedIn(frames[0]) else {}, push)
    ensures User(fds) == Effect(n, User(fds)) && SameHigh(fds, fds)
    ensures push ==> SavedIn(frames[0]) == SavedAfter(n, User(fds), SavedIn(frames[0]), push)
    ensures push ==> !LeaksAt(n, fds, frames[0]) && Kept(fds, frames, fds, frames)
  {
    assert frames != [] ==> GoodFrame(frames[0], fds);
  }

  lemma LeakIsStray(n: Redir, fds: Fds, fds0: Fds, frames: seq<Renamed>)
    requires Good(frames, fds0) && frames != [] && Effective(n) && n.fd !in fds0
    requires Leaked(fds, Effect(n, fds0))
    ensures Good(frames, fds) && Stray(fds0, frames) < Stray(fds, frames)
    ensures User(fds) == Effect(n, User(fds0))
  {
    var w := Effect(n, fds0);
    var i :| i in fds && i >= 10 && i !in w && fds - {i} == w;
    EffectSameBut(n, fds0);
    assert forall f :: f != i ==> (f in fds <==> f in w) && (f in w ==> fds[f] == w[f]) by {
      assert forall f :: f in fds - {i} <==> f in fds && f != i;
    }
    hide Effect;
    forall k | 0 <= k < |frames|
      ensures GoodFrame(frames[k], fds) && !Slot(frames[k], i)
    {
      assert GoodFrame(frames[k], fds0);
    }
    assert i in Stray(fds, frames) && i !in Stray(fds0, frames);
    UserSame(fds, w);
    UserEffect(n, fds0);
  }

  /** The tables differ in one descriptor at most. */
  ghost predicate SameBut(fds: Fds, fds1: Fds, fd: int) {
    forall f :: f != fd ==> (f in fds <==> f in fds1) && (f in fds ==> fds[f] == fds1[f])
  }

  lemma EffectSameBut(n: Redir, t: Fds)
    ensures SameBut(Effect(n, t), t, n.fd)
  {
  }

  lemma UserSame(fds: Fds, fds1: Fds)
    requires forall f :: 0 <= f < 10 ==> (f in fds <==> f in fds1) && (f in fds ==> fds[f] == fds1[f])
    ensures User(fds) == User(fds1)
  {
  }

  lemma UserEffect(n: Redir, t: Fds)
    ensures User(Effect(n, t)) == Effect(n, User(t))
  {
  }

  /** It does not matter that the descriptor is closed first. */
  lemma EffectOfClosed(n: Redir, t: Fds)
    requires Effective(n)
    ensures Effect(n, t - {n.fd}) == Effect(n, t)
  {
  }

  /** A change to a descriptor that has been saved. */
  lemma ChangeKeeps(fds: Fds, fds1: Fds, fd: Digit, frames: seq<Renamed>)
    requires Good(frames, fds1) && SameBut(fds, fds1, fd)
    ensures Good(frames, fds) && Stray(fds, frames) == Stray(fds1, frames) && SameHigh(fds, fds1)
    ensures frames != [] && frames[0][fd] != EMPTY ==> Kept(fds, frames, fds1, frames)
  {
    hide Popped, SlotUpTo;
    forall k | 0 <= k < |frames|
      ensures GoodFrame(frames[k], fds)
    {
      assert GoodFrame(frames[k], fds1);
    }
    if frames != [] && frames[0][fd] != EMPTY {
      assert GoodFrame(frames[0], fds) && GoodFrame(frames[0], fds1);
      ChangePopped(fds, fds1, fd, frames[0]);
    }
  }

  lemma ChangePopped(fds: Fds, fds1: Fds, fd: Digit, r: Renamed)
    requires GoodFrame(r, fds) && GoodFrame(r, fds1) && SameBut(fds, fds1, fd) && r[fd] != EMPTY
    ensures Popped(fds, r) == Popped(fds1, r)
  {
    var t, t1 := Popped(fds, r), Popped(fds1, r);
    forall f
      ensures f in t <==> f in t1
      ensures f in t ==> t[f] == t1[f]
    {
      PoppedAt(fds, r, f);
      PoppedAt(fds1, r, f);
      hide Popped, Slot;
    }
  }

  lemma SaveKeeps(fds: Fds, frames: seq<Renamed>, fds0: Fds, frames0: seq<Renamed>, fd: Digit)
    requires Good(frames0, fds0) && Good(frames, fds) && frames0 != [] && |frames| == |frames0|
    requires frames[1..] == frames0[1..] && frames0[0][fd] == EMPTY
    requires Saved(frames[0], fds, frames0[0], fds0, fd)
    ensures Kept(fds, frames, fds0, frames0) && SavedIn(frames[0]) == SavedIn(frames0[0]) + {fd}
  {
    hide Popped, PoppedTo;
    var r, r0 := frames[0], frames0[0];
    assert GoodFrame(r, fds) && GoodFrame(r0, fds0);
    SlotsAfterSave(r, r0, fd);
    SavedPopped(fds, r, fds0, r0, fd);
    forall f
      ensures f in Stray(fds, frames) <==> f in Stray(fds0, frames0)
    {
      hide SlotUpTo;
      if f != r[fd] {
        forall k | 0 <= k < |frames|
          ensures Slot(frames[k], f) <==> Slot(frames0[k], f)
        {
          assert k > 0 ==> frames[k] == frames[1..][k - 1] == frames0[1..][k - 1] == frames0[k];
        }
      } else {
        assert Slot(frames[0], f);
      }
    }
  }

  lemma SlotsAfterSave(r: Renamed, r0: Renamed, fd: Digit)
    requires r0[fd] == EMPTY && r[fd] >= 10 && r == r0[fd := r[fd]]
    ensures forall f :: Slot(r, f) <==> Slot(r0, f) || f == r[fd]
    ensures SavedIn(r) == SavedIn(r0) + {fd}
  {
    forall f
      ensures Slot(r, f) <==> Slot(r0, f) || f == r[fd]
    {
      if Slot(r0, f) {
        var i :| 0 <= i < 10 && r0[i] == f;
        assert r[i] == f;
      }
      if Slot(r, f) && f != r[fd] {
        var i :| 0 <= i < 10 && r[i] == f;
        assert r0[i] == f;
      }
      assert r[fd] == r[fd];
    }
  }

  lemma SavedPopped(fds: Fds, r: Renamed, fds0: Fds, r0: Renamed, fd: Digit)
    requires GoodFrame(r, fds) && GoodFrame(r0, fds0) && r0[fd] == EMPTY && Saved(r, fds, r0, fds0, fd)
    ensures Popped(fds, r) == Popped(fds0, r0)
  {
    SlotsAfterSave(r, r0, fd);
    forall f
      ensures f in Popped(fds, r) <==> f in Popped(fds0, r0)
      ensures f in Popped(fds, r) ==> Popped(fds, r)[f] == Popped(fds0, r0)[f]
    {
      PoppedAt(fds, r, f);
      PoppedAt(fds0, r0, f);
      hide Popped, Slot;
    }
  }

  /** What the table holds once a frame is put back. */
  lemma PoppedAt(fds: Fds, r: Renamed, f: int)
    requires GoodFrame(r, fds)
    ensures f in Popped(fds, r) <==> PutBack(r, f, 10) || (f in fds && !Slot(r, f))
    ensures f in Popped(fds, r) ==> Popped(fds, r)[f] == fds[if PutBack(r, f, 10) then r[f] else f]
  {
  }

  lemma NotSaved(n: Redir, fds: Fds, r: Renamed)
    requires Effective(n) && n.fd !in fds && r[n.fd] == EMPTY
    ensures LeaksAt(n, fds, r)
    ensures Possible(n, User(fds), {}, true) <==> Possible(n, User(fds), SavedIn(r), true)
    ensures SavedAfter(n, User(fds), SavedIn(r), true) == SavedIn(r)
  {
  }

  lemma KeptTwice(fds: Fds, frames: seq<Renamed>, fds1: Fds, frames1: seq<Renamed>, fds0: Fds, frames0: seq<Renamed>)
    requires Kept(fds, frames, fds1, frames1) && Kept(fds1, frames1, fds0, frames0)
    ensures Kept(fds, frames, fds0, frames0)
  {
  }

  lemma OpenedAfterSave(n: Redir, fds: Fds, fds1: Fds, frames: seq<Renamed>, fds0: Fds, frames0: seq<Renamed>)
    requires Good(frames0, fds0) && Good(frames, fds1) && frames0 != [] && |frames| == |frames0|
    requires Effective(n) && frames[1..] == frames0[1..] && frames0[0][n.fd] == EMPTY
    requires Saved(frames[0], fds1, frames0[0], fds0, n.fd) && fds == Effect(n, fds1)
    ensures Good(frames, fds) && Kept(fds, frames, fds0, frames0) && !LeaksAt(n, fds0, frames0[0])
    ensures n.ToFile? || n.dupfd < 0 || n.dupfd in fds1 <==> Possible(n, User(fds0), SavedIn(frames0[0]), true)
    ensures Possible(n, User(fds0), SavedIn(frames0[0]), true) ==> User(fds) == Effect(n, User(fds0))
    ensures SavedIn(frames[0]) == SavedAfter(n, User(fds0), SavedIn(frames0[0]), true)
  {
    hide Kept, Good, Stray, Popped, SlotUpTo, GoodFrame;
    EffectSameBut(n, fds1);
    SaveKeeps(fds1, frames, fds0, frames0, n.fd);
    ChangeKeeps(fds, fds1, n.fd, frames);
    KeptTwice(fds, frames, fds1, frames, fds0, frames0);
    UserEffect(n, fds1);
    EffectOfClosed(n, User(fds0));
    UserSame(fds1, fds0 - {n.fd});
    assert User(fds0 - {n.fd}) == User(fds0) - {n.fd};
    hide Effect, SameHigh, SameBut;
  }

  lemma OpenedInPlace(n: Redir, fds: Fds, fds0: Fds, frames: seq<Renamed>, push: bool)
    requires Good(frames, fds0) && Effective(n) && (push ==> frames != [] && frames[0][n.fd] != EMPTY)
    requires fds == Effect(n, fds0 - {n.fd})
    ensures Good(frames, fds) && SameHigh(fds, fds0)
    ensures n.ToFile? || n.dupfd < 0 || n.dupfd in fds0 - {n.fd}
       <==> Possible(n, User(fds0), if push then SavedIn(frames[0]) else {}, push)
    ensures (n.ToFile? || n.dupfd < 0 || n.dupfd in fds0 - {n.fd}) ==> User(fds) == Effect(n, User(fds0))
    ensures push ==> SavedIn(frames[0]) == SavedAfter(n, User(fds0), SavedIn(frames[0]), true)
    ensures push ==> !LeaksAt(n, fds0, frames[0]) && Kept(fds, frames, fds0, frames)
  {
    hide Kept, Good, Stray, Popped, SlotUpTo, GoodFrame;
    EffectOfClosed(n, fds0);
    EffectSameBut(n, fds0);
    UserEffect(n, fds0);
    ChangeKeeps(fds, fds0, n.fd, frames);
    hide Effect, SameHigh, SameBut;
  }

  // ---------------------------------------------------------------- a list of redirections

  lemma NothingSaved(fds: Fds)
    ensures Popped(fds, NOTHING_SAVED) == fds && SavedIn(NOTHING_SAVED) == {} && GoodFrame(NOTHING_SAVED, fds)
    ensures forall f :: !Slot(NOTHING_SAVED, f)
  {
  }

  lemma NewFrame(fds: Fds, frames: seq<Renamed>)
    requires Good(frames, fds)
    ensures Good([NOTHING_SAVED] + frames, fds) && Restores(fds, [NOTHING_SAVED] + frames, fds, frames)
    ensures SavedIn(NOTHING_SAVED) == {}
  {
    var t := [NOTHING_SAVED] + frames;
    NothingSaved(fds);
    assert t[1..] == frames;
    hide SlotUpTo, Slot, Popped, SavedIn, GoodFrame;
    forall f
      ensures f in Stray(fds, t) <==> f in Stray(fds, frames)
    {
      assert forall k :: 0 <= k < |frames| ==> t[k + 1] == frames[k];
      assert forall k :: 1 <= k < |t| ==> t[k] == frames[k - 1];
    }
    forall k, l, f | 0 <= k < l < |t| && Slot(t[k], f)
      ensures !Slot(t[l], f)
    {
      assert Slot(frames[k - 1], f) ==> !Slot(frames[l - 1], f);
    }
  }

  lemma SameHighAtStart(fds: Fds)
    ensures SameHigh(fds, fds)
  {
  }

  lemma SameHighStill(fds: Fds, fds1: Fds, fds0: Fds)
    requires SameHigh(fds, fds1) && SameHigh(fds1, fds0)
    ensures SameHigh(fds, fds0)
  {
  }

  lemma NoneYet(list: seq<Redir>, t: Fds)
    ensures list[0..] == list && AllOpen(list[..0], t)
  {
  }

  lemma OneMore(list: seq<Redir>, j: nat, t: Fds, saved: set<int>, push: bool)
    requires j < |list|
    ensures Possible(list[j], t, saved, push) ==>
      Done(list[j..], t, saved, push)
      == 1 + Done(list[j + 1..], Effect(list[j], t), SavedAfter(list[j], t, saved, push), push)
    ensures !Possible(list[j], t, saved, push) ==> Done(list[j..], t, saved, push) == 0
    ensures EffectOf(list[j..], t) == EffectOf(list[j + 1..], Effect(list[j], t))
    ensures !push ==> SavedAfter(list[j], t, saved, push) == saved
  {
    hide Possible, Effect;
    assert list[j..][1..] == list[j + 1..];
  }

  lemma AllDone(list: seq<Redir>, t: Fds, saved: set<int>, push: bool)
    ensures list[..|list|] == list && Done(list[|list|..], t, saved, push) == 0 && EffectOf(list[|list|..], t) == t
  {
  }

  /** The invariant of the loop with REDIR_PUSH, over one redirection. */
  lemma OneMoreKept(list: seq<Redir>, j: nat, ok: bool, fds: Fds, frames: seq<Renamed>, fds1: Fds,
      frames1: seq<Renamed>, fds0: Fds, frames0: seq<Renamed>)
    requires j < |list| && Good(frames1, fds1) && frames1 != [] && frames1[1..] == frames0
    requires frames != [] && frames[1..] == frames1[1..]
    requires !LeaksAt(list[j], fds1, frames1[0]) ==> Kept(fds, frames, fds1, frames1)
    requires LeaksAt(list[j], fds1, frames1[0]) ==>
      if ok then Stray(fds1, frames1) < Stray(fds, frames) else fds == fds1 && frames == frames1
    requires if AllOpen(list[..j], User(fds0)) then Restores(fds1, frames1, fds0, frames0)
             else Stray(fds0, frames0) < Stray(fds1, frames1)
    ensures var k := if ok then j + 1 else j;
      if AllOpen(list[..k], User(fds0)) then Restores(fds, frames, fds0, frames0)
      else Stray(fds0, frames0) < Stray(fds, frames)
  {
    var n := list[j];
    assert list[..j + 1] == list[..j] + [n];
    assert AllOpen(list[..j + 1], User(fds0)) <==>
      AllOpen(list[..j], User(fds0)) && (Effective(n) ==> n.fd in User(fds0));
    if AllOpen(list[..j], User(fds0)) {
      OpenAtEntry(n, fds1, frames1, fds0, frames0);
    }
    hide *;
  }

  /** As long as nothing has leaked, a descriptor that is not saved is open just when it was so at first. */
  lemma OpenAtEntry(n: Redir, fds: Fds, frames: seq<Renamed>, fds0: Fds, frames0: seq<Renamed>)
    requires Good(frames, fds) && Restores(fds, frames, fds0, frames0)
    ensures LeaksAt(n, fds, frames[0]) <==> Effective(n) && n.fd !in User(fds0)
  {
    PoppedAt(fds, frames[0], n.fd);
    assert GoodFrame(frames[0], fds);
    hide Popped;
  }

  // ---------------------------------------------------------------- putting a frame back

  lemma TopIsGood(fds: Fds, frames: seq<Renamed>)
    requires Good(frames, fds) && frames != []
    ensures GoodFrame(frames[0], fds)
  {
  }

  lemma PoppedNone(fds: Fds, r: Renamed)
    requires GoodFrame(r, fds)
    ensures PoppedTo(fds, r, 0) == fds
  {
  }

  /** What one round of popredir does. */
  lemma PoppedStep(fds: Fds, r: Renamed, i: nat)
    requires GoodFrame(r, fds) && i < 10
    ensures r[i] == EMPTY ==> PoppedTo(fds, r, i + 1) == PoppedTo(fds, r, i)
    ensures r[i] != EMPTY ==>
      var t := PoppedTo(fds, r, i) - {i};
      r[i] >= 10 && r[i] in t && PoppedTo(fds, r, i + 1) == t[i := t[r[i]]] - {r[i]}
  {
    hide PoppedTo, SlotUpTo, GoodFrame;
    var t0, t1 := PoppedTo(fds, r, i), PoppedTo(fds, r, i + 1);
    if r[i] == EMPTY {
      forall f
        ensures f in t1 <==> f in t0
        ensures f in t1 ==> t1[f] == t0[f]
      {
        PoppedToAt(fds, r, i, f);
        PoppedToAt(fds, r, i + 1, f);
        SlotUpToMore(r, f, i);
      }
      assert t1 == t0;
    } else {
      SlotIsThere(fds, r, i);
      PoppedToAt(fds, r, i, r[i]);
      var t2 := (t0 - {i})[i := fds[r[i]]] - {r[i]};
      forall f
        ensures f in t1 <==> f in t2
        ensures f in t1 ==> t1[f] == t2[f]
      {
        PoppedToAt(fds, r, i, f);
        PoppedToAt(fds, r, i + 1, f);
        SlotUpToMore(r, f, i);
      }
      assert t1 == t2;
    }
  }

  lemma PoppedToAt(fds: Fds, r: Renamed, n: nat, f: int)
    requires GoodFrame(r, fds) && n <= 10
    ensures f in PoppedTo(fds, r, n) <==> PutBack(r, f, n) || (f in fds && !SlotUpTo(r, f, n))
    ensures f in PoppedTo(fds, r, n) ==> PoppedTo(fds, r, n)[f] == fds[if PutBack(r, f, n) then r[f] else f]
  {
  }

  lemma SlotIsThere(fds: Fds, r: Renamed, i: nat)
    requires GoodFrame(r, fds) && i < 10 && r[i] != EMPTY
    ensures r[i] >= 10 && r[i] in fds && !SlotUpTo(r, r[i], i)
  {
  }

  lemma SlotUpToMore(r: Renamed, f: int, i: nat)
    requires i < 10
    ensures SlotUpTo(r, f, i + 1) <==> SlotUpTo(r, f, i) || (f == r[i] && r[i] != EMPTY)
  {
  }

  lemma PoppedOne(fds: Fds, frames: seq<Renamed>)
    requires Good(frames, fds) && frames != [] && GoodFrame(frames[0], fds)
    ensures Good(frames[1..], Popped(fds, frames[0])) && Popped(fds, frames[0]) == PoppedTo(fds, frames[0], 10)
    ensures Stray(Popped(fds, frames[0]), frames[1..]) == Stray(fds, frames)
  {
    var t, rest := Popped(fds, frames[0]), frames[1..];
    forall f | f >= 10
      ensures f in t <==> f in fds && !Slot(frames[0], f)
    {
      PoppedAt(fds, frames[0], f);
    }
    forall f
      ensures f in Stray(t, rest) <==> f in Stray(fds, frames)
    {
      hide SlotUpTo, Popped;
      assert forall k :: 0 <= k < |rest| ==> rest[k] == frames[k + 1];
      assert forall k :: 1 <= k < |frames| ==> frames[k] == rest[k - 1];
    }
    forall k | 0 <= k < |rest|
      ensures GoodFrame(rest[k], t)
    {
      assert GoodFrame(frames[k + 1], fds);
      forall i | 0 <= i < 10 && rest[k][i] != EMPTY
        ensures rest[k][i] in t
      {
        assert Slot(frames[k + 1], rest[k][i]);
      }
    }
    forall k, l, f | 0 <= k < l < |rest| && Slot(rest[k], f)
      ensures !Slot(rest[l], f)
    {
      assert Slot(frames[k + 1], f);
    }
  }

  // ---------------------------------------------------------------- nested commands

  /** Commands run one after the other, and under redirections; the simple ones, which run in
      between, leave the descriptors of the shell as they are. */
  datatype Cmd =
    | Simple
    | Semi(first: Cmd, second: Cmd)
    | Redirected(redirs: seq<Redir>, body: Cmd)

  /** Whether every redirection in the command succeeds. */
  predicate Succeeds(c: Cmd, t: Fds) {
    match c
    case Simple => true
    case Semi(a, b) => Succeeds(a, t) && Succeeds(b, t)
    case Redirected(list, body) => Done(list, t, {}, true) == |list| && Succeeds(body, EffectOf(list, t))
  }

  /** Nowhere in the command, up to the first failure, is a closed descriptor redirected. */
  predicate Clean(c: Cmd, t: Fds) {
    match c
    case Simple => true
    case Semi(a, b) => Clean(a, t) && (Succeeds(a, t) ==> Clean(b, t))
    case Redirected(list, body) =>
      var d := Done(list, t, {}, true);
      AllOpen(list[..d], t) && (d == |list| ==> Clean(body, EffectOf(list, t)))
  }

  /** The table once all frames but n are put back. */
  ghost function Unwound(fds: Fds, frames: seq<Renamed>, n: nat): Fds
    requires Good(frames, fds)
    decreases |frames|
  {
    if |frames| <= n then fds
    else
      PoppedOne(fds, frames);
      Unwound(Popped(fds, frames[0]), frames[1..], n)
  }

  /** The tables and frames of a command that has ended, or failed: if it is clean the frames above
      the old ones give back the old table, and if not some descriptor is left over. */
  ghost predicate Settled(clean: bool, fds: Fds, frames: seq<Renamed>, fds0: Fds, frames0: seq<Renamed>)
  {
    && Good(frames, fds) && |frames| >= |frames0| && frames[|frames| - |frames0|..] == frames0
    && (clean ==> Unwound(fds, frames, |frames0|) == fds0 && Stray(fds, frames) == Stray(fds0, frames0))
    && (!clean ==> Stray(fds0, frames0) < Stray(fds, frames))
  }

  lemma SettledIsGood(clean: bool, fds: Fds, frames: seq<Renamed>, fds0: Fds, frames0: seq<Renamed>)
    requires Settled(clean, fds, frames, fds0, frames0)
    ensures Good(frames, fds) && |frames| >= |frames0|
    ensures clean && frames == frames0 ==> fds == fds0
  {
  }

  lemma SettledAtOnce(fds: Fds, frames: seq<Renamed>)
    requires Good(frames, fds)
    ensures Settled(true, fds, frames, fds, frames)
  {
  }

  /** One command after another. */
  lemma SettledBoth(a: bool, b: bool, fds: Fds, frames: seq<Renamed>, fds1: Fds, frames1: seq<Renamed>,
                    fds0: Fds, frames0: seq<Renamed>)
    requires Settled(a, fds1, frames1, fds0, frames0) && frames1 == frames0
    requires Settled(b, fds, frames, fds1, frames1)
    ensures a ==> fds1 == fds0
    ensures Settled(a && b, fds, frames, fds0, frames0)
  {
    assert a ==> fds1 == fds0;
    hide Unwound, Good;
  }

  /** A command under redirections that have been done. */
  lemma SettledUnder(a: bool, b: bool, fds: Fds, frames: seq<Renamed>, fds1: Fds, frames1: seq<Renamed>,
                     fds0: Fds, frames0: seq<Renamed>)
    requires Good(frames1, fds1) && frames1 != [] && frames1[1..] == frames0
    requires if a then Restores(fds1, frames1, fds0, frames0) else Stray(fds0, frames0) < Stray(fds1, frames1)
    requires Settled(b, fds, frames, fds1, frames1)
    ensures Settled(a && b, fds, frames, fds0, frames0)
  {
    var k := |frames| - |frames1|;
    assert frames[k..][1..] == frames[k + 1..];
    if a && b {
      UnwoundOneMore(fds, frames, |frames1|);
    }
    hide Unwound, Good, Popped;
  }

  lemma {:induction false} UnwoundOneMore(fds: Fds, frames: seq<Renamed>, n: nat)
    requires Good(frames, fds) && 0 < n <= |frames|
    ensures var t := Unwound(fds, frames, n);
            var r := frames[|frames| - n];
            GoodFrame(r, t) && Unwound(fds, frames, n - 1) == Popped(t, r)
    decreases |frames|
  {
    hide Popped, Good, GoodFrame, Stray;
    TopIsGood(fds, frames);
    PoppedOne(fds, frames);
    if |frames| > n {
      assert frames[1..][|frames| - 1 - n] == frames[|frames| - n];
      UnwoundOneMore(Popped(fds, frames[0]), frames[1..], n);
    } else {
      assert frames[0] == frames[|frames| - n];
    }
  }

  lemma SettledPopped(clean: bool, fds: Fds, frames: seq<Renamed>, fds0: Fds, frames0: seq<Renamed>, t: Fds)
    requires Settled(clean, fds, frames, fds0, frames0) && |frames| > |frames0|
    requires GoodFrame(frames[0], fds) && t == Popped(fds, frames[0])
    ensures Settled(clean, t, frames[1..], fds0, frames0)
  {
    PoppedOne(fds, frames);
    assert frames[1..][|frames| - 1 - |frames0|..] == frames[|frames| - |frames0|..];
    hide Popped, Good, GoodFrame;
  }

  /** What is left of a command after the frames of failed redirections are put back. */
  lemma SettledAtTop(clean: bool, fds: Fds, fds0: Fds)
    requires Settled(clean, fds, [], fds0, [])
    ensures fds == fds0 <==> clean
    ensures !clean ==> exists f :: f in fds && f >= 10 && f !in fds0
  {
    if !clean {
      var f :| f in Stray(fds, []) && f !in Stray(fds0, []);
    }
  }

  /** The case that fails: of `: fd>file` something is left if and only if fd was closed. */
  lemma LeaksIfClosed(t: Fds, fd: Digit, file: File)
    ensures Clean(Redirected([ToFile(fd, file)], Simple), User(t)) <==> fd in t
  {
    var list := [ToFile(fd, file)];
    assert list[1..] == [] && Done(list, User(t), {}, true) == 1 && list[..1] == list;
  }

  /** The same of the whole table: `: fd>file` leaves it as it was if and only if fd was open, and a copy from
      10 on if not. */
  method RunOneRedirection(shell: Shell, fd: Digit, file: File)
    requires shell.Valid() && shell.redirlist == []
    modifies shell
    ensures shell.Valid() && shell.redirlist == []
    ensures shell.fds == old(shell.fds) <==> fd in old(shell.fds)
    ensures fd !in old(shell.fds) ==> exists f :: f in shell.fds && f >= 10 && f !in old(shell.fds)
  {
    hide *;
    LeaksIfClosed(shell.fds, fd, file);
    shell.RunAtTop(Redirected([ToFile(fd, file)], Simple));
  }
}
