/** When a lookup through the command cache agrees with an uncached search, and when it leaves it so. */
module CacheCoherence {
  import opened Options
  import opened SearchPath
  import opened CommandCache

  /** `cwd` and `funs` are not stored in the cache: they are the truth it must agree with. */
  datatype State = State(table: Table, builtinloc: int, path: string, cwd: string, funs: map<string, int>)

  function Initial(path: string, cwd: string): State {
    State(map[], MarkIndex(Components(path)), path, cwd, map[])
  }

  /** What the entry of a command that is not a function says of some directory. */
  predicate True(w: World, dir: string, name: string, e: Ent, comps: seq<string>) {
    SearchFiles(w, dir, name, comps) == Found(e.kind, e.param)
  }

  /** An entry is right in the current directory or, when it is marked for a rehash, was right in
      some directory. */
  ghost predicate EntryOk(w: World, s: State, name: string)
    requires name in s.table
  {
    var e, comps := s.table[name], Components(s.path);
    if name in s.funs then e == Ent(CMDFUNCTION, s.funs[name], false)
    else if e.rehash then exists dir :: True(w, dir, name, e, comps)
    else True(w, s.cwd, name, e, comps)
  }

  ghost predicate Coherent(w: World, s: State) {
    && Clean(s.path)
    && s.builtinloc == MarkIndex(Components(s.path))
    && s.funs.Keys <= s.table.Keys
    && (forall name :: name in s.table && HasSlash(name) ==> name in s.funs)
    && forall name :: name in s.table ==> EntryOk(w, s, name)
  }

  // ---------------------------------------------------------------- two PATHs

  function At(comps: seq<string>, k: int): Option<string> {
    if 0 <= k < |comps| then Some(comps[k]) else None
  }

  predicate SameBelow(o: seq<string>, n: seq<string>, firstchange: int) {
    forall k :: 0 <= k < firstchange ==> At(o, k) == At(n, k)
  }

  /** What path_change tells find_command and changepath about a new PATH. */
  predicate Compared(o: seq<string>, n: seq<string>, builtinloc: int, firstchange: int, bltin: int) {
    && builtinloc == MarkIndex(o) && bltin == MarkIndex(n)
    && (builtinloc >= 0 && bltin < 0 ==> firstchange <= 0)
    && SameBelow(o, n, firstchange)
  }

  function ChangeFor(s: State, newval: string): int {
    if s.builtinloc >= 0 && MarkIndex(Components(newval)) < 0 then 0 else FirstChange(s.path, newval)
  }

  predicate CleanComps(comps: seq<string>) {
    forall comp :: comp in comps ==>
      (HasBuiltinMark(comp) <==> IsBuiltinOption(comp)) && !IsFuncOption(comp)
  }

  /** With %builtin in both PATHs, it is at the same place or in the changed part of both. */
  lemma MarkBelowChange(o: seq<string>, n: seq<string>, builtinloc: int, firstchange: int, bltin: int)
    requires Compared(o, n, builtinloc, firstchange, bltin)
    ensures 0 <= builtinloc < firstchange || 0 <= bltin < firstchange ==> builtinloc == bltin
  {
    if 0 <= builtinloc < firstchange || 0 <= bltin < firstchange {
      assert forall k :: 0 <= k < firstchange ==> At(o, k) == At(n, k);
      assert 0 <= builtinloc < firstchange ==> At(n, builtinloc) == Some(o[builtinloc]);
      assert 0 <= bltin < firstchange ==> At(o, bltin) == Some(n[bltin]);
    }
  }

  /** A search that ends below the first change ends in the same way in both PATHs. */
  lemma {:induction false} ScanSame(w: World, cwd: string, name: string, o: seq<string>, n: seq<string>, i: nat,
                                    firstchange: int)
    requires SameBelow(o, n, firstchange) && i <= firstchange
    ensures Scan(w, cwd, name, n, i).Found? && Scan(w, cwd, name, n, i).kind == CMDNORMAL
              && Scan(w, cwd, name, n, i).param < firstchange
         ==> Scan(w, cwd, name, o, i) == Scan(w, cwd, name, n, i)
    decreases firstchange - i
  {
    if i < firstchange && i < |n| {
      assert At(o, i) == At(n, i);
      ScanSame(w, cwd, name, o, n, i + 1, firstchange);
    }
  }

  /** A search for a builtin name finds the builtin no later than at %builtin. */
  lemma {:induction false} ScanBuiltin(w: World, cwd: string, name: string, comps: seq<string>, i: nat)
    requires CleanComps(comps)
    requires name in w.builtins && i <= MarkIndex(comps)
    ensures var r := Scan(w, cwd, name, comps, i);
            r == Found(CMDBUILTIN, w.builtins[name]) ||
            (r.Found? && r.kind == CMDNORMAL && i <= r.param < MarkIndex(comps))
    decreases |comps| - i
  {
    if i < MarkIndex(comps) {
      assert comps[i] in comps;
      ScanBuiltin(w, cwd, name, comps, i + 1);
    }
  }

  /** An entry that does not depend on a changed component is as true of the new PATH. */
  lemma KeptEntry(w: World, dir: string, name: string, e: Ent, o: seq<string>, n: seq<string>,
                  builtinloc: int, firstchange: int, bltin: int)
    requires Compared(o, n, builtinloc, firstchange, bltin) && CleanComps(o) && CleanComps(n)
    requires True(w, dir, name, e, o)
    requires !Outdated(e, builtinloc, firstchange, bltin)
    ensures True(w, dir, name, e, n)
  {
    MarkBelowChange(o, n, builtinloc, firstchange, bltin);
    if e.kind == CMDNORMAL {
      ScanSame(w, dir, name, n, o, 0, firstchange);
    } else if !BuiltinFirst(w, name, bltin) {
      assert name in w.builtins && bltin >= 0 && !IsRegular(name);
      // builtinloc is below the first change, and the search stops at it
      assert 0 <= builtinloc < firstchange;
      ScanFindsBuiltin(w, dir, name, o, n, builtinloc, firstchange);
    }
  }

  lemma ScanFindsBuiltin(w: World, dir: string, name: string, o: seq<string>, n: seq<string>,
                         mark: nat, firstchange: int)
    requires SameBelow(o, n, firstchange) && CleanComps(o) && CleanComps(n)
    requires mark == MarkIndex(o) == MarkIndex(n) && mark < firstchange
    requires name in w.builtins && Scan(w, dir, name, o, 0) == Found(CMDBUILTIN, w.builtins[name])
    ensures Scan(w, dir, name, n, 0) == Found(CMDBUILTIN, w.builtins[name])
  {
    ScanBuiltin(w, dir, name, n, 0);
    ScanSame(w, dir, name, o, n, 0, firstchange);
  }

  /** Skipping the absolute directories that a stale entry has ruled out changes nothing; o is
      PATH, and comps is the path searched. */
  lemma {:induction false} RescanAgrees(w: World, cwd: string, dir: string, name: string, o: seq<string>,
                                        comps: seq<string>, i: nat, prev: int, firstchange: int, update: bool)
    requires CleanComps(o) && CleanComps(comps) && SameBelow(o, comps, firstchange)
    requires prev >= i && i < firstchange ==>
      var e := Scan(w, dir, name, o, i);
      e == Found(CMDNORMAL, prev) || (e.Found? && e.kind == CMDBUILTIN && prev == MarkIndex(o))
    ensures var r := Rescan(w, cwd, name, comps, i, prev, firstchange, update);
            Scan(w, cwd, name, comps, i) ==
              match r
              case HitBuiltin(code, _) => Found(CMDBUILTIN, code)
              case HitFile(index, _) => Found(CMDNORMAL, index)
              case NoChange => Found(CMDNORMAL, prev)
              case Missed(_) => Unknown
    ensures Rescan(w, cwd, name, comps, i, prev, firstchange, update).NoChange? ==>
              i <= prev < firstchange && Scan(w, dir, name, o, i) == Found(CMDNORMAL, prev)
    decreases |comps| - i
  {
    hide IsBuiltinOption, HasBuiltinMark, IsFuncOption, OptionText, MarkIndex, Directory, FullName;
    if i < |comps| {
      if i < firstchange {
        assert At(o, i) == At(comps, i);
        assert comps[i] in comps;
      }
      RescanAgrees(w, cwd, dir, name, o, comps, i + 1, prev, firstchange, update && i < firstchange);
    }
  }

  /** The table is updated only by what was found below the first change. */
  lemma {:induction false} RescanUpdates(w: World, cwd: string, name: string, comps: seq<string>, i: nat,
                                         prev: int, firstchange: int, update: bool)
    requires CleanComps(comps)
    requires forall k :: 0 <= k < i && k < |comps| ==> !HasBuiltinMark(comps[k])
    requires name in w.builtins
    ensures var r := Rescan(w, cwd, name, comps, i, prev, firstchange, update);
            r.HitBuiltin? ==> r.update == (update && MarkIndex(comps) < firstchange) && MarkIndex(comps) >= i
    decreases |comps| - i
  {
    if i < |comps| {
      assert comps[i] in comps;
      if !IsBuiltinOption(comps[i]) {
        RescanUpdates(w, cwd, name, comps, i + 1, prev, firstchange, update && i < firstchange);
      }
    }
  }

  lemma {:induction false} RescanFileUpdates(w: World, cwd: string, name: string, comps: seq<string>, i: nat,
                                             prev: int, firstchange: int, update: bool)
    ensures var r := Rescan(w, cwd, name, comps, i, prev, firstchange, update);
            r.HitFile? ==> r.index >= i && r.update == (update && r.index < firstchange)
    decreases |comps| - i
  {
    if i < |comps| {
      RescanFileUpdates(w, cwd, name, comps, i + 1, prev, firstchange, update && i < firstchange);
    }
  }

  // ---------------------------------------------------------------- one lookup

  predicate CleanTemp(temp: Option<string>) {
    temp.Some? ==> Clean(temp.value)
  }

  function SearchedPath(s: State, temp: Option<string>): seq<string> {
    Components(if temp.Some? then temp.value else s.path)
  }

  function ChangeOf(s: State, temp: Option<string>): int {
    if temp.Some? then ChangeFor(s, temp.value) else NO_CHANGE
  }

  function BltinOf(s: State, temp: Option<string>): int {
    if temp.Some? then MarkIndex(Components(temp.value)) else s.builtinloc
  }

  function OutcomeOf(w: World, s: State, name: string, temp: Option<string>, nofun: bool): (r: Outcome)
    ensures r.Reuse? ==> name in s.table
  {
    Decide(w, s.cwd, s.table, s.builtinloc, name, temp.Some?, nofun, SearchedPath(s, temp), ChangeOf(s, temp),
           BltinOf(s, temp))
  }

  /** find_command with the default PATH, or (DO_BRUTE) with a temporary one. */
  function Find(w: World, s: State, name: string, temp: Option<string>, nofun: bool): (CmdEntry, State) {
    if HasSlash(name) then (THE_FILE, s)
    else
      var r := Apply(s.table, name, OutcomeOf(w, s, name, temp, nofun));
      (r.0, s.(table := r.1))
  }

  function Visible(s: State, nofun: bool): map<string, int> {
    if nofun then map[] else s.funs
  }

  /** No entry answers at once, nor does a builtin that comes first: the directories are searched. */
  predicate MustLook(w: World, s: State, name: string, temp: Option<string>, nofun: bool) {
    && !Usable(s.table, s.builtinloc, name, temp.Some?, nofun, ChangeOf(s, temp), BltinOf(s, temp))
    && !(IsRegular(name) && name in s.table && s.table[name].kind == CMDBUILTIN)
    && !BuiltinFirst(w, name, BltinOf(s, temp))
  }

  function LookFor(w: World, s: State, name: string, temp: Option<string>, nofun: bool): LoopEnd {
    Rescan(w, s.cwd, name, SearchedPath(s, temp), 0, Prev(s.table, s.builtinloc, name), ChangeOf(s, temp),
           MayUpdate(s.table, name, temp.Some?, nofun, ChangeOf(s, temp)))
  }

  /** What the loop finds from a coherent cache. */
  lemma LookIsSearch(w: World, s: State, name: string, temp: Option<string>, nofun: bool)
    requires Coherent(w, s) && CleanTemp(temp) && MustLook(w, s, name, temp, nofun)
    ensures SearchFiles(w, s.cwd, name, SearchedPath(s, temp)) ==
              match LookFor(w, s, name, temp, nofun)
              case HitBuiltin(code, _) => Found(CMDBUILTIN, code)
              case HitFile(index, _) => Found(CMDNORMAL, index)
              case NoChange => Found(CMDNORMAL, Prev(s.table, s.builtinloc, name))
              case Missed(_) => Unknown
    ensures LookFor(w, s, name, temp, nofun).NoChange? ==>
              && name in s.table && s.table[name].kind == CMDNORMAL
              && s.table[name].param == Prev(s.table, s.builtinloc, name) < ChangeOf(s, temp)
  {
    var o, prev := Components(s.path), Prev(s.table, s.builtinloc, name);
    var dir := s.cwd;
    if prev >= 0 {
      assert EntryOk(w, s, name);
      dir :| True(w, dir, name, s.table[name], o);
    }
    RescanAgrees(w, s.cwd, dir, name, o, SearchedPath(s, temp), 0, prev, ChangeOf(s, temp),
                 MayUpdate(s.table, name, temp.Some?, nofun, ChangeOf(s, temp)));
  }

  /** A builtin entry names a builtin, stale or not. */
  lemma BuiltinEntry(w: World, s: State, name: string)
    requires Coherent(w, s) && name in s.table && s.table[name].kind == CMDBUILTIN
    ensures name in w.builtins && s.table[name].param == w.builtins[name] && name !in s.funs
  {
    assert EntryOk(w, s, name);
    if s.table[name].rehash {
      var dir :| True(w, dir, name, s.table[name], Components(s.path));
    }
  }

  /** The three ways in which an entry is reused. */
  lemma ReuseCases(w: World, s: State, name: string, temp: Option<string>, nofun: bool)
    requires OutcomeOf(w, s, name, temp, nofun).Reuse?
    ensures || (Usable(s.table, s.builtinloc, name, temp.Some?, nofun, ChangeOf(s, temp), BltinOf(s, temp))
                && !s.table[name].rehash)
            || (IsRegular(name) && s.table[name].kind == CMDBUILTIN)
            || (MustLook(w, s, name, temp, nofun) && LookFor(w, s, name, temp, nofun).NoChange?)
  {
  }

  /** A reused entry answers for the path searched. */
  lemma ReuseAnswers(w: World, s: State, name: string, temp: Option<string>, nofun: bool)
    requires Coherent(w, s) && CleanTemp(temp) && OutcomeOf(w, s, name, temp, nofun).Reuse?
    requires name !in s.funs
    ensures True(w, s.cwd, name, s.table[name], SearchedPath(s, temp))
  {
    ReuseCases(w, s, name, temp, nofun);
    hide Decide, Rescan;
    assert EntryOk(w, s, name);
    if MustLook(w, s, name, temp, nofun) {
      LookIsSearch(w, s, name, temp, nofun);
    } else if s.table[name].rehash || (IsRegular(name) && s.table[name].kind == CMDBUILTIN) {
      BuiltinEntry(w, s, name);
    } else if temp.Some? {
      KeptEntry(w, s.cwd, name, s.table[name], Components(s.path), SearchedPath(s, temp), s.builtinloc,
                ChangeOf(s, temp), BltinOf(s, temp));
    }
  }

  /** So does a result that was searched for. */
  lemma OtherAnswers(w: World, s: State, name: string, temp: Option<string>, nofun: bool)
    requires Coherent(w, s) && CleanTemp(temp) && !OutcomeOf(w, s, name, temp, nofun).Reuse?
    ensures name in s.funs ==> nofun
    ensures !HasSlash(name) ==> Find(w, s, name, temp, nofun).0 == SearchFiles(w, s.cwd, name, SearchedPath(s, temp))
  {
    hide HasBuiltinMark, IsFuncOption, FirstChange, MarkIndex, Clean, Scan, Rescan, Components, Directory;
    if name in s.table { assert EntryOk(w, s, name); }
    if MustLook(w, s, name, temp, nofun) { LookIsSearch(w, s, name, temp, nofun); }
  }

  /** A function is reused only when functions count. */
  lemma FunctionReuse(w: World, s: State, name: string, temp: Option<string>, nofun: bool)
    requires Coherent(w, s) && CleanTemp(temp) && OutcomeOf(w, s, name, temp, nofun).Reuse?
    requires name in s.funs
    ensures !nofun
  {
    assert EntryOk(w, s, name);
    if MustLook(w, s, name, temp, nofun) { LookIsSearch(w, s, name, temp, nofun); }
  }

  /** A lookup in a coherent cache gives what the uncached search gives, whatever was cached. */
  lemma FindIsSearch(w: World, s: State, name: string, temp: Option<string>, nofun: bool)
    requires Coherent(w, s) && CleanTemp(temp)
    ensures Find(w, s, name, temp, nofun).0
         == Search(w, s.cwd, Visible(s, nofun), name, SearchedPath(s, temp))
  {
    hide Decide, SearchFiles;
    if HasSlash(name) {
    } else if !OutcomeOf(w, s, name, temp, nofun).Reuse? {
      OtherAnswers(w, s, name, temp, nofun);
    } else if name in s.funs {
      assert EntryOk(w, s, name);
      FunctionReuse(w, s, name, temp, nofun);
    } else {
      ReuseAnswers(w, s, name, temp, nofun);
    }
  }

  /** The lookup that harms the cache: PATH does not name %builtin, the temporary path does, and a
      file with the name of a builtin is found in a directory that both begin with. */
  predicate Harmful(w: World, s: State, name: string, temp: Option<string>) {
    && s.builtinloc < 0 && BltinOf(s, temp) >= 0 && !HasSlash(name)
    && name in w.builtins && !IsRegular(name) && name !in s.funs
    && var r := Scan(w, s.cwd, name, SearchedPath(s, temp), 0);
       r.Found? && r.kind == CMDNORMAL && r.param < ChangeOf(s, temp)
  }

  /** A reused entry is right about PATH in the current directory. */
  lemma ReuseIsTrue(w: World, s: State, name: string, temp: Option<string>, nofun: bool)
    requires Coherent(w, s) && CleanTemp(temp) && OutcomeOf(w, s, name, temp, nofun).Reuse?
    requires name !in s.funs
    ensures True(w, s.cwd, name, s.table[name], Components(s.path))
  {
    ReuseCases(w, s, name, temp, nofun);
    hide Decide, Rescan;
    var o, e := Components(s.path), s.table[name];
    assert EntryOk(w, s, name);
    if e.rehash {
      var dir :| True(w, dir, name, e, o);
      if MustLook(w, s, name, temp, nofun) {
        LookIsSearch(w, s, name, temp, nofun);
        ScanSame(w, s.cwd, name, o, SearchedPath(s, temp), 0, ChangeOf(s, temp));
      }
    }
  }

  lemma ReuseIsHarmless(w: World, s: State, name: string, temp: Option<string>, nofun: bool)
    requires Coherent(w, s) && CleanTemp(temp) && OutcomeOf(w, s, name, temp, nofun).Reuse?
    requires name !in s.funs
    ensures !Harmful(w, s, name, temp)
  {
    if Harmful(w, s, name, temp) {
      ReuseAnswers(w, s, name, temp, nofun);
      ReuseIsTrue(w, s, name, temp, nofun);
    }
  }

  /** What goes into the table is right about PATH, unless the lookup is the harmful one. */
  lemma StoreIsTrue(w: World, s: State, name: string, temp: Option<string>, nofun: bool)
    requires Coherent(w, s) && CleanTemp(temp) && OutcomeOf(w, s, name, temp, nofun).Store? && !HasSlash(name)
    ensures var r := OutcomeOf(w, s, name, temp, nofun);
            && name !in s.funs
            && (SearchFiles(w, s.cwd, name, Components(s.path)) == Found(r.kind, r.param)
                <==> !Harmful(w, s, name, temp))
  {
    hide MarkIndex, CleanComps, Outdated, Scan, Rescan, Components, Directory, HasBuiltinMark;
    var o, comps := Components(s.path), SearchedPath(s, temp);
    var fc, bltin := ChangeOf(s, temp), BltinOf(s, temp);
    if name in s.table { assert EntryOk(w, s, name); }
    if MustLook(w, s, name, temp, nofun) {
      var update := MayUpdate(s.table, name, temp.Some?, nofun, fc);
      var prev := Prev(s.table, s.builtinloc, name);
      LookIsSearch(w, s, name, temp, nofun);
      NoUpdate(w, s.cwd, name, comps, 0, prev, fc, update);
      if LookFor(w, s, name, temp, nofun).HitBuiltin? {
        RescanUpdates(w, s.cwd, name, comps, 0, prev, fc, update);
        MarkBelowChange(o, comps, s.builtinloc, fc, bltin);
        ScanFindsBuiltin(w, s.cwd, name, comps, o, bltin, fc);
      } else {
        RescanFileUpdates(w, s.cwd, name, comps, 0, prev, fc, update);
        ScanSame(w, s.cwd, name, o, comps, 0, fc);
      }
    }
  }

  /** A harmful lookup always stores its result. */
  lemma HarmfulStores(w: World, s: State, name: string, temp: Option<string>, nofun: bool)
    requires Coherent(w, s) && CleanTemp(temp) && Harmful(w, s, name, temp)
    ensures OutcomeOf(w, s, name, temp, nofun).Store?
  {
    if OutcomeOf(w, s, name, temp, nofun).Reuse? {
      ReuseIsHarmless(w, s, name, temp, nofun);
    } else {
      if name in s.table { assert EntryOk(w, s, name); }
      LookIsSearch(w, s, name, temp, nofun);
      RescanFileUpdates(w, s.cwd, name, SearchedPath(s, temp), 0, Prev(s.table, s.builtinloc, name), ChangeOf(s, temp),
                        MayUpdate(s.table, name, temp.Some?, nofun, ChangeOf(s, temp)));
    }
  }

  /** Once the table is not to be updated, it stays so. */
  lemma {:induction false} NoUpdate(w: World, cwd: string, name: string, comps: seq<string>, i: nat,
                                    prev: int, firstchange: int, update: bool)
    ensures var r := Rescan(w, cwd, name, comps, i, prev, firstchange, update);
            !update && !r.NoChange? ==> !r.update
    decreases |comps| - i
  {
    if i < |comps| {
      NoUpdate(w, cwd, name, comps, i + 1, prev, firstchange, update && i < firstchange);
    }
  }

  /** A failed lookup does not remove a function. */
  lemma FailKeepsFunctions(w: World, s: State, name: string, temp: Option<string>, nofun: bool)
    requires Coherent(w, s) && CleanTemp(temp) && OutcomeOf(w, s, name, temp, nofun).Fail?
    ensures OutcomeOf(w, s, name, temp, nofun).remove ==> name !in s.funs
  {
    if name in s.table { assert EntryOk(w, s, name); }
    NoUpdate(w, s.cwd, name, SearchedPath(s, temp), 0, Prev(s.table, s.builtinloc, name), ChangeOf(s, temp),
             MayUpdate(s.table, name, temp.Some?, nofun, ChangeOf(s, temp)));
  }

  /** A lookup keeps the cache coherent exactly when it is not the harmful one. */
  lemma FindKeepsCoherence(w: World, s: State, name: string, temp: Option<string>, nofun: bool)
    requires Coherent(w, s) && CleanTemp(temp)
    ensures Coherent(w, Find(w, s, name, temp, nofun).1) <==> !Harmful(w, s, name, temp)
  {
    hide Decide, SearchFiles, Rescan, Components, MarkIndex, Clean;
    if HasSlash(name) { return; }
    var r := OutcomeOf(w, s, name, temp, nofun);
    var s' := Find(w, s, name, temp, nofun).1;
    match r {
      case Reuse =>
        assert EntryOk(w, s, name);
        if name !in s.funs { ReuseIsTrue(w, s, name, temp, nofun); }
      case Store(_, _) => StoreIsTrue(w, s, name, temp, nofun);
      case Report(_, _) =>
      case Fail(_) => FailKeepsFunctions(w, s, name, temp, nofun);
    }
    if Harmful(w, s, name, temp) { HarmfulStores(w, s, name, temp, nofun); }
    OneEntry(w, s, s', name);
  }

  /** When one entry changes, coherence is a matter of that entry. */
  lemma OneEntry(w: World, s: State, s': State, name: string)
    requires Coherent(w, s)
    requires s' == s.(table := s'.table)
    requires s'.table - {name} == s.table - {name}
    requires name in s.funs ==> name in s'.table
    requires HasSlash(name) && name in s'.table ==> name in s.funs
    ensures Coherent(w, s') <==> (name in s'.table ==> EntryOk(w, s', name))
  {
    forall n | n in s'.table && n != name
      ensures EntryOk(w, s', n) && (HasSlash(n) ==> n in s.funs)
    {
      assert n in s'.table - {name} && s'.table[n] == (s'.table - {name})[n];
      assert EntryOk(w, s, n);
    }
    forall n | n in s.funs
      ensures n in s'.table
    {
      if n != name { assert n in s.table - {name}; }
    }
  }
}
