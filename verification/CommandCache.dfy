/** Command lookup of sh (src/bin/sh/exec.c) on an abstract cache; CommandTable is the hash table. */
module CommandCache {
  import opened Options
  import opened SearchPath

  datatype Kind = CMDUNKNOWN | CMDNORMAL | CMDBUILTIN | CMDFUNCTION

  /** `param` is a union in C: the index of a PATH component, the code of a builtin, or the
      address of a function body.  Some code reads it as an index whatever it holds. */
  datatype Ent = Ent(kind: Kind, param: int, rehash: bool)

  datatype CmdEntry = Unknown | Found(kind: Kind, param: int)

  type Table = map<string, Ent>

  /** The builtins with their codes, and the regular files.  A relative name means a file that
      depends on the current directory; an absolute one does not. */
  datatype World = World(builtins: map<string, nat>, files: set<string>, relative: map<string, set<string>>) {
    predicate IsFile(cwd: string, fullname: string) {
      if IsAbsolute(fullname) then fullname in files
      else cwd in relative && fullname in relative[cwd]
    }
  }

  const REGULAR_BUILTINS: set<string> := {
    "alias", "bg", "cd", "command", "false", "fc", "fg", "getopts", "jobs", "kill", "newgrp",
    "read", "true", "umask", "unalias", "wait"
  }

  predicate IsRegular(name: string) {
    name in REGULAR_BUILTINS
  }

  // ---------------------------------------------------------------- the uncached search

  /** Left-to-right search of the components from number i on. */
  function Scan(w: World, cwd: string, name: string, comps: seq<string>, i: nat): (r: CmdEntry)
    ensures r.Found? ==>
      r.kind == CMDNORMAL || (r.kind == CMDBUILTIN && name in w.builtins && r.param == w.builtins[name])
    ensures r.Found? && r.kind == CMDNORMAL ==> i <= r.param < |comps|
    decreases |comps| - i
  {
    if i >= |comps| then Unknown
    else if IsBuiltinOption(comps[i]) && name in w.builtins then Found(CMDBUILTIN, w.builtins[name])
    else if OptionText(comps[i]).None? && w.IsFile(cwd, FullName(comps[i], name)) then Found(CMDNORMAL, i)
    else Scan(w, cwd, name, comps, i + 1)
  }

  /** A builtin comes before the PATH search if it is a regular one or the PATH does not say
      `%builtin` anywhere. */
  predicate BuiltinFirst(w: World, name: string, bltin: int) {
    (bltin < 0 || IsRegular(name)) && name in w.builtins
  }

  function SearchFiles(w: World, cwd: string, name: string, comps: seq<string>): CmdEntry {
    if BuiltinFirst(w, name, MarkIndex(comps)) then Found(CMDBUILTIN, w.builtins[name])
    else Scan(w, cwd, name, comps, 0)
  }

  /** A name with a slash is the name of a file; it is never looked up. */
  predicate HasSlash(name: string) {
    '/' in name
  }

  const THE_FILE := Found(CMDNORMAL, 0)

  /** What a command name means, without any cache. */
  function Search(w: World, cwd: string, funs: map<string, int>, name: string, comps: seq<string>): CmdEntry {
    if HasSlash(name) then THE_FILE
    else if name in funs then Found(CMDFUNCTION, funs[name]) else SearchFiles(w, cwd, name, comps)
  }

  // ---------------------------------------------------------------- the search of find_command

  datatype LoopEnd =
    | HitBuiltin(code: nat, update: bool)
    | HitFile(index: nat, update: bool)
    | NoChange
    | Missed(update: bool)

  /** The loop over the components.  A stale entry says that the absolute directories before
      `prev` need not be looked at again. */
  function Rescan(w: World, cwd: string, name: string, comps: seq<string>, i: nat,
                  prev: int, firstchange: int, update: bool): LoopEnd
    decreases |comps| - i
  {
    if i >= |comps| then Missed(update)
    else
      var upd := update && i < firstchange;
      var full := FullName(comps[i], name);
      if IsBuiltinOption(comps[i]) && name in w.builtins then HitBuiltin(w.builtins[name], upd)
      else if OptionText(comps[i]).Some? then Rescan(w, cwd, name, comps, i + 1, prev, firstchange, upd)
      else if IsAbsolute(full) && i <= prev && i < firstchange then
        if i < prev then Rescan(w, cwd, name, comps, i + 1, prev, firstchange, upd) else NoChange
      else if w.IsFile(cwd, full) then HitFile(i, upd)
      else Rescan(w, cwd, name, comps, i + 1, prev, firstchange, upd)
  }

  /** What find_command ends with: the entry as it is, a result that goes into the table, one
      that does not, or a failure that may remove a stale entry. */
  datatype Outcome =
    | Reuse
    | Store(kind: Kind, param: int)
    | Report(kind: Kind, param: int)
    | Fail(remove: bool)

  function Apply(t: Table, name: string, outcome: Outcome): (CmdEntry, Table)
    requires outcome.Reuse? ==> name in t
  {
    match outcome
    case Reuse => (Found(t[name].kind, t[name].param), t[name := t[name].(rehash := false)])
    case Store(kind, param) => (Found(kind, param), t[name := Ent(kind, param, false)])
    case Report(kind, param) => (Found(kind, param), t)
    case Fail(remove) => (Unknown, if remove then t - {name} else t)
  }

  /** The cached entry can be returned at once. */
  predicate Usable(t: Table, builtinloc: int, name: string, brute: bool, nofun: bool, firstchange: int, bltin: int) {
    name in t && !t[name].rehash &&
    if t[name].kind == CMDFUNCTION then !nofun
    else !(brute && Outdated(t[name], builtinloc, firstchange, bltin))
  }

  /** The entry may depend on a component from `firstchange` on. */
  predicate Outdated(e: Ent, builtinloc: int, firstchange: int, bltin: int) {
    || (e.kind == CMDNORMAL && e.param >= firstchange)
    || (e.kind == CMDBUILTIN && (if builtinloc < 0 && bltin >= 0 then bltin else builtinloc) >= firstchange)
  }

  /** Where a search may trust a stale entry: before the component it was found in. */
  function Prev(t: Table, builtinloc: int, name: string): int {
    if name !in t || !t[name].rehash then -1
    else if t[name].kind == CMDBUILTIN then builtinloc
    else t[name].param
  }

  /** The table may be updated: no function is being hidden, and something of PATH is left. */
  predicate MayUpdate(t: Table, name: string, brute: bool, nofun: bool, firstchange: int) {
    && !(name in t && !t[name].rehash && t[name].kind == CMDFUNCTION && nofun)
    && !(!IsRegular(name) && brute && firstchange == 0)
  }

  function AfterLoop(t: Table, name: string, r: LoopEnd): (o: Outcome)
    ensures o.Reuse? ==> name in t
  {
    match r
    case HitBuiltin(code, upd) => if upd then Store(CMDBUILTIN, code) else Report(CMDBUILTIN, code)
    case HitFile(index, upd) => if upd then Store(CMDNORMAL, index) else Report(CMDNORMAL, index)
    case NoChange => if name in t then Reuse else Fail(false)
    case Missed(upd) => Fail(name in t && upd)
  }

  /** The search when the cache does not answer. */
  function DecideAnew(w: World, cwd: string, t: Table, builtinloc: int, name: string, comps: seq<string>,
                      firstchange: int, bltin: int, update: bool): (r: Outcome)
    ensures r.Reuse? ==> name in t
  {
    if BuiltinFirst(w, name, bltin) then
      if update then Store(CMDBUILTIN, w.builtins[name]) else Report(CMDBUILTIN, w.builtins[name])
    else
      AfterLoop(t, name, Rescan(w, cwd, name, comps, 0, Prev(t, builtinloc, name), firstchange, update))
  }

  /** find_command for a name without a slash; `comps` is the path searched, and `firstchange` and
      `bltin` compare it with PATH. */
  function Decide(w: World, cwd: string, t: Table, builtinloc: int, name: string, brute: bool, nofun: bool,
                  comps: seq<string>, firstchange: int, bltin: int): (r: Outcome)
    ensures r.Reuse? ==> name in t
  {
    if Usable(t, builtinloc, name, brute, nofun, firstchange, bltin) then Reuse
    else if IsRegular(name) && name in t && t[name].kind == CMDBUILTIN then Reuse
    else
      DecideAnew(w, cwd, t, builtinloc, name, comps, firstchange, bltin,
                 MayUpdate(t, name, brute, nofun, firstchange))
  }
}
