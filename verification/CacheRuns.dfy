/** Whole runs of the operations that change the cache, the PATH, the directory or the functions. */
module CacheRuns {
  import opened Options
  import opened SearchPath
  import opened CommandCache
  import opened CacheCoherence

  datatype Op =
    | Cd(dir: string)
    | SetPath(newval: string)
    | Defun(name: string, func: int)
    | UnsetFunc(name: string)
    | DeleteFuncs
    | HashClear
    | HashName(name: string)
    | Lookup(name: string, temp: Option<string>, nofun: bool)

  /** hashcd marks the entries that a search of directories produced. */
  function Marked(e: Ent, builtinloc: int): Ent {
    if e.kind == CMDNORMAL || (e.kind == CMDBUILTIN && builtinloc >= 0) then e.(rehash := true) else e
  }

  function MarkAll(t: Table, builtinloc: int): Table {
    map name | name in t :: Marked(t[name], builtinloc)
  }

  predicate Cleared(e: Ent, builtinloc: int, firstchange: int) {
    (e.kind == CMDNORMAL && e.param >= firstchange) || (e.kind == CMDBUILTIN && builtinloc >= firstchange)
  }

  function ClearFrom(t: Table, builtinloc: int, firstchange: int): Table {
    map name | name in t && !Cleared(t[name], builtinloc, firstchange) :: t[name]
  }

  function WithoutFunctions(t: Table): Table {
    map name | name in t && t[name].kind != CMDFUNCTION :: t[name]
  }

  /** addcmdentry keeps the mark of the entry it replaces. */
  function Define(t: Table, name: string, kind: Kind, param: int): Table {
    t[name := Ent(kind, param, name in t && t[name].rehash)]
  }

  function Undefine(t: Table, name: string): Table {
    if name in t && t[name].kind == CMDFUNCTION then t - {name} else t
  }

  /** `hash name` forgets the entry before it looks the name up again. */
  function Forget(t: Table, builtinloc: int, name: string): Table {
    if name in t && (t[name].kind == CMDNORMAL || (t[name].kind == CMDBUILTIN && builtinloc >= 0)) then t - {name}
    else t
  }

  function Step(w: World, s: State, op: Op): State {
    match op
    case Cd(dir) => s.(cwd := dir, table := MarkAll(s.table, s.builtinloc))
    case SetPath(newval) =>
      var bltin := MarkIndex(Components(newval));
      var loc := if s.builtinloc < 0 && bltin >= 0 then bltin else s.builtinloc;
      s.(path := newval, builtinloc := bltin, table := ClearFrom(s.table, loc, ChangeFor(s, newval)))
    case Defun(name, func) => s.(table := Define(s.table, name, CMDFUNCTION, func), funs := s.funs[name := func])
    case UnsetFunc(name) => s.(table := Undefine(s.table, name), funs := s.funs - {name})
    case DeleteFuncs => s.(table := WithoutFunctions(s.table), funs := map[])
    case HashClear => s.(table := ClearFrom(s.table, s.builtinloc, 0))
    case HashName(name) => Find(w, s.(table := Forget(s.table, s.builtinloc, name)), name, None, false).1
    case Lookup(name, temp, nofun) => Find(w, s, name, temp, nofun).1
  }

  /** The PATHs of an operation are clean. */
  predicate CleanOp(op: Op) {
    match op
    case SetPath(newval) => Clean(newval)
    case Lookup(_, temp, _) => CleanTemp(temp)
    case _ => true
  }

  /** Checked before the step: a function is not defined over an entry marked for a rehash, and a
      lookup is not the harmful one. */
  predicate Safe(w: World, s: State, op: Op) {
    match op
    case Defun(name, _) => name in s.table ==> !s.table[name].rehash
    case Lookup(name, temp, _) => !Harmful(w, s, name, temp)
    case _ => true
  }

  /** Every operation keeps the cache coherent exactly when it is safe. */
  lemma StepKeepsCoherence(w: World, s: State, op: Op)
    requires Coherent(w, s) && CleanOp(op)
    ensures Coherent(w, Step(w, s, op)) <==> Safe(w, s, op)
  {
    match op
    case Cd(dir) => CdKeeps(w, s, dir);
    case SetPath(newval) => SetPathKeeps(w, s, newval);
    case Defun(name, func) => DefunKeeps(w, s, name, func);
    case UnsetFunc(name) => UnsetKeeps(w, s, name);
    case DeleteFuncs => ClearKeeps(w, s, Step(w, s, op));
    case HashClear => ClearKeeps(w, s, Step(w, s, op));
    case HashName(name) =>
      var s1 := s.(table := Forget(s.table, s.builtinloc, name));
      OneEntry(w, s, s1, name);
      FindKeepsCoherence(w, s1, name, None, false);
    case Lookup(name, temp, nofun) => FindKeepsCoherence(w, s, name, temp, nofun);
  }

  lemma CdKeeps(w: World, s: State, dir: string)
    requires Coherent(w, s)
    ensures Coherent(w, Step(w, s, Cd(dir)))
  {
    var s' := Step(w, s, Cd(dir));
    forall name | name in s'.table
      ensures EntryOk(w, s', name)
    {
      assert EntryOk(w, s, name);
      var e, comps := s.table[name], Components(s.path);
      if name !in s.funs && !e.rehash {
        assert True(w, s.cwd, name, e, comps);
        assert True(w, s.cwd, name, Marked(e, s.builtinloc), comps);
      }
    }
  }

  lemma SetPathKeeps(w: World, s: State, newval: string)
    requires Coherent(w, s) && Clean(newval)
    ensures Coherent(w, Step(w, s, SetPath(newval)))
  {
    var s' := Step(w, s, SetPath(newval));
    var o, n, fc := Components(s.path), Components(newval), ChangeFor(s, newval);
    forall name | name in s'.table
      ensures EntryOk(w, s', name)
    {
      assert EntryOk(w, s, name);
      var e := s.table[name];
      if name !in s.funs {
        var dir := s.cwd;
        if e.rehash { dir :| True(w, dir, name, e, o); }
        KeptEntry(w, dir, name, e, o, n, s.builtinloc, fc, s'.builtinloc);
      }
    }
    forall name | name in s.funs
      ensures name in s'.table
    {
      assert EntryOk(w, s, name);
    }
  }

  /** Removing entries of commands that are not functions does no harm. */
  lemma ClearKeeps(w: World, s: State, s': State)
    requires Coherent(w, s)
    requires s' == s.(table := s'.table, funs := s'.funs)
    requires forall name :: name in s'.table ==> name in s.table && s'.table[name] == s.table[name]
    requires s'.funs == s.funs || s'.funs == map[]
    requires forall name :: name in s.table && s.table[name].kind == CMDFUNCTION ==>
               (name in s'.table <==> s'.funs == s.funs)
    ensures Coherent(w, s')
  {
    forall name | name in s'.table
      ensures EntryOk(w, s', name)
    {
      assert EntryOk(w, s, name);
    }
    forall name | name in s'.funs
      ensures name in s'.table
    {
      assert EntryOk(w, s, name);
    }
  }

  lemma DefunKeeps(w: World, s: State, name: string, func: int)
    requires Coherent(w, s)
    ensures Coherent(w, Step(w, s, Defun(name, func))) <==> (name in s.table ==> !s.table[name].rehash)
  {
    var s' := Step(w, s, Defun(name, func));
    forall n | n in s'.table && n != name
      ensures EntryOk(w, s', n)
    {
      assert EntryOk(w, s, n);
    }
    assert Coherent(w, s') ==> EntryOk(w, s', name);
  }

  lemma UnsetKeeps(w: World, s: State, name: string)
    requires Coherent(w, s)
    ensures Coherent(w, Step(w, s, UnsetFunc(name)))
  {
    var s' := Step(w, s, UnsetFunc(name));
    forall n | n in s'.table
      ensures EntryOk(w, s', n)
    {
      assert EntryOk(w, s, n);
    }
    if name in s.funs { assert EntryOk(w, s, name); }
  }

  /** Every plain lookup gives what the uncached search gives. */
  ghost predicate Accurate(w: World, s: State) {
    forall name, nofun :: Find(w, s, name, None, nofun).0
                       == Search(w, s.cwd, Visible(s, nofun), name, Components(s.path))
  }

  /** Not the value of an index: a function body does not lie at an address that small. */
  predicate IsAddress(func: int, path: string) {
    func < 0 || func >= |Components(path)|
  }

  /** The two unsafe operations do show: some lookup after them goes wrong. */
  lemma SafeIsNeeded(w: World, s: State, op: Op)
    requires Coherent(w, s) && CleanOp(op)
    requires op.Defun? ==> IsAddress(op.func, s.path)
    ensures Accurate(w, Step(w, s, op)) <==> Safe(w, s, op)
  {
    StepKeepsCoherence(w, s, op);
    var s' := Step(w, s, op);
    if Safe(w, s, op) {
      forall name, nofun
        ensures Find(w, s', name, None, nofun).0 == Search(w, s'.cwd, Visible(s', nofun), name, Components(s'.path))
      {
        FindIsSearch(w, s', name, None, nofun);
      }
    } else if op.Defun? {
      LostFunction(w, s', op.name);
    } else {
      HarmfulStores(w, s, op.name, op.temp, op.nofun);
      StoreIsTrue(w, s, op.name, op.temp, op.nofun);
      assert Find(w, s', op.name, None, false).0 != Search(w, s'.cwd, s'.funs, op.name, Components(s'.path));
    }
  }

  /** A function defined over a marked entry is not found by its own name. */
  lemma LostFunction(w: World, s: State, name: string)
    requires name in s.table && s.table[name].rehash && s.table[name].kind == CMDFUNCTION && !HasSlash(name)
    requires IsAddress(s.table[name].param, s.path)
    ensures Find(w, s, name, None, false).0 != Found(CMDFUNCTION, s.table[name].param)
  {
    NoChangeAtAddress(w, s.cwd, name, Components(s.path), 0, s.table[name].param, NO_CHANGE, true);
  }

  lemma {:induction false} NoChangeAtAddress(w: World, cwd: string, name: string, comps: seq<string>, i: nat,
                                             prev: int, firstchange: int, update: bool)
    requires prev < 0 || prev >= |comps|
    ensures !Rescan(w, cwd, name, comps, i, prev, firstchange, update).NoChange?
    decreases |comps| - i
  {
    if i < |comps| {
      NoChangeAtAddress(w, cwd, name, comps, i + 1, prev, firstchange, update && i < firstchange);
    }
  }

  function Run(w: World, s: State, ops: seq<Op>): State
    decreases |ops|
  {
    if ops == [] then s else Run(w, Step(w, s, ops[0]), ops[1..])
  }

  predicate SafeRun(w: World, s: State, ops: seq<Op>)
    decreases |ops|
  {
    ops == [] || (CleanOp(ops[0]) && Safe(w, s, ops[0]) && SafeRun(w, Step(w, s, ops[0]), ops[1..]))
  }

  /** Over every safe run from an empty table, the cache answers as the uncached search does, for
      every name, with functions or without, on PATH or on a temporary path. */
  lemma {:induction false} RunIsAccurate(w: World, s: State, ops: seq<Op>, name: string, temp: Option<string>,
      nofun: bool)
    requires Coherent(w, s) && SafeRun(w, s, ops) && CleanTemp(temp)
    ensures var e := Run(w, s, ops);
            Find(w, e, name, temp, nofun).0 == Search(w, e.cwd, Visible(e, nofun), name, SearchedPath(e, temp))
    decreases |ops|
  {
    if ops == [] {
      FindIsSearch(w, s, name, temp, nofun);
    } else {
      StepKeepsCoherence(w, s, ops[0]);
      RunIsAccurate(w, Step(w, s, ops[0]), ops[1..], name, temp, nofun);
    }
  }

  lemma InitiallyCoherent(w: World, path: string, cwd: string)
    requires Clean(path)
    ensures Coherent(w, Initial(path, cwd))
  {
  }
}
