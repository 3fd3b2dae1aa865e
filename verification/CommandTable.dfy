/** The hash table of command entries of sh (src/bin/sh/exec.c), spliced and updated in place. */
module CommandTable {
  import opened Options
  import opened SearchPath
  import opened CommandCache
  import opened CacheCoherence
  import opened CacheRuns
  import opened SearchMeaning

  const CMDTABLESIZE := 31

  datatype TblEntry = TblEntry(cmdname: string, ent: Ent)

  type Chain = seq<TblEntry>

  function SignedChar(c: char): int {
    if c as int % 256 < 128 then c as int % 256 else c as int % 256 - 256
  }

  function CharSum(name: string): int {
    if name == "" then 0 else SignedChar(name[0]) + CharSum(name[1..])
  }

  function Hash(name: string): (b: nat)
    ensures b < CMDTABLESIZE
  {
    ((if name == "" then 0 else SignedChar(name[0]) * 16) + CharSum(name)) % 0x8000 % CMDTABLESIZE
  }

  method HashOf(name: string) returns (b: nat)
    ensures b == Hash(name)
  {
    var hashval := if name == "" then 0 else SignedChar(name[0]) * 16;
    var p := 0;
    ghost var start := hashval;
    while p < |name|
      invariant 0 <= p <= |name|
      invariant hashval + CharSum(name[p..]) == start + CharSum(name)
    {
      assert name[p..][1..] == name[p + 1..];
      hashval := hashval + SignedChar(name[p]);
      p := p + 1;
    }
    b := hashval % 0x8000 % CMDTABLESIZE;
  }

  /** The position of a name in a chain, or the length of the chain. */
  function Position(chain: Chain, name: string): (i: nat)
    ensures i <= |chain|
    ensures i < |chain| ==> chain[i].cmdname == name
    ensures forall k :: 0 <= k < i ==> chain[k].cmdname != name
  {
    if chain == [] || chain[0].cmdname == name then 0
    else
      var i := Position(chain[1..], name);
      assert forall k :: 1 <= k < |chain| ==> chain[k] == chain[1..][k - 1];
      i + 1
  }

  predicate Distinct(chain: Chain) {
    forall i, j :: 0 <= i < j < |chain| ==> chain[i].cmdname != chain[j].cmdname
  }

  /** A chain holds exactly the entries of the table whose names hash to its bucket. */
  ghost predicate Holds(chain: Chain, b: nat, t: Table) {
    && Distinct(chain)
    && (forall i :: 0 <= i < |chain| ==>
         Hash(chain[i].cmdname) == b && chain[i].cmdname in t && t[chain[i].cmdname] == chain[i].ent)
    && (forall name :: name in t && Hash(name) == b ==> Position(chain, name) < |chain|)
  }

  /** A chain says nothing about names of other buckets. */
  lemma OtherBucket(chain: Chain, b: nat, t: Table, t': Table)
    requires Holds(chain, b, t)
    requires forall name :: Hash(name) == b ==> (name in t <==> name in t') && (name in t ==> t[name] == t'[name])
    ensures Holds(chain, b, t')
  {
  }

  lemma UpdateChain(chain: Chain, b: nat, t: Table, i: nat, e: Ent)
    requires Holds(chain, b, t) && i < |chain|
    ensures Holds(chain[i := TblEntry(chain[i].cmdname, e)], b, t[chain[i].cmdname := e])
  {
    var c, n := chain[i := TblEntry(chain[i].cmdname, e)], chain[i].cmdname;
    forall name | name in t[n := e] && Hash(name) == b
      ensures Position(c, name) < |c|
    {
      if name != n { assert c[Position(chain, name)].cmdname == name; } else { assert c[i].cmdname == name; }
    }
  }

  lemma AppendChain(chain: Chain, b: nat, t: Table, name: string, e: Ent)
    requires Holds(chain, b, t) && name !in t && Hash(name) == b
    ensures Holds(chain + [TblEntry(name, e)], b, t[name := e])
  {
    var c := chain + [TblEntry(name, e)];
    forall n | n in t[name := e] && Hash(n) == b
      ensures Position(c, n) < |c|
    {
      if n != name { assert c[Position(chain, n)].cmdname == n; } else { assert c[|chain|].cmdname == n; }
    }
  }

  lemma RemoveChain(chain: Chain, b: nat, t: Table, i: nat)
    requires Holds(chain, b, t) && i < |chain|
    ensures Holds(chain[..i] + chain[i + 1..], b, t - {chain[i].cmdname})
  {
    var c := chain[..i] + chain[i + 1..];
    forall n | n in t - {chain[i].cmdname} && Hash(n) == b
      ensures Position(c, n) < |c|
    {
      var p := Position(chain, n);
      assert c[if p < i then p else p - 1].cmdname == n;
    }
  }

  /** The entries of a chain that a filter keeps, in order. */
  function Keep(chain: Chain, keep: Ent -> bool): Chain {
    if chain == [] then []
    else
      var n := |chain| - 1;
      Keep(chain[..n], keep) + if keep(chain[n].ent) then [chain[n]] else []
  }

  function KeepTable(t: Table, keep: Ent -> bool): Table {
    map name | name in t && keep(t[name]) :: t[name]
  }

  /** A chain of which the first n entries have been filtered. */
  function Spliced(chain: Chain, n: nat, keep: Ent -> bool): Chain
    requires n <= |chain|
  {
    Keep(chain[..n], keep) + chain[n..]
  }

  lemma SpliceEnds(chain: Chain, keep: Ent -> bool)
    ensures Spliced(chain, 0, keep) == chain && Keep(chain[..0], keep) == []
    ensures Spliced(chain, |chain|, keep) == Keep(chain, keep) == Keep(chain[..|chain|], keep)
  {
    assert chain[..|chain|] == chain;
  }

  lemma SpliceNext(chain: Chain, n: nat, keep: Ent -> bool)
    requires n < |chain|
    ensures var c, p := Spliced(chain, n, keep), |Keep(chain[..n], keep)|;
            && |c| == p + |chain| - n && c[p] == chain[n]
            && |Keep(chain[..n + 1], keep)| == (if keep(chain[n].ent) then p + 1 else p)
            && Spliced(chain, n + 1, keep) == if keep(chain[n].ent) then c else c[..p] + c[p + 1..]
  {
    assert chain[..n + 1][..n] == chain[..n];
  }

  /** The kept entries are those of the chain that satisfy the filter. */
  lemma {:induction false} KeepMembers(chain: Chain, keep: Ent -> bool)
    ensures forall x :: x in Keep(chain, keep) <==> x in chain && keep(x.ent)
    ensures Distinct(chain) ==> Distinct(Keep(chain, keep))
  {
    if chain != [] {
      var n := |chain| - 1;
      KeepMembers(chain[..n], keep);
      assert chain == chain[..n] + [chain[n]];
      if Distinct(chain) {
        forall x | x in Keep(chain[..n], keep)
          ensures x.cmdname != chain[n].cmdname
        {
          assert x in chain[..n];
        }
      }
    }
  }

  lemma KeepChain(chain: Chain, b: nat, t: Table, keep: Ent -> bool)
    requires Holds(chain, b, t)
    ensures Holds(Keep(chain, keep), b, KeepTable(t, keep))
  {
    var c := Keep(chain, keep);
    KeepMembers(chain, keep);
    forall i | 0 <= i < |c|
      ensures Hash(c[i].cmdname) == b && c[i].cmdname in KeepTable(t, keep) && t[c[i].cmdname] == c[i].ent
    {
      assert c[i] in chain;
    }
    forall name | name in KeepTable(t, keep) && Hash(name) == b
      ensures Position(c, name) < |c|
    {
      var p := Position(chain, name);
      assert chain[p] in c;
    }
  }

  function Mark(chain: Chain, builtinloc: int): Chain {
    seq(|chain|, i requires 0 <= i < |chain| => TblEntry(chain[i].cmdname, Marked(chain[i].ent, builtinloc)))
  }

  lemma MarkChain(chain: Chain, b: nat, t: Table, builtinloc: int)
    requires Holds(chain, b, t)
    ensures Holds(Mark(chain, builtinloc), b, MarkAll(t, builtinloc))
  {
    var c := Mark(chain, builtinloc);
    forall name | name in t && Hash(name) == b
      ensures Position(c, name) < |c|
    {
      assert c[Position(chain, name)].cmdname == name;
    }
  }

  /** The loop of find_command over the directories of a path. */
  method LookInDirectories(w: World, name: string, cwd: string, path: string, prev: int, firstchange: int,
                           updatetbl: bool) returns (r: LoopEnd)
    ensures r == Rescan(w, cwd, name, Components(path), 0, prev, firstchange, updatetbl)
  {
    var rest, index, upd := Some(path), -1, updatetbl;
    ghost var comps := Components(path);
    while rest.Some?
      invariant -1 <= index < |comps|
      invariant comps[index + 1..] == if rest.Some? then Components(rest.value) else []
      invariant Rescan(w, cwd, name, comps, 0, prev, firstchange, updatetbl)
             == Rescan(w, cwd, name, comps, index + 1, prev, firstchange, upd)
      decreases |comps| - index
    {
      assert comps[index + 1] == Components(rest.value)[0];
      assert comps[index + 2..] == Components(rest.value)[1..];
      var fullname, pathopt;
      fullname, pathopt, rest := Padvance(rest.value, name);
      index := index + 1;
      if index >= firstchange {
        upd := false;
      }
      if pathopt.Some? {
        if "builtin" <= pathopt.value && name in w.builtins {
          return HitBuiltin(w.builtins[name], upd);
        }
        continue;
      }
      if IsAbsolute(fullname) && index <= prev && index < firstchange {
        if index < prev { continue; }
        return NoChange;
      }
      if w.IsFile(cwd, fullname) {
        return HitFile(index, upd);
      }
    }
    return Missed(upd);
  }

  lemma {:induction false} NoChangeHasPrev(w: World, cwd: string, name: string, comps: seq<string>, i: nat,
                                           prev: int, firstchange: int, update: bool)
    ensures Rescan(w, cwd, name, comps, i, prev, firstchange, update).NoChange? ==> prev >= i
    decreases |comps| - i
  {
    if i < |comps| {
      NoChangeHasPrev(w, cwd, name, comps, i + 1, prev, firstchange, update && i < firstchange);
    }
  }

  class CmdTable {
    const w: World
    const cmdtable: array<Chain>
    var builtinloc: int
    var lastBucket: nat
    var lastIndex: nat
    ghost var table: Table
    // what the rest of the shell knows: PATH, the current directory, and the functions defined
    var pathval: string
    var cwd: string
    ghost var funs: map<string, int>

    ghost function Abs(): State
      reads this
    {
      State(table, builtinloc, pathval, cwd, funs)
    }

    ghost predicate Valid()
      reads this, cmdtable
    {
      && cmdtable.Length == CMDTABLESIZE
      && forall b :: 0 <= b < CMDTABLESIZE ==> Holds(cmdtable[b], b, table)
    }

    /** The table is empty, and PATH has already been looked at. */
    constructor (w: World, path: string, dir: string)
      ensures Valid() && fresh(cmdtable) && this.w == w
      ensures Abs() == Initial(path, dir)
    {
      this.w := w;
      cmdtable := new Chain[CMDTABLESIZE](_ => []);
      lastBucket, lastIndex := 0, 0;
      pathval, cwd := path, dir;
      table, funs := map[], map[];
      new;
      var firstchange;
      firstchange, builtinloc := SearchPath.PathChange("", path, -1);
    }

    /** A change of one entry leaves the chains of the other buckets right. */
    lemma OthersHold(t: Table, t': Table, name: string)
      requires cmdtable.Length == CMDTABLESIZE && t - {name} == t' - {name}
      requires forall b :: 0 <= b < CMDTABLESIZE && b != Hash(name) ==> Holds(cmdtable[b], b, t)
      ensures forall b :: 0 <= b < CMDTABLESIZE && b != Hash(name) ==> Holds(cmdtable[b], b, t')
    {
      forall b | 0 <= b < CMDTABLESIZE && b != Hash(name)
        ensures Holds(cmdtable[b], b, t')
      {
        forall n | Hash(n) == b
          ensures (n in t <==> n in t') && (n in t ==> t[n] == t'[n])
        {
          assert n in t <==> n in t - {name};
          assert n in t' <==> n in t' - {name};
          assert n in t ==> t[n] == (t - {name})[n];
          assert n in t' ==> t'[n] == (t' - {name})[n];
        }
        OtherBucket(cmdtable[b], b, t, t');
      }
    }

    /** The bucket and the place of a name; `lastBucket` and `lastIndex` remember them. */
    method CmdLookup(name: string) returns (found: bool)
      requires Valid()
      modifies `lastBucket, `lastIndex
      ensures Valid()
      ensures found <==> name in table
      ensures lastBucket == Hash(name) && lastIndex == Position(cmdtable[lastBucket], name)
    {
      lastBucket := HashOf(name);
      var chain, i := cmdtable[lastBucket], 0;
      while i < |chain| && chain[i].cmdname != name
        invariant 0 <= i <= Position(chain, name)
        invariant Valid()
      {
        i := i + 1;
      }
      lastIndex := i;
      return i < |chain|;
    }

    /** The entry that the last lookup found. */
    function Last(): Ent
      requires lastBucket < cmdtable.Length && lastIndex < |cmdtable[lastBucket]|
      reads this, cmdtable
    {
      cmdtable[lastBucket][lastIndex].ent
    }

    /** Sets the entry that the last lookup found, or appends one to the chain it looked at. */
    method SetLast(name: string, e: Ent)
      requires Valid() && lastBucket == Hash(name) && lastIndex == Position(cmdtable[lastBucket], name)
      modifies this`table, cmdtable
      ensures Valid() && table == old(table)[name := e]
    {
      var chain := cmdtable[lastBucket];
      if lastIndex < |chain| {
        UpdateChain(chain, lastBucket, table, lastIndex, e);
        cmdtable[lastBucket] := chain[lastIndex := TblEntry(name, e)];
      } else {
        AppendChain(chain, lastBucket, table, name, e);
        cmdtable[lastBucket] := chain + [TblEntry(name, e)];
      }
      OthersHold(table, table[name := e], name);
      table := table[name := e];
    }

    method DeleteCmdEntry(name: string)
      requires Valid() && lastBucket == Hash(name) && lastIndex == Position(cmdtable[lastBucket], name)
      requires name in table
      modifies this`table, cmdtable
      ensures Valid() && table == old(table) - {name}
    {
      var chain := cmdtable[lastBucket];
      RemoveChain(chain, lastBucket, table, lastIndex);
      cmdtable[lastBucket] := chain[..lastIndex] + chain[lastIndex + 1..];
      OthersHold(table, table - {name}, name);
      table := table - {name};
    }

    /** Marks the entries of one chain, one by one. */
    method MarkBucket(b: nat)
      requires b < cmdtable.Length
      modifies cmdtable
      ensures cmdtable[b] == Mark(old(cmdtable[b]), builtinloc)
      ensures forall c :: 0 <= c < cmdtable.Length && c != b ==> cmdtable[c] == old(cmdtable[c])
    {
      ghost var chain := cmdtable[b];
      var i := 0;
      while i < |cmdtable[b]|
        invariant 0 <= i <= |chain| == |cmdtable[b]|
        invariant forall k :: 0 <= k < i ==> cmdtable[b][k] == Mark(chain, builtinloc)[k]
        invariant forall k :: i <= k < |chain| ==> cmdtable[b][k] == chain[k]
        invariant forall c :: 0 <= c < cmdtable.Length && c != b ==> cmdtable[c] == old(cmdtable[c])
      {
        var e := cmdtable[b][i];
        if e.ent.kind == CMDNORMAL || (e.ent.kind == CMDBUILTIN && builtinloc >= 0) {
          cmdtable[b] := cmdtable[b][i := e.(ent := e.ent.(rehash := true))];
        }
        i := i + 1;
      }
    }

    /** Takes the entries that the filter rejects out of one chain. */
    method SpliceBucket(b: nat, keep: Ent -> bool)
      requires b < cmdtable.Length
      modifies cmdtable
      ensures cmdtable[b] == Keep(old(cmdtable[b]), keep)
      ensures forall c :: 0 <= c < cmdtable.Length && c != b ==> cmdtable[c] == old(cmdtable[c])
    {
      hide Keep, Spliced;
      ghost var chain := cmdtable[b];
      ghost var seen := 0;
      SpliceEnds(chain, keep);
      var pp := 0;
      while pp < |cmdtable[b]|
        invariant 0 <= seen <= |chain| && pp == |Keep(chain[..seen], keep)|
        invariant |cmdtable[b]| == pp + |chain| - seen
        invariant cmdtable[b] == Spliced(chain, seen, keep)
        invariant forall c :: 0 <= c < cmdtable.Length && c != b ==> cmdtable[c] == old(cmdtable[c])
        decreases |chain| - seen
      {
        var e := cmdtable[b][pp];
        SpliceNext(chain, seen, keep);
        if !keep(e.ent) {
          cmdtable[b] := cmdtable[b][..pp] + cmdtable[b][pp + 1..];
        } else {
          pp := pp + 1;
        }
        seen := seen + 1;
      }
      assert seen == |chain|;
    }

    /** Called when a cd is done. */
    method HashCd()
      requires Valid()
      modifies this`table, cmdtable
      ensures Valid() && table == MarkAll(old(table), builtinloc)
    {
      var tblp := 0;
      while tblp < CMDTABLESIZE
        invariant 0 <= tblp <= CMDTABLESIZE == cmdtable.Length && table == old(table)
        invariant forall b :: 0 <= b < tblp ==> Holds(cmdtable[b], b, MarkAll(table, builtinloc))
        invariant forall b :: tblp <= b < CMDTABLESIZE ==> Holds(cmdtable[b], b, table)
      {
        MarkChain(cmdtable[tblp], tblp, table, builtinloc);
        MarkBucket(tblp);
        tblp := tblp + 1;
      }
      table := MarkAll(table, builtinloc);
    }

    /** Takes the entries that the filter rejects out of the table. */
    method Splice(keep: Ent -> bool)
      requires Valid()
      modifies this`table, cmdtable
      ensures Valid() && table == KeepTable(old(table), keep)
    {
      var tblp := 0;
      while tblp < CMDTABLESIZE
        invariant 0 <= tblp <= CMDTABLESIZE == cmdtable.Length && table == old(table)
        invariant forall b :: 0 <= b < tblp ==> Holds(cmdtable[b], b, KeepTable(table, keep))
        invariant forall b :: tblp <= b < CMDTABLESIZE ==> Holds(cmdtable[b], b, table)
      {
        KeepChain(cmdtable[tblp], tblp, table, keep);
        SpliceBucket(tblp, keep);
        tblp := tblp + 1;
      }
      table := KeepTable(table, keep);
    }

    method ClearCmdEntry(firstchange: int)
      requires Valid()
      modifies this`table, cmdtable
      ensures Valid() && table == ClearFrom(old(table), builtinloc, firstchange)
    {
      var loc := builtinloc;
      Splice((e: Ent) => !Cleared(e, loc, firstchange));
    }

    method DeleteAllFuncs()
      requires Valid()
      modifies this`table, cmdtable
      ensures Valid() && table == WithoutFunctions(old(table))
    {
      Splice((e: Ent) => e.kind != CMDFUNCTION);
    }

    /** Called before PATH is changed. */
    method ChangePath(newval: string)
      requires Valid()
      modifies this`table, this`builtinloc, cmdtable
      ensures Valid() && Abs() == Step(w, old(Abs()), SetPath(newval)).(path := pathval)
    {
      var firstchange, bltin := SearchPath.PathChange(pathval, newval, builtinloc);
      if builtinloc < 0 && bltin >= 0 {
        builtinloc := bltin;  // zap builtins
      }
      ClearCmdEntry(firstchange);
      builtinloc := bltin;
    }

    /** Adds a command entry, or replaces the entry of the name. */
    method AddCmdEntry(name: string, kind: Kind, param: int)
      requires Valid()
      modifies this`table, this`lastBucket, this`lastIndex, cmdtable
      ensures Valid() && table == Define(old(table), name, kind, param)
    {
      var found := CmdLookup(name);
      PositionInTable(name);
      var rehash := found && Last().rehash;
      SetLast(name, Ent(kind, param, rehash));
    }

    method RemoveFunc(name: string) returns (status: int)
      requires Valid()
      modifies this`table, this`lastBucket, this`lastIndex, cmdtable
      ensures Valid() && table == Undefine(old(table), name)
      ensures status == if name in old(table) && old(table)[name].kind == CMDFUNCTION then 0 else 1
    {
      var found := CmdLookup(name);
      PositionInTable(name);
      if found && Last().kind == CMDFUNCTION {
        DeleteCmdEntry(name);
        return 0;
      }
      return 1;
    }

    /** Resolves a command name.  With DO_ABS, `abs` is what stat says of the name.  `path` is the path to
        search: PATH itself unless DO_BRUTE is set. */
    method FindCommand(name: string, abs: Option<bool>, brute: bool, nofun: bool, path: string)
        returns (entry: CmdEntry)
      requires Valid() && (!brute ==> path == pathval)
      modifies this`table, this`lastBucket, this`lastIndex, cmdtable
      ensures Valid()
      ensures var temp := if brute then Some(path) else None;
              && Abs() == Step(w, old(Abs()), Lookup(name, temp, nofun))
              && (abs == None || '/' !in name ==> entry == Find(w, old(Abs()), name, temp, nofun).0)
      ensures '/' in name ==>
        entry == match abs
                 case None => Found(CMDNORMAL, 0)
                 case Some(there) => if there then Found(CMDNORMAL, -1) else Unknown
      ensures old(Coherent(w, Abs())) && Clean(path) && '/' !in name ==>
        Answers(w, cwd, if nofun then map[] else funs, name, path, entry)
    {
      hide Coherent, Clean, Answers, Components, SearchFiles, MarkIndex, Rescan;
      if old(Coherent(w, Abs())) && Clean(path) && '/' !in name {
        FindAnswers(w, Abs(), name, if brute then Some(path) else None, nofun);
      }
      if HasSlash(name) {
        return if abs == None then THE_FILE else if abs.value then Found(CMDNORMAL, -1) else Unknown;
      }
      var bltin, firstchange := builtinloc, NO_CHANGE;
      if brute {
        firstchange, bltin := SearchPath.PathChange(pathval, path, builtinloc);
      }
      entry := FindWith(name, brute, nofun, path, firstchange, bltin);
    }

    /** find_command from the lookup in the table on. */
    method FindWith(name: string, brute: bool, nofun: bool, path: string, firstchange: int, bltin: int)
        returns (entry: CmdEntry)
      requires Valid()
      modifies this`table, this`lastBucket, this`lastIndex, cmdtable
      ensures Valid()
      ensures (entry, table) == Apply(old(table), name,
                Decide(w, cwd, old(table), builtinloc, name, brute, nofun, Components(path), firstchange, bltin))
    {
      var found := CmdLookup(name);
      PositionInTable(name);
      var updatetbl := true;
      if found && !Last().rehash {
        if Last().kind == CMDFUNCTION {
          if nofun {
            updatetbl := false;
          } else {
            entry := Success(name);
            return;
          }
        } else if brute && Outdated(Last(), builtinloc, firstchange, bltin) {
          // need to recompute the entry
        } else {
          entry := Success(name);
          return;
        }
      }
      if IsRegular(name) {
        if found && Last().kind == CMDBUILTIN {
          entry := Success(name);
          return;
        }
      } else if brute && firstchange == 0 {
        updatetbl := false;
      }
      entry := FindAnew(name, path, found, firstchange, bltin, updatetbl);
    }

    /** The rest of find_command: a builtin that comes first, or the directories. */
    method FindAnew(name: string, path: string, found: bool, firstchange: int, bltin: int, updatetbl: bool)
        returns (entry: CmdEntry)
      requires Valid() && (found <==> name in table)
      requires lastBucket == Hash(name) && lastIndex == Position(cmdtable[lastBucket], name)
      modifies this`table, this`lastBucket, this`lastIndex, cmdtable
      ensures Valid()
      ensures (entry, table) == Apply(old(table), name,
                DecideAnew(w, cwd, old(table), builtinloc, name, Components(path), firstchange, bltin, updatetbl))
    {
      if (bltin < 0 || IsRegular(name)) && name in w.builtins {
        entry := NewEntry(name, CMDBUILTIN, w.builtins[name], updatetbl);
        return;
      }
      PositionInTable(name);
      var prev := if !found || !Last().rehash then -1
                  else if Last().kind == CMDBUILTIN then builtinloc
                  else Last().param;
      var r := LookInDirectories(w, name, cwd, path, prev, firstchange, updatetbl);
      NoChangeHasPrev(w, cwd, name, Components(path), 0, prev, firstchange, updatetbl);
      entry := Finish(name, found, r);
    }

    /** The entry of the last lookup is used, and is not stale any more. */
    method Success(name: string) returns (entry: CmdEntry)
      requires Valid() && name in table
      requires lastBucket == Hash(name) && lastIndex == Position(cmdtable[lastBucket], name)
      modifies this`table, cmdtable
      ensures Valid() && (entry, table) == Apply(old(table), name, Reuse)
    {
      PositionInTable(name);
      var e := Last();
      SetLast(name, e.(rehash := false));
      entry := Found(e.kind, e.param);
    }

    method NewEntry(name: string, kind: Kind, param: int, updatetbl: bool) returns (entry: CmdEntry)
      requires Valid()
      modifies this`table, this`lastBucket, this`lastIndex, cmdtable
      ensures Valid()
      ensures (entry, table) == Apply(old(table), name, if updatetbl then Store(kind, param) else Report(kind, param))
    {
      if updatetbl {
        var found := CmdLookup(name);
        SetLast(name, Ent(kind, param, false));
      }
      entry := Found(kind, param);
    }

    /** The end of find_command, once its loop over the directories has ended with r. */
    method Finish(name: string, found: bool, r: LoopEnd) returns (entry: CmdEntry)
      requires Valid() && (found <==> name in table) && (r.NoChange? ==> found)
      requires lastBucket == Hash(name) && lastIndex == Position(cmdtable[lastBucket], name)
      modifies this`table, this`lastBucket, this`lastIndex, cmdtable
      ensures Valid()
      ensures (entry, table) == Apply(old(table), name, AfterLoop(old(table), name, r))
    {
      match r
      case HitBuiltin(code, upd) => entry := NewEntry(name, CMDBUILTIN, code, upd);
      case HitFile(index, upd) => entry := NewEntry(name, CMDNORMAL, index, upd);
      case NoChange => entry := Success(name);
      case Missed(upd) =>
        if found && upd {
          DeleteCmdEntry(name);
        }
        entry := Unknown;
    }

    /** A successful cd. */
    method ChangeDirectory(dir: string)
      requires Valid()
      modifies this`table, this`cwd, cmdtable
      ensures Valid() && Abs() == Step(w, old(Abs()), Cd(dir))
    {
      cwd := dir;
      HashCd();
    }

    /** An assignment to PATH. */
    method AssignPath(newval: string)
      requires Valid()
      modifies this`table, this`builtinloc, this`pathval, cmdtable
      ensures Valid() && Abs() == Step(w, old(Abs()), SetPath(newval))
    {
      ChangePath(newval);
      pathval := newval;
    }

    method DefineFunction(name: string, func: int)
      requires Valid()
      modifies this`table, this`lastBucket, this`lastIndex, this`funs, cmdtable
      ensures Valid() && Abs() == Step(w, old(Abs()), Defun(name, func))
    {
      AddCmdEntry(name, CMDFUNCTION, func);
      funs := funs[name := func];
    }

    method UnsetFunction(name: string) returns (status: int)
      requires Valid()
      modifies this`table, this`lastBucket, this`lastIndex, this`funs, cmdtable
      ensures Valid() && Abs() == Step(w, old(Abs()), UnsetFunc(name))
      ensures old(Coherent(w, Abs())) ==> (status == 0 <==> name in old(funs))
    {
      if Coherent(w, Abs()) && name in table { assert EntryOk(w, Abs(), name); }
      status := RemoveFunc(name);
      funs := funs - {name};
    }

    method DeleteFunctions()
      requires Valid()
      modifies this`table, this`funs, cmdtable
      ensures Valid() && Abs() == Step(w, old(Abs()), DeleteFuncs)
    {
      DeleteAllFuncs();
      funs := map[];
    }

    /** `hash -r` */
    method HashReset()
      requires Valid()
      modifies this`table, cmdtable
      ensures Valid() && Abs() == Step(w, old(Abs()), HashClear)
    {
      ClearCmdEntry(0);
    }

    /** `hash name` */
    method HashCmd(name: string) returns (c: int)
      requires Valid()
      modifies this`table, this`lastBucket, this`lastIndex, cmdtable
      ensures Valid() && Abs() == Step(w, old(Abs()), HashName(name))
      ensures old(Coherent(w, Abs())) ==>
                (c == 1 <==> Search(w, cwd, funs, name, Components(pathval)) == Unknown)
    {
      hide IsRegular, Find, OutcomeOf, Decide, Clean, ClearFrom, Scan, Rescan, Components, MarkIndex, Search, Harmful,
        Run, Safe;
      ghost var s := Abs();
      var found := CmdLookup(name);
      PositionInTable(name);
      if found && (Last().kind == CMDNORMAL || (Last().kind == CMDBUILTIN && builtinloc >= 0)) {
        DeleteCmdEntry(name);
      }
      if Coherent(w, s) {
        if name in s.table { assert EntryOk(w, s, name); }
        OneEntry(w, s, Abs(), name);
        FindIsSearch(w, Abs(), name, None, false);
      }
      var entry := FindCommand(name, None, false, false, pathval);
      c := if entry == Unknown then 1 else 0;
    }

    /** What evalcommand relies on: with a coherent cache, the answer is the one of a plain search. */
    method Resolve(name: string, brute: bool, nofun: bool, path: string) returns (entry: CmdEntry)
      requires Valid() && (!brute ==> path == pathval)
      requires Coherent(w, Abs()) && Clean(path)
      modifies this`table, this`lastBucket, this`lastIndex, cmdtable
      ensures Valid()
      ensures entry == Search(w, cwd, if nofun then map[] else funs, name, Components(path))
      ensures '/' !in name ==> Answers(w, cwd, if nofun then map[] else funs, name, path, entry)
      ensures Coherent(w, Abs()) <==> !Harmful(w, old(Abs()), name, if brute then Some(path) else None)
    {
      var temp := if brute then Some(path) else None;
      FindIsSearch(w, Abs(), name, temp, nofun);
      FindKeepsCoherence(w, Abs(), name, temp, nofun);
      entry := FindCommand(name, None, brute, nofun, path);
    }

    /** A name of the table is in its chain, with its entry. */
    lemma PositionInTable(name: string)
      requires Valid()
      ensures var chain := cmdtable[Hash(name)];
              && (name in table <==> Position(chain, name) < |chain|)
              && (name in table ==> chain[Position(chain, name)].ent == table[name])
    {
      assert Holds(cmdtable[Hash(name)], Hash(name), table);
    }
  }
}
