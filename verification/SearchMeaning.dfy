/** What a search of PATH finds, told from the text of PATH and the files there are. */
module SearchMeaning {
  import opened Options
  import opened SearchPath
  import opened CommandCache
  import opened CacheCoherence

  // ---------------------------------------------------------------- the parts of a PATH

  function Join(parts: seq<string>): string
    requires parts != []
  {
    if |parts| == 1 then parts[0] else parts[0] + ":" + Join(parts[1..])
  }

  /** The parts are the text of PATH between its colons. */
  predicate IsSplit(parts: seq<string>, path: string) {
    parts != [] && Join(parts) == path && forall i :: 0 <= i < |parts| ==> ':' !in parts[i]
  }

  /** Each PATH has one sequence of parts, and that is what Components gives. */
  lemma {:induction false} SplitIsComponents(parts: seq<string>, path: string)
    ensures IsSplit(parts, path) <==> parts == Components(path)
    decreases |path|, |parts|
  {
    if parts == Components(path) { ComponentsAreSplit(path); }
    if IsSplit(parts, path) {
      var p := parts[0];
      assert path[..|p|] == p;
      if |parts| == 1 {
        AfterComponent(path, |p|);
        assert Components(path) == [Components(path)[0]] + Components(path)[1..];
      } else {
        assert path[|p| + 1..] == Join(parts[1..]);
        AfterComponent(path, |p|);
        SplitIsComponents(parts[1..], path[|p| + 1..]);
        assert Components(path) == [Components(path)[0]] + Components(path)[1..] == parts;
      }
    }
  }

  lemma {:induction false} ComponentsAreSplit(path: string)
    ensures IsSplit(Components(path), path)
  {
    if path != "" {
      var c, rest := Components(path), Components(path[1..]);
      ComponentsAreSplit(path[1..]);
      assert path == [path[0]] + path[1..];
      if path[0] == ':' {
        assert c[1..] == rest;
      } else if |rest| > 1 {
        assert c[1..] == rest[1..];
        assert [path[0]] + (rest[0] + ":" + Join(rest[1..])) == c[0] + ":" + Join(c[1..]);
      }
    }
  }

  // ---------------------------------------------------------------- what a part stands for

  /** The name in the directory d of the part: of the current directory, if d is empty. */
  predicate NamesFile(w: World, cwd: string, d: string, name: string) {
    if d == "" then cwd in w.relative && name in w.relative[cwd]
    else if d[0] == '/' then d + "/" + name in w.files
    else cwd in w.relative && d + "/" + name in w.relative[cwd]
  }

  /** A part with an option is no directory to search. */
  predicate HasFile(w: World, cwd: string, part: string, name: string) {
    '%' !in part && NamesFile(w, cwd, part, name)
  }

  /** The first option of the part begins with `builtin`. */
  ghost predicate NamesBuiltins(part: string) {
    exists k :: 0 <= k < |part| && part[k] == '%' && '%' !in part[..k] && "builtin" <= part[k + 1..]
  }

  /** Some option of the part does. */
  ghost predicate MentionsBuiltins(part: string) {
    exists k :: 0 <= k < |part| && part[k] == '%' && "builtin" <= part[k + 1..]
  }

  lemma {:induction false} NoOption(part: string)
    ensures OptionText(part).None? <==> '%' !in part
    ensures '%' !in part ==> Directory(part) == part
  {
    if part != "" && part[0] != '%' { NoOption(part[1..]); }
  }

  lemma {:induction false} OptionIs(part: string, k: nat)
    requires k < |part| && part[k] == '%' && '%' !in part[..k]
    ensures OptionText(part) == Some(part[k + 1..]) && Directory(part) == part[..k]
  {
    if k > 0 {
      assert part[0] == part[..k][0] && part[..k][1..] == part[1..][..k - 1] && part[1..][k..] == part[k + 1..];
      OptionIs(part[1..], k - 1);
    } else {
      assert part[..0] == "";
    }
  }

  lemma {:induction false} FirstOption(part: string) returns (k: nat)
    requires '%' in part
    ensures k < |part| && part[k] == '%' && '%' !in part[..k]
  {
    if part[0] == '%' {
      k := 0;
    } else {
      k := FirstOption(part[1..]);
      assert part[..k + 1] == [part[0]] + part[1..][..k];
      k := k + 1;
    }
  }

  lemma BuiltinsAreNamed(part: string)
    ensures IsBuiltinOption(part) <==> NamesBuiltins(part)
  {
    NoOption(part);
    if '%' in part {
      var k := FirstOption(part);
      OptionIs(part, k);
    }
  }

  lemma {:induction false} BuiltinsAreMentioned(part: string)
    ensures HasBuiltinMark(part) <==> MentionsBuiltins(part)
  {
    if part != "" {
      BuiltinsAreMentioned(part[1..]);
      if MentionsBuiltins(part[1..]) {
        var k :| 0 <= k < |part[1..]| && part[1..][k] == '%' && "builtin" <= part[1..][k + 1..];
        assert part[k + 1] == '%' && part[k + 2..] == part[1..][k + 1..];
      }
      if MentionsBuiltins(part) {
        var k :| 0 <= k < |part| && part[k] == '%' && "builtin" <= part[k + 1..];
        if k > 0 { assert part[1..][k - 1] == '%' && part[1..][k..] == part[k + 1..]; }
      }
    }
  }

  lemma FileIsNamed(w: World, cwd: string, part: string, name: string)
    requires '/' !in name
    ensures OptionText(part).None? && w.IsFile(cwd, FullName(part, name)) <==> HasFile(w, cwd, part, name)
  {
    NoOption(part);
    if '%' !in part && part != "" { assert (part + "/" + name)[0] == part[0]; }
    if name != "" { assert name[0] in name; }
  }

  // ---------------------------------------------------------------- what is found

  /** No part before number i has the file. */
  predicate NoFileBefore(w: World, cwd: string, name: string, parts: seq<string>, i: nat) {
    forall j :: 0 <= j < i && j < |parts| ==> !HasFile(w, cwd, parts[j], name)
  }

  /** The builtins that are found before any file. */
  predicate IsRegularBuiltin(name: string) {
    || name == "alias" || name == "bg" || name == "cd" || name == "command" || name == "false" || name == "fc"
    || name == "fg" || name == "getopts" || name == "jobs" || name == "kill" || name == "newgrp" || name == "read"
    || name == "true" || name == "umask" || name == "unalias" || name == "wait"
  }

  lemma RegularOnes(name: string)
    ensures IsRegular(name) <==> IsRegularBuiltin(name)
  {
  }

  /** The builtin is looked at before the part number i: before all of them, if it is a regular one or PATH does
      not say where builtins come, and else where PATH says so. */
  ghost predicate BuiltinBefore(name: string, parts: seq<string>, i: nat) {
    || IsRegularBuiltin(name)
    || (forall j :: 0 <= j < |parts| ==> !MentionsBuiltins(parts[j]))
    || (exists j :: 0 <= j < i && j < |parts| && NamesBuiltins(parts[j]))
  }

  /** The file of the part number i is found: no part before has one, and no builtin comes before. */
  ghost predicate FindsFile(w: World, cwd: string, name: string, parts: seq<string>, i: int) {
    && 0 <= i < |parts| && HasFile(w, cwd, parts[i], name) && NoFileBefore(w, cwd, name, parts, i)
    && !(name in w.builtins && BuiltinBefore(name, parts, i))
  }

  /** The builtin is found: it comes before some part such that no part up to there has the file. */
  ghost predicate FindsBuiltin(w: World, cwd: string, name: string, parts: seq<string>) {
    && name in w.builtins
    && exists i :: 0 <= i <= |parts| && BuiltinBefore(name, parts, i) && NoFileBefore(w, cwd, name, parts, i)
  }

  ghost predicate Means(w: World, cwd: string, name: string, parts: seq<string>, entry: CmdEntry) {
    match entry
    case Found(kind, param) =>
      || (kind == CMDNORMAL && FindsFile(w, cwd, name, parts, param))
      || (kind == CMDBUILTIN && FindsBuiltin(w, cwd, name, parts) && param == w.builtins[name])
    case Unknown =>
      !FindsBuiltin(w, cwd, name, parts) && NoFileBefore(w, cwd, name, parts, |parts|)
  }

  // ---------------------------------------------------------------- the search finds that

  /** A search from the part number i on, if nothing has been found before. */
  lemma {:induction false} ScanMeans(w: World, cwd: string, name: string, parts: seq<string>, i: nat)
    requires '/' !in name && i <= |parts|
    ensures match Scan(w, cwd, name, parts, i)
            case Found(kind, param) =>
              if kind == CMDNORMAL then
                && i <= param < |parts| && HasFile(w, cwd, parts[param], name)
                && NoneFrom(w, cwd, name, parts, i, param) && !BuiltinFrom(w, name, parts, i, param)
              else
                && kind == CMDBUILTIN && name in w.builtins && param == w.builtins[name]
                && exists k :: i <= k < |parts| && NamesBuiltins(parts[k]) && NoneFrom(w, cwd, name, parts, i, k)
            case Unknown =>
              NoneFrom(w, cwd, name, parts, i, |parts|) && !BuiltinFrom(w, name, parts, i, |parts|)
    decreases |parts| - i
  {
    hide HasFile, NamesBuiltins, OptionText, FullName, IsBuiltinOption;
    if i < |parts| {
      BuiltinsAreNamed(parts[i]);
      FileIsNamed(w, cwd, parts[i], name);
      BuiltinIsNoFile(w, cwd, parts[i], name);
      ScanMeans(w, cwd, name, parts, i + 1);
    }
  }

  predicate NoneFrom(w: World, cwd: string, name: string, parts: seq<string>, i: nat, k: int) {
    forall j :: i <= j < k && j < |parts| ==> !HasFile(w, cwd, parts[j], name)
  }

  ghost predicate BuiltinFrom(w: World, name: string, parts: seq<string>, i: nat, k: int) {
    name in w.builtins && exists j :: i <= j <= k && j < |parts| && NamesBuiltins(parts[j])
  }

  lemma BuiltinIsNoFile(w: World, cwd: string, part: string, name: string)
    ensures NamesBuiltins(part) ==> !HasFile(w, cwd, part, name)
  {
  }

  /** Only one entry is meant. */
  lemma OneMeaning(w: World, cwd: string, name: string, parts: seq<string>, a: CmdEntry, b: CmdEntry)
    requires Means(w, cwd, name, parts, a) && Means(w, cwd, name, parts, b)
    ensures a == b
  {
    hide HasFile;
    hide NamesBuiltins, MentionsBuiltins;
  }

  /** Without a function of that name, the search gives the entry that PATH and the files mean, and no other. */
  lemma SearchMeans(w: World, cwd: string, name: string, parts: seq<string>, entry: CmdEntry)
    requires '/' !in name && parts != []
    ensures SearchFiles(w, cwd, name, parts) == entry <==> Means(w, cwd, name, parts, entry)
  {
    hide HasFile, NamesBuiltins, Means;
    SearchIsMeant(w, cwd, name, parts);
    if Means(w, cwd, name, parts, entry) { OneMeaning(w, cwd, name, parts, entry, SearchFiles(w, cwd, name, parts)); }
  }

  lemma SearchIsMeant(w: World, cwd: string, name: string, parts: seq<string>)
    requires '/' !in name
    ensures Means(w, cwd, name, parts, SearchFiles(w, cwd, name, parts))
  {
    hide HasFile, NamesBuiltins, MentionsBuiltins, IsRegular, IsRegularBuiltin, Scan, HasBuiltinMark;
    RegularOnes(name);
    ScanMeans(w, cwd, name, parts, 0);
    forall j | 0 <= j < |parts|
      ensures HasBuiltinMark(parts[j]) <==> MentionsBuiltins(parts[j])
    {
      BuiltinsAreMentioned(parts[j]);
    }
    if BuiltinFirst(w, name, MarkIndex(parts)) {
      assert BuiltinBefore(name, parts, 0) && NoFileBefore(w, cwd, name, parts, 0);
    } else {
      ScanIsMeant(w, cwd, name, parts);
    }
  }

  /** If no builtin is looked at before PATH, what the scan of PATH finds is what is meant. */
  lemma ScanIsMeant(w: World, cwd: string, name: string, parts: seq<string>)
    requires '/' !in name
    requires name in w.builtins ==>
      !IsRegular(name) && exists j :: 0 <= j < |parts| && MentionsBuiltins(parts[j])
    ensures Means(w, cwd, name, parts, Scan(w, cwd, name, parts, 0))
  {
    hide HasFile, NamesBuiltins, MentionsBuiltins, IsRegular, IsRegularBuiltin, Scan;
    RegularOnes(name);
    ScanMeans(w, cwd, name, parts, 0);
    var r := Scan(w, cwd, name, parts, 0);
    if r.Found? && r.kind == CMDBUILTIN {
      var k :| 0 <= k < |parts| && NamesBuiltins(parts[k]) && NoneFrom(w, cwd, name, parts, 0, k);
      NamedIsNoFile(w, cwd, name, parts, k);
      assert BuiltinBefore(name, parts, k + 1) && NoFileBefore(w, cwd, name, parts, k + 1);
    }
  }

  lemma NamedIsNoFile(w: World, cwd: string, name: string, parts: seq<string>, k: nat)
    requires k < |parts| && NamesBuiltins(parts[k])
    ensures !HasFile(w, cwd, parts[k], name)
  {
    BuiltinIsNoFile(w, cwd, parts[k], name);
  }

  /** What a command name means, from the text of PATH: the parts of PATH are those between its colons. */
  lemma CommandMeans(w: World, cwd: string, funs: map<string, int>, name: string, path: string, parts: seq<string>,
                     entry: CmdEntry)
    requires '/' !in name && name !in funs && IsSplit(parts, path)
    ensures Search(w, cwd, funs, name, Components(path)) == entry <==> Means(w, cwd, name, parts, entry)
  {
    hide Means, Components, SearchFiles;
    SplitIsComponents(parts, path);
    SearchMeans(w, cwd, name, parts, entry);
  }

  /** What a command name without a slash is to be: a function of that name, or else what PATH means. */
  ghost predicate Answers(w: World, cwd: string, funs: map<string, int>, name: string, path: string, entry: CmdEntry) {
    if name in funs then entry == Found(CMDFUNCTION, funs[name])
    else forall parts :: IsSplit(parts, path) ==> Means(w, cwd, name, parts, entry)
  }

  lemma SearchAnswers(w: World, cwd: string, funs: map<string, int>, name: string, path: string, entry: CmdEntry)
    requires '/' !in name
    ensures Search(w, cwd, funs, name, Components(path)) == entry <==> Answers(w, cwd, funs, name, path, entry)
  {
    hide Means, Components, SearchFiles, IsSplit;
    if name !in funs {
      SplitIsComponents(Components(path), path);
      forall parts | IsSplit(parts, path)
        ensures Search(w, cwd, funs, name, Components(path)) == entry <==> Means(w, cwd, name, parts, entry)
      {
        CommandMeans(w, cwd, funs, name, path, parts, entry);
      }
    }
  }

  /** From a coherent cache, a lookup gives just that. */
  lemma FindAnswers(w: World, s: State, name: string, temp: Option<string>, nofun: bool)
    requires Coherent(w, s) && CleanTemp(temp) && '/' !in name
    ensures Answers(w, s.cwd, Visible(s, nofun), name, if temp.Some? then temp.value else s.path,
                    Find(w, s, name, temp, nofun).0)
  {
    hide Answers, Search, Find, Coherent;
    FindIsSearch(w, s, name, temp, nofun);
    SearchAnswers(w, s.cwd, Visible(s, nofun), name, if temp.Some? then temp.value else s.path,
                  Find(w, s, name, temp, nofun).0);
  }
}
