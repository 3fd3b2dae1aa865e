/** PATH strings of sh (src/bin/sh/exec.c): splitting into components, the options behind `%`,
    and the comparison of an old and a new PATH. */
module SearchPath {
  import opened Options

  /** `firstchange` when nothing has changed. */
  const NO_CHANGE := 9999

  /** The parts of a PATH between colons; there is always at least one. */
  function Components(path: string): (r: seq<string>)
    ensures |r| >= 1
  {
    if path == "" then [""]
    else
      var rest := Components(path[1..]);
      if path[0] == ':' then [""] + rest else [[path[0]] + rest[0]] + rest[1..]
  }

  /** The directory of a component: the text before its first `%`. */
  function Directory(comp: string): string {
    if comp == "" || comp[0] == '%' then "" else [comp[0]] + Directory(comp[1..])
  }

  /** The option of a component: the text after its first `%`. */
  function OptionText(comp: string): Option<string> {
    if comp == "" then None
    else if comp[0] == '%' then Some(comp[1..])
    else OptionText(comp[1..])
  }

  predicate IsBuiltinOption(comp: string) {
    OptionText(comp).Some? && "builtin" <= OptionText(comp).value
  }

  predicate IsFuncOption(comp: string) {
    OptionText(comp).Some? && "func" <= OptionText(comp).value
  }

  /** The file a component stands for. */
  function FullName(comp: string, name: string): string {
    if Directory(comp) == "" then name else Directory(comp) + "/" + name
  }

  predicate IsAbsolute(fullname: string) {
    fullname != "" && fullname[0] == '/'
  }

  /** Some `%` of the component, not only the first one, is followed by `builtin`. */
  predicate HasBuiltinMark(comp: string) {
    comp != "" && ((comp[0] == '%' && "builtin" <= comp[1..]) || HasBuiltinMark(comp[1..]))
  }

  /** path_change looks at every `%`, padvance only at the first one of a component.  A clean PATH
      has no component on which they disagree, and no directory of autoloaded functions. */
  predicate Clean(path: string) {
    forall comp :: comp in Components(path) ==>
      (HasBuiltinMark(comp) <==> IsBuiltinOption(comp)) && !IsFuncOption(comp)
  }

  /** The index of the first component with a builtin mark, or -1. */
  function MarkIndex(comps: seq<string>): (i: int)
    ensures -1 <= i < |comps|
    ensures i >= 0 ==> HasBuiltinMark(comps[i])
    ensures forall k :: 0 <= k < |comps| && (i < 0 || k < i) ==> !HasBuiltinMark(comps[k])
  {
    if comps == [] then -1
    else if HasBuiltinMark(comps[0]) then 0
    else
      var i := MarkIndex(comps[1..]);
      assert forall k :: 1 <= k < |comps| ==> comps[k] == comps[1..][k - 1];
      if i < 0 then -1 else i + 1
  }

  /** How many components two lists begin with in common. */
  function CommonLength(a: seq<string>, b: seq<string>): (n: nat)
    ensures n <= |a| && n <= |b|
    ensures forall k :: 0 <= k < n ==> a[k] == b[k]
    ensures n < |a| && n < |b| ==> a[n] != b[n]
  {
    if a != [] && b != [] && a[0] == b[0] then
      var n := CommonLength(a[1..], b[1..]);
      assert forall k :: 1 <= k <= n ==> a[k] == a[1..][k - 1] && b[k] == b[1..][k - 1];
      n + 1
    else 0
  }

  /** The first component in which two PATHs differ. */
  function FirstChange(o: string, n: string): int {
    if o == n then NO_CHANGE else CommonLength(Components(o), Components(n))
  }

  /** An option never reaches into the next component. */
  lemma {:induction false} OptionOfComponent(path: string, p: nat)
    requires p <= |path|
    requires forall k :: 0 <= k < p ==> path[k] != ':' && path[k] != '%'
    requires p < |path| ==> path[p] == ':' || path[p] == '%'
    ensures Directory(Components(path)[0]) == path[..p]
    ensures p == |path| || path[p] == ':' ==> OptionText(Components(path)[0]) == None
    ensures p < |path| && path[p] == '%' ==>
      OptionText(Components(path)[0]) == Some(Components(path[p + 1..])[0])
  {
    if p > 0 {
      assert path[1..][p - 1..] == path[p..];
      assert forall k :: 0 <= k < p - 1 ==> path[1..][k] == path[k + 1];
      OptionOfComponent(path[1..], p - 1);
      if p < |path| && path[p] == '%' { assert path[1..][p..] == path[p + 1..]; }
      assert [path[0]] + path[1..][..p - 1] == path[..p];
    }
  }

  lemma {:induction false} PrefixOfComponent(pfx: string, s: string)
    requires ':' !in pfx
    ensures pfx <= s <==> pfx <= Components(s)[0]
  {
    if pfx != "" && s != "" && s[0] == pfx[0] {
      PrefixOfComponent(pfx[1..], s[1..]);
      var c := Components(s)[0];
      assert c[1..] == Components(s[1..])[0];
      assert pfx <= s <==> pfx[1..] <= s[1..];
      assert pfx <= c <==> pfx[1..] <= c[1..];
    }
  }

  /** What follows the first component: nothing, or the rest behind its colon. */
  lemma {:induction false} AfterComponent(path: string, p: nat)
    requires p <= |path|
    requires forall k :: 0 <= k < p ==> path[k] != ':'
    requires p < |path| ==> path[p] == ':'
    ensures Components(path)[0] == path[..p]
    ensures Components(path)[1..] == if p < |path| then Components(path[p + 1..]) else []
  {
    if p > 0 {
      assert forall k :: 0 <= k < p - 1 ==> path[1..][k] == path[k + 1];
      AfterComponent(path[1..], p - 1);
      if p < |path| { assert path[1..][p..] == path[p + 1..]; }
      assert [path[0]] + path[1..][..p - 1] == path[..p];
    }
  }

  /** The next possible file for a name, with the option of its component if there is one. */
  method Padvance(path: string, name: string) returns (fullname: string, pathopt: Option<string>, rest: Option<string>)
    ensures fullname == FullName(Components(path)[0], name)
    ensures pathopt.Some? <==> OptionText(Components(path)[0]).Some?
    ensures pathopt.Some? ==> ("builtin" <= pathopt.value <==> IsBuiltinOption(Components(path)[0]))
    ensures pathopt.Some? ==> ("func" <= pathopt.value <==> IsFuncOption(Components(path)[0]))
    ensures Components(path)[1..] == if rest.Some? then Components(rest.value) else []
    ensures rest.Some? ==> |rest.value| < |path|
  {
    hide Components, Directory, OptionText;
    var p := 0;
    while p < |path| && path[p] != ':' && path[p] != '%'
      invariant p <= |path|
      invariant forall k :: 0 <= k < p ==> path[k] != ':' && path[k] != '%'
    {
      p := p + 1;
    }
    OptionOfComponent(path, p);
    fullname := if p > 0 then path[..p] + "/" + name else name;
    pathopt := None;
    if p < |path| && path[p] == '%' {
      pathopt := Some(path[p + 1..]);
      PrefixOfComponent("builtin", path[p + 1..]);
      PrefixOfComponent("func", path[p + 1..]);
      while p < |path| && path[p] != ':'
        invariant p <= |path|
        invariant forall k :: 0 <= k < p ==> path[k] != ':'
      {
        p := p + 1;
      }
    }
    AfterComponent(path, p);
    rest := if p < |path| then Some(path[p + 1..]) else None;
  }

  /** The offset of the first builtin mark of a PATH, counted in components from `index`. */
  function MarkFrom(s: string, index: int): int {
    if s == "" then -1
    else if s[0] == '%' && "builtin" <= s[1..] then index
    else MarkFrom(s[1..], if s[0] == ':' then index + 1 else index)
  }

  lemma {:induction false} MarkFromIsMarkIndex(s: string, index: int)
    ensures MarkFrom(s, index) == var i := MarkIndex(Components(s)); if i < 0 then -1 else index + i
  {
    if s != "" {
      var c := Components(s);
      PrefixOfComponent("builtin", s[1..]);
      if s[0] == ':' {
        MarkFromIsMarkIndex(s[1..], index + 1);
        assert c[1..] == Components(s[1..]);
      } else {
        MarkFromIsMarkIndex(s[1..], index);
        assert c[0][1..] == Components(s[1..])[0];
        assert c[1..] == Components(s[1..])[1..];
      }
    }
  }

  /** A common first character adds to the common components exactly when it is a colon. */
  lemma CommonHead(o: string, n: string)
    requires o != n && o != "" && n != "" && o[0] == n[0]
    ensures o[1..] != n[1..]
    ensures CommonLength(Components(o), Components(n))
         == CommonLength(Components(o[1..]), Components(n[1..])) + if o[0] == ':' then 1 else 0
  {
    var a1, b1 := Components(o[1..]), Components(n[1..]);
    SameTail(o, n);
    if o[0] == ':' {
      CommonCons("", a1, b1);
    } else {
      SameHead(o[0], a1[0], b1[0]);
      CommonTail([[o[0]] + a1[0]] + a1[1..], [[n[0]] + b1[0]] + b1[1..], a1, b1);
    }
  }

  lemma SameTail(o: string, n: string)
    requires o != n && o != "" && n != "" && o[0] == n[0]
    ensures o[1..] != n[1..]
  {
    assert o == [o[0]] + o[1..] && n == [n[0]] + n[1..];
  }

  lemma SameHead(c: char, s: string, t: string)
    ensures [c] + s == [c] + t <==> s == t
  {
    assert ([c] + s)[1..] == s && ([c] + t)[1..] == t;
  }

  lemma CommonCons(x: string, a: seq<string>, b: seq<string>)
    ensures CommonLength([x] + a, [x] + b) == CommonLength(a, b) + 1
  {
    assert ([x] + a)[1..] == a && ([x] + b)[1..] == b;
  }

  lemma CommonTail(a: seq<string>, b: seq<string>, a1: seq<string>, b1: seq<string>)
    requires a != [] && b != [] && a1 != [] && b1 != []
    requires a[0] == b[0] <==> a1[0] == b1[0]
    requires a[1..] == a1[1..] && b[1..] == b1[1..]
    ensures CommonLength(a, b) == CommonLength(a1, b1)
  {
    assert CommonLength(a, b) == if a[0] == b[0] then CommonLength(a[1..], b[1..]) + 1 else 0;
  }

  /** At the first difference one more component is common only if it ends in both PATHs. */
  lemma NoCommonHead(o: string, n: string)
    requires o == "" || n == "" || o[0] != n[0]
    requires o != n
    ensures CommonLength(Components(o), Components(n))
         == if (o == "" && n[0] == ':') || (n == "" && o[0] == ':') then 1 else 0
  {
    var a, b := Components(o), Components(n);
    if o != "" { assert o[0] != ':' ==> a[0] != "" && a[0][0] == o[0]; }
    if n != "" { assert n[0] != ':' ==> b[0] != "" && b[0][0] == n[0]; }
    assert a[0] == b[0] <==> (o == "" && n[0] == ':') || (n == "" && o[0] == ':');
  }

  /** The first changed component of a new PATH, and the index of its builtin mark. */
  method PathChange(pathval: string, newval: string, builtinloc: int) returns (firstchange: int, bltin: int)
    ensures bltin == MarkIndex(Components(newval))
    ensures firstchange == if builtinloc >= 0 && bltin < 0 then 0 else FirstChange(pathval, newval)
  {
    hide *;
    var old', new' := pathval, newval;
    firstchange := NO_CHANGE;
    var index := 0;
    bltin := -1;
    ghost var changed := false;
    StartToCompare(pathval, newval);
    while true
      invariant Comparing(pathval, newval, old', new', changed, firstchange, index)
      invariant Marking(newval, new', index, bltin)
      decreases |new'|
    {
      if DifferAt(old', new') {
        DifferHere(pathval, newval, old', new', changed, firstchange, index);
        firstchange := index;
        if (old' == "" && new'[0] == ':') || (old' != "" && old'[0] == ':' && new' == "") {
          firstchange := firstchange + 1;
        }
        old', changed := new', true;
      }
      if new' == "" { break; }
      CompareOn(pathval, newval, old', new', changed, firstchange, index);
      MarkOn(newval, new', index, bltin);
      if new'[0] == '%' && bltin < 0 && "builtin" <= new'[1..] {
        bltin := index;
      }
      if new'[0] == ':' {
        index := index + 1;
      }
      new', old' := new'[1..], old'[1..];
    }
    AllCompared(pathval, newval, old', changed, firstchange, index, bltin);
    if builtinloc >= 0 && bltin < 0 {
      firstchange := 0;
    }
  }

  /** *old != *new, where a string ends with a NUL */
  predicate DifferAt(o: string, n: string) {
    if o == "" || n == "" then o != n else o[0] != n[0]
  }

  /** What has been found out when o and n are still to be compared, and index components are behind. */
  ghost predicate Comparing(pathval: string, newval: string, o: string, n: string, changed: bool, firstchange: int,
                            index: int) {
    if changed then o == n && firstchange == FirstChange(pathval, newval)
    else
      && firstchange == NO_CHANGE && (pathval == newval <==> o == n)
      && (o != n ==> FirstChange(pathval, newval) == index + CommonLength(Components(o), Components(n)))
  }

  /** The builtin mark has been found, or it is to be found in n. */
  ghost predicate Marking(newval: string, n: string, index: int, bltin: int) {
    && index >= 0 && bltin >= -1
    && MarkFrom(newval, 0) == if bltin >= 0 then bltin else MarkFrom(n, index)
  }

  lemma StartToCompare(pathval: string, newval: string)
    ensures Comparing(pathval, newval, pathval, newval, false, NO_CHANGE, 0) && Marking(newval, newval, 0, -1)
  {
    hide Components, CommonLength, MarkFrom;
  }

  lemma DifferHere(pathval: string, newval: string, o: string, n: string, changed: bool, firstchange: int, index: int)
    requires Comparing(pathval, newval, o, n, changed, firstchange, index) && DifferAt(o, n)
    ensures o != n && (o == "" ==> n != "") && !DifferAt(n, n)
    ensures var more := if (o == "" && n[0] == ':') || (o != "" && o[0] == ':' && n == "") then 1 else 0;
            Comparing(pathval, newval, n, n, true, index + more, index)
  {
    hide Components, CommonLength, FirstChange;
    NoCommonHead(o, n);
  }

  lemma CompareOn(pathval: string, newval: string, o: string, n: string, changed: bool, firstchange: int, index: int)
    requires Comparing(pathval, newval, o, n, changed, firstchange, index) && !DifferAt(o, n) && n != ""
    ensures o != "" && Comparing(pathval, newval, o[1..], n[1..], changed, firstchange,
                                 if n[0] == ':' then index + 1 else index)
  {
    hide Components, CommonLength, FirstChange;
    if o != n { CommonHead(o, n); }
  }

  lemma MarkOn(newval: string, n: string, index: int, bltin: int)
    requires Marking(newval, n, index, bltin) && n != ""
    ensures Marking(newval, n[1..], if n[0] == ':' then index + 1 else index,
                    if n[0] == '%' && bltin < 0 && "builtin" <= n[1..] then index else bltin)
  {
  }

  lemma AllCompared(pathval: string, newval: string, o: string, changed: bool, firstchange: int, index: int, bltin: int)
    requires Comparing(pathval, newval, o, "", changed, firstchange, index) && !DifferAt(o, "")
    requires Marking(newval, "", index, bltin)
    ensures firstchange == FirstChange(pathval, newval) && bltin == MarkIndex(Components(newval))
  {
    hide Components, CommonLength, MarkIndex;
    MarkFromIsMarkIndex(newval, 0);
  }
}
