/** The trims ${var#pat}, ${var##pat}, ${var%pat} and ${var%%pat} (src/bin/sh/expand.c), which work
    on the value where it stands in the stack block. */
module Trims {
  import opened Patterns
  import opened Quoting

  datatype Kind = Left | LeftMax | Right | RightMax

  predicate AtLeft(kind: Kind) {
    kind == Left || kind == LeftMax
  }

  // ---------------------------------------------------------------- what a trim is to do

  /** The pattern matches the part of the value that a cut at j would take away. */
  ghost predicate Hit(kind: Kind, e: seq<Elem>, v: seq<Char>, j: nat)
    requires j <= |v|
  {
    Accepts(e, if AtLeft(kind) then v[..j] else v[j..])
  }

  function Kept(kind: Kind, v: seq<Char>, j: nat): seq<Char>
    requires j <= |v|
  {
    if AtLeft(kind) then v[j..] else v[..j]
  }

  /** The first kind of each side takes away as little as possible, the other one as much. */
  predicate Better(kind: Kind, i: int, j: int) {
    if kind == Left || kind == RightMax then i < j else i > j
  }

  /** The value v is left without the shortest (or longest) part that matches, or as it is. */
  ghost predicate Trimmed(kind: Kind, e: seq<Elem>, v: seq<Char>, r: seq<Char>) {
    || (exists j :: 0 <= j <= |v| && Hit(kind, e, v, j) && r == Kept(kind, v, j)
                    && forall i :: 0 <= i <= |v| && Better(kind, i, j) ==> !Hit(kind, e, v, i))
    || (r == v && forall i :: 0 <= i <= |v| ==> !Hit(kind, e, v, i))
  }

  /** The same of the language of the pattern, as POSIX asks for it in section 2.6.2 of the Shell Command
      Language. */
  ghost predicate Optimal(kind: Kind, e: seq<Elem>, v: seq<Char>, r: seq<Char>) {
    || (exists j :: 0 <= j <= |v| && InLang(kind, e, v, j) && r == Kept(kind, v, j)
                    && forall i :: 0 <= i <= |v| && Better(kind, i, j) ==> !InLang(kind, e, v, i))
    || (r == v && forall i :: 0 <= i <= |v| ==> !InLang(kind, e, v, i))
  }

  ghost predicate InLang(kind: Kind, e: seq<Elem>, v: seq<Char>, j: nat)
    requires j <= |v|
  {
    Lang(e, if AtLeft(kind) then v[..j] else v[j..])
  }

  /** Where pmatch accepts the language, a trim is the one asked for. */
  lemma TrimmedIsOptimal(kind: Kind, e: seq<Elem>, v: seq<Char>, r: seq<Char>)
    requires Exact(e) && 0 !in v
    ensures Trimmed(kind, e, v, r) <==> Optimal(kind, e, v, r)
  {
    forall j | 0 <= j <= |v|
      ensures Hit(kind, e, v, j) <==> InLang(kind, e, v, j)
    {
      WhereExact(e, if AtLeft(kind) then v[..j] else v[j..]);
    }
  }

  // ---------------------------------------------------------------- places between characters

  /** A place in a string that does not part an escape from its character. */
  predicate Cut(s: Str, l: int, squoted: bool) {
    0 <= l <= |s| && (squoted ==> Whole(s[..l]))
  }

  /** The first character of a value is that of its part up to a place where it can be cut. */
  lemma FirstOfPart(s: Str, l: int, squoted: bool)
    requires (squoted ==> Whole(s)) && Cut(s, l, squoted) && l > 0
    ensures var n := Width(s, squoted);
            && n <= l && (squoted ==> Whole(s[n..])) && Cut(s[n..], l - n, squoted) && s[n..][l - n..] == s[l..]
            && View(s, squoted) == [At(s, n - 1)] + View(s[n..], squoted)
            && View(s[..l], squoted) == [At(s, n - 1)] + View(s[n..][..l - n], squoted)
  {
    hide View;
    var n := Width(s, squoted);
    ViewStep(s, squoted);
    ViewStep(s[..l], squoted);
    assert Width(s[..l], squoted) == n;
    assert s[..l][n..] == s[n..][..l - n] && s[n..][l - n..] == s[l..];
  }

  lemma EmptyPart(s: Str, l: int, squoted: bool)
    requires Cut(s, l, squoted) && l <= 0
    ensures l == 0 && s[l..] == s && View(s[..l], squoted) == []
  {
    assert s[0..] == s && s[..0] == [];
  }

  /** Where the value can be cut, so can its view. */
  lemma {:induction false} ViewOfParts(s: Str, l: nat, squoted: bool)
    requires (squoted ==> Whole(s)) && Cut(s, l, squoted)
    ensures squoted ==> Whole(s[l..])
    ensures View(s, squoted) == View(s[..l], squoted) + View(s[l..], squoted)
    decreases |s|
  {
    hide Whole, View, Width;
    if l > 0 {
      var n := Width(s, squoted);
      FirstOfPart(s, l, squoted);
      ViewOfParts(s[n..], l - n, squoted);
      assert View(s[..l], squoted) + View(s[l..], squoted)
          == [At(s, n - 1)] + (View(s[n..][..l - n], squoted) + View(s[l..], squoted));
    } else {
      EmptyPart(s, l, squoted);
      assert [] + View(s, squoted) == View(s, squoted);
    }
  }

  /** The place in the string for a place in its view. */
  lemma {:induction false} CutFor(s: Str, j: nat, squoted: bool) returns (l: nat)
    requires (squoted ==> Whole(s)) && j <= |View(s, squoted)|
    ensures Cut(s, l, squoted) && |View(s[..l], squoted)| == j
    decreases |s|
  {
    if j == 0 {
      l := 0;
      assert s[..0] == [];
    } else {
      var n := Width(s, squoted);
      ViewStep(s, squoted);
      var k := CutFor(s[n..], j - 1, squoted);
      l := n + k;
      assert s[..l] == s[..n] + s[n..][..k];
      assert s[..l][n..] == s[n..][..k] && Width(s[..l], squoted) == n;
    }
  }

  /** Later places in the string are later places in the view. */
  lemma CutsInOrder(s: Str, k: nat, l: nat, squoted: bool)
    requires (squoted ==> Whole(s)) && Cut(s, k, squoted) && Cut(s, l, squoted) && k < l
    ensures |View(s[..k], squoted)| < |View(s[..l], squoted)|
  {
    assert s[..l][..k] == s[..k];
    ViewOfParts(s[..l], k, squoted);
    ViewHasNoNul(s[..l][k..], squoted);
  }

  /** The pattern matches what a cut at the place l of the string would take away. */
  ghost predicate HitAt(kind: Kind, e: seq<Elem>, s: Str, l: int, squoted: bool) {
    0 <= l <= |s| && Accepts(e, View(if AtLeft(kind) then s[..l] else s[l..], squoted))
  }

  lemma HitsAgree(kind: Kind, e: seq<Elem>, s: Str, l: nat, squoted: bool)
    requires (squoted ==> Whole(s)) && Cut(s, l, squoted)
    ensures var v, j := View(s, squoted), |View(s[..l], squoted)|;
            j <= |v| && v[..j] == View(s[..l], squoted) && v[j..] == View(s[l..], squoted)
            && (HitAt(kind, e, s, l, squoted) <==> Hit(kind, e, v, j))
  {
    ViewOfParts(s, l, squoted);
  }

  /** The best place among those in the string is the best among those in the view. */
  lemma BestCut(kind: Kind, e: seq<Elem>, s: Str, l: nat, squoted: bool)
    requires (squoted ==> Whole(s)) && Cut(s, l, squoted)
    requires HitAt(kind, e, s, l, squoted)
    requires forall k :: Cut(s, k, squoted) && Better(kind, k, l) ==> !HitAt(kind, e, s, k, squoted)
    ensures Trimmed(kind, e, View(s, squoted), View(if AtLeft(kind) then s[l..] else s[..l], squoted))
  {
    hide Accepts, View, Whole, Hit, HitAt;
    var v, j := View(s, squoted), |View(s[..l], squoted)|;
    HitsAgree(kind, e, s, l, squoted);
    forall i | 0 <= i <= |v| && Better(kind, i, j)
      ensures !Hit(kind, e, v, i)
    {
      var k := CutFor(s, i, squoted);
      HitsAgree(kind, e, s, k, squoted);
      if k < l { CutsInOrder(s, k, l, squoted); }
      if k > l { CutsInOrder(s, l, k, squoted); }
    }
  }

  lemma NoCut(kind: Kind, e: seq<Elem>, s: Str, squoted: bool)
    requires squoted ==> Whole(s)
    requires forall k :: Cut(s, k, squoted) && (kind == RightMax ==> k < |s|) ==> !HitAt(kind, e, s, k, squoted)
    ensures Trimmed(kind, e, View(s, squoted), View(s, squoted))
  {
    hide Accepts, View, Hit, HitAt;
    var v := View(s, squoted);
    assert s[..|s|] == s && Cut(s, |s|, squoted);
    if kind == RightMax && HitAt(kind, e, s, |s|, squoted) {
      BestCut(kind, e, s, |s|, squoted);
    } else {
      hide Whole;
      forall i | 0 <= i <= |v|
        ensures !Hit(kind, e, v, i)
      {
        var k := CutFor(s, i, squoted);
        HitsAgree(kind, e, s, k, squoted);
      }
    }
  }

  lemma PartOfRest(s: Str, n: nat, l: nat)
    requires n <= l <= |s|
    ensures s[n..][..l - n] == s[..l][n..]
  {
  }

  /** The next place, and what lies in between. */
  lemma {:induction false} NextCut(s: Str, l: nat, squoted: bool)
    requires (squoted ==> Whole(s)) && Cut(s, l, squoted) && l < |s|
    ensures var n := if squoted && s[l] == CTLESC then 2 else 1;
            Cut(s, l + n, squoted) && (n == 2 ==> !Cut(s, l + 1, squoted))
    decreases |s|
  {
    if l > 0 && squoted {
      var n := Width(s, squoted);
      PartOfRest(s, n, l);
      NextCut(s[n..], l - n, squoted);
      var k := if s[l] == CTLESC then 2 else 1;
      PartOfRest(s, n, l + k);
      PartOfRest(s, n, l + 1);
    } else if squoted {
      assert s[..1] == [s[0]] && (|s| > 1 ==> s[..2] == [s[0], s[1]] && s[..2][2..] == []);
    }
  }

  /** A place that is none comes after an escape. */
  lemma {:induction false} NoCutHere(s: Str, l: nat, squoted: bool)
    requires (squoted ==> Whole(s)) && l <= |s| && !Cut(s, l, squoted)
    ensures squoted && l > 0 && s[l - 1] == CTLESC && Cut(s, l - 1, squoted)
    decreases l
  {
    assert s[..0] == [];
    if l > 0 {
      if Cut(s, l - 1, squoted) {
        NextCut(s, l - 1, squoted);
      } else {
        NoCutHere(s, l - 1, squoted);
        NextCut(s, l - 2, squoted);
      }
    }
  }

  // ---------------------------------------------------------------- the stack block

  function CStr(m: seq<Char>, p: nat): Str
    decreases |m| - p
  {
    if p >= |m| || m[p] == 0 then [] else [m[p]] + CStr(m, p + 1)
  }

  lemma {:induction false} CStrIs(m: seq<Char>, p: nat, s: Str)
    requires HoldsAt(m, p, s)
    ensures CStr(m, p) == s
    decreases |s|
  {
    assert m[p + 0] == At(s, 0);
    if s != [] {
      assert forall i :: 0 <= i <= |s[1..]| ==> m[p + (i + 1)] == At(s, i + 1) == At(s[1..], i);
      CStrIs(m, p + 1, s[1..]);
    }
  }

  /** The value and, right behind its NUL, the pattern. */
  predicate Laid(m: seq<Char>, startp: nat, str: nat, s: Str, pat: Str) {
    HoldsAt(m, startp, s) && str == startp + |s| + 1 && HoldsAt(m, str, pat)
  }

  /** Tries a prefix, which is ended by a NUL for the time being. */
  method TryPrefix(buf: array<Char>, startp: nat, str: nat, loc: nat, squoted: bool, kind: Kind, ghost s: Str,
                   ghost pat: Str)
      returns (r: bool)
    requires Laid(buf[..], startp, str, s, pat) && startp <= loc < str && Cut(s, loc - startp, squoted)
    requires Clear(pat) && AtLeft(kind)
    modifies buf
    ensures buf[..] == old(buf[..]) && r == HitAt(kind, Parse(pat), s, loc - startp, squoted)
  {
    hide Accepts, Parse, View, Clear, Whole, CStr;
    ghost var l := loc - startp;
    ghost var m := buf[..];
    var c := buf[loc];
    buf[loc] := 0;
    PrefixLaid(m, buf[..], startp, str, l, s, pat);
    r := Patmatch(CStr(buf[..], str), CStr(buf[..], startp), squoted);
    buf[loc] := c;
    assert buf[..] == m;
  }

  lemma PrefixLaid(m: seq<Char>, n: seq<Char>, startp: nat, str: nat, l: nat, s: Str, pat: Str)
    requires Laid(m, startp, str, s, pat) && l <= |s| && |n| == |m| && n == m[startp + l := 0]
    ensures CStr(n, startp) == s[..l] && CStr(n, str) == pat
  {
    hide CStr;
    assert HoldsAt(n, startp, s[..l]) by {
      assert forall i :: 0 <= i < l ==> n[startp + i] == m[startp + i] == At(s, i) == At(s[..l], i);
    }
    assert HoldsAt(n, str, pat) by {
      assert forall i :: 0 <= i <= |pat| ==> n[str + i] == m[str + i] == At(pat, i);
    }
    CStrIs(n, startp, s[..l]);
    CStrIs(n, str, pat);
  }

  /** Tries a suffix. */
  method TrySuffix(buf: array<Char>, startp: nat, str: nat, loc: nat, squoted: bool, kind: Kind, ghost s: Str,
                   ghost pat: Str)
      returns (r: bool)
    requires Laid(buf[..], startp, str, s, pat) && startp <= loc < str && Cut(s, loc - startp, squoted)
    requires Clear(pat) && !AtLeft(kind) && (squoted ==> Whole(s))
    ensures r == HitAt(kind, Parse(pat), s, loc - startp, squoted)
  {
    hide Accepts, Parse, View, Clear, Whole, CStr;
    SuffixLaid(buf[..], startp, str, loc - startp, s, pat);
    ViewOfParts(s, loc - startp, squoted);
    r := Patmatch(CStr(buf[..], str), CStr(buf[..], loc), squoted);
  }

  lemma SuffixLaid(m: seq<Char>, startp: nat, str: nat, l: nat, s: Str, pat: Str)
    requires Laid(m, startp, str, s, pat) && l <= |s|
    ensures CStr(m, startp + l) == s[l..] && CStr(m, str) == pat
  {
    hide CStr;
    assert HoldsAt(m, startp + l, s[l..]) by {
      assert forall i :: 0 <= i <= |s| - l ==> m[startp + (l + i)] == At(s, l + i) == At(s[l..], i);
    }
    CStrIs(m, startp + l, s[l..]);
    CStrIs(m, str, pat);
  }

  /** The place before one that is at loc + 1. */
  method PrevPlace(buf: array<Char>, startp: nat, loc0: int, squoted: bool, ghost s: Str) returns (loc: int)
    requires HoldsAt(buf[..], startp, s) && (squoted ==> Whole(s))
    requires startp - 1 <= loc0 < startp + |s| && Cut(s, loc0 + 1 - startp, squoted)
    ensures startp - 1 <= loc <= loc0 && (loc >= startp ==> Cut(s, loc - startp, squoted))
    ensures forall k :: loc - startp < k <= loc0 - startp ==> !Cut(s, k, squoted)
  {
    hide Whole;
    loc := loc0;
    if squoted && loc > startp && buf[loc - 1] == CTLESC {
      assert buf[..][startp + (loc - 1 - startp)] == At(s, loc - 1 - startp);
      var q := startp;
      ghost var last := 0;
      assert s[..0] == [] && Cut(s, 0, squoted) by { EmptyIsWhole(); }
      while q < loc
        invariant startp <= q <= loc + 1 && Cut(s, q - startp, squoted)
        invariant q == loc + 1 ==> !Cut(s, loc - startp, squoted)
        decreases loc - q
      {
        assert buf[..][startp + (q - startp)] == At(s, q - startp);
        NextCut(s, q - startp, squoted);
        if buf[q] == CTLESC { q := q + 1; }
        q := q + 1;
      }
      if q > loc {
        loc := loc - 1;
        NoCutHere(s, loc + 1 - startp, squoted);
      }
    } else if loc >= startp && !Cut(s, loc - startp, squoted) {
      NoCutHere(s, loc - startp, squoted);
      assert buf[..][startp + (loc - startp - 1)] == At(s, loc - startp - 1);
    }
  }

  lemma EmptyIsWhole()
    ensures Whole([])
  {
  }

  /** The loops of the four kinds: the place to cut, if there is one. */
  method FindLeft(buf: array<Char>, startp: nat, str: nat, squoted: bool, ghost s: Str, ghost pat: Str)
      returns (found: bool, loc: int)
    requires Laid(buf[..], startp, str, s, pat) && Clear(pat) && (squoted ==> Whole(s))
    modifies buf
    ensures buf[..] == old(buf[..])
    ensures Found(Left, Parse(pat), s, squoted, found, loc - startp)
  {
    hide Accepts, Parse, View, Clear, Whole, HitAt;
    loc := startp;
    EmptyIsWhole();
    assert s[..0] == [];
    while loc < str
      invariant buf[..] == old(buf[..]) && startp <= loc <= str
      invariant loc < str ==> Cut(s, loc - startp, squoted)
      invariant forall k :: Cut(s, k, squoted) && k < loc - startp ==> !HitAt(Left, Parse(pat), s, k, squoted)
    {
      assert buf[..][startp + (loc - startp)] == At(s, loc - startp);
      found := TryPrefix(buf, startp, str, loc, squoted, Left, s, pat);
      if found { return; }
      if loc - startp < |s| { NextCut(s, loc - startp, squoted); }
      if squoted && buf[loc] == CTLESC { loc := loc + 1; }
      loc := loc + 1;
    }
    found := false;
  }

  /** A best place has been found, or there is none. */
  ghost predicate Found(kind: Kind, e: seq<Elem>, s: Str, squoted: bool, found: bool, l: int) {
    if found then
      && Cut(s, l, squoted) && HitAt(kind, e, s, l, squoted)
      && forall k :: Cut(s, k, squoted) && Better(kind, k, l) ==> !HitAt(kind, e, s, k, squoted)
    else
      forall k :: Cut(s, k, squoted) && (kind == RightMax ==> k < |s|) ==> !HitAt(kind, e, s, k, squoted)
  }

  method FindLeftMax(buf: array<Char>, startp: nat, str: nat, squoted: bool, ghost s: Str, ghost pat: Str)
      returns (found: bool, loc: int)
    requires Laid(buf[..], startp, str, s, pat) && Clear(pat) && (squoted ==> Whole(s))
    modifies buf
    ensures buf[..] == old(buf[..])
    ensures Found(LeftMax, Parse(pat), s, squoted, found, loc - startp)
  {
    hide Accepts, Parse, View, Clear, Whole, HitAt;
    loc := str - 1;
    assert s[..|s|] == s;
    while loc >= startp
      invariant buf[..] == old(buf[..]) && startp - 1 <= loc < str
      invariant loc >= startp ==> Cut(s, loc - startp, squoted)
      invariant forall k :: Cut(s, k, squoted) && k > loc - startp ==> !HitAt(LeftMax, Parse(pat), s, k, squoted)
      decreases loc
    {
      found := TryPrefix(buf, startp, str, loc, squoted, LeftMax, s, pat);
      if found { return; }
      loc := PrevPlace(buf, startp, loc - 1, squoted, s);
    }
    found := false;
  }

  method FindRight(buf: array<Char>, startp: nat, str: nat, squoted: bool, ghost s: Str, ghost pat: Str)
      returns (found: bool, loc: int)
    requires Laid(buf[..], startp, str, s, pat) && Clear(pat) && (squoted ==> Whole(s))
    ensures Found(Right, Parse(pat), s, squoted, found, loc - startp)
  {
    hide Accepts, Parse, View, Clear, Whole, HitAt;
    loc := str - 1;
    assert s[..|s|] == s;
    while loc >= startp
      invariant startp - 1 <= loc < str
      invariant loc >= startp ==> Cut(s, loc - startp, squoted)
      invariant forall k :: Cut(s, k, squoted) && k > loc - startp ==> !HitAt(Right, Parse(pat), s, k, squoted)
      decreases loc
    {
      found := TrySuffix(buf, startp, str, loc, squoted, Right, s, pat);
      if found { return; }
      loc := PrevPlace(buf, startp, loc - 1, squoted, s);
    }
    found := false;
  }

  method FindRightMax(buf: array<Char>, startp: nat, str: nat, squoted: bool, ghost s: Str, ghost pat: Str)
      returns (found: bool, loc: int)
    requires Laid(buf[..], startp, str, s, pat) && Clear(pat) && (squoted ==> Whole(s))
    ensures Found(RightMax, Parse(pat), s, squoted, found, loc - startp)
  {
    hide Accepts, Parse, View, Clear, Whole, HitAt;
    loc := startp;
    EmptyIsWhole();
    assert s[..0] == [];
    while loc < str - 1
      invariant startp <= loc <= str - 1 && Cut(s, loc - startp, squoted)
      invariant forall k :: Cut(s, k, squoted) && k < loc - startp ==> !HitAt(RightMax, Parse(pat), s, k, squoted)
    {
      assert buf[..][startp + (loc - startp)] == At(s, loc - startp);
      found := TrySuffix(buf, startp, str, loc, squoted, RightMax, s, pat);
      if found { return; }
      NextCut(s, loc - startp, squoted);
      if squoted && buf[loc] == CTLESC { loc := loc + 1; }
      loc := loc + 1;
    }
    found := false;
  }

  /** The label recordleft: what is kept moves down to the start of the value. */
  method MoveDown(buf: array<Char>, startp: nat, loc0: nat, str: nat, ghost s: Str) returns (expdest: nat)
    requires HoldsAt(buf[..], startp, s) && str == startp + |s| + 1 && startp <= loc0 < str
    modifies buf
    ensures startp <= expdest < str && buf[startp..expdest] == s[loc0 - startp..]
    ensures forall i :: 0 <= i < buf.Length && !(startp <= i < str) ==> buf[i] == old(buf[i])
  {
    hide *;
    expdest := str - 1 - (loc0 - startp);
    var to: nat, loc: nat := startp, loc0;
    ghost var done: seq<Char>, rest: Str := [], s[loc0 - startp..];
    StartOfMove(buf[..], startp, loc0, s);
    while loc != str - 1
      invariant Shifting(buf[..], startp, to, loc, str - 1, done, rest) && startp <= to <= loc <= str - 1 < buf.Length
      invariant loc - to == loc0 - startp && |rest| == str - 1 - loc && done + rest == s[loc0 - startp..]
      invariant SameOutside(buf[..], old(buf[..]), startp, str - 1)
      decreases str - loc
    {
      Copy(buf[..], startp, to, loc, str - 1, done, rest, old(buf[..]));
      assert done + rest == done + [rest[0]] + rest[1..];
      ghost var m := buf[..];
      buf[to] := buf[loc];
      assert buf[..] == m[to := m[loc]];
      done, rest := done + [rest[0]], rest[1..];
      to, loc := to + 1, loc + 1;
    }
    EndOfMove(buf[..], startp, to, loc, str - 1, done, rest, old(buf[..]));
  }

  lemma StartOfMove(m: seq<Char>, p0: nat, p: nat, s: Str)
    requires HoldsAt(m, p0, s) && p0 <= p <= p0 + |s|
    ensures Shifting(m, p0, p0, p, p0 + |s|, [], s[p - p0..]) && SameOutside(m, m, p0, p0 + |s|)
    ensures p0 + |s| < |m|
  {
    hide HoldsAt;
    StartOfShift(m, p0, p, s);
  }

  lemma EndOfMove(m: seq<Char>, p0: nat, q: nat, p: nat, end: nat, done: seq<Char>, rest: Str, n: seq<Char>)
    requires Shifting(m, p0, q, p, end, done, rest) && rest == [] && SameOutside(m, n, p0, end)
    ensures p0 <= q <= |m| && m[p0..q] == done + rest
    ensures forall i :: 0 <= i < |m| && !(p0 <= i <= end) ==> m[i] == n[i]
  {
  }

  /** A trim: expdest is the new end of the value. */
  method Trim(kind: Kind, buf: array<Char>, startp: nat, str: nat, squoted: bool, ghost s: Str, ghost pat: Str)
      returns (expdest: nat)
    requires Laid(buf[..], startp, str, s, pat) && Clear(pat) && (squoted ==> Whole(s))
    modifies buf
    ensures startp <= expdest < str && 0 !in buf[startp..expdest]
    ensures Trimmed(kind, Parse(pat), View(s, squoted), View(buf[startp..expdest], squoted))
    ensures Exact(Parse(pat)) ==> Optimal(kind, Parse(pat), View(s, squoted), View(buf[startp..expdest], squoted))
    ensures forall i :: 0 <= i < buf.Length && !(startp <= i < str) ==> buf[i] == old(buf[i])
  {
    hide Accepts, Parse, View, Clear, Whole, HitAt, Trimmed, Exact, Optimal;
    var found, loc;
    match kind {
      case Left => found, loc := FindLeft(buf, startp, str, squoted, s, pat);
      case LeftMax => found, loc := FindLeftMax(buf, startp, str, squoted, s, pat);
      case Right => found, loc := FindRight(buf, startp, str, squoted, s, pat);
      case RightMax => found, loc := FindRightMax(buf, startp, str, squoted, s, pat);
    }
    TrimIs(kind, Parse(pat), s, squoted, found, loc - startp);
    expdest := KeepPart(kind, buf, startp, str, found, loc, s);
  }

  /** What is left of the value. */
  function Rest(kind: Kind, s: Str, found: bool, l: int): Str
    requires found ==> 0 <= l <= |s|
  {
    if !found then s else if AtLeft(kind) then s[l..] else s[..l]
  }

  lemma TrimIs(kind: Kind, e: seq<Elem>, s: Str, squoted: bool, found: bool, l: int)
    requires (squoted ==> Whole(s)) && Found(kind, e, s, squoted, found, l)
    ensures found ==> 0 <= l <= |s|
    ensures Trimmed(kind, e, View(s, squoted), View(Rest(kind, s, found, l), squoted))
    ensures Exact(e) ==> Optimal(kind, e, View(s, squoted), View(Rest(kind, s, found, l), squoted))
  {
    hide Accepts, View, Whole, HitAt, Trimmed, Exact, Optimal;
    if found { BestCut(kind, e, s, l, squoted); } else { NoCut(kind, e, s, squoted); }
    ViewHasNoNul(s, squoted);
    if Exact(e) { TrimmedIsOptimal(kind, e, View(s, squoted), View(Rest(kind, s, found, l), squoted)); }
  }

  /** Leaves in the buffer what is left of the value. */
  method KeepPart(kind: Kind, buf: array<Char>, startp: nat, str: nat, found: bool, loc: int, ghost s: Str)
      returns (expdest: nat)
    requires HoldsAt(buf[..], startp, s) && str == startp + |s| + 1 && (found ==> startp <= loc < str)
    modifies buf
    ensures startp <= expdest < str && buf[startp..expdest] == Rest(kind, s, found, loc - startp)
    ensures forall i :: 0 <= i < buf.Length && !(startp <= i < str) ==> buf[i] == old(buf[i])
  {
    if !found {
      expdest := str - 1;
      ValueIs(buf[..], startp, s, |s|);
    } else if AtLeft(kind) {
      expdest := MoveDown(buf, startp, loc, str, s);
    } else {
      ValueIs(buf[..], startp, s, loc - startp);
      ghost var kept := buf[startp..loc];
      buf[loc] := 0;
      assert buf[startp..loc] == kept;
      expdest := loc;
    }
  }

  lemma ValueIs(m: seq<Char>, startp: nat, s: Str, l: nat)
    requires HoldsAt(m, startp, s) && l <= |s|
    ensures m[startp..startp + l] == s[..l] && s[..|s|] == s
  {
    forall i | 0 <= i < l
      ensures m[startp..startp + l][i] == s[..l][i]
    {
      assert m[startp + i] == At(s, i);
    }
  }
}
