/** The file name patterns of csh (src/bin/csh/_glob.c): the loop of glob0 that compiles a pattern, which may be
    in the buffer that it writes to, and the matcher. */
module Glob {

  /** A character of a pattern buffer: a byte, which M_PROTECT may mark as quoted, or a code. */
  type Char = c: int | 0 <= c < 0x10000

  const EOS: Char := 0
  const NOT: Char := 33
  const STAR: Char := 42
  const RANGE: Char := 45
  const DOT: Char := 46
  const SEP: Char := 47
  const QUESTION: Char := 63
  const LBRACKET: Char := 91
  const RBRACKET: Char := 93

  const M_QUOTE: Char := 0x8000
  const M_NOT: Char := 0x8021
  const M_ALL: Char := 0x802A
  const M_RNG: Char := 0x802D
  const M_ONE: Char := 0x803F
  const M_SET: Char := 0x805B
  const M_END: Char := 0x805D

  /** The byte of a character, without the mark. */
  function CHAR(c: Char): Char {
    c % 0x100
  }

  // ---------------------------------------------------------------- patterns

  datatype Range = Single(c: Char) | Span(lo: Char, hi: Char)

  datatype Item = Any | One | Lit(c: Char) | Class(inverted: bool, ranges: seq<Range>)

  /** The place of the first closing bracket from i on, or the end. */
  function Close(p: seq<Char>, i: nat): (j: nat)
    requires i <= |p|
    ensures i <= j <= |p| && (j < |p| ==> p[j] == RBRACKET)
    ensures forall k :: i <= k < j ==> p[k] != RBRACKET
    decreases |p| - i
  {
    if i == |p| || p[i] == RBRACKET then i else Close(p, i + 1)
  }

  predicate IsSpan(p: seq<Char>, i: nat) {
    i + 2 < |p| && p[i + 1] == RANGE && p[i + 2] != RBRACKET
  }

  function RangeAt(p: seq<Char>, i: nat): Range
    requires i < |p|
  {
    if IsSpan(p, i) then Span(CHAR(p[i]), CHAR(p[i + 2])) else Single(CHAR(p[i]))
  }

  function AfterRange(p: seq<Char>, i: nat): (j: nat)
    requires i < |p| && Close(p, i + 1) < |p|
    ensures i < j < |p| && Close(p, j) == Close(p, i + 1)
  {
    if IsSpan(p, i) then
      assert Close(p, i + 1) == Close(p, i + 2) == Close(p, i + 3);
      i + 3
    else i + 1
  }

  /** The ranges from i up to the closing bracket, and what comes after that. */
  function Ranges(p: seq<Char>, i: nat): (r: (seq<Range>, nat))
    requires i < |p| && Close(p, i + 1) < |p|
    ensures i < r.1 <= |p| && r.0 != []
    decreases |p| - i
  {
    var j := AfterRange(p, i);
    if p[j] == RBRACKET then ([RangeAt(p, i)], j + 1)
    else
      var rest := Ranges(p, j);
      ([RangeAt(p, i)] + rest.0, rest.1)
  }

  predicate Inverted(p: seq<Char>, i: nat) {
    i + 1 < |p| && p[i + 1] == NOT
  }

  /** Where the ranges after the bracket at i start. */
  function SetStart(p: seq<Char>, i: nat): nat {
    if Inverted(p, i) then i + 2 else i + 1
  }

  /** The bracket at i starts a set: there is a closing one behind the first member. */
  predicate IsSet(p: seq<Char>, i: nat) {
    SetStart(p, i) < |p| && Close(p, SetStart(p, i) + 1) < |p|
  }

  function ItemAt(p: seq<Char>, i: nat): (r: (Item, nat))
    requires i < |p|
    ensures i < r.1 <= |p|
  {
    if p[i] == LBRACKET then
      if IsSet(p, i) then
        var brackets := Ranges(p, SetStart(p, i));
        (Class(Inverted(p, i), brackets.0), brackets.1)
      else (Lit(LBRACKET), i + 1)
    else if p[i] == QUESTION then (One, i + 1)
    else if p[i] == STAR then (Any, i + 1)
    else (Lit(CHAR(p[i])), i + 1)
  }

  /** What a pattern says, from i on. */
  function Parse(p: seq<Char>, i: nat): seq<Item>
    requires i <= |p|
    decreases |p| - i
  {
    if i == |p| then [] else [ItemAt(p, i).0] + Parse(p, ItemAt(p, i).1)
  }

  // ---------------------------------------------------------------- names

  predicate InRange(r: Range, k: Char) {
    match r
    case Single(c) => c == k
    case Span(lo, hi) => lo <= k <= hi
  }

  predicate InRanges(ranges: seq<Range>, k: Char) {
    exists i :: 0 <= i < |ranges| && InRange(ranges[i], k)
  }

  /** The names that an item stands for. */
  predicate Stands(item: Item, name: seq<Char>) {
    match item
    case Any => true
    case One => |name| == 1
    case Lit(c) => name == [c]
    case Class(inverted, ranges) => |name| == 1 && InRanges(ranges, name[0]) != inverted
  }

  function Concat(parts: seq<seq<Char>>): seq<Char> {
    if parts == [] then [] else parts[0] + Concat(parts[1..])
  }

  /** The name is made of one part for each item. */
  ghost predicate InLanguage(items: seq<Item>, name: seq<Char>) {
    exists parts: seq<seq<Char>> :: IsParsed(items, name, parts)
  }

  predicate IsParsed(items: seq<Item>, name: seq<Char>, parts: seq<seq<Char>>) {
    |parts| == |items| && Concat(parts) == name && forall i :: 0 <= i < |items| ==> Stands(items[i], parts[i])
  }

  ghost predicate Matches(items: seq<Item>, name: seq<Char>)
    decreases |items|
  {
    if items == [] then name == []
    else if items[0].Any? then exists k :: 0 <= k <= |name| && Matches(items[1..], name[k..])
    else name != [] && Stands(items[0], name[..1]) && Matches(items[1..], name[1..])
  }

  lemma {:induction false} MatchesIsLanguage(items: seq<Item>, name: seq<Char>)
    ensures Matches(items, name) <==> InLanguage(items, name)
    decreases |items|
  {
    if Matches(items, name) {
      var parts := PartsOf(items, name);
      assert IsParsed(items, name, parts);
    }
    if InLanguage(items, name) {
      var parts: seq<seq<Char>> :| IsParsed(items, name, parts);
      PartsMatch(items, name, parts);
    }
  }

  lemma {:induction false} PartsOf(items: seq<Item>, name: seq<Char>) returns (parts: seq<seq<Char>>)
    requires Matches(items, name)
    ensures IsParsed(items, name, parts)
    decreases |items|
  {
    if items == [] {
      parts := [];
    } else {
      var k: nat := 1;
      if items[0].Any? { k :| 0 <= k <= |name| && Matches(items[1..], name[k..]); }
      var rest := PartsOf(items[1..], name[k..]);
      parts := [name[..k]] + rest;
      assert parts[1..] == rest;
      assert name == name[..k] + name[k..];
      forall i | 0 <= i < |items|
        ensures Stands(items[i], parts[i])
      {
        if i > 0 { assert items[1..][i - 1] == items[i] && rest[i - 1] == parts[i]; }
      }
    }
  }

  lemma {:induction false} PartsMatch(items: seq<Item>, name: seq<Char>, parts: seq<seq<Char>>)
    requires IsParsed(items, name, parts)
    ensures Matches(items, name)
    decreases |items|
  {
    if items != [] {
      var k := |parts[0]|;
      assert name[..k] == parts[0] && name[k..] == Concat(parts[1..]);
      assert IsParsed(items[1..], name[k..], parts[1..]) by {
        forall i | 0 <= i < |items| - 1
          ensures Stands(items[1..][i], parts[1..][i])
        {
          assert Stands(items[i + 1], parts[i + 1]);
        }
      }
      PartsMatch(items[1..], name[k..], parts[1..]);
      assert Stands(items[0], parts[0]);
    }
  }

  // ---------------------------------------------------------------- stars

  /** A star after a star says nothing. */
  function Push(done: seq<Item>, item: Item): seq<Item> {
    if item.Any? && done != [] && done[|done| - 1].Any? then done else done + [item]
  }

  function PushAll(done: seq<Item>, items: seq<Item>): seq<Item>
    decreases |items|
  {
    if items == [] then done else PushAll(Push(done, items[0]), items[1..])
  }

  lemma {:induction false} MatchesAfter(front: seq<Item>, a: seq<Item>, b: seq<Item>, name: seq<Char>)
    requires forall s: seq<Char> :: Matches(a, s) <==> Matches(b, s)
    ensures Matches(front + a, name) <==> Matches(front + b, name)
    decreases |front|
  {
    if front == [] {
      assert front + a == a && front + b == b;
    } else {
      assert (front + a)[1..] == front[1..] + a && (front + b)[1..] == front[1..] + b;
      if front[0].Any? {
        forall k | 0 <= k <= |name|
          ensures Matches(front[1..] + a, name[k..]) <==> Matches(front[1..] + b, name[k..])
        {
          MatchesAfter(front[1..], a, b, name[k..]);
        }
      } else if name != [] {
        MatchesAfter(front[1..], a, b, name[1..]);
      }
    }
  }

  lemma TwoStars(items: seq<Item>, name: seq<Char>)
    ensures Matches([Any, Any] + items, name) <==> Matches([Any] + items, name)
  {
    assert ([Any, Any] + items)[1..] == [Any] + items && ([Any] + items)[1..] == items;
    forall k | 0 <= k <= |name|
      ensures Matches([Any] + items, name[k..]) ==> Matches([Any] + items, name)
    {
      if Matches([Any] + items, name[k..]) {
        var j :| 0 <= j <= |name[k..]| && Matches(items, name[k..][j..]);
        assert name[k..][j..] == name[k + j..];
      }
    }
    if Matches([Any] + items, name) { assert name[0..] == name; }
  }

  /** The names are the same with stars collapsed. */
  lemma {:induction false} StarsCollapse(done: seq<Item>, items: seq<Item>, name: seq<Char>)
    ensures Matches(PushAll(done, items), name) <==> Matches(done + items, name)
    decreases |items|
  {
    if items == [] {
      assert done + items == done;
    } else {
      StarsCollapse(Push(done, items[0]), items[1..], name);
      if Push(done, items[0]) == done {
        var front := done[..|done| - 1];
        assert done + items[1..] == front + ([Any] + items[1..]);
        assert done + items == front + ([Any, Any] + items[1..]);
        forall s: seq<Char> ensures Matches([Any] + items[1..], s) <==> Matches([Any, Any] + items[1..], s) {
          TwoStars(items[1..], s);
        }
        MatchesAfter(front, [Any] + items[1..], [Any, Any] + items[1..], name);
      } else {
        assert done + [items[0]] + items[1..] == done + items;
      }
    }
  }

  /** What glob0 makes of a pattern. */
  function Compiled(p: seq<Char>): seq<Item> {
    PushAll([], Parse(p, 0))
  }

  lemma CompiledKeepsLanguage(p: seq<Char>, name: seq<Char>)
    ensures Matches(Compiled(p), name) <==> InLanguage(Parse(p, 0), name)
  {
    StarsCollapse([], Parse(p, 0), name);
    assert [] + Parse(p, 0) == Parse(p, 0);
    MatchesIsLanguage(Parse(p, 0), name);
  }

  // ---------------------------------------------------------------- codes

  function RangeCode(r: Range): seq<Char> {
    match r
    case Single(c) => [c]
    case Span(lo, hi) => [lo, M_RNG, hi]
  }

  function RangeCodes(ranges: seq<Range>): seq<Char> {
    if ranges == [] then [] else RangeCode(ranges[0]) + RangeCodes(ranges[1..])
  }

  function Code(item: Item): seq<Char> {
    match item
    case Any => [M_ALL]
    case One => [M_ONE]
    case Lit(c) => [c]
    case Class(inverted, ranges) => [M_SET] + (if inverted then [M_NOT] else []) + RangeCodes(ranges) + [M_END]
  }

  function Codes(items: seq<Item>): seq<Char> {
    if items == [] then [] else Code(items[0]) + Codes(items[1..])
  }

  predicate Byte(c: Char) {
    0 < c < 0x100
  }

  predicate Bytes(r: Range) {
    match r
    case Single(c) => Byte(c)
    case Span(lo, hi) => Byte(lo) && Byte(hi)
  }

  /** Only bytes are written next to the codes, and no set is empty. */
  predicate Sound(item: Item) {
    match item
    case Any => true
    case One => true
    case Lit(c) => Byte(c)
    case Class(inverted, ranges) => ranges != [] && forall i :: 0 <= i < |ranges| ==> Bytes(ranges[i])
  }

  predicate AllSound(items: seq<Item>) {
    forall i :: 0 <= i < |items| ==> Sound(items[i])
  }

  lemma RangeCodesOfBoth(a: seq<Range>, r: Range)
    ensures RangeCodes(a + [r]) == RangeCodes(a) + RangeCode(r)
    decreases |a|
  {
    if a != [] {
      assert (a + [r])[1..] == a[1..] + [r];
      RangeCodesOfBoth(a[1..], r);
    }
  }

  lemma {:induction false} CodesOfBoth(a: seq<Item>, item: Item)
    ensures Codes(a + [item]) == Codes(a) + Code(item)
    decreases |a|
  {
    if a == [] {
      assert [item][1..] == [];
    } else {
      assert (a + [item])[1..] == a[1..] + [item];
      CodesOfBoth(a[1..], item);
    }
  }

  // ---------------------------------------------------------------- the matcher

  /** From i to end there is a C string. */
  predicate IsName(name: seq<Char>, i: nat, end: nat) {
    i <= end < |name| && name[end] == EOS && forall k :: i <= k < end ==> name[k] != EOS
  }

  /** The codes of the ranges from j on, and the end of the set. */
  predicate RangesAt(pat: seq<Char>, j: nat, ranges: seq<Range>, close: nat) {
    j + |RangeCodes(ranges)| == close < |pat| && pat[j..close] == RangeCodes(ranges) && pat[close] == M_END
    && forall i :: 0 <= i < |ranges| ==> Bytes(ranges[i])
  }

  lemma OneRange(pat: seq<Char>, j: nat, ranges: seq<Range>, close: nat)
    requires RangesAt(pat, j, ranges, close)
    ensures j <= close < |pat|
    ensures ranges == [] <==> pat[j] == M_END
    ensures ranges != [] ==>
      var r := ranges[0];
      j + 1 < |pat| && (r.Span? <==> pat[j + 1] == M_RNG)
      && (r.Single? ==> pat[j] == r.c && RangesAt(pat, j + 1, ranges[1..], close))
      && (r.Span? ==> j + 2 < |pat| && pat[j] == r.lo && pat[j + 2] == r.hi && RangesAt(pat, j + 3, ranges[1..], close))
  {
    if ranges != [] {
      var r, rest := ranges[0], ranges[1..];
      var codes := pat[j..close];
      assert codes == RangeCode(r) + RangeCodes(rest);
      var next := j + |RangeCode(r)|;
      assert pat[next..close] == codes[next - j..] == RangeCodes(rest);
      assert pat[j] == codes[0];
      assert RangesAt(pat, next, rest, close);
      if r.Span? {
        assert pat[j + 1] == codes[1] && pat[j + 2] == codes[2];
      } else if rest == [] {
        assert pat[j + 1] == M_END;
      } else {
        assert Bytes(rest[0]) && RangeCodes(rest) == RangeCode(rest[0]) + RangeCodes(rest[1..]);
        assert pat[j + 1] == codes[1] == RangeCode(rest[0])[0];
      }
    }
  }

  /** The loop over the members of a set. */
  method MatchSet(k: Char, pat: array<Char>, j0: nat, ghost ranges: seq<Range>, ghost close: nat)
    returns (ok: bool, j: nat)
    requires RangesAt(pat[..], j0, ranges, close)
    ensures ok == InRanges(ranges, k)
    ensures j == close + 1
  {
    hide RangeCodes, RangeCode, InRanges, InRange, RangesAt, Bytes;
    ok, j := false, j0;
    ghost var left := ranges;
    assert ranges[0..] == ranges;
    OneRange(pat[..], j, left, close);
    NoRanges(k);
    while pat[j] != M_END
      invariant j < pat.Length && RangesAt(pat[..], j, left, close)
      invariant pat[j] == M_END <==> left == []
      invariant InRanges(ranges, k) == (ok || InRanges(left, k))
      decreases |left|
    {
      OneRange(pat[..], j, left, close);
      FirstRange(left, k);
      WhatIsInRange(left[0], k);
      var c := pat[j];
      j := j + 1;
      if pat[j] == M_RNG {
        if c <= k && k <= pat[j + 1] { ok := true; }
        j := j + 2;
      } else if c == k {
        ok := true;
      }
      left := left[1..];
      OneRange(pat[..], j, left, close);
    }
    NoRanges(k);
    AtEnd(pat[..], j, close);
    j := j + 1;
  }

  lemma NoRanges(k: Char)
    ensures !InRanges([], k)
  {
  }

  lemma AtEnd(pat: seq<Char>, j: nat, close: nat)
    requires RangesAt(pat, j, [], close)
    ensures j == close
  {
  }

  lemma FirstRange(ranges: seq<Range>, k: Char)
    requires ranges != []
    ensures InRanges(ranges, k) <==> InRange(ranges[0], k) || InRanges(ranges[1..], k)
  {
    hide InRange;
    forall i | 0 <= i < |ranges| && InRange(ranges[i], k)
      ensures InRange(ranges[0], k) || InRanges(ranges[1..], k)
    {
      if i > 0 { assert ranges[1..][i - 1] == ranges[i]; }
    }
    if InRanges(ranges[1..], k) {
      var i :| 0 <= i < |ranges[1..]| && InRange(ranges[1..][i], k);
      assert ranges[i + 1] == ranges[1..][i];
    }
  }

  lemma WhatIsInRange(r: Range, k: Char)
    ensures InRange(r, k) == match r case Single(c) => c == k case Span(lo, hi) => lo <= k <= hi
  {
  }

  /** The codes of the items, from j to end. */
  predicate CodesAt(pat: seq<Char>, j: nat, end: nat, items: seq<Item>) {
    j <= end <= |pat| && pat[j..end] == Codes(items) && AllSound(items)
  }

  /** Where the codes of the first item end. */
  lemma OneItem(pat: seq<Char>, j: nat, end: nat, items: seq<Item>)
    requires CodesAt(pat, j, end, items)
    ensures j <= end <= |pat| && (items == [] <==> j == end)
    ensures items != [] ==>
      var next := j + |Code(items[0])|;
      Sound(items[0]) && next <= end && pat[j..next] == Code(items[0]) && CodesAt(pat, next, end, items[1..])
  {
    hide Bytes, RangeCodes;
    if items != [] {
      var code := pat[j..end];
      var next := j + |Code(items[0])|;
      assert code == Code(items[0]) + Codes(items[1..]);
      assert pat[j..next] == code[..next - j];
      assert pat[next..end] == code[next - j..];
      assert Code(items[0]) != [];
    }
  }

  /** What the first code says. */
  lemma FirstCode(pat: seq<Char>, j: nat, items: seq<Item>, next: nat)
    requires items != [] && Sound(items[0]) && next == j + |Code(items[0])| <= |pat| && pat[j..next] == Code(items[0])
    ensures j < next
    ensures (items[0].Any? <==> pat[j] == M_ALL) && (items[0].One? <==> pat[j] == M_ONE)
    ensures items[0].Class? <==> pat[j] == M_SET
    ensures items[0].Lit? ==> pat[j] == items[0].c
    ensures !items[0].Class? ==> next == j + 1
    ensures items[0].Class? ==>
      var start := if items[0].inverted then j + 2 else j + 1;
      start < next && (items[0].inverted <==> pat[j + 1] == M_NOT) && RangesAt(pat, start, items[0].ranges, next - 1)
  {
    assert pat[j] == pat[j..next][0];
    if items[0].Class? { SetCode(pat, j, items[0].inverted, items[0].ranges, next); }
  }

  lemma Part(s: seq<Char>, i: nat, j: nat, a: nat, b: nat)
    requires i <= j <= |s| && a <= b <= j - i
    ensures s[i..j][a..b] == s[i + a..i + b]
  {
    var t := s[i..j];
    assert forall k :: 0 <= k < b - a ==> t[a..b][k] == t[a + k] == s[i + a + k] == s[i + a..i + b][k];
  }

  lemma SetCode(pat: seq<Char>, j: nat, inverted: bool, ranges: seq<Range>, next: nat)
    requires Sound(Class(inverted, ranges)) && next == j + |Code(Class(inverted, ranges))| <= |pat|
    requires pat[j..next] == Code(Class(inverted, ranges))
    ensures var start := if inverted then j + 2 else j + 1;
            start < next && (inverted <==> pat[j + 1] == M_NOT) && RangesAt(pat, start, ranges, next - 1)
  {
    var code := pat[j..next];
    var start := if inverted then 2 else 1;
    var codes := RangeCodes(ranges);
    assert codes == RangeCode(ranges[0]) + RangeCodes(ranges[1..]);
    assert Bytes(ranges[0]);
    assert code[start..|code| - 1] == codes;
    Part(pat, j, next, start, |code| - 1);
    assert pat[j + 1] == code[1] && pat[next - 1] == code[|code| - 1];
    assert !inverted ==> code[1] == codes[0];
  }

  /** Whether the name from n0 on matches the codes from p0 to patend. */
  method Match(name: array<Char>, n0: nat, pat: array<Char>, p0: nat, patend: nat, ghost items: seq<Item>,
               ghost end: nat)
    returns (r: bool)
    requires IsName(name[..], n0, end)
    requires CodesAt(pat[..], p0, patend, items)
    ensures r <==> Matches(items, name[n0..end])
    decreases patend - p0, 0
  {
    hide *;
    var n: nat, p: nat := n0, p0;
    ghost var left := items;
    OneItem(pat[..], p, patend, left);
    InName(name[..], n, end);
    while p < patend
      invariant p <= patend <= pat.Length && n <= end < name.Length
      invariant CodesAt(pat[..], p, patend, left) && IsName(name[..], n, end)
      invariant left == [] <==> p == patend
      invariant Matches(items, name[n0..end]) <==> Matches(left, name[n..end])
    {
      InName(name[..], n, end);
      OneItem(pat[..], p, patend, left);
      ghost var item, next := left[0], p + |Code(left[0])|;
      FirstCode(pat[..], p, left, next);
      OneItem(pat[..], next, patend, left[1..]);
      FirstMatches(left, name[n..end]);
      LitIsByte(item);
      NameMoves(name[..], n, end);
      var c := pat[p];
      p := p + 1;
      if c == M_ALL {
        if p == patend {
          StarMatchesAll(left, name[n..end]);
          return true;
        }
        r := MatchStar(name, n, pat, p, patend, left[1..], end);
        return;
      } else if c == M_ONE {
        if name[n] == EOS { return false; }
        n := n + 1;
      } else if c == M_SET {
        var k := name[n];
        if k == EOS { return false; }
        n := n + 1;
        var negate := pat[p] == M_NOT;
        if negate { p := p + 1; }
        var ok;
        ok, p := MatchSet(k, pat, p, item.ranges, next - 1);
        if ok == negate { return false; }
      } else {
        if name[n] != c { return false; }
        n := n + 1;
      }
      left := left[1..];
    }
    NoItems(name[n..end]);
    InName(name[..], n, end);
    r := name[n] == EOS;
  }

  /** The loop over the places where the part after a star may begin. */
  method MatchStar(name: array<Char>, n0: nat, pat: array<Char>, p: nat, patend: nat, ghost rest: seq<Item>,
                   ghost end: nat)
    returns (r: bool)
    requires IsName(name[..], n0, end)
    requires CodesAt(pat[..], p, patend, rest)
    ensures r <==> exists k :: 0 <= k <= |name[n0..end]| && Matches(rest, name[n0..end][k..])
    decreases patend - p, 1
  {
    hide *;
    var n := n0;
    InName(name[..], n, end);
    r := Match(name, n, pat, p, patend, rest, end);
    ghost var s := name[n0..end];
    assert s[0..] == s;
    if r { return; }
    while name[n] != EOS
      invariant n0 <= n <= end < name.Length && IsName(name[..], n, end)
      invariant forall k :: 0 <= k <= n - n0 ==> !Matches(rest, s[k..])
      decreases end - n
    {
      InName(name[..], n, end);
      NameMoves(name[..], n, end);
      n := n + 1;
      assert s[n - n0..] == name[n..end];
      r := Match(name, n, pat, p, patend, rest, end);
      if r { return; }
    }
    InName(name[..], n, end);
    r := false;
  }

  lemma InName(name: seq<Char>, n: nat, end: nat)
    requires IsName(name, n, end)
    ensures n <= end < |name| && (name[n] == EOS <==> n == end)
  {
  }

  lemma NameMoves(name: seq<Char>, n: nat, end: nat)
    requires IsName(name, n, end)
    ensures n <= end < |name| && (name[n..end] == [] <==> n == end)
    ensures n < end ==>
      name[n..end][0] == name[n] && name[n..end][1..] == name[n + 1..end] && IsName(name, n + 1, end)
  {
  }

  lemma FirstMatches(items: seq<Item>, s: seq<Char>)
    requires items != []
    ensures items[0].Any? ==> (Matches(items, s) <==> exists k :: 0 <= k <= |s| && Matches(items[1..], s[k..]))
    ensures items[0].One? ==> (Matches(items, s) <==> s != [] && Matches(items[1..], s[1..]))
    ensures items[0].Lit? ==> (Matches(items, s) <==> s != [] && s[0] == items[0].c && Matches(items[1..], s[1..]))
    ensures items[0].Class? ==>
      (Matches(items, s) <==>
       s != [] && InRanges(items[0].ranges, s[0]) != items[0].inverted && Matches(items[1..], s[1..]))
  {
    hide InRanges;
    if s != [] { assert s[..1] == [s[0]]; }
  }

  lemma StarMatchesAll(items: seq<Item>, s: seq<Char>)
    ensures items != [] && items[0].Any? && items[1..] == [] ==> Matches(items, s)
  {
    if items != [] && items[0].Any? && items[1..] == [] { assert Matches(items[1..], s[|s|..]); }
  }

  lemma NoItems(s: seq<Char>)
    ensures Matches([], s) <==> s == []
  {
  }

  lemma LitIsByte(item: Item)
    requires Sound(item)
    ensures item.Lit? ==> item.c != EOS
  {
  }

  // ---------------------------------------------------------------- the compiler

  /** A pattern: bytes, some of them quoted, with no code among them. */
  predicate IsPattern(full: seq<Char>, n: nat) {
    n < |full| && full[n] == EOS && forall k :: 0 <= k < n ==> full[k] < M_QUOTE && Byte(CHAR(full[k]))
  }

  /** The part of the pattern that is still to be read is as it was. */
  predicate Unread(now: seq<Char>, full: seq<Char>, q: nat, n: nat) {
    |now| == |full| && IsPattern(full, n) && q <= n && forall k :: q <= k <= n ==> now[k] == full[k]
  }

  lemma ToRead(now: seq<Char>, full: seq<Char>, q: nat, n: nat)
    requires Unread(now, full, q, n)
    ensures q <= n < |now| == |full| && now[q] == full[q] && (now[q] == EOS <==> q == n)
    ensures q < n ==> Unread(now, full, q + 1, n) && now[q + 1] == full[q + 1] && full[..n][q] == full[q]
    ensures q < n ==> Byte(CHAR(full[q])) && full[q] < M_QUOTE
  {
  }

  /** g_strchr, from i on. */
  method Strchr(pattern: array<Char>, i: nat, ch: Char, ghost full: seq<Char>, ghost n: nat) returns (found: bool)
    requires Unread(pattern[..], full, i, n) && ch == RBRACKET
    ensures i <= n < |full| && found == (Close(full[..n], i) < n)
  {
    hide Unread, Close;
    var k := i;
    ToRead(pattern[..], full, k, n);
    ghost var p := full[..n];
    while true
      invariant Unread(pattern[..], full, k, n) && i <= k <= n == |p| && n < |full| && k < pattern.Length
      invariant Close(p, i) == Close(p, k)
      decreases n - k
    {
      ToRead(pattern[..], full, k, n);
      CloseStep(p, k);
      if pattern[k] == ch { return true; }
      if pattern[k] == EOS { return false; }
      k := k + 1;
      ToRead(pattern[..], full, k, n);
    }
  }

  lemma CloseStep(p: seq<Char>, k: nat)
    requires k <= |p|
    ensures k == |p| ==> Close(p, k) == k
    ensures k < |p| ==> Close(p, k) == if p[k] == RBRACKET then k else Close(p, k + 1)
  {
  }

  /** The buffer as far as it is written. */
  predicate Written(now: seq<Char>, b: nat, codes: seq<Char>) {
    b <= |now| && now[..b] == codes
  }

  lemma WriteOne(now: seq<Char>, b: nat, codes: seq<Char>, c: Char)
    requires Written(now, b, codes) && b < |now|
    ensures Written(now[b := c], b + 1, codes + [c])
  {
    assert now[b := c][..b + 1] == now[..b] + [c];
  }

  lemma StillUnread(now: seq<Char>, full: seq<Char>, q: nat, n: nat, b: nat, c: Char)
    requires Unread(now, full, q, n) && b < q
    ensures b < |now| && Unread(now[b := c], full, q, n)
  {
  }

  /** Writes one code behind the others, into the part of the pattern that has been read, if there. */
  method Put(pattern: array<Char>, buf: array<Char>, b: nat, c: Char, ghost codes: seq<Char>,
             ghost full: seq<Char>, ghost q: nat, ghost n: nat)
    requires Written(buf[..], b, codes) && Unread(pattern[..], full, q, n)
    requires b < q && n < buf.Length
    modifies buf
    ensures Written(buf[..], b + 1, codes + [c]) && Unread(pattern[..], full, q, n)
  {
    hide *;
    ToRead(pattern[..], full, q, n);
    WriteOne(buf[..], b, codes, c);
    ghost var was, to := pattern[..], buf[..];
    if pattern == buf { StillUnread(was, full, q, n, b, c); }
    buf[b] := c;
    assert buf[..] == to[b := c];
    assert pattern != buf ==> pattern[..] == was;
  }

  /** One round of the loop over the members of a set: c is a member, and the pattern goes on at q0. */
  method PutRange(pattern: array<Char>, q0: nat, c: Char, buf: array<Char>, b0: nat, ghost codes: seq<Char>,
                  ghost full: seq<Char>, ghost n: nat)
    returns (q: nat, b: nat)
    requires Unread(pattern[..], full, q0, n) && Written(buf[..], b0, codes) && n < buf.Length
    requires b0 < q0 <= n < |full| && (full[q0] == RANGE ==> q0 + 1 < n)
    modifies buf
    ensures q == if full[q0] == RANGE && full[q0 + 1] != RBRACKET then q0 + 2 else q0
    ensures Unread(pattern[..], full, q, n) && b <= q
    ensures Written(buf[..], b, codes + [CHAR(c)] + if q == q0 then [] else [M_RNG] + [CHAR(full[q0 + 1])])
  {
    hide Unread, Written, IsPattern;
    q, b := q0, b0 + 1;
    Put(pattern, buf, b0, CHAR(c), codes, full, q0, n);
    ghost var more := codes + [CHAR(c)];
    ToRead(pattern[..], full, q0, n);
    if pattern[q0] == RANGE {
      ToRead(pattern[..], full, q0 + 1, n);
      if pattern[q0 + 1] != RBRACKET {
        var d := pattern[q0 + 1];
        q, b := q0 + 2, b0 + 3;
        ToRead(pattern[..], full, q0 + 1, n);
        Put(pattern, buf, b0 + 1, M_RNG, more, full, q, n);
        Put(pattern, buf, b0 + 2, CHAR(d), more + [M_RNG], full, q, n);
        assert more + [M_RNG] + [CHAR(d)] == more + ([M_RNG] + [CHAR(d)]);
      }
    }
    assert more + [] == more;
  }

  /** The loop over the members of a set, the first of which is at q0. */
  method CompileSet(pattern: array<Char>, q0: nat, buf: array<Char>, b0: nat, ghost codes: seq<Char>,
                    ghost full: seq<Char>, ghost n: nat)
    returns (q: nat, b: nat)
    requires Unread(pattern[..], full, q0, n) && Written(buf[..], b0, codes) && n < buf.Length
    requires b0 <= q0 < n < |full| && Close(full[..n], q0 + 1) < n
    modifies buf
    ensures Ranges(full[..n], q0).1 == q
    ensures Unread(pattern[..], full, q, n) && b < q
    ensures Written(buf[..], b, codes + RangeCodes(Ranges(full[..n], q0).0))
  {
    hide Unread, Written, IsPattern, Close, Ranges, RangeAt, RangeCodes, CHAR;
    ghost var p := full[..n];
    ToRead(pattern[..], full, q0, n);
    var c := pattern[q0];
    q, b := q0 + 1, b0;
    ghost var seen: seq<Range> := [];
    NoRangeCodes(codes);
    assert [] + Ranges(p, q0).0 == Ranges(p, q0).0;
    while true
      invariant q0 < q <= n == |p| < |full| && b < q && c == full[q - 1]
      invariant Unread(pattern[..], full, q, n) && Close(p, q) < n
      invariant seen + Ranges(p, q - 1).0 == Ranges(p, q0).0 && Ranges(p, q - 1).1 == Ranges(p, q0).1
      invariant Written(buf[..], b, codes + RangeCodes(seen))
      decreases n - q
    {
      ghost var i, r := q - 1, RangeAt(p, q - 1);
      SetStep(p, i, full, n, codes, seen);
      q, b := PutRange(pattern, q, c, buf, b, codes + RangeCodes(seen), full, n);
      seen := seen + [r];
      ToRead(pattern[..], full, q, n);
      c := pattern[q];
      q := q + 1;
      if c == RBRACKET { break; }
    }
  }

  /** What one round of the loop over a set makes of what is read and of what is written. */
  lemma SetStep(p: seq<Char>, i: nat, full: seq<Char>, n: nat, codes: seq<Char>, seen: seq<Range>)
    requires n <= |full| && p == full[..n] && i < n && Close(p, i + 1) < n
    ensures full[i + 1] == RANGE ==> i + 2 < n
    ensures var span, r := full[i + 1] == RANGE && full[i + 2] != RBRACKET, RangeAt(p, i);
            var j := if span then i + 3 else i + 1;
            && j < n && p[j] == full[j]
            && codes + RangeCodes(seen + [r])
               == codes + RangeCodes(seen) + [CHAR(full[i])] + (if span then [M_RNG] + [CHAR(full[i + 2])] else [])
            && (full[j] == RBRACKET ==> seen + Ranges(p, i).0 == seen + [r] && Ranges(p, i).1 == j + 1)
            && (full[j] != RBRACKET ==>
                  Close(p, j + 1) < n && seen + Ranges(p, i).0 == seen + [r] + Ranges(p, j).0
                  && Ranges(p, i).1 == Ranges(p, j).1)
  {
    hide Close, Ranges, RangeAt, RangeCodes, CHAR;
    var j := if full[i + 1] == RANGE && full[i + 2] != RBRACKET then i + 3 else i + 1;
    RangeStep(p, i, full, n);
    RangeWritten(codes, seen, RangeAt(p, i), full, i);
    Regroup(seen, RangeAt(p, i), if p[j] == RBRACKET then [] else Ranges(p, j).0);
  }

  lemma Regroup(seen: seq<Range>, r: Range, rest: seq<Range>)
    ensures seen + ([r] + rest) == seen + [r] + rest
    ensures rest == [] ==> [r] + rest == [r]
  {
  }

  lemma NoRangeCodes(codes: seq<Char>)
    ensures codes + RangeCodes([]) == codes
  {
  }

  lemma RangeWritten(codes: seq<Char>, seen: seq<Range>, r: Range, full: seq<Char>, i: nat)
    requires i < |full|
    requires r == Single(CHAR(full[i])) || (i + 2 < |full| && r == Span(CHAR(full[i]), CHAR(full[i + 2])))
    ensures codes + RangeCodes(seen + [r])
            == codes + RangeCodes(seen) + [CHAR(full[i])]
               + if r.Single? then [] else [M_RNG] + [CHAR(full[i + 2])]
  {
    RangeCodesOfBoth(seen, r);
  }

  /** One member or range of a set, and what comes next. */
  lemma RangeStep(p: seq<Char>, i: nat, full: seq<Char>, n: nat)
    requires n <= |full| && p == full[..n] && i < n && Close(p, i + 1) < n
    ensures full[i + 1] == RANGE ==> i + 2 < n
    ensures full[i] == p[i]
    ensures var j := if full[i + 1] == RANGE && full[i + 2] != RBRACKET then i + 3 else i + 1;
            j < n && p[j] == full[j]
            && RangeAt(p, i) == (if j == i + 3 then Span(CHAR(p[i]), CHAR(full[i + 2])) else Single(CHAR(p[i])))
            && (p[j] == RBRACKET ==> Ranges(p, i) == ([RangeAt(p, i)], j + 1))
            && (p[j] != RBRACKET ==>
                  Close(p, j + 1) < n && Ranges(p, i) == ([RangeAt(p, i)] + Ranges(p, j).0, Ranges(p, j).1))
  {
    CloseStep(p, i + 1);
    if full[i + 1] == RANGE { CloseStep(p, i + 2); }
    CloseStep(p, AfterRange(p, i));
  }

  /** What the bracket at i starts. */
  lemma BracketItem(full: seq<Char>, i: nat, n: nat)
    requires IsPattern(full, n) && i < n && full[i] == LBRACKET
    ensures i + 1 < |full|
    ensures var p, s := full[..n], if full[i + 1] == NOT then i + 2 else i + 1;
            s <= n && full[..n][i] == LBRACKET
            && (s < n && Close(p, s + 1) < n ==>
                  ItemAt(p, i) == (Class(full[i + 1] == NOT, Ranges(p, s).0), Ranges(p, s).1))
            && (!(s < n && Close(p, s + 1) < n) ==> ItemAt(p, i) == (Lit(LBRACKET), i + 1))
  {
    hide Close, Ranges;
  }

  lemma SetWritten(codes: seq<Char>, inverted: bool, ranges: seq<Range>)
    ensures codes + Code(Class(inverted, ranges))
            == codes + [M_SET] + (if inverted then [M_NOT] else []) + RangeCodes(ranges) + [M_END]
    ensures codes + [M_SET] + [] == codes + [M_SET]
  {
    hide RangeCodes;
  }

  /** What glob0 does behind an opening bracket. */
  method CompileBracket(pattern: array<Char>, q0: nat, buf: array<Char>, b0: nat, ghost codes: seq<Char>,
                        ghost full: seq<Char>, ghost n: nat)
    returns (q: nat, b: nat, magic: bool)
    requires Unread(pattern[..], full, q0, n) && Written(buf[..], b0, codes) && n < buf.Length
    requires b0 < q0 <= n < |full| && full[q0 - 1] == LBRACKET
    modifies buf
    ensures (q, magic) == (ItemAt(full[..n], q0 - 1).1, ItemAt(full[..n], q0 - 1).0.Class?)
    ensures Unread(pattern[..], full, q, n) && b <= q <= n
    ensures Written(buf[..], b, codes + Code(ItemAt(full[..n], q0 - 1).0))
  {
    hide Unread, Written, IsPattern, Close, Ranges, RangeCodes, ItemAt, Code;
    q, b, magic := q0, b0, false;
    Patterned(pattern[..], full, q0, n);
    BracketItem(full, q0 - 1, n);
    ToRead(pattern[..], full, q, n);
    var c := pattern[q];
    if c == NOT { q := q + 1; }
    ToRead(pattern[..], full, q, n);
    var found := false;
    if pattern[q] != EOS { found := Strchr(pattern, q + 1, RBRACKET, full, n); }
    if !found {
      LitCode(codes, LBRACKET);
      if c == NOT { q := q - 1; }
      Put(pattern, buf, b, LBRACKET, codes, full, q, n);
      b := b + 1;
    } else {
      ghost var ranges := Ranges(full[..n], q).0;
      SetWritten(codes, c == NOT, ranges);
      Put(pattern, buf, b, M_SET, codes, full, q, n);
      b := b + 1;
      if c == NOT {
        Put(pattern, buf, b, M_NOT, codes + [M_SET], full, q, n);
        b := b + 1;
      }
      ghost var start := codes + [M_SET] + if c == NOT then [M_NOT] else [];
      q, b := CompileSet(pattern, q, buf, b, start, full, n);
      magic := true;
      Put(pattern, buf, b, M_END, start + RangeCodes(ranges), full, q, n);
      b := b + 1;
    }
    Patterned(pattern[..], full, q, n);
  }

  lemma Patterned(now: seq<Char>, full: seq<Char>, q: nat, n: nat)
    requires Unread(now, full, q, n)
    ensures IsPattern(full, n) && q <= n < |full| == |now|
  {
  }

  lemma LitCode(codes: seq<Char>, c: Char)
    ensures codes + Code(Lit(c)) == codes + [c]
  {
  }

  predicate HasMagic(items: seq<Item>) {
    exists i :: 0 <= i < |items| && !items[i].Lit?
  }

  lemma MagicStep(items: seq<Item>)
    ensures items == [] ==> !HasMagic(items)
    ensures items != [] ==> (HasMagic(items) <==> !items[0].Lit? || HasMagic(items[1..]))
  {
    if items != [] {
      if HasMagic(items) && items[0].Lit? {
        var i :| 0 <= i < |items| && !items[i].Lit?;
        assert items[1..][i - 1] == items[i];
      }
      if HasMagic(items[1..]) {
        var i :| 0 <= i < |items[1..]| && !items[1..][i].Lit?;
        assert items[i + 1] == items[1..][i];
      }
    }
  }

  lemma PushStep(done: seq<Item>, items: seq<Item>)
    ensures items == [] ==> PushAll(done, items) == done
    ensures items != [] ==> PushAll(done, items) == PushAll(Push(done, items[0]), items[1..])
  {
  }

  lemma ParseStep(p: seq<Char>, i: nat)
    requires i <= |p|
    ensures i == |p| ==> Parse(p, i) == []
    ensures i < |p| ==>
      Parse(p, i) != [] && Parse(p, i)[0] == ItemAt(p, i).0 && Parse(p, i)[1..] == Parse(p, ItemAt(p, i).1)
  {
    hide ItemAt;
  }

  /** The code before b is a star if the last item is. */
  lemma {:induction false} LastCode(done: seq<Item>, now: seq<Char>, b: nat)
    requires Written(now, b, Codes(done)) && AllSound(done)
    ensures b == 0 <==> done == []
    ensures done != [] ==> (now[b - 1] == M_ALL <==> done[|done| - 1].Any?)
  {
    if done != [] {
      var front, item := done[..|done| - 1], done[|done| - 1];
      assert done == front + [item];
      CodesOfBoth(front, item);
      assert Sound(item);
      var code := Code(item);
      assert now[b - 1] == now[..b][b - 1] == code[|code| - 1];
    }
  }

  lemma PatternBytes(full: seq<Char>, i: nat, n: nat)
    requires IsPattern(full, n) && i < n
    ensures n < |full| && Byte(CHAR(full[i]))
  {
  }

  lemma {:induction false} RangesSound(full: seq<Char>, i: nat, n: nat)
    requires IsPattern(full, n) && i < n && Close(full[..n], i + 1) < n
    ensures Sound(Class(false, Ranges(full[..n], i).0))
    decreases n - i
  {
    hide IsPattern, Close;
    PatternBytes(full, i, n);
    var p := full[..n];
    RangeStep(p, i, full, n);
    if i + 2 < n { PatternBytes(full, i + 2, n); }
    var j := AfterRange(p, i);
    if p[j] != RBRACKET { RangesSound(full, j, n); }
  }

  lemma ItemSound(full: seq<Char>, i: nat, n: nat)
    requires IsPattern(full, n) && i < n
    ensures Sound(ItemAt(full[..n], i).0)
  {
    hide Close, Ranges;
    var p := full[..n];
    if p[i] == LBRACKET && IsSet(p, i) { RangesSound(full, SetStart(p, i), n); }
  }

  /** One more item, unless it is a star after a star. */
  lemma PushWritten(done: seq<Item>, item: Item)
    requires AllSound(done) && Sound(item)
    ensures AllSound(Push(done, item))
    ensures Codes(Push(done, item))
            == Codes(done) + if item.Any? && done != [] && done[|done| - 1].Any? then [] else Code(item)
  {
    hide Sound, Code;
    CodesOfBoth(done, item);
  }

  /** An item that is not a bracket. */
  lemma PlainItem(full: seq<Char>, i: nat, n: nat)
    requires IsPattern(full, n) && i < n && full[i] != LBRACKET
    ensures var c := full[i];
            ItemAt(full[..n], i) == (if c == QUESTION then One else if c == STAR then Any else Lit(CHAR(c)), i + 1)
  {
  }

  /** The loop of glob0: compiles the pattern, which may lie in the buffer itself, and tells whether there is
      anything in it but plain characters. */
  method Glob0(pattern: array<Char>, ghost n: nat, buf: array<Char>) returns (b: nat, magic: bool)
    requires IsPattern(pattern[..], n) && n < buf.Length
    modifies buf
    ensures b <= n && buf[b] == EOS
    ensures CodesAt(buf[..], 0, b, Compiled(old(pattern[..n])))
    ensures magic <==> HasMagic(Parse(old(pattern[..n]), 0))
  {
    hide Unread, Written, IsPattern, ItemAt, Parse, Compiled, Push, PushAll, Codes, Code, CodesAt, Sound, AllSound,
      HasMagic;
    ghost var full := pattern[..];
    StartCompiling(full, n, buf[..]);
    ghost var p := full[..n];
    assert old(pattern[..n]) == p;
    var q: nat := 0;
    b, magic := 0, false;
    ghost var done: seq<Item> := [];
    ToRead(pattern[..], full, q, n);
    while pattern[q] != EOS
      invariant b <= q <= n == |p| < |full| && q < pattern.Length && Unread(pattern[..], full, q, n)
      invariant Written(buf[..], b, Codes(done)) && AllSound(done)
      invariant PushAll(done, Parse(p, q)) == Compiled(p)
      invariant (magic || HasMagic(Parse(p, q))) == HasMagic(Parse(p, 0))
      decreases n - q
    {
      ToRead(pattern[..], full, q, n);
      Patterned(pattern[..], full, q, n);
      ParseStep(p, q);
      MagicStep(Parse(p, q));
      PushStep(done, Parse(p, q));
      ItemSound(full, q, n);
      ghost var item := ItemAt(p, q).0;
      PushWritten(done, item);
      LastCode(done, buf[..], b);
      KindOf(item);
      var c := pattern[q];
      q := q + 1;
      if c == LBRACKET {
        BracketIsNoStar(full, q - 1, n);
        var isSet;
        q, b, isSet := CompileBracket(pattern, q, buf, b, Codes(done), full, n);
        magic := magic || isSet;
      } else {
        PlainItem(full, q - 1, n);
        ItemCode(Codes(done), item);
        if c == QUESTION {
          magic := true;
          Put(pattern, buf, b, M_ONE, Codes(done), full, q, n);
          b := b + 1;
        } else if c == STAR {
          magic := true;
          if b == 0 || buf[b - 1] != M_ALL {
            Put(pattern, buf, b, M_ALL, Codes(done), full, q, n);
            b := b + 1;
          } else {
            assert Codes(done) + [] == Codes(done);
          }
        } else {
          Put(pattern, buf, b, CHAR(c), Codes(done), full, q, n);
          b := b + 1;
        }
      }
      done := Push(done, item);
      ToRead(pattern[..], full, q, n);
    }
    ToRead(pattern[..], full, q, n);
    ParseStep(p, q);
    PushStep(done, Parse(p, q));
    MagicStep(Parse(p, q));
    ghost var was := buf[..];
    buf[b] := EOS;
    Finished(was, buf[..], b, done);
  }

  lemma StartCompiling(full: seq<Char>, n: nat, now: seq<Char>)
    requires IsPattern(full, n)
    ensures n < |full| && Unread(full, full, 0, n) && Written(now, 0, Codes([])) && AllSound([])
    ensures PushAll([], Parse(full[..n], 0)) == Compiled(full[..n])
  {
  }

  lemma KindOf(item: Item)
    ensures item.Lit? <==> !item.Any? && !item.One? && !item.Class?
  {
  }

  lemma BracketIsNoStar(full: seq<Char>, i: nat, n: nat)
    requires IsPattern(full, n) && i < n && full[i] == LBRACKET
    ensures !ItemAt(full[..n], i).0.Any? && !ItemAt(full[..n], i).0.One?
  {
  }

  lemma ItemCode(codes: seq<Char>, item: Item)
    ensures item.Any? ==> codes + Code(item) == codes + [M_ALL]
    ensures item.One? ==> codes + Code(item) == codes + [M_ONE]
    ensures item.Lit? ==> codes + Code(item) == codes + [item.c]
  {
  }

  lemma Finished(was: seq<Char>, now: seq<Char>, b: nat, done: seq<Item>)
    requires Written(was, b, Codes(done)) && AllSound(done) && b < |was| && now == was[b := EOS]
    ensures CodesAt(now, 0, b, done)
  {
    assert now[0..b] == was[..b];
  }

  // ---------------------------------------------------------------- names in a directory

  /** An initial dot is to be matched by a dot. */
  predicate DotAllowed(items: seq<Item>, name: seq<Char>) {
    name != [] && name[0] == DOT ==> items != [] && items[0] == Lit(DOT)
  }

  lemma FirstIsDot(pat: seq<Char>, b: nat, p: seq<Char>)
    requires CodesAt(pat, 0, b, Compiled(p)) && b < |pat| && pat[b] == EOS
    ensures pat[0] == DOT <==> Parse(p, 0) != [] && Parse(p, 0)[0] == Lit(DOT)
  {
    var items, all := Compiled(p), Parse(p, 0);
    OneItem(pat, 0, b, items);
    if all != [] {
      FirstPushed([all[0]], all[1..]);
      PushStep([], all);
      assert Push([], all[0]) == [all[0]];
      FirstCode(pat, 0, items, |Code(items[0])|);
    }
  }

  lemma {:induction false} FirstPushed(done: seq<Item>, items: seq<Item>)
    requires done != []
    ensures PushAll(done, items) != [] && PushAll(done, items)[0] == done[0]
    decreases |items|
  {
    if items != [] { FirstPushed(Push(done, items[0]), items[1..]); }
  }

  /** A pattern without a slash is compiled onto itself, and compared with a name in the directory, as glob3
      does: the name is found exactly if the pattern, as it was written, stands for it. */
  method GlobName(pattern: array<Char>, ghost n: nat, name: array<Char>, ghost end: nat) returns (r: bool)
    requires IsPattern(pattern[..], n) && SEP !in pattern[..n] && name != pattern
    requires IsName(name[..], 0, end)
    modifies pattern
    ensures var items := Parse(old(pattern[..n]), 0);
            r <==> InLanguage(items, name[..end]) && DotAllowed(items, name[..end])
  {
    hide IsPattern, IsName, Parse, Compiled, InLanguage, Matches, CodesAt, HasMagic;
    StartCompiling(pattern[..], n, pattern[..]);
    ghost var p := pattern[..n];
    InName(name[..], 0, end);
    var b, magic := Glob0(pattern, n, pattern);
    FirstIsDot(pattern[..], b, p);
    CompiledKeepsLanguage(p, name[..end]);
    if name[0] == DOT && pattern[0] != DOT { return false; }
    r := Match(name, 0, pattern, 0, b, Compiled(p), end);
    assert name[0..end] == name[..end];
  }
}
