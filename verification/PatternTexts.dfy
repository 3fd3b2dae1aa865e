/** A writer of shell patterns: what is written is what is read, and what it stands for. */
module PatternTexts {
  import opened Options
  import opened Patterns

  /** A character between brackets, as it is or with an escape in front. */
  datatype Symbol = Plain(c: Char) | Quoted(c: Char)

  datatype Item = Single(m: Symbol) | Range(lo: Symbol, hi: Symbol)

  datatype Piece =
    | Letter(c: Char)
    | Escaped(c: Char)
    | Backslashed(c: Char)
    | Question
    | Asterisk
    | Brackets(invert: bool, items: seq<Item>)

  /** Without an escape, a character must not have a meaning of its own. */
  predicate GoodSymbol(m: Symbol) {
    && m.c != 0 && m.c != CTLQUOTEMARK
    && (m.Plain? ==> m.c != CTLESC && m.c != DASH && m.c != CLOSE && m.c != BANG)
  }

  predicate GoodItem(x: Item) {
    match x
    case Single(m) => GoodSymbol(m)
    case Range(lo, hi) => GoodSymbol(lo) && GoodSymbol(hi)
  }

  predicate GoodItems(items: seq<Item>) {
    forall i :: 0 <= i < |items| ==> GoodItem(items[i])
  }

  predicate Good(p: Piece) {
    match p
    case Letter(c) =>
      c != 0 && c != CTLESC && c != CTLQUOTEMARK && c != BACKSLASH && c != QUERY && c != STAR && c != BRACKET
    case Escaped(c) => c != 0
    case Backslashed(c) => c != 0
    case Brackets(_, items) => items != [] && GoodItems(items)
    case _ => true
  }

  predicate AllGood(ps: seq<Piece>) {
    forall i :: 0 <= i < |ps| ==> Good(ps[i])
  }

  // ---------------------------------------------------------------- writing

  function WriteSymbol(m: Symbol): (r: Str)
    requires GoodSymbol(m)
    ensures r != [] && CTLQUOTEMARK !in r && r[0] != DASH && r[0] != CLOSE && r[0] != BANG
  {
    if m.Plain? then [m.c] else [CTLESC, m.c]
  }

  function WriteItem(x: Item): (r: Str)
    requires GoodItem(x)
    ensures r != [] && CTLQUOTEMARK !in r && r[0] != DASH && r[0] != CLOSE && r[0] != BANG
  {
    match x
    case Single(m) => WriteSymbol(m)
    case Range(lo, hi) => WriteSymbol(lo) + [DASH] + WriteSymbol(hi)
  }

  function WriteItems(items: seq<Item>): (r: Str)
    requires GoodItems(items)
    ensures CTLQUOTEMARK !in r
  {
    if items == [] then [] else WriteItem(items[0]) + WriteItems(items[1..])
  }

  function WritePiece(p: Piece): (r: Str)
    requires Good(p)
  {
    match p
    case Letter(c) => [c]
    case Escaped(c) => [CTLESC, c]
    case Backslashed(c) => [BACKSLASH, c]
    case Question => [QUERY]
    case Asterisk => [STAR]
    case Brackets(invert, items) => (if invert then [BRACKET, BANG] else [BRACKET]) + WriteItems(items) + [CLOSE]
  }

  function Write(ps: seq<Piece>): Str
    requires AllGood(ps)
  {
    if ps == [] then [] else WritePiece(ps[0]) + Write(ps[1..])
  }

  // ---------------------------------------------------------------- what is meant

  /** The character is one of those written, or lies between the two ends of a range. */
  predicate IsListed(x: Item, c: Char) {
    match x
    case Single(m) => c == m.c
    case Range(lo, hi) => lo.c <= c && c <= hi.c
  }

  predicate Takes(p: Piece, c: Char)
    requires !p.Asterisk?
  {
    match p
    case Question => true
    case Brackets(false, items) => exists i :: 0 <= i < |items| && IsListed(items[i], c)
    case Brackets(true, items) => forall i :: 0 <= i < |items| ==> !IsListed(items[i], c)
    case Letter(d) => c == d
    case Escaped(d) => c == d
    case Backslashed(d) => c == d
  }

  /** The string falls into parts: one character for each piece that is no asterisk, and any part for one that is. */
  ghost predicate Stands(ps: seq<Piece>, s: seq<Char>)
    decreases |ps|
  {
    if ps == [] then s == []
    else if ps[0].Asterisk? then exists k :: 0 <= k <= |s| && Stands(ps[1..], s[k..])
    else s != [] && Takes(ps[0], s[0]) && Stands(ps[1..], s[1..])
  }

  // ---------------------------------------------------------------- reading

  function Ends(x: Item): (Char, Char) {
    match x
    case Single(m) => (m.c, m.c)
    case Range(lo, hi) => (lo.c, hi.c)
  }

  function AllEnds(items: seq<Item>): (r: seq<(Char, Char)>)
    ensures |r| == |items| && forall i :: 0 <= i < |r| ==> r[i] == Ends(items[i])
  {
    if items == [] then [] else [Ends(items[0])] + AllEnds(items[1..])
  }

  function ElemOf(p: Piece): Elem {
    match p
    case Letter(c) => Lit(c)
    case Escaped(c) => Lit(c)
    case Backslashed(c) => Slashed(c)
    case Question => Any
    case Asterisk => Star
    case Brackets(invert, items) => Set(invert, AllEnds(items))
  }

  function ElemsOf(ps: seq<Piece>): (r: seq<Elem>)
    ensures |r| == |ps| && forall i :: 0 <= i < |r| ==> r[i] == ElemOf(ps[i])
  {
    if ps == [] then [] else [ElemOf(ps[0])] + ElemsOf(ps[1..])
  }

  /** The pattern has the text t at i. */
  predicate Has(pat: Str, i: nat, t: seq<Char>) {
    i + |t| <= |pat| && pat[i..i + |t|] == t
  }

  lemma HasParts(pat: Str, i: nat, t: seq<Char>, u: seq<Char>)
    requires Has(pat, i, t + u)
    ensures Has(pat, i, t) && Has(pat, i + |t|, u)
    ensures t != [] ==> pat[i] == t[0]
    ensures |t| > 1 ==> pat[i + 1] == t[1]
  {
    assert pat[i..i + |t|] == (t + u)[..|t|] == t;
    assert pat[i + |t|..i + |t| + |u|] == (t + u)[|t|..] == u;
  }

  lemma SymbolIsRead(pat: Str, i: nat, m: Symbol)
    requires GoodSymbol(m) && Has(pat, i, WriteSymbol(m))
    ensures Member(pat, i) == Some((m.c, i + |WriteSymbol(m)|)) && AfterMarks(pat, i) == i
    ensures At(pat, i) != DASH && At(pat, i) != CLOSE && At(pat, i) != CTLQUOTEMARK
  {
    HasParts(pat, i, WriteSymbol(m), []) by { assert WriteSymbol(m) + [] == WriteSymbol(m); }
  }

  /** One item is read, if what comes behind it is no dash and no quote mark. */
  lemma ItemIsRead(pat: Str, i: nat, x: Item)
    requires GoodItem(x) && Has(pat, i, WriteItem(x))
    requires var k := i + |WriteItem(x)|; At(pat, k) != DASH && At(pat, k) != CTLQUOTEMARK
    ensures var k := i + |WriteItem(x)|;
      && Members(pat, i) == Closed(pat, Ends(x), k)
      && (CloseAt(pat, i) == if At(pat, k) == CLOSE then Some(k) else CloseAt(pat, k))
      && (Scannable(pat, i) <==> At(pat, k) == CLOSE || Scannable(pat, k))
  {
    hide *;
    if x.Single? {
      WhatIsSingle(x);
      HasFits(pat, i, WriteItem(x));
      SymbolIsRead(pat, i, x.m);
      SingleIsRead(pat, i, x.m.c, i + |WriteItem(x)|);
    } else {
      WhatIsRange(x);
      var a, b := WriteSymbol(x.lo), WriteSymbol(x.hi);
      HasParts(pat, i, a, [DASH] + b);
      HasParts(pat, i + |a|, [DASH], b);
      SymbolIsRead(pat, i, x.lo);
      SymbolIsRead(pat, i + |a| + 1, x.hi);
      HasFits(pat, i + |a| + 1, b);
      RangeIsRead(pat, i, x.lo.c, i + |a|, x.hi.c, i + |WriteItem(x)|);
    }
  }

  lemma WhatIsSingle(x: Item)
    requires GoodItem(x) && x.Single?
    ensures GoodSymbol(x.m) && WriteItem(x) == WriteSymbol(x.m) && Ends(x) == (x.m.c, x.m.c)
  {
  }

  lemma WhatIsRange(x: Item)
    requires GoodItem(x) && x.Range?
    ensures GoodSymbol(x.lo) && GoodSymbol(x.hi) && Ends(x) == (x.lo.c, x.hi.c)
    ensures WriteItem(x) == WriteSymbol(x.lo) + ([DASH] + WriteSymbol(x.hi))
  {
  }

  lemma SingleIsRead(pat: Str, i: nat, c: Char, k: nat)
    requires i <= |pat| && Member(pat, i) == Some((c, k)) && AfterMarks(pat, i) == i
    requires k <= |pat| && At(pat, k) != DASH && At(pat, k) != CTLQUOTEMARK
    ensures Members(pat, i) == Closed(pat, (c, c), k)
    ensures CloseAt(pat, i) == if At(pat, k) == CLOSE then Some(k) else CloseAt(pat, k)
    ensures Scannable(pat, i) <==> At(pat, k) == CLOSE || Scannable(pat, k)
  {
    hide Closed;
  }

  lemma RangeIsRead(pat: Str, i: nat, c: Char, j: nat, d: Char, k: nat)
    requires i <= |pat| && Member(pat, i) == Some((c, j)) && AfterMarks(pat, i) == i
    requires j < |pat| && pat[j] == DASH && At(pat, j + 1) != CLOSE
    requires Member(pat, j + 1) == Some((d, k)) && AfterMarks(pat, j + 1) == j + 1
    requires k <= |pat| && At(pat, k) != CTLQUOTEMARK
    ensures Members(pat, i) == Closed(pat, (c, d), k)
    ensures CloseAt(pat, i) == if At(pat, k) == CLOSE then Some(k) else CloseAt(pat, k)
    ensures Scannable(pat, i) <==> At(pat, k) == CLOSE || Scannable(pat, k)
  {
    hide Closed;
    DashIsRead(pat, j);
    assert CloseAt(pat, i) == CloseAt(pat, j) && Scannable(pat, i) == Scannable(pat, j);
  }

  lemma DashIsRead(pat: Str, j: nat)
    requires j < |pat| && pat[j] == DASH && At(pat, j + 1) != CLOSE && AfterMarks(pat, j + 1) == j + 1
    ensures Member(pat, j) == Some((DASH, j + 1)) && AfterMarks(pat, j) == j && CloseAt(pat, j) == CloseAt(pat, j + 1)
    ensures Scannable(pat, j) == Scannable(pat, j + 1)
  {
  }

  lemma {:induction false} ItemsAreRead(pat: Str, i: nat, items: seq<Item>)
    requires GoodItems(items) && items != [] && Has(pat, i, WriteItems(items) + [CLOSE])
    ensures Members(pat, i) == Some((AllEnds(items), i + |WriteItems(items)|))
    ensures CloseAt(pat, i) == Some(i + |WriteItems(items)|) && Scannable(pat, i)
    decreases |items|
  {
    hide *;
    var later := items[1..];
    GoodLater(items);
    FirstItem(items);
    NextStart(later);
    var t, u := WriteItem(items[0]), WriteItems(later) + [CLOSE];
    assert WriteItems(items) + [CLOSE] == t + u && u + [] == u;
    HasParts(pat, i, t, u);
    var k := i + |t|;
    HasParts(pat, k, u, []);
    HasFits(pat, k, u);
    ItemIsRead(pat, i, items[0]);
    if later != [] { ItemsAreRead(pat, k, later); }
    ClosedIs(pat, Ends(items[0]), k);
  }

  lemma HasFits(pat: Str, i: nat, t: seq<Char>)
    requires Has(pat, i, t) && t != []
    ensures i < |pat| && i + |t| <= |pat| && At(pat, i) == pat[i] == t[0]
  {
    assert pat[i] == pat[i..i + |t|][0];
  }

  lemma GoodLater(items: seq<Item>)
    requires GoodItems(items) && items != []
    ensures GoodItem(items[0]) && GoodItems(items[1..])
  {
  }

  lemma FirstItem(items: seq<Item>)
    requires GoodItems(items) && items != []
    ensures WriteItems(items) == WriteItem(items[0]) + WriteItems(items[1..])
    ensures AllEnds(items) == [Ends(items[0])] + AllEnds(items[1..])
    ensures items[1..] == [] ==> WriteItems(items) == WriteItem(items[0]) && AllEnds(items) == [Ends(items[0])]
  {
  }

  lemma ClosedIs(pat: Str, range: (Char, Char), j: nat)
    requires j <= |pat|
    ensures At(pat, j) == CLOSE ==> Closed(pat, range, j) == Some(([range], j))
    ensures At(pat, j) != CLOSE && Members(pat, j).Some? ==>
      Closed(pat, range, j) == Some(([range] + Members(pat, j).value.0, Members(pat, j).value.1))
  {
    hide Members;
  }

  lemma NextStart(items: seq<Item>)
    requires GoodItems(items)
    ensures var u := WriteItems(items) + [CLOSE];
            u[0] != DASH && u[0] != CTLQUOTEMARK && (u[0] == CLOSE <==> items == [])
  {
  }

  // ---------------------------------------------------------------- whole patterns

  lemma BracketsAreRead(pat: Str, invert: bool, items: seq<Item>, rest: Str)
    requires items != [] && GoodItems(items) && pat == WritePiece(Brackets(invert, items)) + rest
    ensures var start := if invert then 2 else 1;
      var end := start + |WriteItems(items)|;
      && pat[0] == BRACKET && Inverted(pat) == invert && SetStart(pat) == start
      && Members(pat, start) == Some((AllEnds(items), end)) && CloseAt(pat, start) == Some(end)
      && Scannable(pat, start) && Unmarked(pat, start)
      && |WritePiece(Brackets(invert, items))| == end + 1
  {
    hide *;
    FirstOfItems(items);
    BracketsText(pat, invert, items, rest);
    ItemsAreRead(pat, if invert then 2 else 1, items);
    NoMarksIn(pat, if invert then 2 else 1, WriteItems(items));
  }

  lemma BracketsText(pat: Str, invert: bool, items: seq<Item>, rest: Str)
    requires GoodItems(items) && WriteItems(items) != [] && WriteItems(items)[0] != BANG
    requires items != [] && pat == WritePiece(Brackets(invert, items)) + rest
    ensures var start := if invert then 2 else 1;
      && |pat| > start && pat[0] == BRACKET && Inverted(pat) == invert && SetStart(pat) == start
      && Has(pat, start, WriteItems(items) + [CLOSE])
      && |WritePiece(Brackets(invert, items))| == start + |WriteItems(items)| + 1
  {
    hide *;
    var start, t := if invert then 2 else 1, WriteItems(items);
    WhatIsWritten(pat, invert, items, rest);
    HasFits(pat, start, t + [CLOSE]);
    StartIs(pat, invert);
  }

  lemma WhatIsWritten(pat: Str, invert: bool, items: seq<Item>, rest: Str)
    requires GoodItems(items) && items != [] && pat == WritePiece(Brackets(invert, items)) + rest
    ensures var start, t := if invert then 2 else 1, WriteItems(items);
      && |pat| > start && pat[0] == BRACKET && (invert ==> pat[1] == BANG) && Has(pat, start, t + [CLOSE])
      && |WritePiece(Brackets(invert, items))| == start + |t| + 1
  {
    hide WriteItems;
    var start, t := if invert then 2 else 1, WriteItems(items);
    assert pat[start..start + |t| + 1] == t + [CLOSE];
  }

  lemma StartIs(pat: Str, invert: bool)
    requires |pat| > 1 && (pat[1] == BANG <==> invert)
    ensures Inverted(pat) == invert && SetStart(pat) == if invert then 2 else 1
  {
  }

  lemma NoMarksIn(pat: Str, i: nat, t: seq<Char>)
    requires Has(pat, i, t + [CLOSE]) && CTLQUOTEMARK !in t && CloseAt(pat, i) == Some(i + |t|)
    ensures Unmarked(pat, i)
  {
    hide CloseAt;
    assert pat[i..i + |t|] == (t + [CLOSE])[..|t|] == t by { HasParts(pat, i, t, [CLOSE]); }
  }

  lemma FirstOfItems(items: seq<Item>)
    requires items != [] && GoodItems(items)
    ensures WriteItems(items) != [] && WriteItems(items)[0] != BANG
  {
  }

  /** The first piece is read, and no more. */
  lemma PieceIsRead(pat: Str, p: Piece, rest: Str)
    requires Good(p) && pat == WritePiece(p) + rest
    ensures pat != [] && pat[0] != CTLQUOTEMARK && Next(pat) == (ElemOf(p), |WritePiece(p)|)
    ensures pat[|WritePiece(p)|..] == rest && (Clear(rest) ==> Clear(pat))
  {
    hide Members, CloseAt, Scannable, Unmarked, Clear;
    if p.Brackets? { BracketsAreRead(pat, p.invert, p.items, rest); }
    ClearMore(pat, |WritePiece(p)|);
  }

  lemma ClearMore(pat: Str, n: nat)
    requires pat != [] && pat[0] != CTLQUOTEMARK && n == Next(pat).1
    requires pat[0] == CTLESC || pat[0] == BACKSLASH ==> |pat| > 1
    requires pat[0] == BRACKET ==> Scannable(pat, SetStart(pat)) && Unmarked(pat, SetStart(pat))
    ensures Clear(pat[n..]) ==> Clear(pat)
  {
    hide Next, Scannable, Unmarked;
  }

  /** What is written is what is read, and then what comes behind it. */
  lemma {:induction false} WrittenThenRest(ps: seq<Piece>, rest: Str)
    requires AllGood(ps)
    ensures Parse(Write(ps) + rest) == ElemsOf(ps) + Parse(rest) && (Clear(rest) ==> Clear(Write(ps) + rest))
    decreases |ps|
  {
    hide Clear, WritePiece, ElemOf, Next;
    if ps == [] {
      assert Write(ps) + rest == rest;
    } else {
      var later := Write(ps[1..]) + rest;
      assert Write(ps) + rest == WritePiece(ps[0]) + later;
      PieceIsRead(Write(ps) + rest, ps[0], later);
      WrittenThenRest(ps[1..], rest);
    }
  }

  /** What is written is what is read. */
  lemma WrittenIsRead(ps: seq<Piece>)
    requires AllGood(ps)
    ensures Parse(Write(ps)) == ElemsOf(ps) && Clear(Write(ps))
  {
    WrittenThenRest(ps, []);
    assert Write(ps) + [] == Write(ps);
  }

  function MarkFirst(s: Str): Str {
    [CTLQUOTEMARK] + s
  }

  function Both(s: Str, t: Str): Str {
    s + t
  }

  lemma MarkIsPassed(s: Str)
    ensures Parse(MarkFirst(s)) == Parse(s) && (Clear(s) ==> Clear(MarkFirst(s)))
  {
    assert MarkFirst(s)[1..] == s;
  }

  /** The marks of a quoted part are not read. */
  lemma QuotedIsRead(ps: seq<Piece>, qs: seq<Piece>, rs: seq<Piece>)
    requires AllGood(ps) && AllGood(qs) && AllGood(rs)
    ensures var pat := Both(Write(ps), MarkFirst(Both(Write(qs), MarkFirst(Write(rs)))));
            Parse(pat) == ElemsOf(ps) + (ElemsOf(qs) + ElemsOf(rs)) && Clear(pat)
  {
    hide Parse, Write, Clear, ElemsOf, AllGood, MarkFirst;
    var third := MarkFirst(Write(rs));
    var second := MarkFirst(Both(Write(qs), third));
    WrittenIsRead(rs);
    MarkIsPassed(Write(rs));
    WrittenThenRest(qs, third);
    MarkIsPassed(Both(Write(qs), third));
    WrittenThenRest(ps, second);
  }

  // ---------------------------------------------------------------- what patterns stand for

  lemma OneTakes(p: Piece, c: Char)
    requires Good(p) && !p.Asterisk?
    ensures One(ElemOf(p), c) <==> Takes(p, c)
  {
    if p.Brackets? { ListIsTaken(p.items, c); }
  }

  lemma ListIsTaken(items: seq<Item>, c: Char)
    ensures InRanges(AllEnds(items), c) <==> exists i :: 0 <= i < |items| && IsListed(items[i], c)
  {
    hide AllEnds;
    var ranges := AllEnds(items);
    forall i | 0 <= i < |items|
      ensures ranges[i].0 <= c <= ranges[i].1 <==> IsListed(items[i], c)
    {
      assert ranges[i] == Ends(items[i]);
    }
  }

  /** The text of a pattern stands for the strings that fall into parts as its pieces say. */
  lemma {:induction false} WrittenStands(ps: seq<Piece>, s: seq<Char>)
    requires AllGood(ps)
    ensures Lang(ElemsOf(ps), s) <==> Stands(ps, s)
    decreases |ps|
  {
    if ps != [] {
      assert ElemsOf(ps)[1..] == ElemsOf(ps[1..]);
      if ps[0].Asterisk? {
        forall k | 0 <= k <= |s|
          ensures Lang(ElemsOf(ps[1..]), s[k..]) <==> Stands(ps[1..], s[k..])
        {
          WrittenStands(ps[1..], s[k..]);
        }
      } else if s != [] {
        OneTakes(ps[0], s[0]);
        WrittenStands(ps[1..], s[1..]);
      }
    }
  }

  /** Of a pattern text without a backslash behind an asterisk, pmatch accepts just the strings it stands for. */
  lemma AcceptsWritten(ps: seq<Piece>, s: seq<Char>)
    requires AllGood(ps) && 0 !in s
    requires forall i :: 0 <= i < |ps| - 1 && ps[i].Asterisk? && ps[i + 1].Backslashed? ==> ps[i + 1].c == BACKSLASH
    ensures Clear(Write(ps)) && (Accepts(Parse(Write(ps)), s) <==> Stands(ps, s))
  {
    hide Lang, Accepts, Stands, Parse, Write;
    WrittenIsRead(ps);
    WrittenStands(ps, s);
    assert StarsAgree(ElemsOf(ps)) by {
      forall i | 0 <= i < |ps| - 1 && ElemsOf(ps)[i].Star? && ElemsOf(ps)[i + 1].Slashed?
        ensures ElemsOf(ps)[i + 1].c == BACKSLASH
      {
        assert ps[i].Asterisk? && ps[i + 1].Backslashed?;
      }
    }
    WhereExact(ElemsOf(ps), s);
  }
}
