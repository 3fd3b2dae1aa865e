/** A writer of csh file name patterns: what is written is what is read, and what it stands for. */
module GlobTexts {
  import opened Glob

  /** A byte of the pattern, with the mark of quoted characters or without. */
  datatype Symbol = Symbol(c: Char, quoted: bool)

  datatype Item = Single(m: Symbol) | Span(lo: Symbol, hi: Symbol)

  datatype Piece =
    | Letter(m: Symbol)
    | Question
    | Asterisk
    | Brackets(invert: bool, items: seq<Item>)

  predicate IsByte(c: Char) {
    0 < c < 0x100
  }

  /** Without the mark, a character between brackets must not have a meaning of its own. */
  predicate GoodSymbol(m: Symbol) {
    IsByte(m.c) && (!m.quoted ==> m.c != RBRACKET && m.c != RANGE && m.c != NOT)
  }

  predicate GoodItem(x: Item) {
    match x
    case Single(m) => GoodSymbol(m)
    case Span(lo, hi) => GoodSymbol(lo) && GoodSymbol(hi)
  }

  predicate GoodItems(items: seq<Item>) {
    forall i :: 0 <= i < |items| ==> GoodItem(items[i])
  }

  predicate Good(p: Piece) {
    match p
    case Letter(m) => IsByte(m.c) && (!m.quoted ==> m.c != LBRACKET && m.c != QUESTION && m.c != STAR)
    case Brackets(_, items) => items != [] && GoodItems(items)
    case _ => true
  }

  predicate AllGood(ps: seq<Piece>) {
    forall i :: 0 <= i < |ps| ==> Good(ps[i])
  }

  // ---------------------------------------------------------------- writing

  function WriteSymbol(m: Symbol): Char
    requires IsByte(m.c)
  {
    if m.quoted then m.c + M_QUOTE else m.c
  }

  function WriteItem(x: Item): (r: seq<Char>)
    requires GoodItem(x)
    ensures r != []
  {
    match x
    case Single(m) => [WriteSymbol(m)]
    case Span(lo, hi) => [WriteSymbol(lo), RANGE, WriteSymbol(hi)]
  }

  function WriteItems(items: seq<Item>): seq<Char>
    requires GoodItems(items)
  {
    if items == [] then [] else WriteItem(items[0]) + WriteItems(items[1..])
  }

  function WritePiece(p: Piece): (r: seq<Char>)
    requires Good(p)
    ensures r != []
  {
    match p
    case Letter(m) => [WriteSymbol(m)]
    case Question => [QUESTION]
    case Asterisk => [STAR]
    case Brackets(invert, items) => (if invert then [LBRACKET, NOT] else [LBRACKET]) + WriteItems(items) + [RBRACKET]
  }

  function Write(ps: seq<Piece>): seq<Char>
    requires AllGood(ps)
  {
    if ps == [] then [] else WritePiece(ps[0]) + Write(ps[1..])
  }

  // ---------------------------------------------------------------- what is meant

  predicate IsListed(x: Item, c: Char) {
    match x
    case Single(m) => c == m.c
    case Span(lo, hi) => lo.c <= c && c <= hi.c
  }

  /** The pieces stand for the name: one byte for each, and any part of the name for an asterisk. */
  ghost predicate StandsFor(ps: seq<Piece>, name: seq<Char>)
    decreases |ps|
  {
    if ps == [] then name == []
    else
      match ps[0]
      case Asterisk => exists k :: 0 <= k <= |name| && StandsFor(ps[1..], name[k..])
      case Letter(m) => name != [] && name[0] == m.c && StandsFor(ps[1..], name[1..])
      case Question => name != [] && StandsFor(ps[1..], name[1..])
      case Brackets(invert, items) =>
        && name != [] && StandsFor(ps[1..], name[1..])
        && if invert then forall i :: 0 <= i < |items| ==> !IsListed(items[i], name[0])
           else exists i :: 0 <= i < |items| && IsListed(items[i], name[0])
  }

  // ---------------------------------------------------------------- reading

  function RangeOf(x: Item): Glob.Range {
    match x
    case Single(m) => Glob.Range.Single(m.c)
    case Span(lo, hi) => Glob.Range.Span(lo.c, hi.c)
  }

  function RangesOf(items: seq<Item>): (r: seq<Glob.Range>)
    ensures |r| == |items| && forall i :: 0 <= i < |r| ==> r[i] == RangeOf(items[i])
  {
    if items == [] then [] else [RangeOf(items[0])] + RangesOf(items[1..])
  }

  function ItemOf(p: Piece): Glob.Item {
    match p
    case Letter(m) => Lit(m.c)
    case Question => One
    case Asterisk => Any
    case Brackets(invert, items) => Class(invert, RangesOf(items))
  }

  function ItemsOf(ps: seq<Piece>): (r: seq<Glob.Item>)
    ensures |r| == |ps| && forall i :: 0 <= i < |r| ==> r[i] == ItemOf(ps[i])
  {
    if ps == [] then [] else [ItemOf(ps[0])] + ItemsOf(ps[1..])
  }

  lemma SymbolIsRead(m: Symbol)
    requires IsByte(m.c)
    ensures CHAR(WriteSymbol(m)) == m.c
    ensures GoodSymbol(m) ==> WriteSymbol(m) != RBRACKET && WriteSymbol(m) != RANGE && WriteSymbol(m) != NOT
    ensures m.quoted ==> WriteSymbol(m) >= M_QUOTE
  {
  }

  /** The pattern has the text t at i. */
  predicate Has(p: seq<Char>, i: nat, t: seq<Char>) {
    i + |t| <= |p| && p[i..i + |t|] == t
  }

  lemma HasParts(p: seq<Char>, i: nat, t: seq<Char>, u: seq<Char>)
    requires Has(p, i, t + u)
    ensures Has(p, i, t) && Has(p, i + |t|, u)
  {
    assert p[i..i + |t|] == (t + u)[..|t|] == t;
    assert p[i + |t|..i + |t| + |u|] == (t + u)[|t|..] == u;
  }

  lemma HasAt(p: seq<Char>, i: nat, t: seq<Char>)
    requires Has(p, i, t)
    ensures i + |t| <= |p| && forall k :: 0 <= k < |t| ==> p[i + k] == t[k]
  {
    forall k | 0 <= k < |t|
      ensures p[i + k] == t[k]
    {
      assert p[i..i + |t|][k] == t[k];
    }
  }

  /** One item is read, if no dash follows it. */
  lemma ItemIsRead(p: seq<Char>, i: nat, x: Item)
    requires GoodItem(x) && Has(p, i, WriteItem(x))
    requires var k := i + |WriteItem(x)|; k < |p| && p[k] != RANGE
    ensures var k := i + |WriteItem(x)|;
      && RangeAt(p, i) == RangeOf(x) && Close(p, i + 1) == Close(p, k)
      && (Close(p, i + 1) < |p| ==> AfterRange(p, i) == k)
  {
    HasAt(p, i, WriteItem(x));
    match x
    case Single(m) =>
      SymbolIsRead(m);
    case Span(lo, hi) =>
      SymbolIsRead(lo);
      SymbolIsRead(hi);
      assert p[i] == WriteSymbol(lo) && p[i + 1] == RANGE && p[i + 2] == WriteSymbol(hi);
      assert Close(p, i + 1) == Close(p, i + 2) == Close(p, i + 3);
  }

  lemma {:induction false} ItemsAreRead(p: seq<Char>, i: nat, items: seq<Item>)
    requires GoodItems(items) && items != [] && Has(p, i, WriteItems(items) + [RBRACKET])
    ensures var end := i + |WriteItems(items)|;
      end < |p| && i < end && Close(p, i + 1) == end && Ranges(p, i) == (RangesOf(items), end + 1)
    decreases |items|
  {
    hide *;
    var later := items[1..];
    FirstItem(items);
    NextStart(later);
    var t, u := WriteItem(items[0]), WriteItems(later) + [RBRACKET];
    assert WriteItems(items) + [RBRACKET] == t + u;
    HasParts(p, i, t, u);
    var k := i + |t|;
    HasAt(p, k, u);
    assert p[k + 0] == u[0];
    ItemIsRead(p, i, items[0]);
    if later != [] { ItemsAreRead(p, k, later); } else { CloseHere(p, k); }
    CloseMore(p, k);
    RangesStep(p, i, k);
  }

  lemma FirstItem(items: seq<Item>)
    requires GoodItems(items) && items != []
    ensures GoodItem(items[0]) && GoodItems(items[1..])
    ensures WriteItems(items) == WriteItem(items[0]) + WriteItems(items[1..])
    ensures RangesOf(items) == [RangeOf(items[0])] + RangesOf(items[1..])
    ensures items[1..] == [] ==> WriteItems(items) == WriteItem(items[0]) && RangesOf(items) == [RangeOf(items[0])]
  {
  }

  lemma NextStart(items: seq<Item>)
    requires GoodItems(items)
    ensures var u := WriteItems(items) + [RBRACKET]; u[0] != RANGE && (u[0] == RBRACKET <==> items == [])
  {
    if items != [] {
      match items[0]
      case Single(m) => SymbolIsRead(m);
      case Span(lo, hi) => SymbolIsRead(lo);
    }
  }

  lemma CloseHere(p: seq<Char>, k: nat)
    requires k < |p| && p[k] == RBRACKET
    ensures Close(p, k) == k
  {
  }

  lemma CloseMore(p: seq<Char>, k: nat)
    requires k < |p|
    ensures p[k] != RBRACKET ==> Close(p, k) == Close(p, k + 1)
  {
  }

  lemma RangesStep(p: seq<Char>, i: nat, k: nat)
    requires i < |p| && Close(p, i + 1) < |p| && AfterRange(p, i) == k
    ensures k < |p| && (p[k] == RBRACKET ==> Ranges(p, i) == ([RangeAt(p, i)], k + 1))
    ensures p[k] != RBRACKET ==>
      Close(p, k + 1) < |p| && Ranges(p, i) == ([RangeAt(p, i)] + Ranges(p, k).0, Ranges(p, k).1)
  {
    hide RangeAt;
  }

  lemma BracketsAreRead(p: seq<Char>, i: nat, invert: bool, items: seq<Item>)
    requires items != [] && GoodItems(items) && Has(p, i, WritePiece(Brackets(invert, items)))
    ensures i < |p| && ItemAt(p, i) == (Class(invert, RangesOf(items)), i + |WritePiece(Brackets(invert, items))|)
  {
    hide *;
    var start := i + if invert then 2 else 1;
    BracketsText(p, i, invert, items);
    ItemsAreRead(p, start, items);
    SetIsRead(p, i, start, start + |WriteItems(items)|);
    WhatIsClass(invert, items);
  }

  lemma BracketsText(p: seq<Char>, i: nat, invert: bool, items: seq<Item>)
    requires items != [] && GoodItems(items) && Has(p, i, WritePiece(Brackets(invert, items)))
    ensures var start := i + if invert then 2 else 1;
      && start < |p| && p[i] == LBRACKET && Inverted(p, i) == invert && SetStart(p, i) == start
      && Has(p, start, WriteItems(items) + [RBRACKET])
      && i + |WritePiece(Brackets(invert, items))| == start + |WriteItems(items)| + 1
  {
    hide *;
    var open: seq<Char>, t := if invert then [LBRACKET, NOT] else [LBRACKET], WriteItems(items);
    WhatIsWritten(invert, items);
    HasParts(p, i, open, t + [RBRACKET]);
    FirstIsNot(items);
    HasOne(p, i, open, 0);
    if invert { HasOne(p, i, open, 1); }
    HasOne(p, i + |open|, t + [RBRACKET], 0);
    StartIs(p, i, invert);
  }

  lemma WhatIsWritten(invert: bool, items: seq<Item>)
    requires items != [] && GoodItems(items)
    ensures WritePiece(Brackets(invert, items))
         == (if invert then [LBRACKET, NOT] else [LBRACKET]) + (WriteItems(items) + [RBRACKET])
  {
    hide WriteItems;
  }

  lemma HasOne(p: seq<Char>, i: nat, t: seq<Char>, k: nat)
    requires Has(p, i, t) && k < |t|
    ensures i + k < |p| && p[i + k] == t[k]
  {
    assert p[i..i + |t|][k] == t[k];
  }

  lemma StartIs(p: seq<Char>, i: nat, invert: bool)
    requires i + 1 < |p| && (p[i + 1] == NOT <==> invert)
    ensures Inverted(p, i) == invert && SetStart(p, i) == i + if invert then 2 else 1
  {
  }

  lemma SetIsRead(p: seq<Char>, i: nat, start: nat, end: nat)
    requires i < start < end < |p| && p[i] == LBRACKET && SetStart(p, i) == start && Close(p, start + 1) == end
    ensures ItemAt(p, i) == (Class(Inverted(p, i), Ranges(p, start).0), Ranges(p, start).1)
  {
    hide Ranges, Close, Inverted;
  }

  lemma WhatIsClass(invert: bool, items: seq<Item>)
    ensures ItemOf(Brackets(invert, items)) == Class(invert, RangesOf(items))
  {
  }

  lemma FirstIsNot(items: seq<Item>)
    requires items != [] && GoodItems(items)
    ensures WriteItems(items) != [] && WriteItems(items)[0] != NOT
  {
    match items[0]
    case Single(m) => SymbolIsRead(m);
    case Span(lo, hi) => SymbolIsRead(lo);
  }

  lemma PieceIsRead(p: seq<Char>, i: nat, x: Piece)
    requires Good(x) && Has(p, i, WritePiece(x))
    ensures i < |p| && ItemAt(p, i) == (ItemOf(x), i + |WritePiece(x)|)
  {
    hide IsSet, Ranges;
    HasAt(p, i, WritePiece(x));
    assert p[i + 0] == WritePiece(x)[0];
    match x
    case Brackets(invert, items) => BracketsAreRead(p, i, invert, items);
    case Letter(m) => SymbolIsRead(m);
    case _ =>
  }

  /** What is written is what is read. */
  lemma {:induction false} WrittenIsRead(p: seq<Char>, i: nat, ps: seq<Piece>)
    requires AllGood(ps) && i <= |p| && p[i..] == Write(ps)
    ensures Parse(p, i) == ItemsOf(ps)
    decreases |ps|
  {
    hide ItemAt, WritePiece;
    if ps != [] {
      var t, u := WritePiece(ps[0]), Write(ps[1..]);
      assert p[i..i + |t|] == p[i..][..|t|] == t && p[i + |t|..] == p[i..][|t|..] == u;
      PieceIsRead(p, i, ps[0]);
      WrittenIsRead(p, i + |t|, ps[1..]);
    }
  }

  // ---------------------------------------------------------------- what patterns stand for

  lemma OneByte(x: Piece, name: seq<Char>)
    requires Good(x) && !x.Asterisk? && name != []
    ensures !ItemOf(x).Any?
    ensures Stands(ItemOf(x), name[..1]) <==>
      match x
      case Letter(m) => name[0] == m.c
      case Question => true
      case Brackets(invert, items) =>
        if invert then forall i :: 0 <= i < |items| ==> !IsListed(items[i], name[0])
        else exists i :: 0 <= i < |items| && IsListed(items[i], name[0])
  {
    assert name[..1] == [name[0]];
    if x.Brackets? {
      var ranges := RangesOf(x.items);
      forall i | 0 <= i < |x.items|
        ensures InRange(ranges[i], name[0]) <==> IsListed(x.items[i], name[0])
      {
        assert ranges[i] == RangeOf(x.items[i]);
      }
    }
  }

  lemma {:induction false} WrittenStands(ps: seq<Piece>, name: seq<Char>)
    requires AllGood(ps)
    ensures Matches(ItemsOf(ps), name) <==> StandsFor(ps, name)
    decreases |ps|
  {
    hide Stands;
    if ps != [] {
      assert ItemsOf(ps)[1..] == ItemsOf(ps[1..]);
      if ps[0].Asterisk? {
        forall k | 0 <= k <= |name|
          ensures Matches(ItemsOf(ps[1..]), name[k..]) <==> StandsFor(ps[1..], name[k..])
        {
          WrittenStands(ps[1..], name[k..]);
        }
      } else if name != [] {
        OneByte(ps[0], name);
        WrittenStands(ps[1..], name[1..]);
      }
    }
  }

  /** The text of a pattern stands for the names that its pieces stand for, and so does what it is compiled to. */
  lemma PatternStandsFor(ps: seq<Piece>, name: seq<Char>)
    requires AllGood(ps)
    ensures InLanguage(Parse(Write(ps), 0), name) <==> StandsFor(ps, name)
    ensures Matches(Compiled(Write(ps)), name) <==> StandsFor(ps, name)
  {
    hide Parse, Write, Matches, InLanguage, StandsFor, Compiled;
    var p := Write(ps);
    assert p[0..] == p;
    WrittenIsRead(p, 0, ps);
    WrittenStands(ps, name);
    MatchesIsLanguage(Parse(p, 0), name);
    CompiledKeepsLanguage(p, name);
  }
}
