/** Brace expansion in csh (src/bin/csh/glob.c): the worklist of globexpand, which rewrites the first
    brace group of a word, again and again, in an array that grows. */
module Braces {
  import opened Options

  type Word = string

  // ---------------------------------------------------------------- one word

  /** The place of the first opening brace, or the length of the word. */
  function FirstBrace(w: Word): (b: nat)
    ensures b <= |w| && (b < |w| ==> w[b] == '{') && '{' !in w[..b]
  {
    if w == [] || w[0] == '{' then 0 else 1 + FirstBrace(w[1..])
  }

  function Opens(w: Word): nat {
    if w == [] then 0 else (if w[0] == '{' then 1 else 0) + Opens(w[1..])
  }

  /** The place behind the bracket that ends a set, which is open at k; past the end if there is none. */
  function BehindSet(w: Word, k: nat): (j: nat)
    requires k <= |w|
    ensures k < j <= |w| + 1 && (j <= |w| ==> w[j - 1] == ']')
    decreases |w| - k
  {
    if k == |w| || w[k] == ']' then k + 1 else BehindSet(w, k + 1)
  }

  /** How the search for a closing brace ends: at its place, with an error, or at the end of the word with
      no more braces open than there were at first. */
  datatype Scan = At(place: nat) | Missing(c: char) | Past

  /** The closing brace that belongs to the brace before k, with i more open.  Sets are passed over. */
  function CloseAt(w: Word, k: nat, i: nat): (r: Scan)
    requires k <= |w|
    ensures r.At? ==> k <= r.place < |w| && w[r.place] == '}'
    decreases |w| - k
  {
    if k == |w| then if i == 0 then Past else Missing('{')
    else if w[k] == '[' then
      var j := BehindSet(w, k + 1);
      if j <= |w| then CloseAt(w, j, i) else Missing('[')
    else if w[k] == '}' && i == 0 then At(k)
    else CloseAt(w, k + 1, Nested(w[k], i))
  }

  /** How many braces are open after one more character. */
  function Nested(c: char, i: nat): nat {
    if c == '{' then i + 1 else if c == '}' && i > 0 then i - 1 else i
  }

  /** The alternatives from `start` on, up to the closing brace at e, after a look at what comes
      before k, in which i braces were opened. */
  function Pieces(w: Word, start: nat, k: nat, i: nat, e: nat): seq<Word>
    requires start <= k <= e < |w|
    decreases e - k
  {
    if k == e then [w[start..e]]
    else if w[k] == '[' then
      var j := BehindSet(w, k + 1);
      Pieces(w, start, if j <= e then j else e, i, e)
    else if w[k] == ',' && i == 0 then [w[start..k]] + Pieces(w, k + 1, k + 1, 0, e)
    else Pieces(w, start, k + 1, Nested(w[k], i), e)
  }

  /** Each piece with the same text around it. */
  function Around(left: Word, pieces: seq<Word>, right: Word): (r: seq<Word>)
    ensures |r| == |pieces| && forall j :: 0 <= j < |r| ==> r[j] == left + pieces[j] + right
  {
    if pieces == [] then [] else [left + pieces[0] + right] + Around(left, pieces[1..], right)
  }

  /** What the search for the end of the first group finds. */
  function GroupEnd(w: Word): (r: Scan)
    requires FirstBrace(w) < |w|
    ensures r.At? ==> FirstBrace(w) < r.place < |w|
  {
    CloseAt(w, FirstBrace(w) + 1, 0)
  }

  /** The words that the first group of a word stands for. */
  function Alternatives(w: Word): seq<Word>
    requires FirstBrace(w) < |w| && GroupEnd(w).At?
  {
    var b, e := FirstBrace(w), GroupEnd(w).place;
    Around(w[..b], Pieces(w, b + 1, b + 1, 0, e), w[e + 1..])
  }

  lemma {:induction false} OpensOfBoth(v: Word, w: Word)
    ensures Opens(v + w) == Opens(v) + Opens(w)
  {
    if v == [] {
      assert v + w == w;
    } else {
      assert (v + w)[1..] == v[1..] + w;
      OpensOfBoth(v[1..], w);
    }
  }

  lemma OpensOfPart(w: Word, i: nat, j: nat, k: nat, l: nat)
    requires i <= j <= k <= l <= |w|
    ensures Opens(w[j..k]) <= Opens(w[i..l])
  {
    hide *;
    assert w[i..l] == w[i..j] + w[j..k] + w[k..l];
    OpensOfBoth(w[i..j] + w[j..k], w[k..l]);
    OpensOfBoth(w[i..j], w[j..k]);
  }

  /** Every piece has no more braces than the group. */
  lemma {:induction false} PiecesAreParts(w: Word, start: nat, k: nat, i: nat, e: nat)
    requires start <= k <= e < |w|
    ensures forall p :: p in Pieces(w, start, k, i, e) ==> Opens(p) <= Opens(w[start..e])
    decreases e - k
  {
    hide Opens, BehindSet, Nested;
    if k < e {
      if w[k] == '[' {
        var j := BehindSet(w, k + 1);
        PiecesAreParts(w, start, if j <= e then j else e, i, e);
      } else if w[k] == ',' && i == 0 {
        OpensOfPart(w, start, start, k, e);
        OpensOfPart(w, start, k + 1, e, e);
        PiecesAreParts(w, k + 1, k + 1, 0, e);
      } else {
        PiecesAreParts(w, start, k + 1, Nested(w[k], i), e);
      }
    }
  }

  /** What a word is rewritten to has fewer braces. */
  lemma AlternativesAreSmaller(w: Word)
    requires FirstBrace(w) < |w| && GroupEnd(w).At?
    ensures forall x :: x in Alternatives(w) ==> Opens(x) < Opens(w)
  {
    hide *;
    var b, e := FirstBrace(w), GroupEnd(w).place;
    AlternativesAround(w);
    var ps := Pieces(w, b + 1, b + 1, 0, e);
    PiecesAreParts(w, b + 1, b + 1, 0, e);
    forall x | x in Alternatives(w)
      ensures Opens(x) < Opens(w)
    {
      var j := OneAround(w[..b], ps, w[e + 1..], x);
      OpensAround(w, b, ps[j], e);
    }
  }

  lemma AlternativesAround(w: Word)
    requires FirstBrace(w) < |w| && GroupEnd(w).At?
    ensures var b, e := FirstBrace(w), GroupEnd(w).place;
            e < |w| && Alternatives(w) == Around(w[..b], Pieces(w, b + 1, b + 1, 0, e), w[e + 1..])
  {
    hide Pieces, CloseAt, FirstBrace, Around;
  }

  lemma OneAround(left: Word, ps: seq<Word>, right: Word, x: Word) returns (j: nat)
    requires x in Around(left, ps, right)
    ensures j < |ps| && x == left + ps[j] + right && ps[j] in ps
  {
    j :| 0 <= j < |ps| && x == left + ps[j] + right;
  }

  lemma OpensAround(w: Word, b: nat, p: Word, e: nat)
    requires b < e < |w| && w[b] == '{' && Opens(p) <= Opens(w[b + 1..e])
    ensures Opens(w[..b] + p + w[e + 1..]) < Opens(w)
  {
    hide *;
    OpensOfBoth(w[..b] + p, w[e + 1..]);
    OpensOfBoth(w[..b], p);
    var group := ['{'] + w[b + 1..e];
    assert w == w[..b] + group + w[e..];
    OpensOfBoth(w[..b] + group, w[e..]);
    OpensOfBoth(w[..b], group);
    OneOpen(w[b + 1..e]);
    OpensOfPart(w, e, e + 1, |w|, |w|);
    assert w[e + 1..|w|] == w[e + 1..] && w[e..|w|] == w[e..];
  }

  lemma OneOpen(w: Word)
    ensures Opens(['{'] + w) == 1 + Opens(w)
  {
    assert (['{'] + w)[1..] == w;
  }

  // ---------------------------------------------------------------- recursive expansion

  /** The words that a word stands for, or the character whose absence makes it an error.  Nothing is said of
      a group that ends with the word, where the code reads past the end. */
  datatype Expansion = Words(words: seq<Word>) | Lacks(c: char) | Undefined

  /** One after the other, up to the first that goes wrong. */
  function Then(a: Expansion, b: Expansion): Expansion {
    if !a.Words? then a else if !b.Words? then b else Words(a.words + b.words)
  }

  function Expand(w: Word): Expansion
    decreases Opens(w), 1, 0
  {
    if FirstBrace(w) == |w| then Words([w])
    else
      match GroupEnd(w)
      case Missing(c) => Lacks(c)
      case Past => Undefined
      case At(_) =>
        AlternativesAreSmaller(w);
        ExpandAll(Alternatives(w), Opens(w))
  }

  /** The expansions of words with fewer than n braces, one after the other. */
  function ExpandAll(ws: seq<Word>, n: nat): Expansion
    requires forall x :: x in ws ==> Opens(x) < n
    decreases n, 0, |ws|
  {
    if ws == [] then Words([]) else Then(Expand(ws[0]), ExpandAll(ws[1..], n))
  }

  /** The expansions of all words, one after the other. */
  function Flat(ws: seq<Word>): Expansion {
    if ws == [] then Words([]) else Then(Expand(ws[0]), Flat(ws[1..]))
  }

  lemma {:induction false} ExpandAllIsFlat(ws: seq<Word>, n: nat)
    requires forall x :: x in ws ==> Opens(x) < n
    ensures ExpandAll(ws, n) == Flat(ws)
    decreases |ws|
  {
    if ws != [] { ExpandAllIsFlat(ws[1..], n); }
  }

  /** How many rounds of the worklist a word may take. */
  function Rounds(w: Word): (r: nat)
    ensures r > 0
    decreases Opens(w), 1, 0
  {
    if FirstBrace(w) < |w| && GroupEnd(w).At? then
      AlternativesAreSmaller(w);
      1 + RoundsAll(Alternatives(w), Opens(w))
    else 1
  }

  function RoundsAll(ws: seq<Word>, n: nat): nat
    requires forall x :: x in ws ==> Opens(x) < n
    decreases n, 0, |ws|
  {
    if ws == [] then 0 else Rounds(ws[0]) + RoundsAll(ws[1..], n)
  }

  function Total(ws: seq<Word>): nat {
    if ws == [] then 0 else Rounds(ws[0]) + Total(ws[1..])
  }

  lemma {:induction false} RoundsAllIsTotal(ws: seq<Word>, n: nat)
    requires forall x :: x in ws ==> Opens(x) < n
    ensures RoundsAll(ws, n) == Total(ws)
    decreases |ws|
  {
    if ws != [] { RoundsAllIsTotal(ws[1..], n); }
  }

  lemma ThenTwice(a: Expansion, b: Expansion, c: Expansion)
    ensures Then(Then(a, b), c) == Then(a, Then(b, c))
  {
    if a.Words? && b.Words? && c.Words? { assert a.words + b.words + c.words == a.words + (b.words + c.words); }
  }

  lemma {:induction false} FlatOfBoth(v: seq<Word>, w: seq<Word>)
    ensures Flat(v + w) == Then(Flat(v), Flat(w)) && Total(v + w) == Total(v) + Total(w)
    decreases |v|
  {
    if v == [] {
      assert v + w == w;
      assert Flat(w).Words? ==> [] + Flat(w).words == Flat(w).words;
    } else {
      assert (v + w)[1..] == v[1..] + w;
      FlatOfBoth(v[1..], w);
      ThenTwice(Expand(v[0]), Flat(v[1..]), Flat(w));
    }
  }

  /** One round of the worklist at the word w, with the words after it. */
  lemma OneRound(w: Word, after: seq<Word>)
    ensures Flat([w] + after) == Then(Expand(w), Flat(after)) && Total([w] + after) == Rounds(w) + Total(after)
    ensures FirstBrace(w) == |w| ==> Expand(w) == Words([w]) && Rounds(w) == 1
    ensures FirstBrace(w) < |w| ==>
      match GroupEnd(w)
      case Missing(c) => Flat([w] + after) == Lacks(c)
      case Past => Flat([w] + after) == Undefined
      case At(_) => Flat(Alternatives(w) + after) == Flat([w] + after)
                    && Total(Alternatives(w) + after) == Total([w] + after) - 1
  {
    assert ([w] + after)[1..] == after;
    if FirstBrace(w) < |w| && GroupEnd(w).At? {
      AlternativesAreSmaller(w);
      ExpandAllIsFlat(Alternatives(w), Opens(w));
      RoundsAllIsTotal(Alternatives(w), Opens(w));
      FlatOfBoth(Alternatives(w), after);
    }
  }

  // ---------------------------------------------------------------- globbrace

  lemma AroundOne(left: Word, p: Word, ps: seq<Word>, right: Word)
    ensures Around(left, [p] + ps, right) == [left + p + right] + Around(left, ps, right)
    ensures Around(left, [p], right) == [left + p + right]
  {
    assert ([p] + ps)[1..] == ps && [p][1..] == [];
  }

  /** One step of the two searches: over a set, or over one character. */
  lemma LookOn(w: Word, start: nat, k: nat, i: nat)
    requires start <= k < |w| && CloseAt(w, k, i).At?
    ensures var e := CloseAt(w, k, i).place;
      if k == e then w[k] == '}' && i == 0 && Pieces(w, start, k, i, e) == [w[start..e]]
      else if w[k] == '[' then
        var j := BehindSet(w, k + 1);
        j <= e && CloseAt(w, j, i) == At(e) && Pieces(w, start, k, i, e) == Pieces(w, start, j, i, e)
      else
        && CloseAt(w, k + 1, Nested(w[k], i)) == At(e) && (w[k] == '}' ==> i > 0)
        && Pieces(w, start, k, i, e)
           == if w[k] == ',' && i == 0 then [w[start..k]] + Pieces(w, k + 1, k + 1, 0, e)
              else Pieces(w, start, k + 1, Nested(w[k], i), e)
  {
  }

  /** The words that the first group of a word stands for, or the character that is missing. */
  method Globbrace(s: Word) returns (bl: seq<Word>, missing: Option<char>)
    requires FirstBrace(s) < |s| && GroupEnd(s) != Past
    ensures match GroupEnd(s)
            case Missing(c) => missing == Some(c)
            case At(_) => missing == None && bl == Alternatives(s)
  {
    hide Around, Pieces, CloseAt, FirstBrace;
    bl := [];
    var p := Prefix(s);
    var pe;
    pe, missing := FindClosing(s, p + 1);
    if missing == None { bl := SplitGroup(s, s[..p], p + 1, pe); }
  }

  /** One piece more has been put down. */
  lemma OnePiece(bl: seq<Word>, left: Word, p: Word, ps: seq<Word>, right: Word)
    ensures bl + Around(left, [p] + ps, right) == bl + [left + p + right] + Around(left, ps, right)
  {
    hide Around;
    AroundOne(left, p, ps, right);
  }

  /** The loop of globbrace that splits the group at its commas. */
  method SplitGroup(s: Word, lm: Word, p: nat, pe: nat) returns (bl: seq<Word>)
    requires p <= pe < |s| && CloseAt(s, p, 0) == At(pe)
    ensures bl == Around(lm, Pieces(s, p, p, 0, pe), s[pe + 1..])
  {
    hide BehindSet, FirstBrace, Opens, CloseAt, Pieces, Around;
    bl := [];
    ghost var all := Around(lm, Pieces(s, p, p, 0, pe), s[pe + 1..]);
    var i, pl, pm := 0, p, p;
    while pm < pe
      invariant p <= pl <= pm <= pe < |s| && i >= 0 && CloseAt(s, pm, i) == At(pe)
      invariant bl + Around(lm, Pieces(s, pl, pm, i, pe), s[pe + 1..]) == all
    {
      LookOn(s, pl, pm, i);
      if s[pm] == '[' {
        pm := SkipSet(s, pm + 1);
      } else {
        if s[pm] == '{' {
          i := i + 1;
        } else if s[pm] == '}' {
          i := i - 1;
        } else if s[pm] == ',' && i == 0 {
          OnePiece(bl, lm, s[pl..pm], Pieces(s, pm + 1, pm + 1, 0, pe), s[pe + 1..]);
          bl := bl + [lm + s[pl..pm] + s[pe + 1..]];
          pl := pm + 1;
        }
        pm := pm + 1;
      }
    }
    LookOn(s, pl, pm, i);
    AroundOne(lm, s[pl..pe], [], s[pe + 1..]);
    bl := bl + [lm + s[pl..pe] + s[pe + 1..]];
  }

  /** The loop that goes on to the closing bracket, or to the end. */
  method SkipSet(s: Word, k: nat) returns (j: nat)
    requires k <= |s|
    ensures j == BehindSet(s, k)
  {
    j := k;
    while j < |s| && s[j] != ']'
      invariant k <= j <= |s| && BehindSet(s, j) == BehindSet(s, k)
    {
      j := j + 1;
    }
    j := j + 1;
  }

  method Prefix(s: Word) returns (p: nat)
    requires FirstBrace(s) < |s|
    ensures p == FirstBrace(s)
  {
    p := 0;
    while s[p] != '{'
      invariant p <= FirstBrace(s)
      decreases FirstBrace(s) - p
    {
      p := p + 1;
    }
    NoneBefore(s);
  }

  lemma NoneBefore(s: Word)
    ensures forall i :: 0 <= i < FirstBrace(s) ==> s[i] != '{'
  {
    forall i | 0 <= i < FirstBrace(s)
      ensures s[i] != '{'
    {
      assert s[i] in s[..FirstBrace(s)];
    }
  }

  /** The loop of globbrace that looks for the closing brace. */
  method FindClosing(s: Word, p: nat) returns (pe: nat, missing: Option<char>)
    requires p <= |s| && CloseAt(s, p, 0) != Past
    ensures CloseAt(s, p, 0) == match missing case None => At(pe) case Some(c) => Missing(c)
  {
    var i := 0;
    pe := p;
    while pe < |s|
      invariant p <= pe <= |s| && i >= 0 && CloseAt(s, pe, i) == CloseAt(s, p, 0)
    {
      if s[pe] == '[' {
        pe := SkipSet(s, pe + 1);
        if pe > |s| { return pe, Some('['); }
      } else {
        if s[pe] == '{' {
          i := i + 1;
        } else if s[pe] == '}' {
          if i == 0 { return pe, None; }
          i := i - 1;
        }
        pe := pe + 1;
      }
    }
    missing := Some('{');
  }

  // ---------------------------------------------------------------- the worklist

  datatype Ptr = Null | To(word: Word)

  const GLOBSPACE := 100

  /** The array holds these words and a null pointer after them. */
  predicate Holds(m: seq<Ptr>, ws: seq<Word>) {
    |ws| < |m| && m[|ws|] == Null && forall i :: 0 <= i < |ws| ==> m[i] == To(ws[i])
  }

  /** Room for len more pointers. */
  method Grow(nv0: array<Ptr>, el: nat, len: nat, ghost ws: seq<Word>) returns (nv: array<Ptr>)
    requires Holds(nv0[..], ws) && el == |ws|
    ensures (nv == nv0 || fresh(nv)) && Holds(nv[..], ws) && el + len <= nv.Length
  {
    nv := nv0;
    var size := nv0.Length;
    if el + len >= size {
      var l := el + len - size;
      var size' := size + if GLOBSPACE > l then GLOBSPACE else l;
      nv := new Ptr[size'](_ => Null);
      var i := 0;
      while i < size
        invariant 0 <= i <= size && fresh(nv) && nv.Length == size' && nv0[..] == old(nv0[..])
        invariant forall j :: 0 <= j < i ==> nv[j] == nv0[j]
        modifies nv
      {
        nv[i] := nv0[i];
        i := i + 1;
      }
      assert forall j :: 0 <= j < el ==> nv0[..][j] == To(ws[j]);
      assert nv0[..][el] == Null;
    }
  }

  /** Puts the words bl in the place of the one at vl: what comes after it moves up. */
  method Replace(nv: array<Ptr>, vl: nat, el: nat, bl: seq<Word>, ghost ws: seq<Word>)
    requires Holds(nv[..], ws) && el == |ws| && vl < el && |bl| >= 2 && el + |bl| <= nv.Length
    modifies nv
    ensures Holds(nv[..], ws[..vl] + bl + ws[vl + 1..])
  {
    ghost var m := nv[..];
    nv[vl] := To(bl[0]);
    ghost var m1 := nv[..];
    MoveUp(nv, vl, el, |bl| - 1);
    assert nv[..vl + 1] == m1[..vl + 1] && m1[..vl + 1][..vl] == m[..vl] && nv[..vl + 1][vl] == m1[vl];
    ghost var above := nv[vl + |bl|..el + |bl|];
    assert above == m1[vl + 1..el + 1] == m[vl + 1..el + 1];
    PutRest(nv, vl, bl);
    assert nv[vl + |bl|..el + |bl|] == above;
    ReplacedHolds(nv[..], m, vl, bl, ws);
  }

  /** Moves what comes after vl, with the null pointer at el, up by len. */
  method MoveUp(nv: array<Ptr>, vl: nat, el: nat, len: nat)
    requires vl <= el && el + len < nv.Length
    modifies nv
    ensures nv[..vl + 1] == old(nv[..vl + 1])
    ensures nv[vl + len + 1..el + len + 1] == old(nv[vl + 1..el + 1])
  {
    ghost var m := nv[..];
    var bp := el;
    while bp != vl
      invariant vl <= bp <= el
      invariant nv[..bp + 1] == m[..bp + 1]
      invariant nv[bp + len + 1..el + len + 1] == m[bp + 1..el + 1]
      decreases bp - vl
    {
      ghost var above := nv[bp + len + 1..el + len + 1];
      assert nv[..bp + 1][bp] == m[bp];
      nv[bp + len] := nv[bp];
      bp := bp - 1;
      assert nv[bp + len + 1..el + len + 1] == [m[bp + 1]] + above;
      assert nv[..bp + 1] == m[..bp + 1];
    }
  }

  /** Copies all words but the first to the places after vl. */
  method PutRest(nv: array<Ptr>, vl: nat, bl: seq<Word>)
    requires |bl| >= 1 && vl + |bl| <= nv.Length && nv[vl] == To(bl[0])
    modifies nv
    ensures forall i :: 0 <= i < |bl| ==> nv[vl + i] == To(bl[i])
    ensures forall i :: 0 <= i < vl || vl + |bl| <= i < nv.Length ==> nv[i] == old(nv[i])
  {
    var k := 1;
    while k < |bl|
      invariant 1 <= k <= |bl|
      invariant forall i :: 0 <= i < k ==> nv[vl + i] == To(bl[i])
      invariant forall i :: 0 <= i < vl || vl + |bl| <= i < nv.Length ==> nv[i] == old(nv[i])
    {
      nv[vl + k] := To(bl[k]);
      k := k + 1;
    }
  }

  lemma ReplacedHolds(n: seq<Ptr>, m: seq<Ptr>, vl: nat, bl: seq<Word>, ws: seq<Word>)
    requires Holds(m, ws) && vl < |ws| && |bl| >= 1 && |ws| + |bl| - 1 < |n|
    requires n[..vl] == m[..vl] && n[vl + |bl|..|ws| + |bl|] == m[vl + 1..|ws| + 1]
    requires forall i :: 0 <= i < |bl| ==> n[vl + i] == To(bl[i])
    ensures Holds(n, ws[..vl] + bl + ws[vl + 1..])
  {
    var t := ws[..vl] + bl + ws[vl + 1..];
    forall i | 0 <= i < |t|
      ensures n[i] == To(t[i])
    {
      if i < vl {
        assert n[..vl][i] == m[..vl][i];
      } else if i < vl + |bl| {
        assert n[vl + (i - vl)] == To(bl[i - vl]);
      } else {
        var j := i - vl - |bl|;
        assert n[vl + |bl|..|ws| + |bl|][j] == m[vl + 1..|ws| + 1][j];
      }
    }
    var j := |t| - vl - |bl|;
    assert n[vl + |bl|..|ws| + |bl|][j] == m[vl + 1..|ws| + 1][j];
  }

  /** The state of the worklist: what comes before vl is final. */
  ghost predicate Working(m: seq<Ptr>, vl: nat, ws: seq<Word>, all: Expansion)
  {
    Holds(m, ws) && vl <= |ws| && Then(Words(ws[..vl]), Flat(ws[vl..])) == all
  }

  /** Step 2 of globexpand: the array ends up holding the expansions of its words, one after the
      other, unless one of them is an error. */
  method GlobExpand(nv0: array<Ptr>, el0: nat, ghost words: seq<Word>)
      returns (nv: array<Ptr>, el: nat, missing: Option<char>)
    requires Holds(nv0[..], words) && el0 == |words| && Flat(words) != Undefined
    modifies nv0
    ensures match Flat(words)
            case Words(all) => missing == None && el == |all| && Holds(nv[..], all)
            case Lacks(c) => missing == Some(c)
  {
    hide *;
    nv, el, missing := nv0, el0, None;
    ghost var ws := words;
    var vl := 0;
    StartWork(nv[..], words);
    while nv[vl] != Null
      invariant (nv == nv0 || fresh(nv)) && el == |ws| && vl < nv.Length && Working(nv[..], vl, ws, Flat(words))
      invariant vl <= |ws| && missing == None
      decreases Total(ws[vl..])
    {
      WorkAt(nv[..], vl, ws, Flat(words));
      var s := nv[vl].word;
      if '{' in s {
        ghost var t;
        nv, el, missing, t := Rewrite(nv, vl, el, s, ws);
        if missing != None {
          WorkFails(nv[..], vl, ws, Flat(words), missing.value);
          return;
        }
        WorkGoesOn(nv[..], vl, ws, t, Flat(words));
        ws := t;
      } else {
        vl := vl + 1;
      }
    }
    WorkEnds(nv[..], vl, ws, Flat(words));
  }

  /** Puts the alternatives of the word s in its place. */
  method Rewrite(nv0: array<Ptr>, vl: nat, el0: nat, s: Word, ghost ws: seq<Word>)
      returns (nv: array<Ptr>, el: nat, missing: Option<char>, ghost t: seq<Word>)
    requires Holds(nv0[..], ws) && el0 == |ws| < nv0.Length && vl < |ws| && ws[vl] == s
    requires FirstBrace(s) < |s| && Flat(ws[vl..]) != Undefined
    modifies nv0
    ensures missing != None ==> nv == nv0 && nv[..] == old(nv0[..]) && Flat(ws[vl..]) == Lacks(missing.value)
    ensures missing == None ==>
      && (nv == nv0 || fresh(nv)) && Holds(nv[..], t) && el == |t| < nv.Length
      && vl < |t| && t[..vl] == ws[..vl]
      && Flat(t[vl..]) == Flat(ws[vl..]) && Total(t[vl..]) < Total(ws[vl..])
  {
    hide *;
    nv, el, t := nv0, el0, ws;
    Rewritten(ws, vl);
    var bl;
    bl, missing := Globbrace(s);
    if missing != None { return; }
    t := ws[..vl] + bl + ws[vl + 1..];
    if |bl| == 1 {
      ghost var m := nv[..];
      nv[vl] := To(bl[0]);
      ReplacedHolds(nv[..], m, vl, bl, ws);
    } else {
      nv := Grow(nv, el, |bl|, ws);
      Replace(nv, vl, el, bl, ws);
      el := el + |bl| - 1;
    }
  }

  lemma StartWork(m: seq<Ptr>, words: seq<Word>)
    requires Holds(m, words)
    ensures Working(m, 0, words, Flat(words)) && |words| < |m|
  {
    assert words[0..] == words && words[..0] == [];
    assert Flat(words).Words? ==> [] + Flat(words).words == Flat(words).words;
  }

  lemma WorkAt(m: seq<Ptr>, vl: nat, ws: seq<Word>, all: Expansion)
    requires Working(m, vl, ws, all) && vl < |m| && m[vl] != Null && all != Undefined
    ensures vl < |ws| && m[vl] == To(ws[vl]) && Holds(m, ws) && |ws| < |m|
    ensures Flat(ws[vl..]) != Undefined && Then(Words(ws[..vl]), Flat(ws[vl..])) == all
    ensures '{' in ws[vl] ==> FirstBrace(ws[vl]) < |ws[vl]|
    ensures '{' !in ws[vl] ==>
      vl + 1 < |m| && Working(m, vl + 1, ws, all) && Total(ws[vl + 1..]) < Total(ws[vl..])
  {
    hide Flat, Total, FirstBrace, Expand, Rounds;
    var s, after := ws[vl], ws[vl + 1..];
    assert ws[vl..] == [s] + after;
    assert '{' in s <==> FirstBrace(s) < |s| by {
      if FirstBrace(s) == |s| { assert s[..|s|] == s; }
    }
    OneRound(s, after);
    assert ws[..vl + 1] == ws[..vl] + [s];
    ThenTwice(Words(ws[..vl]), Words([s]), Flat(after));
  }

  lemma WorkGoesOn(m: seq<Ptr>, vl: nat, ws: seq<Word>, t: seq<Word>, all: Expansion)
    requires vl <= |ws| && Then(Words(ws[..vl]), Flat(ws[vl..])) == all
    requires vl <= |t| && Holds(m, t) && t[..vl] == ws[..vl] && Flat(t[vl..]) == Flat(ws[vl..])
    ensures Working(m, vl, t, all)
  {
  }

  lemma WorkFails(m: seq<Ptr>, vl: nat, ws: seq<Word>, all: Expansion, c: char)
    requires Working(m, vl, ws, all) && Flat(ws[vl..]) == Lacks(c)
    ensures all == Lacks(c)
  {
  }

  lemma WorkEnds(m: seq<Ptr>, vl: nat, ws: seq<Word>, all: Expansion)
    requires Working(m, vl, ws, all) && vl < |m| && m[vl] == Null
    ensures all == Words(ws) && Holds(m, ws)
  {
    AtNull(m, vl, ws);
    assert ws[vl..] == [] && ws[..vl] == ws && ws + [] == ws;
  }

  lemma AtNull(m: seq<Ptr>, vl: nat, ws: seq<Word>)
    requires Holds(m, ws) && vl <= |ws| && m[vl] == Null
    ensures vl == |ws|
  {
  }

  /** What a round makes of the words from vl on. */
  lemma Rewritten(ws: seq<Word>, vl: nat)
    requires vl < |ws| && FirstBrace(ws[vl]) < |ws[vl]|
    ensures var w := ws[vl];
      match GroupEnd(w)
      case Missing(c) => Flat(ws[vl..]) == Lacks(c)
      case Past => Flat(ws[vl..]) == Undefined
      case At(_) =>
        var t := ws[..vl] + Alternatives(w) + ws[vl + 1..];
        |Alternatives(w)| >= 1 && t[..vl] == ws[..vl]
        && Flat(t[vl..]) == Flat(ws[vl..]) && Total(t[vl..]) < Total(ws[vl..])
  {
    hide Expand, Rounds, FirstBrace, Flat, Total, GroupEnd;
    var w, after := ws[vl], ws[vl + 1..];
    assert ws[vl..] == [w] + after;
    OneRound(w, after);
    if GroupEnd(w).At? {
      PiecesExist(w);
      assert (ws[..vl] + Alternatives(w) + after)[vl..] == Alternatives(w) + after;
    }
  }

  lemma PiecesExist(w: Word)
    requires FirstBrace(w) < |w| && GroupEnd(w).At?
    ensures |Alternatives(w)| >= 1
  {
    var b := FirstBrace(w);
    PiecesNonempty(w, b + 1, b + 1, 0, GroupEnd(w).place);
  }

  lemma {:induction false} PiecesNonempty(w: Word, start: nat, k: nat, i: nat, e: nat)
    requires start <= k <= e < |w|
    ensures |Pieces(w, start, k, i, e)| >= 1
    decreases e - k
  {
    if k < e {
      if w[k] == '[' {
        var j := BehindSet(w, k + 1);
        PiecesNonempty(w, start, if j <= e then j else e, i, e);
      } else if !(w[k] == ',' && i == 0) {
        PiecesNonempty(w, start, k + 1, Nested(w[k], i), e);
      }
    }
  }

  // ---------------------------------------------------------------- what braces mean

  /** The structure of a word: characters, sets in brackets, and groups of alternatives. */
  datatype Text =
    | End
    | Ch(c: char, rest: Text)
    | Bracketed(members: Word, rest: Text)
    | Group(options: Branches, rest: Text)

  datatype Branches = Last(text: Text) | More(text: Text, others: Branches)

  function InBrackets(members: Word): Word {
    ['['] + members + [']']
  }

  function Print(t: Text): Word {
    match t
    case End => []
    case Ch(c, rest) => [c] + Print(rest)
    case Bracketed(members, rest) => InBrackets(members) + Print(rest)
    case Group(options, rest) => ['{'] + PrintOptions(options) + ['}'] + Print(rest)
  }

  function PrintOptions(o: Branches): Word {
    match o
    case Last(t) => Print(t)
    case More(t, others) => Print(t) + [','] + PrintOptions(others)
  }

  /** Braces open and close groups, and commas part the alternatives; outside of all groups a comma
      or a closing brace may stand too, and in brackets both may stand anywhere. */
  predicate Proper(t: Text, inside: bool) {
    match t
    case End => true
    case Ch(c, rest) => c != '{' && c != '[' && (inside ==> c != ',' && c != '}') && Proper(rest, inside)
    case Bracketed(members, rest) => '{' !in members && ']' !in members && Proper(rest, inside)
    case Group(options, rest) => ProperOptions(options) && Proper(rest, inside)
  }

  predicate ProperOptions(o: Branches) {
    Proper(o.text, true) && (o.More? ==> ProperOptions(o.others))
  }

  function Prefixed(x: Word, ys: seq<Word>): seq<Word> {
    if ys == [] then [] else [x + ys[0]] + Prefixed(x, ys[1..])
  }

  /** All ways to go on from a word of xs to one of ys, those of the first word of xs first. */
  function Cross(xs: seq<Word>, ys: seq<Word>): seq<Word> {
    if xs == [] then [] else Prefixed(xs[0], ys) + Cross(xs[1..], ys)
  }

  /** The words that a structure stands for: one alternative chosen from each group, in order. */
  function Product(t: Text): seq<Word> {
    match t
    case End => [[]]
    case Ch(c, rest) => Prefixed([c], Product(rest))
    case Bracketed(members, rest) => Prefixed(InBrackets(members), Product(rest))
    case Group(options, rest) => Cross(Choices(options), Product(rest))
  }

  function Choices(o: Branches): seq<Word> {
    match o
    case Last(t) => Product(t)
    case More(t, others) => Product(t) + Choices(others)
  }

  // ---- closed words

  /** How many braces are open at the end, with d open at first. */
  function Unclosed(w: Word, d: nat): nat {
    if w == [] then d else Unclosed(w[1..], Nested(w[0], d))
  }

  /** Every brace that opens is closed, and there is no bracket. */
  predicate Closed(w: Word) {
    Unclosed(w, 0) == 0 && '[' !in w
  }

  lemma {:induction false} UnclosedOfBoth(v: Word, w: Word, d: nat)
    ensures Unclosed(v + w, d) == Unclosed(w, Unclosed(v, d))
    decreases |v|
  {
    if v == [] {
      assert v + w == w;
    } else {
      assert (v + w)[1..] == v[1..] + w;
      UnclosedOfBoth(v[1..], w, Nested(v[0], d));
    }
  }

  /** Without brackets, the group is closed if every brace from it on is. */
  lemma {:induction false} CloseIsThere(w: Word, k: nat, i: nat)
    requires k <= |w| && '[' !in w
    ensures match CloseAt(w, k, i)
            case At(e) => Unclosed(w[k..], i + 1) == Unclosed(w[e + 1..], 0)
            case Missing(c) => c == '{' && Unclosed(w[k..], i + 1) > 1
            case Past => Unclosed(w[k..], i + 1) == 1
    decreases |w| - k
  {
    assert k < |w| ==> w[k] in w && w[k..][1..] == w[k + 1..];
    if k < |w| && !(w[k] == '}' && i == 0) { CloseIsThere(w, k + 1, Nested(w[k], i)); }
  }

  // ---- the text of a structure is closed

  lemma {:induction false} TextIsClosed(t: Text, inside: bool, d: nat)
    requires Proper(t, inside) && (inside || d == 0) && '[' !in Print(t)
    ensures Unclosed(Print(t), d) == d
    decreases t
  {
    match t {
      case End =>
      case Ch(c, rest) =>
        TextIsClosed(rest, inside, d);
        assert Print(t)[1..] == Print(rest);
      case Bracketed(_, _) =>
      case Group(o, rest) =>
        OptionsAreClosed(o, d + 1);
        TextIsClosed(rest, inside, d);
        var a, b := ['{'] + PrintOptions(o), ['}'] + Print(rest);
        assert Print(t) == a + b;
        UnclosedOfBoth(a, b, d);
        assert a[1..] == PrintOptions(o) && b[1..] == Print(rest);
    }
  }

  lemma {:induction false} OptionsAreClosed(o: Branches, d: nat)
    requires ProperOptions(o) && '[' !in PrintOptions(o)
    ensures Unclosed(PrintOptions(o), d) == d
    decreases o
  {
    TextIsClosed(o.text, true, d);
    if o.More? {
      OptionsAreClosed(o.others, d);
      var b := [','] + PrintOptions(o.others);
      assert PrintOptions(o) == Print(o.text) + b && b[1..] == PrintOptions(o.others);
      UnclosedOfBoth(Print(o.text), b, d);
    }
  }

  // ---- looking through the text of a structure

  /** The word w has the text p at k. */
  predicate Has(w: Word, k: nat, p: Word) {
    k + |p| <= |w| && w[k..k + |p|] == p
  }

  lemma HasParts(w: Word, k: nat, p: Word, q: Word)
    requires Has(w, k, p + q)
    ensures Has(w, k, p) && Has(w, k + |p|, q)
    ensures |p| == 1 ==> w[k] == p[0]
  {
    assert w[k..k + |p|] == (p + q)[..|p|] == p;
    assert w[k + |p|..k + |p| + |q|] == (p + q)[|p|..] == q;
  }

  /** One character further, in the search for the closing brace and in that for commas. */
  lemma OneOn(w: Word, start: nat, k: nat, i: nat, e: nat)
    requires start <= k < e < |w| && w[k] != '['
    ensures !(w[k] == '}' && i == 0) ==> CloseAt(w, k, i) == CloseAt(w, k + 1, Nested(w[k], i))
    ensures Pieces(w, start, k, i, e)
            == if w[k] == ',' && i == 0 then [w[start..k]] + Pieces(w, k + 1, k + 1, 0, e)
               else Pieces(w, start, k + 1, Nested(w[k], i), e)
  {
  }

  /** Over a set in brackets, in both searches. */
  lemma SetOn(w: Word, start: nat, k: nat, i: nat, e: nat, members: Word)
    requires Has(w, k, InBrackets(members)) && ']' !in members && start <= k && k + |InBrackets(members)| <= e < |w|
    ensures CloseAt(w, k, i) == CloseAt(w, k + |InBrackets(members)|, i)
    ensures Pieces(w, start, k, i, e) == Pieces(w, start, k + |InBrackets(members)|, i, e)
  {
    hide Has;
    HasParts(w, k, ['['], members + [']']) by { assert InBrackets(members) == ['['] + (members + [']']); }
    SetEnds(w, k + 1, members);
  }

  lemma {:induction false} SetEnds(w: Word, k: nat, members: Word)
    requires Has(w, k, members + [']']) && ']' !in members
    ensures k < |w| && BehindSet(w, k) == k + |members| + 1
    decreases |members|
  {
    hide Has;
    if members == [] {
      HasParts(w, k, [']'], []) by { assert members + [']'] == [']'] + []; }
    } else {
      HasParts(w, k, [members[0]], members[1..] + [']']) by {
        assert members + [']'] == [members[0]] + (members[1..] + [']']);
      }
      SetEnds(w, k + 1, members[1..]);
    }
    assert k < |w| by { HasFits(w, k, members + [']']); }
  }

  /** The searches for the closing brace and for commas pass over the text of an alternative. */
  lemma {:induction false} PassText(w: Word, start: nat, k: nat, i: nat, e: nat, t: Text)
    requires Proper(t, true) && Has(w, k, Print(t)) && start <= k && k + |Print(t)| <= e < |w|
    ensures CloseAt(w, k, i) == CloseAt(w, k + |Print(t)|, i)
    ensures Pieces(w, start, k, i, e) == Pieces(w, start, k + |Print(t)|, i, e)
    decreases t
  {
    hide CloseAt, Pieces, Has;
    match t {
      case End =>
      case Ch(c, rest) =>
        HasParts(w, k, [c], Print(rest));
        OneOn(w, start, k, i, e);
        PassText(w, start, k + 1, i, e, rest);
      case Bracketed(members, rest) =>
        HasParts(w, k, InBrackets(members), Print(rest));
        SetOn(w, start, k, i, e, members);
        PassText(w, start, k + |InBrackets(members)|, i, e, rest);
      case Group(o, rest) =>
        var a := PrintOptions(o);
        HasGroup(w, k, o, rest);
        hide Print;
        OneOn(w, start, k, i, e);
        PassOptions(w, start, k + 1, i + 1, e, o);
        OneOn(w, start, k + 1 + |a|, i + 1, e);
        PassText(w, start, k + 2 + |a|, i, e, rest);
    }
  }

  lemma HasGroup(w: Word, k: nat, o: Branches, rest: Text)
    requires Has(w, k, Print(Group(o, rest)))
    ensures var a := PrintOptions(o);
            && |Print(Group(o, rest))| == 2 + |a| + |Print(rest)|
            && k + 2 + |a| + |Print(rest)| <= |w| && w[k] == '{' && Has(w, k + 1, a) && w[k + 1 + |a|] == '}'
            && Has(w, k + 2 + |a|, Print(rest))
  {
    hide *;
    var a, b := PrintOptions(o), Print(rest);
    PrintGroup(o, rest);
    assert Print(Group(o, rest)) == ['{'] + (a + (['}'] + b));
    HasParts(w, k, ['{'], a + (['}'] + b));
    HasParts(w, k + 1, a, ['}'] + b);
    HasParts(w, k + 1 + |a|, ['}'], b);
    HasFits(w, k + 2 + |a|, b);
  }

  lemma HasFits(w: Word, k: nat, p: Word)
    requires Has(w, k, p)
    ensures k + |p| <= |w|
  {
  }

  lemma {:induction false} PassOptions(w: Word, start: nat, k: nat, i: nat, e: nat, o: Branches)
    requires ProperOptions(o) && Has(w, k, PrintOptions(o)) && i > 0
    requires start <= k && k + |PrintOptions(o)| <= e < |w|
    ensures CloseAt(w, k, i) == CloseAt(w, k + |PrintOptions(o)|, i)
    ensures Pieces(w, start, k, i, e) == Pieces(w, start, k + |PrintOptions(o)|, i, e)
    decreases o
  {
    hide CloseAt, Pieces, Has;
    var a := Print(o.text);
    if o.More? {
      var b := PrintOptions(o.others);
      assert PrintOptions(o) == a + ([','] + b);
      HasParts(w, k, a, [','] + b);
      HasParts(w, k + |a|, [','], b);
      PassText(w, start, k, i, e, o.text);
      OneOn(w, start, k + |a|, i, e);
      PassOptions(w, start, k + |a| + 1, i, e, o.others);
    } else {
      PassText(w, start, k, i, e, o.text);
    }
  }

  function PrintEach(o: Branches): seq<Word> {
    if o.Last? then [Print(o.text)] else [Print(o.text)] + PrintEach(o.others)
  }

  /** The pieces of a group are the texts of its alternatives. */
  lemma {:induction false} PiecesOfOptions(w: Word, k: nat, o: Branches, e: nat)
    requires ProperOptions(o) && Has(w, k, PrintOptions(o)) && e == k + |PrintOptions(o)| < |w| && w[e] == '}'
    ensures CloseAt(w, k, 0) == At(e) && Pieces(w, k, k, 0, e) == PrintEach(o)
    decreases o
  {
    hide CloseAt, Pieces, Has;
    var a := Print(o.text);
    if o.More? {
      var b := PrintOptions(o.others);
      assert PrintOptions(o) == a + ([','] + b);
      HasParts(w, k, a, [','] + b);
      HasParts(w, k + |a|, [','], b);
      PassText(w, k, k, 0, e, o.text);
      OneOn(w, k, k + |a|, 0, e);
      HasIs(w, k, a);
      PiecesOfOptions(w, k + |a| + 1, o.others, e);
    } else {
      PassText(w, k, k, 0, e, o.text);
      HasIs(w, k, a);
      AtClose(w, k, e);
    }
  }

  lemma HasIs(w: Word, k: nat, p: Word)
    requires Has(w, k, p)
    ensures w[k..k + |p|] == p
  {
  }

  lemma AtClose(w: Word, start: nat, e: nat)
    requires start <= e < |w| && w[e] == '}'
    ensures CloseAt(w, e, 0) == At(e) && Pieces(w, start, e, 0, e) == [w[start..e]]
  {
  }

  // ---- the expansions are the product

  lemma {:induction false} PrefixedOfBoth(x: Word, ys: seq<Word>, zs: seq<Word>)
    ensures Prefixed(x, ys + zs) == Prefixed(x, ys) + Prefixed(x, zs)
  {
    if ys == [] {
      assert ys + zs == zs;
    } else {
      assert (ys + zs)[1..] == ys[1..] + zs;
      PrefixedOfBoth(x, ys[1..], zs);
    }
  }

  lemma {:induction false} PrefixedTwice(x: Word, y: Word, zs: seq<Word>)
    ensures Prefixed(x, Prefixed(y, zs)) == Prefixed(x + y, zs)
  {
    if zs != [] {
      PrefixedTwice(x, y, zs[1..]);
      assert x + (y + zs[0]) == x + y + zs[0];
    }
  }

  lemma {:induction false} PrefixedByNothing(zs: seq<Word>)
    ensures Prefixed([], zs) == zs
  {
    if zs != [] {
      PrefixedByNothing(zs[1..]);
      assert [] + zs[0] == zs[0] && zs == [zs[0]] + zs[1..];
    }
  }

  lemma {:induction false} CrossOfBoth(xs: seq<Word>, ys: seq<Word>, zs: seq<Word>)
    ensures Cross(xs + ys, zs) == Cross(xs, zs) + Cross(ys, zs)
  {
    if xs == [] {
      assert xs + ys == ys;
    } else {
      assert (xs + ys)[1..] == xs[1..] + ys;
      CrossOfBoth(xs[1..], ys, zs);
    }
  }

  lemma {:induction false} CrossPrefixed(x: Word, ys: seq<Word>, zs: seq<Word>)
    ensures Cross(Prefixed(x, ys), zs) == Prefixed(x, Cross(ys, zs))
  {
    if ys != [] {
      CrossPrefixed(x, ys[1..], zs);
      PrefixedTwice(x, ys[0], zs);
      PrefixedOfBoth(x, Prefixed(ys[0], zs), Cross(ys[1..], zs));
    }
  }

  lemma {:induction false} CrossTwice(xs: seq<Word>, ys: seq<Word>, zs: seq<Word>)
    ensures Cross(Cross(xs, ys), zs) == Cross(xs, Cross(ys, zs))
  {
    if xs != [] {
      CrossTwice(xs[1..], ys, zs);
      CrossPrefixed(xs[0], ys, zs);
      CrossOfBoth(Prefixed(xs[0], ys), Cross(xs[1..], ys), zs);
    }
  }

  /** One structure after another. */
  function Append(t: Text, u: Text): Text {
    match t
    case End => u
    case Ch(c, rest) => Ch(c, Append(rest, u))
    case Bracketed(members, rest) => Bracketed(members, Append(rest, u))
    case Group(o, rest) => Group(o, Append(rest, u))
  }

  lemma AppendIsBoth(t: Text, u: Text)
    ensures Print(Append(t, u)) == Print(t) + Print(u) && Product(Append(t, u)) == Cross(Product(t), Product(u))
    ensures Proper(t, true) && Proper(u, false) ==> Proper(Append(t, u), false)
  {
    hide *;
    AppendPrints(t, u);
    AppendIsCross(t, u);
    if Proper(t, true) && Proper(u, false) { AppendOutside(t, u); }
  }

  lemma {:induction false} AppendPrints(t: Text, u: Text)
    ensures Print(Append(t, u)) == Print(t) + Print(u)
    decreases t
  {
    if !t.End? { AppendPrints(t.rest, u); }
  }

  lemma {:induction false} AppendIsCross(t: Text, u: Text)
    ensures Product(Append(t, u)) == Cross(Product(t), Product(u))
    decreases t
  {
    hide Prefixed;
    match t {
      case End =>
        PrefixedByNothing(Product(u));
        assert Cross([[]], Product(u)) == Product(u);
      case Ch(c, rest) =>
        AppendIsCross(rest, u);
        CrossPrefixed([c], Product(rest), Product(u));
      case Bracketed(members, rest) =>
        AppendIsCross(rest, u);
        CrossPrefixed(InBrackets(members), Product(rest), Product(u));
      case Group(o, rest) =>
        AppendIsCross(rest, u);
        CrossTwice(Choices(o), Product(rest), Product(u));
    }
  }

  lemma {:induction false} AppendOutside(t: Text, u: Text)
    requires Proper(t, true) && Proper(u, false)
    ensures Proper(Append(t, u), false)
    decreases t
  {
    if !t.End? { AppendOutside(t.rest, u); }
  }

  /** The alternatives of a word are the texts of its structure with each alternative put in. */
  lemma AlternativesOfText(x: Word, o: Branches, rest: Text)
    requires '{' !in x && ProperOptions(o) && Proper(rest, false)
    ensures var w := x + Print(Group(o, rest));
            && FirstBrace(w) == |x| < |w| && GroupEnd(w).At?
            && Alternatives(w) == Around(x, PrintEach(o), Print(rest))
  {
    hide *;
    var a, w := PrintOptions(o), x + Print(Group(o, rest));
    PrintGroup(o, rest);
    GroupText(x, a, Print(rest), w);
    FirstBraceIs(x, ['{'] + (a + (['}'] + Print(rest))));
    PiecesOfOptions(w, |x| + 1, o, |x| + 1 + |a|);
    AlternativesAre(w, |x|, |x| + 1 + |a|, x, PrintEach(o), Print(rest));
  }

  lemma PrintGroup(o: Branches, rest: Text)
    ensures Print(Group(o, rest)) == ['{'] + PrintOptions(o) + ['}'] + Print(rest)
  {
  }

  lemma AlternativesAre(w: Word, b: nat, e: nat, left: Word, ps: seq<Word>, right: Word)
    requires b == FirstBrace(w) < |w| && CloseAt(w, b + 1, 0) == At(e) && e < |w|
    requires w[..b] == left && Pieces(w, b + 1, b + 1, 0, e) == ps && w[e + 1..] == right
    ensures GroupEnd(w).At? && Alternatives(w) == Around(left, ps, right)
  {
    hide FirstBrace, CloseAt, Pieces, Around;
  }

  lemma GroupText(x: Word, a: Word, y: Word, w: Word)
    requires w == x + (['{'] + a + ['}'] + y)
    ensures w == x + (['{'] + (a + (['}'] + y)))
    ensures |x| + 1 + |a| < |w| && w[|x| + 1 + |a|] == '}' && w[|x| + |a| + 2..] == y && w[..|x|] == x
    ensures Has(w, |x| + 1, a)
  {
  }

  lemma {:induction false} FirstBraceIs(x: Word, y: Word)
    requires '{' !in x && y != [] && y[0] == '{'
    ensures FirstBrace(x + y) == |x|
  {
    if x != [] {
      assert (x + y)[1..] == x[1..] + y;
      FirstBraceIs(x[1..], y);
    }
  }

  lemma NoBraceInText(x: Word)
    requires '{' !in x
    ensures FirstBrace(x) == |x|
  {
    NoneBefore(x);
  }

  /** The number of groups in a structure. */
  function Groups(t: Text): nat {
    match t
    case End => 0
    case Ch(_, rest) => Groups(rest)
    case Bracketed(_, rest) => Groups(rest)
    case Group(o, rest) => 1 + GroupsIn(o) + Groups(rest)
  }

  function GroupsIn(o: Branches): nat {
    Groups(o.text) + if o.More? then GroupsIn(o.others) else 0
  }

  lemma {:induction false} GroupsOfBoth(t: Text, u: Text)
    ensures Groups(Append(t, u)) == Groups(t) + Groups(u)
    decreases t
  {
    if !t.End? { GroupsOfBoth(t.rest, u); }
  }

  /** A word with plain characters x in front of a structure stands for the product of the latter,
      with x in front. */
  lemma {:induction false} ExpandIsProduct(x: Word, t: Text)
    requires '{' !in x && Proper(t, false)
    ensures Expand(x + Print(t)) == Words(Prefixed(x, Product(t)))
    decreases Groups(t), 1, t
  {
    hide Expand, Alternatives, Around, PrintEach, CloseAt, FirstBrace, Flat, Opens, PrintOptions, Choices;
    match t {
      case End =>
        assert x + Print(t) == x && Prefixed(x, [[]]) == [x + []] == [x];
        PlainWord(x);
      case Ch(c, rest) =>
        assert x + Print(t) == x + [c] + Print(rest);
        ExpandIsProduct(x + [c], rest);
        PrefixedTwice(x, [c], Product(rest));
      case Bracketed(members, rest) =>
        assert x + Print(t) == x + InBrackets(members) + Print(rest);
        ExpandIsProduct(x + InBrackets(members), rest);
        PrefixedTwice(x, InBrackets(members), Product(rest));
      case Group(o, rest) =>
        EachIsProduct(x, o, rest);
        GroupWord(x, o, rest);
    }
  }

  lemma PlainWord(x: Word)
    requires '{' !in x
    ensures Expand(x) == Words([x])
  {
    NoBraceInText(x);
  }

  /** The expansion of a word whose first group has these alternatives. */
  lemma GroupWord(x: Word, o: Branches, rest: Text)
    requires '{' !in x && Proper(Group(o, rest), false)
    ensures var w := x + Print(Group(o, rest));
            Expand(w) == Flat(Around(x, PrintEach(o), Print(rest)))
  {
    hide Alternatives, Around, PrintEach, CloseAt, FirstBrace, Flat, Opens, Print, PrintOptions;
    var t := Group(o, rest);
    AlternativesOfText(x, o, rest);
    AlternativesAreSmaller(x + Print(t));
    ExpandAllIsFlat(Alternatives(x + Print(t)), Opens(x + Print(t)));
  }

  lemma {:induction false} EachIsProduct(x: Word, o: Branches, rest: Text)
    requires '{' !in x && ProperOptions(o) && Proper(rest, false)
    ensures var ws := Around(x, PrintEach(o), Print(rest));
            Flat(ws) == Words(Prefixed(x, Cross(Choices(o), Product(rest))))
    decreases GroupsIn(o) + Groups(rest), 2, o
  {
    hide Expand, Cross, Prefixed, Product, Print, Append, Proper;
    var ws := Around(x, PrintEach(o), Print(rest));
    var first := Append(o.text, rest);
    AppendIsBoth(o.text, rest);
    GroupsOfBoth(o.text, rest);
    assert ws[0] == x + Print(first);
    ExpandIsProduct(x, first);
    if o.More? {
      EachIsProduct(x, o.others, rest);
      assert ws[1..] == Around(x, PrintEach(o.others), Print(rest));
      CrossOfBoth(Product(o.text), Choices(o.others), Product(rest));
      PrefixedOfBoth(x, Cross(Product(o.text), Product(rest)), Cross(Choices(o.others), Product(rest)));
    } else {
      assert ws == [ws[0]];
    }
  }

  /** The recursive expansion of the text of a structure is the product of its groups. */
  lemma ExpandText(t: Text)
    requires Proper(t, false)
    ensures Expand(Print(t)) == Words(Product(t)) && ('[' !in Print(t) ==> Closed(Print(t)))
  {
    if '[' !in Print(t) { TextIsClosed(t, false, 0); }
    ExpandIsProduct([], t);
    assert [] + Print(t) == Print(t);
    PrefixedByNothing(Product(t));
  }

  // ---- every closed word has a structure

  /** Starting with d braces open, every closing brace closes one, and all are closed. */
  predicate Tight(p: Word, d: nat) {
    if p == [] then d == 0
    else if p[0] == '{' then Tight(p[1..], d + 1)
    else if p[0] == '}' then d > 0 && Tight(p[1..], d - 1)
    else Tight(p[1..], d)
  }

  lemma {:induction false} GroupIsTight(w: Word, k: nat, i: nat)
    requires k <= |w| && '[' !in w && CloseAt(w, k, i).At?
    ensures Tight(w[k..CloseAt(w, k, i).place], i)
    decreases |w| - k
  {
    var e := CloseAt(w, k, i).place;
    if k < e {
      assert w[k..e][1..] == w[k + 1..e] && w[k] in w;
      GroupIsTight(w, k + 1, Nested(w[k], i));
    }
  }

  lemma {:induction false} TightSplits(p: Word, k: nat, i: nat)
    requires k <= |p| && '[' !in p && Tight(p[k..], i + 1)
    ensures CloseAt(p, k, i).At? && Tight(p[CloseAt(p, k, i).place + 1..], 0)
    decreases |p| - k
  {
    assert k < |p| ==> p[k..][1..] == p[k + 1..] && p[k] in p;
    if k < |p| && !(p[k] == '}' && i == 0) { TightSplits(p, k + 1, Nested(p[k], i)); }
  }

  function InFront(item: Text, o: Branches): Branches {
    if o.Last? then Last(Append(item, o.text)) else More(Append(item, o.text), o.others)
  }

  lemma InFrontIsBoth(item: Text, o: Branches)
    requires Proper(item, true) && ProperOptions(o)
    ensures ProperOptions(InFront(item, o)) && PrintOptions(InFront(item, o)) == Print(item) + PrintOptions(o)
  {
    AppendIsBoth(item, o.text);
    AppendIsProper(item, o.text);
  }

  lemma {:induction false} AppendIsProper(t: Text, u: Text)
    requires Proper(t, true) && Proper(u, true)
    ensures Proper(Append(t, u), true)
    decreases t
  {
    if !t.End? { AppendIsProper(t.rest, u); }
  }

  lemma GroupInFront(inner: Branches, after: Branches)
    requires ProperOptions(inner) && ProperOptions(after)
    ensures var o := InFront(Group(inner, End), after);
            ProperOptions(o) && PrintOptions(o) == ['{'] + PrintOptions(inner) + ['}'] + PrintOptions(after)
  {
    InFrontIsBoth(Group(inner, End), after);
    assert Print(Group(inner, End)) == ['{'] + PrintOptions(inner) + ['}'] + Print(End);
  }

  lemma CharInFront(c: char, after: Branches)
    requires c != '{' && c != '[' && c != ',' && c != '}' && ProperOptions(after)
    ensures var o := InFront(Ch(c, End), after); ProperOptions(o) && PrintOptions(o) == [c] + PrintOptions(after)
  {
    InFrontIsBoth(Ch(c, End), after);
    assert Print(Ch(c, End)) == [c] + Print(End);
  }

  /** A group in front, in the text of alternatives. */
  lemma GroupFirst(p: Word)
    requires Tight(p, 0) && p != [] && p[0] == '{' && '[' !in p
    ensures CloseAt(p, 1, 0).At?
    ensures var e := CloseAt(p, 1, 0).place;
            && 1 <= e < |p| && Tight(p[1..e], 0) && Tight(p[e + 1..], 0)
            && p == ['{'] + p[1..e] + ['}'] + p[e + 1..]
  {
    assert Tight(p[1..], 1);
    hide *;
    TightSplits(p, 1, 0);
    GroupIsTight(p, 1, 0);
    Rejoin(p, CloseAt(p, 1, 0).place);
  }

  lemma Rejoin(p: Word, e: nat)
    requires 1 <= e < |p| && p[0] == '{' && p[e] == '}'
    ensures p == ['{'] + p[1..e] + ['}'] + p[e + 1..]
  {
  }

  /** The alternatives of a group, from its text. */
  lemma {:induction false} ReadOptions(p: Word) returns (o: Branches)
    requires Tight(p, 0) && '[' !in p
    ensures ProperOptions(o) && PrintOptions(o) == p
    decreases |p|
  {
    hide CloseAt, Proper, Append, InFront;
    if p == [] {
      o := Last(End);
      EmptyIsProper();
    } else if p[0] == ',' {
      var others := ReadOptions(p[1..]);
      o := More(End, others);
      EmptyIsProper();
      assert p == [] + [','] + p[1..];
    } else if p[0] == '{' {
      GroupFirst(p);
      var e := CloseAt(p, 1, 0).place;
      hide Tight, ProperOptions, PrintOptions, Print;
      var inner := ReadOptions(p[1..e]);
      var after := ReadOptions(p[e + 1..]);
      o := InFront(Group(inner, End), after);
      GroupInFront(inner, after);
    } else {
      var after := ReadOptions(p[1..]);
      o := InFront(Ch(p[0], End), after);
      hide Tight, ProperOptions, PrintOptions, Print;
      CharInFront(p[0], after);
      assert p == [p[0]] + p[1..];
    }
  }

  lemma EmptyIsProper()
    ensures Proper(End, true) && Print(End) == []
  {
  }

  /** A group at the start of a closed word, and what follows it. */
  lemma GroupAtStart(w: Word) returns (e: nat)
    requires Closed(w) && w != [] && w[0] == '{'
    ensures 1 <= e < |w| && Tight(w[1..e], 0) && '[' !in w[1..e] && Closed(w[e + 1..])
    ensures w == ['{'] + w[1..e] + ['}'] + w[e + 1..]
  {
    hide CloseAt, Tight;
    CloseIsThere(w, 1, 0);
    e := CloseAt(w, 1, 0).place;
    GroupIsTight(w, 1, 0);
    Rejoin(w, e);
  }

  lemma {:induction false} ReadText(w: Word) returns (t: Text)
    requires Closed(w)
    ensures Proper(t, false) && Print(t) == w
    decreases |w|
  {
    if w == [] {
      t := End;
    } else if w[0] == '{' {
      var e := GroupAtStart(w);
      hide Closed, Unclosed, CloseAt;
      var o := ReadOptions(w[1..e]);
      var rest := ReadText(w[e + 1..]);
      t := Group(o, rest);
    } else {
      var rest := ReadText(w[1..]);
      t := Ch(w[0], rest);
      assert w == [w[0]] + w[1..];
    }
  }

  /** Every closed word is the text of a structure, and its recursive expansion is the product of the
      groups of the latter. */
  lemma ExpandIsChoice(w: Word) returns (t: Text)
    requires Closed(w)
    ensures Proper(t, false) && Print(t) == w && Expand(w) == Words(Product(t))
  {
    t := ReadText(w);
    ExpandText(t);
  }

  // ---- which words are errors

  lemma {:induction false} NoOpens(w: Word)
    requires '{' !in w
    ensures Unclosed(w, 0) == 0
  {
    if w != [] { NoOpens(w[1..]); }
  }

  /** The first alternative closes all that it opens. */
  lemma {:induction false} FirstPiece(w: Word, start: nat, k: nat, i: nat, e: nat)
    requires start <= k <= e < |w| && '[' !in w && CloseAt(w, k, i) == At(e) && Unclosed(w[start..k], 0) == i
    ensures var ps := Pieces(w, start, k, i, e); |ps| >= 1 && Unclosed(ps[0], 0) == 0 && '[' !in ps[0]
    decreases e - k
  {
    hide CloseAt, Pieces, Unclosed, BehindSet, Nested;
    LookOn(w, start, k, i);
    assert w[k] in w;
    if k < e && !(w[k] == ',' && i == 0) {
      OneMore(w, start, k);
      FirstPiece(w, start, k + 1, Nested(w[k], i), e);
    }
  }

  lemma OneMore(w: Word, start: nat, k: nat)
    requires start <= k < |w|
    ensures Unclosed(w[start..k + 1], 0) == Nested(w[k], Unclosed(w[start..k], 0))
  {
    assert w[start..k + 1] == w[start..k] + [w[k]];
    UnclosedOfBoth(w[start..k], [w[k]], 0);
  }

  /** Putting the first alternative in the place of the group leaves as many braces open. */
  lemma FirstAlternative(w: Word)
    requires '[' !in w && FirstBrace(w) < |w| && GroupEnd(w).At?
    ensures |Alternatives(w)| >= 1
    ensures var x := Alternatives(w)[0]; '[' !in x && Unclosed(x, 0) == Unclosed(w, 0)
  {
    hide CloseAt, Pieces, Unclosed, FirstBrace;
    var b, e := FirstBrace(w), GroupEnd(w).place;
    FirstPiece(w, b + 1, b + 1, 0, e) by { EmptyIsClosed(w, b + 1); }
    SameUnclosed(w, b, Pieces(w, b + 1, b + 1, 0, e)[0], e);
  }

  lemma EmptyIsClosed(w: Word, k: nat)
    requires k <= |w|
    ensures Unclosed(w[k..k], 0) == 0
  {
    assert w[k..k] == [];
  }

  /** The brace that opens the first group is open behind it. */
  lemma OpensGroup(w: Word, b: nat)
    requires b < |w| && w[b] == '{' && '{' !in w[..b]
    ensures Unclosed(w[..b], 0) == 0 && Unclosed(w, 0) == Unclosed(w[b + 1..], 1)
  {
    hide Unclosed;
    NoOpens(w[..b]);
    OneMore(w, 0, b);
    assert w[0..b] == w[..b] && w[0..b + 1] == w[..b + 1] && w == w[..b + 1] + w[b + 1..];
    UnclosedOfBoth(w[..b + 1], w[b + 1..], 0);
  }

  lemma SameUnclosed(w: Word, b: nat, p: Word, e: nat)
    requires b < e < |w| && '[' !in w && w[b] == '{' && '{' !in w[..b]
    requires CloseAt(w, b + 1, 0) == At(e) && Unclosed(p, 0) == 0
    ensures Unclosed(w[..b] + p + w[e + 1..], 0) == Unclosed(w, 0)
  {
    hide CloseAt, Unclosed;
    OpensGroup(w, b);
    UnclosedOfBoth(w[..b] + p, w[e + 1..], 0);
    UnclosedOfBoth(w[..b], p, 0);
    CloseIsThere(w, b + 1, 0);
  }

  /** What becomes of a word with that many braces open at its end. */
  predicate ToldBy(n: nat, x: Expansion) {
    if n == 0 then x.Words? else x == if n == 1 then Undefined else Lacks('{')
  }

  /** A word without brackets is expanded if and only if every brace that opens is closed; if one is not
      the code reads past the end, and if more are not the brace is told to be missing. */
  lemma {:induction false} ExpandsIfClosed(w: Word)
    requires '[' !in w
    ensures ToldBy(Unclosed(w, 0), Expand(w))
    decreases Opens(w)
  {
    hide CloseAt, Pieces, Unclosed, FirstBrace, GroupEnd, Alternatives;
    if Unclosed(w, 0) == 0 {
      var _ := ExpandIsChoice(w) by { assert Closed(w); }
    } else if FirstBrace(w) == |w| {
      assert w[..|w|] == w;
      NoOpens(w);
      assert false;
    } else if GroupEnd(w).At? {
      AlternativesAreSmaller(w);
      FirstAlternative(w);
      ExpandsIfClosed(Alternatives(w)[0]);
    } else {
      NoGroupEnd(w);
    }
  }

  lemma NoGroupEnd(w: Word)
    requires '[' !in w && FirstBrace(w) < |w| && !GroupEnd(w).At?
    ensures if GroupEnd(w).Past? then Unclosed(w, 0) == 1 else GroupEnd(w) == Missing('{') && Unclosed(w, 0) > 1
  {
    hide CloseAt, Unclosed, FirstBrace;
    OpensGroup(w, FirstBrace(w));
    CloseIsThere(w, FirstBrace(w) + 1, 0);
  }

  /** The first word that has a brace open at its end, if there is one. */
  function FirstUnclosed(ws: seq<Word>): (r: nat)
    ensures r <= |ws| && (forall i :: 0 <= i < r ==> Unclosed(ws[i], 0) == 0)
    ensures r < |ws| ==> Unclosed(ws[r], 0) > 0
  {
    if ws == [] || Unclosed(ws[0], 0) > 0 then 0 else 1 + FirstUnclosed(ws[1..])
  }

  /** What becomes of a list of words is told by the first of them that is not closed. */
  lemma {:induction false} ListIsToldBy(ws: seq<Word>)
    requires forall w :: w in ws ==> '[' !in w
    ensures ToldBy(var i := FirstUnclosed(ws); if i < |ws| then Unclosed(ws[i], 0) else 0, Flat(ws))
  {
    hide Unclosed, Expand;
    if ws != [] {
      ExpandsIfClosed(ws[0]);
      ListIsToldBy(ws[1..]);
    }
  }
}
