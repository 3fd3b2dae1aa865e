/** How sh breaks an expanded word into fields (ifsbreakup in src/bin/sh/expand.c). */
module FieldSplitting {
  import opened Patterns

  /** A part of the word that is to be searched for separators, or for NUL bytes only. */
  datatype Region = Region(begoff: nat, endoff: nat, nulonly: bool)

  // ---------------------------------------------------------------- separators

  /** strchr finds NUL in every string, at its end. */
  predicate IsSpace(c: Char) {
    c in {0, 9, 10, 32}
  }

  predicate IsDelim(ifs: seq<Char>, nulonly: bool, c: Char) {
    c == 0 || (!nulonly && c in ifs)
  }

  /** The place after a character, which an escape may precede. */
  function UnitEnd(s: seq<Char>, i: nat): nat
    requires i < |s|
  {
    if s[i] == CTLESC then i + 2 else i + 1
  }

  /** From i to end there are whole characters. */
  predicate Aligned(s: seq<Char>, i: nat, end: nat)
    requires i <= end <= |s|
    decreases end - i
  {
    i == end || (UnitEnd(s, i) <= end && Aligned(s, UnitEnd(s, i), end))
  }

  /** What a byte is: part of a field, the start of a separator, or the character that its escape is for.
      A separator that is not white space, or that nothing but NUL could be, is hard. */
  datatype Kind = Text | Soft | Hard | Tail

  function KindOf(ifs: seq<Char>, nulonly: bool, c: Char): Kind {
    if !IsDelim(ifs, nulonly, c) then Text else if nulonly || !IsSpace(c) then Hard else Soft
  }

  function RegionKinds(s: seq<Char>, r: Region, ifs: seq<Char>, i: nat): (k: seq<Kind>)
    requires i <= r.endoff <= |s| && Aligned(s, i, r.endoff)
    ensures |k| == r.endoff - i
    decreases r.endoff - i
  {
    if i == r.endoff then []
    else
      var end := UnitEnd(s, i);
      var kind := KindOf(ifs, r.nulonly, s[end - 1]);
      [kind] + (if end == i + 1 then [] else [if kind == Text then Text else Tail])
      + RegionKinds(s, r, ifs, end)
  }

  /** The regions, from pos on, come one after the other. */
  predicate Ordered(s: seq<Char>, regions: seq<Region>, pos: nat) {
    if regions == [] then pos <= |s|
    else
      var r := regions[0];
      pos <= r.begoff <= r.endoff <= |s| && Aligned(s, r.begoff, r.endoff)
      && Ordered(s, regions[1..], r.endoff)
  }

  function Plain(n: nat): (k: seq<Kind>)
    ensures |k| == n && forall i :: 0 <= i < n ==> k[i] == Text
  {
    seq(n, _ => Text)
  }

  /** What each byte from pos on is. */
  function Kinds(s: seq<Char>, regions: seq<Region>, ifs: seq<Char>, pos: nat): (k: seq<Kind>)
    requires Ordered(s, regions, pos)
    ensures pos <= |s| && |k| == |s| - pos
    decreases |regions|
  {
    if regions == [] then Plain(|s| - pos)
    else
      var r := regions[0];
      Plain(r.begoff - pos) + RegionKinds(s, r, ifs, r.begoff) + Kinds(s, regions[1..], ifs, r.endoff)
  }

  // ---------------------------------------------------------------- fields

  datatype Field = Field(start: nat, end: nat)

  /** The bytes before p that are in no separator. */
  function Kept(s: seq<Char>, kinds: seq<Kind>, p: nat): (t: seq<Char>)
    requires p <= |s| == |kinds|
  {
    if p == 0 then []
    else Kept(s, kinds, p - 1) + if kinds[p - 1] == Text then [s[p - 1]] else []
  }

  /** How many hard separators start before p. */
  function Hards(kinds: seq<Kind>, p: nat): nat
    requires p <= |kinds|
  {
    if p == 0 then 0 else Hards(kinds, p - 1) + if kinds[p - 1] == Hard then 1 else 0
  }

  /** Where the last of the fields ends, or the string begins. */
  function EndOf(done: seq<Field>): nat {
    if done == [] then 0 else done[|done| - 1].end
  }

  predicate AllText(kinds: seq<Kind>, i: nat, j: nat)
    requires i <= j <= |kinds|
  {
    forall k :: i <= k < j ==> kinds[k] == Text
  }

  predicate NoText(kinds: seq<Kind>, i: nat, j: nat)
    requires i <= j <= |kinds|
  {
    forall k :: i <= k < j ==> kinds[k] != Text
  }

  /** What lies before the start of a field: separators, at least one unless the field is the first, and no
      more than one hard one, and for the first none. */
  predicate Gap(kinds: seq<Kind>, first: bool, before: nat, start: nat)
    requires before <= start <= |kinds|
  {
    NoText(kinds, before, start)
    && Hards(kinds, start) <= Hards(kinds, before) + (if first then 0 else 1) && (first || before < start)
  }

  /** A region starts between the fields. */
  predicate Border(regions: seq<Region>, before: nat, start: nat) {
    exists r <- regions :: before < r.begoff <= start
  }

  /** A separator ends the field; it is a hard one if the field is empty; and where there is an empty field
      after white space, a new region has begun. */
  predicate Ended(kinds: seq<Kind>, regions: seq<Region>, first: bool, before: nat, f: Field)
    requires before <= f.start <= f.end < |kinds|
  {
    (kinds[f.end] == Soft || kinds[f.end] == Hard)
    && (f.start == f.end ==>
          kinds[f.end] == Hard
          && (first || Hards(kinds, before) < Hards(kinds, f.start) || Border(regions, before, f.start)))
  }

  predicate Good(s: seq<Char>, kinds: seq<Kind>, regions: seq<Region>, first: bool, before: nat, f: Field)
    requires |kinds| == |s|
  {
    before <= f.start <= f.end < |s|
    && Gap(kinds, first, before, f.start)
    && Ended(kinds, regions, first, before, f)
    && AllText(kinds, f.start, f.end)
    && 0 !in s[f.start..f.end]
  }

  predicate AllGood(s: seq<Char>, kinds: seq<Kind>, regions: seq<Region>, done: seq<Field>)
    requires |kinds| == |s|
  {
    done == []
    || var rest := done[..|done| - 1];
       AllGood(s, kinds, regions, rest) && Good(s, kinds, regions, rest == [], EndOf(rest), done[|done| - 1])
  }

  /** The fields end to end. */
  function Joined(s: seq<Char>, done: seq<Field>): seq<Char> {
    if done == [] then []
    else
      var f := done[|done| - 1];
      Joined(s, done[..|done| - 1]) + if f.start <= f.end <= |s| then s[f.start..f.end] else []
  }

  /** The bytes before p are divided into fields, the last of which is open, and separators. */
  predicate Split(s: seq<Char>, kinds: seq<Kind>, regions: seq<Region>, done: seq<Field>, start: nat, p: nat)
    requires |kinds| == |s|
  {
    EndOf(done) <= start <= p <= |s|
    && AllGood(s, kinds, regions, done)
    && Gap(kinds, done == [], EndOf(done), start)
    && AllText(kinds, start, p)
    && 0 !in s[start..p]
  }

  function Max(a: nat, b: nat): nat {
    if a < b then b else a
  }

  /** Whether the last field becomes an argument.  An empty one does after a hard separator in the last
      region, or where nothing is left for that region. */
  predicate Emitted(kinds: seq<Kind>, regions: seq<Region>, done: seq<Field>, start: nat)
    requires EndOf(done) <= |kinds|
    requires regions != [] ==> regions[|regions| - 1].begoff <= |kinds|
  {
    regions == [] || start < |kinds|
    || (start > 0
        && var from := Max(EndOf(done), regions[|regions| - 1].begoff);
           from == |kinds| || Hards(kinds, from) < Hards(kinds, |kinds|))
  }

  // ---------------------------------------------------------------- one step

  /** The separators from p to q are soft, except that the one at p may be hard. */
  lemma {:induction false} HardsAt(kinds: seq<Kind>, p: nat, q: nat)
    requires p < q <= |kinds|
    requires forall k :: p < k < q ==> kinds[k] != Hard
    ensures Hards(kinds, q) == Hards(kinds, p) + if kinds[p] == Hard then 1 else 0
    decreases q
  {
    if p + 1 < q { HardsAt(kinds, p, q - 1); }
  }

  /** Text goes on the end of the open field. */
  lemma Lengthen(s: seq<Char>, kinds: seq<Kind>, regions: seq<Region>, done: seq<Field>, start: nat,
                 p: nat, q: nat)
    requires |s| == |kinds| && Split(s, kinds, regions, done, start, p) && p <= q <= |s|
    requires AllText(kinds, p, q)
    requires 0 !in s[p..q]
    ensures Split(s, kinds, regions, done, start, q)
  {
    hide AllGood, Gap;
    assert s[start..q] == s[start..p] + s[p..q];
  }

  /** White space before the open field goes. */
  lemma Leave(s: seq<Char>, kinds: seq<Kind>, regions: seq<Region>, done: seq<Field>, p: nat, q: nat)
    requires |s| == |kinds| && Split(s, kinds, regions, done, p, p) && p < q <= |s|
    requires forall k :: p <= k < q ==> kinds[k] in {Soft, Tail}
    ensures Split(s, kinds, regions, done, q, q)
    ensures Hards(kinds, q) == Hards(kinds, p)
  {
    hide AllGood, Hards;
    HardsAt(kinds, p, q);
  }

  /** The separators from p to q end the open field. */
  lemma Close(s: seq<Char>, kinds: seq<Kind>, regions: seq<Region>, done: seq<Field>, start: nat,
              p: nat, q: nat)
    requires |s| == |kinds| && Split(s, kinds, regions, done, start, p) && p < q <= |s|
    requires NoText(kinds, p, q)
    requires Hards(kinds, q) <= Hards(kinds, p) + 1
    requires Ended(kinds, regions, done == [], EndOf(done), Field(start, p))
    ensures Split(s, kinds, regions, done + [Field(start, p)], q, q)
  {
    hide Hards, Ended, Good, AllGood, NoText;
    var f := Field(start, p);
    IsGood(s, kinds, regions, done == [], EndOf(done), f);
    OneMoreGood(s, kinds, regions, done, f);
  }

  lemma IsGood(s: seq<Char>, kinds: seq<Kind>, regions: seq<Region>, first: bool, before: nat, f: Field)
    requires |kinds| == |s| && before <= f.start <= f.end < |s|
    requires Gap(kinds, first, before, f.start) && Ended(kinds, regions, first, before, f)
    requires AllText(kinds, f.start, f.end) && 0 !in s[f.start..f.end]
    ensures Good(s, kinds, regions, first, before, f)
  {
  }

  lemma OneMoreGood(s: seq<Char>, kinds: seq<Kind>, regions: seq<Region>, done: seq<Field>, f: Field)
    requires |s| == |kinds| && AllGood(s, kinds, regions, done)
    requires Good(s, kinds, regions, done == [], EndOf(done), f)
    ensures AllGood(s, kinds, regions, done + [f])
    ensures EndOf(done + [f]) == f.end
  {
    hide Good;
    assert (done + [f])[..|done|] == done;
  }

  // ---------------------------------------------------------------- a region

  /** The scan stands at the start of a character of the region. */
  predicate Reached(s: seq<Char>, kinds: seq<Kind>, r: Region, ifs: seq<Char>, p: nat) {
    p <= r.endoff <= |s| == |kinds| && Aligned(s, p, r.endoff)
    && kinds[p..r.endoff] == RegionKinds(s, r, ifs, p)
  }

  lemma NextReached(s: seq<Char>, kinds: seq<Kind>, r: Region, ifs: seq<Char>, p: nat)
    requires Reached(s, kinds, r, ifs, p) && p < r.endoff
    ensures Reached(s, kinds, r, ifs, UnitEnd(s, p))
    ensures kinds[p] == KindOf(ifs, r.nulonly, s[UnitEnd(s, p) - 1])
    ensures forall k :: p < k < UnitEnd(s, p) ==> kinds[k] == if kinds[p] == Text then Text else Tail
  {
    var end := UnitEnd(s, p);
    var kind := KindOf(ifs, r.nulonly, s[end - 1]);
    var second := if end == p + 1 then [] else [if kind == Text then Text else Tail];
    var rest := RegionKinds(s, r, ifs, end);
    var all := [kind] + second + rest;
    assert RegionKinds(s, r, ifs, p) == all == kinds[p..r.endoff];
    assert kinds[p] == all[0];
    assert end == p + 2 ==> kinds[p + 1] == all[1];
    assert kinds[end..r.endoff] == all[end - p..] == rest;
  }

  lemma TextHasNoNul(s: seq<Char>, kinds: seq<Kind>, r: Region, ifs: seq<Char>, p: nat)
    requires Reached(s, kinds, r, ifs, p) && p < r.endoff && kinds[p] == Text
    ensures UnitEnd(s, p) <= |s| && 0 !in s[p..UnitEnd(s, p)]
  {
    hide Reached;
    NextReached(s, kinds, r, ifs, p);
    InRange(s, kinds, r, ifs, UnitEnd(s, p));
  }

  /** What ifsspc says in a region: whether white space, and no hard separator, is all that lies in it
      before the open field.  Where the open field is empty so far, the next separator is one that may
      end it. */
  predicate Spaced(kinds: seq<Kind>, r: Region, done: seq<Field>, start: nat, p: nat, space: bool)
    requires EndOf(done) <= start <= p <= |kinds| && r.begoff <= p
  {
    var before := EndOf(done);
    var from := Max(before, r.begoff);
    (if space then from < start && Hards(kinds, start) == Hards(kinds, from)
     else start <= r.begoff || Hards(kinds, from) < Hards(kinds, start))
    && (r.begoff < start == p < r.endoff <= |kinds| ==>
          if space then kinds[p] == Text || done == [] || before < r.begoff else kinds[p] != Soft)
  }

  lemma SpacedAfterText(kinds: seq<Kind>, r: Region, done: seq<Field>, start: nat, p: nat, q: nat, space: bool)
    requires EndOf(done) <= start <= p < q <= |kinds| && r.begoff <= p
    requires Spaced(kinds, r, done, start, p, space)
    ensures Spaced(kinds, r, done, start, q, space)
  {
  }

  lemma SpacedAfterSpace(kinds: seq<Kind>, regions: seq<Region>, r: Region, done: seq<Field>, p: nat, q: nat,
      space: bool)
    requires EndOf(done) <= p < q <= r.endoff <= |kinds| && r.begoff <= p && r in regions
    requires Gap(kinds, done == [], EndOf(done), p)
    requires Spaced(kinds, r, done, p, p, space) && kinds[p] == Soft
    requires Hards(kinds, q) == Hards(kinds, p)
    ensures Spaced(kinds, r, done, q, q, true)
  {
    hide Hards;
  }

  /** A hard separator may end an empty field. */
  lemma HardEnds(kinds: seq<Kind>, regions: seq<Region>, r: Region, done: seq<Field>, start: nat, p: nat,
                 space: bool)
    requires EndOf(done) <= start <= p < r.endoff <= |kinds| && r.begoff <= p && r in regions
    requires Gap(kinds, done == [], EndOf(done), start)
    requires Spaced(kinds, r, done, start, p, space)
    requires kinds[p] == Hard || (kinds[p] == Soft && start < p)
    ensures Ended(kinds, regions, done == [], EndOf(done), Field(start, p))
  {
    hide Hards;
  }

  lemma SpacedAfterEnd(kinds: seq<Kind>, r: Region, done: seq<Field>, f: Field, q: nat, space: bool)
    requires r.begoff <= f.end < q <= r.endoff <= |kinds|
    requires Hards(kinds, q) == Hards(kinds, f.end) + if space then 0 else 1
    requires q < r.endoff ==> if space then kinds[q] == Text else kinds[q] != Soft
    ensures Spaced(kinds, r, done + [f], q, q, space)
  {
    hide Hards;
    assert EndOf(done + [f]) == f.end;
  }

  /** The inner loop: white space, and one hard separator if the first was soft. */
  method SkipDelims(text: array<Char>, ghost s: seq<Char>, ghost kinds: seq<Kind>, r: Region, ifs: seq<Char>,
                    ghost u: nat, p0: nat, space0: bool)
    returns (p: nat, space: bool)
    requires !r.nulonly && u < p0 && |s| <= text.Length && Reached(s, kinds, r, ifs, p0)
    requires forall k :: p0 <= k < |s| ==> text[k] == s[k]
    requires Hards(kinds, p0) == Hards(kinds, u) + if space0 then 0 else 1
    ensures p0 <= p && Reached(s, kinds, r, ifs, p)
    ensures p <= |kinds| && NoText(kinds, p0, p)
    ensures Hards(kinds, p) == Hards(kinds, u) + if space then 0 else 1
    ensures p < r.endoff ==> if space then kinds[p] == Text else kinds[p] != Soft
  {
    hide Reached, RegionKinds, Aligned, Hards;
    p, space := p0, space0;
    InRange(s, kinds, r, ifs, p);
    while p < r.endoff
      invariant p0 <= p <= r.endoff <= |s| == |kinds| && Reached(s, kinds, r, ifs, p)
      invariant forall k :: p0 <= k < p ==> kinds[k] != Text
      invariant Hards(kinds, p) == Hards(kinds, u) + if space then 0 else 1
    {
      NextReached(s, kinds, r, ifs, p);
      InRange(s, kinds, r, ifs, UnitEnd(s, p));
      HardsAt(kinds, p, UnitEnd(s, p));
      var q := p;
      if text[p] == CTLESC { p := p + 1; }
      if !IsDelim(ifs, false, text[p]) {
        p := q;
        break;
      } else if !IsSpace(text[p]) {
        if !space {
          p := q;
          break;
        }
        space := false;
      }
      p := p + 1;
    }
  }

  lemma InRange(s: seq<Char>, kinds: seq<Kind>, r: Region, ifs: seq<Char>, p: nat)
    requires Reached(s, kinds, r, ifs, p)
    ensures p <= r.endoff <= |s| == |kinds|
  {
  }

  // ---------------------------------------------------------------- the buffer

  /** The C string at the start of the field is its text. */
  predicate Holds(full: seq<Char>, now: seq<Char>, f: Field)
    requires |now| == |full|
  {
    f.start <= f.end < |full| && now[f.start..f.end] == full[f.start..f.end] && now[f.end] == 0
  }

  /** Each argument is a field, and what is still to be searched has not changed. */
  predicate Laid(full: seq<Char>, now: seq<Char>, done: seq<Field>, start: nat, arglist: seq<nat>) {
    |now| == |full| && start <= |full| && now[start..] == full[start..]
    && |arglist| == |done|
    && forall i :: 0 <= i < |done| ==> arglist[i] == done[i].start && Holds(full, now, done[i])
  }

  lemma {:induction false} EndsInOrder(s: seq<Char>, kinds: seq<Kind>, regions: seq<Region>, done: seq<Field>,
                                       i: nat)
    requires |s| == |kinds| && AllGood(s, kinds, regions, done) && i < |done|
    ensures done[i].end <= EndOf(done)
    decreases |done|
  {
    hide Gap, Ended, AllText;
    if i < |done| - 1 { EndsInOrder(s, kinds, regions, done[..|done| - 1], i); }
  }

  /** A NUL at the end of the open field makes an argument of it. */
  lemma PutNul(full: seq<Char>, s: seq<Char>, kinds: seq<Kind>, regions: seq<Region>, now: seq<Char>,
               done: seq<Field>, start: nat, p: nat, arglist: seq<nat>, q: nat)
    requires s <= full && |s| == |kinds| && Split(s, kinds, regions, done, start, p)
    requires Laid(full, now, done, start, arglist)
    requires p < q <= |full|
    ensures Laid(full, now[p := 0], done + [Field(start, p)], q, arglist + [start])
  {
    hide Hards, Ended, Good, AllGood, NoText, AllText, EndOf;
    var next := now[p := 0];
    assert next[q..] == full[q..] by {
      assert next[q..] == now[start..][q - start..];
      assert full[q..] == full[start..][q - start..];
    }
    forall i | 0 <= i < |done|
      ensures Holds(full, next, done[i])
    {
      EndsInOrder(s, kinds, regions, done, i);
    }
    assert next[start..p] == now[start..][..p - start] && full[start..p] == full[start..][..p - start];
  }

  lemma LaidLater(full: seq<Char>, now: seq<Char>, done: seq<Field>, start: nat, arglist: seq<nat>, q: nat)
    requires Laid(full, now, done, start, arglist) && start <= q <= |full|
    ensures Laid(full, now, done, q, arglist)
  {
    assert now[q..] == now[start..][q - start..] && full[q..] == full[start..][q - start..];
  }

  lemma ToRead(full: seq<Char>, now: seq<Char>, done: seq<Field>, start: nat, arglist: seq<nat>)
    requires Laid(full, now, done, start, arglist)
    ensures |now| == |full| && forall k :: start <= k < |now| ==> now[k] == full[k]
  {
    assert forall k :: start <= k < |now| ==> now[k] == now[start..][k - start];
  }

  lemma Bounds(s: seq<Char>, kinds: seq<Kind>, regions: seq<Region>, done: seq<Field>, start: nat, p: nat)
    requires |s| == |kinds| && Split(s, kinds, regions, done, start, p)
    ensures EndOf(done) <= start <= p <= |s|
    ensures Gap(kinds, done == [], EndOf(done), start)
  {
  }

  /** The search of one region. */
  method BreakRegion(text: array<Char>, ghost full: seq<Char>, ghost s: seq<Char>, ghost kinds: seq<Kind>,
                     ghost regions: seq<Region>, r: Region, ifs: seq<Char>,
                     arglist0: seq<nat>, ghost done0: seq<Field>, start0: nat)
    returns (arglist: seq<nat>, ghost done: seq<Field>, start: nat, space: bool)
    requires s <= full && |s| == |kinds| && r in regions && r.begoff <= r.endoff
    requires Reached(s, kinds, r, ifs, r.begoff)
    requires Split(s, kinds, regions, done0, start0, r.begoff)
    requires Laid(full, text[..], done0, start0, arglist0)
    modifies text
    ensures Split(s, kinds, regions, done, start, r.endoff)
    ensures EndOf(done) <= start <= r.endoff <= |kinds|
    ensures Spaced(kinds, r, done, start, r.endoff, space)
    ensures Laid(full, text[..], done, start, arglist)
  {
    hide *;
    arglist, done, start, space := arglist0, done0, start0, false;
    var p := r.begoff;
    Bounds(s, kinds, regions, done, start, p);
    InRange(s, kinds, r, ifs, p);
    SpacedAtStart(kinds, r, done, start);
    while p < r.endoff
      invariant Reached(s, kinds, r, ifs, p) && r.begoff <= p <= r.endoff <= |s|
      invariant Split(s, kinds, regions, done, start, p)
      invariant EndOf(done) <= start <= p
      invariant Spaced(kinds, r, done, start, p, space) && (r.nulonly ==> !space)
      invariant Laid(full, text[..], done, start, arglist)
    {
      ghost var end := UnitEnd(s, p);
      ToRead(full, text[..], done, start, arglist);
      Bounds(s, kinds, regions, done, start, p);
      OneUnit(s, kinds, r, ifs, p);
      var q := p;
      if text[p] == CTLESC { p := p + 1; }
      if IsDelim(ifs, r.nulonly, text[p]) {
        ghost var was := space;
        DelimKind(ifs, r.nulonly, text[p]);
        if !r.nulonly { space := IsSpace(text[p]); }
        assert space <==> kinds[q] == Soft;
        if q == start && space {
          p := p + 1;
          Leave(s, kinds, regions, done, q, p);
          SpacedAfterSpace(kinds, regions, r, done, q, p, was);
          LaidLater(full, text[..], done, start, arglist, p);
          start := p;
          continue;
        }
        HardEnds(kinds, regions, r, done, start, q, was);
        PutNul(full, s, kinds, regions, text[..], done, start, q, arglist, end);
        HardsAt(kinds, q, end);
        text[q] := 0;
        arglist := arglist + [start];
        p := p + 1;
        if !r.nulonly {
          ToRead(full, text[..], done + [Field(start, q)], end, arglist);
          p, space := SkipDelims(text, s, kinds, r, ifs, q, p, space);
          InRange(s, kinds, r, ifs, p);
          NoTextOfBoth(kinds, q, end, p);
          LaidLater(full, text[..], done + [Field(start, q)], end, arglist, p);
        } else {
          NeverSoft(s, kinds, r, ifs, p);
        }
        Close(s, kinds, regions, done, start, q, p);
        SpacedAfterEnd(kinds, r, done, Field(start, q), p, space);
        done := done + [Field(start, q)];
        start := p;
        Bounds(s, kinds, regions, done, start, p);
      } else {
        p := p + 1;
        TextHasNoNul(s, kinds, r, ifs, q);
        Lengthen(s, kinds, regions, done, start, q, p);
        SpacedAfterText(kinds, r, done, start, q, p, space);
      }
    }
  }

  lemma NoTextOfBoth(kinds: seq<Kind>, i: nat, j: nat, k: nat)
    requires i <= j <= k <= |kinds| && NoText(kinds, i, j) && NoText(kinds, j, k)
    ensures NoText(kinds, i, k)
  {
  }

  lemma SpacedAtStart(kinds: seq<Kind>, r: Region, done: seq<Field>, start: nat)
    requires EndOf(done) <= start <= r.begoff <= |kinds|
    ensures Spaced(kinds, r, done, start, r.begoff, false)
  {
    hide Hards;
  }

  lemma OneUnit(s: seq<Char>, kinds: seq<Kind>, r: Region, ifs: seq<Char>, p: nat)
    requires Reached(s, kinds, r, ifs, p) && p < r.endoff
    ensures p < |s| == |kinds|
    ensures var end := UnitEnd(s, p);
            Reached(s, kinds, r, ifs, end) && end <= r.endoff <= |s| && end == (if s[p] == CTLESC then p + 2 else p + 1)
            && (kinds[p] == Text <==> !IsDelim(ifs, r.nulonly, s[end - 1]))
            && (forall k :: p < k < end ==> kinds[k] == if kinds[p] == Text then Text else Tail)
            && (if kinds[p] == Text then AllText(kinds, p, end) else NoText(kinds, p, end))
            && kinds[p] == KindOf(ifs, r.nulonly, s[end - 1])
  {
    hide Reached;
    InRange(s, kinds, r, ifs, p);
    NextReached(s, kinds, r, ifs, p);
    InRange(s, kinds, r, ifs, UnitEnd(s, p));
  }

  lemma DelimKind(ifs: seq<Char>, nulonly: bool, c: Char)
    requires IsDelim(ifs, nulonly, c)
    ensures KindOf(ifs, nulonly, c) == if nulonly || !IsSpace(c) then Hard else Soft
  {
  }

  /** Where only NUL is a separator, every separator is hard. */
  lemma NeverSoft(s: seq<Char>, kinds: seq<Kind>, r: Region, ifs: seq<Char>, p: nat)
    requires Reached(s, kinds, r, ifs, p) && r.nulonly
    ensures p <= |kinds| && (p < r.endoff ==> p < |kinds| && kinds[p] != Soft)
  {
    hide Reached;
    InRange(s, kinds, r, ifs, p);
    if p < r.endoff { NextReached(s, kinds, r, ifs, p); }
  }

  // ---------------------------------------------------------------- the word

  /** The plain bytes before a region, its own bytes, and the bytes behind it. */
  lemma RegionIs(s: seq<Char>, kinds: seq<Kind>, regions: seq<Region>, ifs: seq<Char>, pos: nat)
    requires Ordered(s, regions, pos) && pos <= |kinds| == |s| && kinds[pos..] == Kinds(s, regions, ifs, pos)
    ensures regions == [] ==> AllText(kinds, pos, |s|)
    ensures regions != [] ==>
      var r := regions[0];
      pos <= r.begoff <= r.endoff <= |s| && AllText(kinds, pos, r.begoff) && Reached(s, kinds, r, ifs, r.begoff)
      && Ordered(s, regions[1..], r.endoff) && kinds[r.endoff..] == Kinds(s, regions[1..], ifs, r.endoff)
  {
    hide Aligned, RegionKinds;
    var behind := kinds[pos..];
    assert forall k :: pos <= k < |kinds| ==> kinds[k] == behind[k - pos];
    if regions != [] {
      var r := regions[0];
      var own, rest := RegionKinds(s, r, ifs, r.begoff), Kinds(s, regions[1..], ifs, r.endoff);
      assert behind == Plain(r.begoff - pos) + own + rest;
      assert kinds[r.begoff..r.endoff] == behind[r.begoff - pos..r.endoff - pos] == own;
      assert kinds[r.endoff..] == behind[r.endoff - pos..] == rest;
    }
  }

  /** Each argument is a pointer to a field. */
  predicate Args(full: seq<Char>, now: seq<Char>, fields: seq<Field>, arglist: seq<nat>)
    requires |now| == |full|
  {
    && |arglist| == |fields|
    && forall i :: 0 <= i < |fields| ==> arglist[i] == fields[i].start && Holds(full, now, fields[i])
  }

  function Fields(kinds: seq<Kind>, regions: seq<Region>, done: seq<Field>, start: nat): seq<Field>
    requires EndOf(done) <= |kinds|
    requires regions != [] ==> regions[|regions| - 1].begoff <= |kinds|
  {
    done + if Emitted(kinds, regions, done, start) then [Field(start, |kinds|)] else []
  }

  /** Every NUL before the end of the word is in a separator. */
  predicate NulsSeparate(s: seq<Char>, kinds: seq<Kind>) {
    |s| == |kinds| && forall k :: 0 <= k < |s| && s[k] == 0 ==> kinds[k] != Text
  }

  lemma NoNulInText(s: seq<Char>, kinds: seq<Kind>, i: nat, j: nat)
    requires NulsSeparate(s, kinds) && i <= j <= |s| && AllText(kinds, i, j)
    ensures 0 !in s[i..j]
  {
    forall k | 0 <= k < j - i
      ensures s[i..j][k] != 0
    {
      assert s[i..j][k] == s[i + k];
    }
  }

  /** Breaks the word that the first n characters of the buffer are into fields. */
  method Ifsbreakup(text: array<Char>, n: nat, regions: seq<Region>, ifs: seq<Char>)
    returns (arglist: seq<nat>, ghost done: seq<Field>, ghost open: nat)
    requires n < text.Length && text[n] == 0
    requires Ordered(text[..n], regions, 0)
    requires NulsSeparate(text[..n], Kinds(text[..n], regions, ifs, 0))
    modifies text
    ensures var s, kinds := old(text[..n]), old(Kinds(text[..n], regions, ifs, 0));
            Split(s, kinds, regions, done, open, n)
            && (regions != [] ==> regions[|regions| - 1].begoff <= n)
            && Args(old(text[..]), text[..], Fields(kinds, regions, done, open), arglist)
  {
    hide *;
    ghost var full, s := text[..], text[..n];
    ghost var kinds := Kinds(s, regions, ifs, 0);
    arglist, done := [], [];
    var start: nat, space, pos: nat, j := 0, false, 0, 0;
    Start(full, s, kinds, regions);
    while j < |regions|
      invariant 0 <= j <= |regions| && 0 <= pos <= n == |s| == |kinds|
      invariant Ordered(s, regions[j..], pos) && kinds[pos..] == Kinds(s, regions[j..], ifs, pos)
      invariant Split(s, kinds, regions, done, start, pos)
      invariant Laid(full, text[..], done, start, arglist)
      invariant j > 0 ==>
        var r := regions[j - 1];
        EndOf(done) <= start <= r.endoff == pos && r.begoff <= pos
        && Spaced(kinds, r, done, start, pos, space)
    {
      var r := regions[j];
      RegionIs(s, kinds, regions[j..], ifs, pos);
      NoNulInText(s, kinds, pos, r.begoff);
      Lengthen(s, kinds, regions, done, start, pos, r.begoff);
      assert regions[j..][1..] == regions[j + 1..];
      arglist, done, start, space := BreakRegion(text, full, s, kinds, regions, r, ifs, arglist, done, start);
      pos := r.endoff;
      j := j + 1;
    }
    RegionIs(s, kinds, regions[j..], ifs, pos);
    NoNulInText(s, kinds, pos, n);
    Lengthen(s, kinds, regions, done, start, pos, n);
    open := start;
    Decision(full, s, kinds, regions, text[..], done, start, pos, arglist, space);
    if regions != [] {
      if text[start] != 0 || (!space && start > 0) { arglist := arglist + [start]; }
    } else {
      arglist := arglist + [start];
    }
  }

  lemma Start(full: seq<Char>, s: seq<Char>, kinds: seq<Kind>, regions: seq<Region>)
    requires s <= full && |s| == |kinds|
    ensures Split(s, kinds, regions, [], 0, 0)
    ensures Laid(full, full, [], 0, [])
    ensures kinds[0..] == kinds && regions[0..] == regions
  {
  }

  /** What the test at the end decides. */
  lemma Decision(full: seq<Char>, s: seq<Char>, kinds: seq<Kind>, regions: seq<Region>, now: seq<Char>,
                 done: seq<Field>, start: nat, pos: nat, arglist: seq<nat>, space: bool)
    requires s < full && full[|s|] == 0 && |s| == |kinds| && pos <= |s|
    requires Split(s, kinds, regions, done, start, |s|) && Laid(full, now, done, start, arglist)
    requires regions == [] || var r := regions[|regions| - 1];
                              EndOf(done) <= start <= r.endoff == pos && r.begoff <= pos
                              && Spaced(kinds, r, done, start, pos, space)
    ensures start < |now| && |now| == |full|
    ensures var emit := regions == [] || now[start] != 0 || (!space && start > 0);
            EndOf(done) <= |kinds| && (regions != [] ==> regions[|regions| - 1].begoff <= |kinds|)
            && Args(full, now, Fields(kinds, regions, done, start), if emit then arglist + [start] else arglist)
  {
    hide Kinds, Hards, AllGood, AllText, Gap;
    ToRead(full, now, done, start, arglist);
    assert start < |s| ==> full[start] == s[start..][0];
    assert now[start..|s|] == full[start..|s|];
  }

  // ---------------------------------------------------------------- what it means

  lemma {:induction false} KeptNone(s: seq<Char>, kinds: seq<Kind>, p: nat, q: nat)
    requires p <= q <= |s| == |kinds| && NoText(kinds, p, q)
    ensures Kept(s, kinds, q) == Kept(s, kinds, p)
    decreases q
  {
    if p < q { KeptNone(s, kinds, p, q - 1); }
  }

  lemma {:induction false} KeptAll(s: seq<Char>, kinds: seq<Kind>, p: nat, q: nat)
    requires p <= q <= |s| == |kinds| && AllText(kinds, p, q)
    ensures Kept(s, kinds, q) == Kept(s, kinds, p) + s[p..q]
    decreases q
  {
    if p < q {
      KeptAll(s, kinds, p, q - 1);
      assert s[p..q] == s[p..q - 1] + [s[q - 1]];
    }
  }

  lemma {:induction false} HardsGrow(kinds: seq<Kind>, p: nat, q: nat)
    requires p <= q <= |kinds|
    ensures Hards(kinds, p) <= Hards(kinds, q)
    decreases q
  {
    if p < q { HardsGrow(kinds, p, q - 1); }
  }

  lemma {:induction false} HardsInText(kinds: seq<Kind>, p: nat, q: nat)
    requires p <= q <= |kinds| && AllText(kinds, p, q)
    ensures Hards(kinds, q) == Hards(kinds, p)
    decreases q
  {
    if p < q { HardsInText(kinds, p, q - 1); }
  }

  /** The end of the last field that is done. */
  lemma LastField(s: seq<Char>, kinds: seq<Kind>, regions: seq<Region>, done: seq<Field>, start: nat, p: nat)
    requires |s| == |kinds| && Split(s, kinds, regions, done, start, p)
    ensures EndOf(done) <= start <= p <= |s|
    ensures NoText(kinds, EndOf(done), start) && AllText(kinds, start, p)
    ensures done == [] ==> Hards(kinds, start) == 0
    ensures done != [] ==>
      var rest, f := done[..|done| - 1], done[|done| - 1];
      Split(s, kinds, regions, rest, f.start, f.end) && f.end == EndOf(done) < start
      && (kinds[f.end] == Soft || kinds[f.end] == Hard) && Hards(kinds, start) <= Hards(kinds, f.end) + 1
  {
    hide Hards, Ended, Good, AllGood, AllText, NoText;
    if done == [] {
      NoHards(kinds);
    } else {
      GoodParts(s, kinds, regions, done);
      var rest := done[..|done| - 1];
      WhatIsGood(s, kinds, regions, rest == [], EndOf(rest), done[|done| - 1]);
    }
  }

  lemma NoHards(kinds: seq<Kind>)
    ensures Hards(kinds, 0) == 0
  {
  }

  lemma WhatIsGood(s: seq<Char>, kinds: seq<Kind>, regions: seq<Region>, first: bool, before: nat, f: Field)
    requires |kinds| == |s| && Good(s, kinds, regions, first, before, f)
    ensures before <= f.start <= f.end < |s| && Gap(kinds, first, before, f.start)
    ensures AllText(kinds, f.start, f.end) && 0 !in s[f.start..f.end]
    ensures kinds[f.end] == Soft || kinds[f.end] == Hard
  {
    hide Gap, AllText;
  }

  lemma GoodParts(s: seq<Char>, kinds: seq<Kind>, regions: seq<Region>, done: seq<Field>)
    requires |s| == |kinds| && AllGood(s, kinds, regions, done) && done != []
    ensures var rest, f := done[..|done| - 1], done[|done| - 1];
            AllGood(s, kinds, regions, rest) && Good(s, kinds, regions, rest == [], EndOf(rest), f)
  {
    hide Good;
  }

  /** The fields, end to end, are the word without its separators. */
  lemma {:induction false} TextIsConserved(s: seq<Char>, kinds: seq<Kind>, regions: seq<Region>, done: seq<Field>,
                                           start: nat, p: nat)
    requires |s| == |kinds| && Split(s, kinds, regions, done, start, p)
    ensures start <= p <= |s| && Joined(s, done) + s[start..p] == Kept(s, kinds, p)
    decreases |done|
  {
    hide Split, NoText, AllText;
    LastField(s, kinds, regions, done, start, p);
    KeptAll(s, kinds, start, p);
    KeptNone(s, kinds, EndOf(done), start);
    if done != [] {
      TextIsConserved(s, kinds, regions, done[..|done| - 1], done[|done| - 1].start, done[|done| - 1].end);
    }
  }

  /** There is no more than one hard separator between neighbours.  Where there is no white space to split
      at, each of them ends one field. */
  lemma {:induction false} OneFieldPerHard(s: seq<Char>, kinds: seq<Kind>, regions: seq<Region>, done: seq<Field>,
                                           start: nat, p: nat)
    requires |s| == |kinds| && Split(s, kinds, regions, done, start, p)
    ensures p <= |kinds| && Hards(kinds, p) <= |done|
    ensures Soft !in kinds ==> Hards(kinds, p) == |done|
    decreases |done|
  {
    hide Split, NoText, AllText;
    LastField(s, kinds, regions, done, start, p);
    HardsInText(kinds, start, p);
    if done != [] {
      var f := done[|done| - 1];
      OneFieldPerHard(s, kinds, regions, done[..|done| - 1], f.start, f.end);
      HardsGrow(kinds, f.end + 1, start);
    }
  }
}
