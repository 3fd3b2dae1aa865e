/** What the bytes of a word are when it is broken into fields, told from the regions and from IFS. */
module FieldKinds {
  import opened Patterns
  import opened FieldSplitting

  /** A separator of the region: in quotes, and in the values of "$@", a NUL only; and else any byte of IFS too. */
  predicate Separates(ifs: seq<Char>, r: Region, c: Char) {
    if r.nulonly then c == 0 else c == 0 || c in ifs
  }

  /** The blank, the tab, the newline, and the NUL. */
  predicate IsWhite(c: Char) {
    c == 32 || c == 9 || c == 10 || c == 0
  }

  /** What the byte at i, at the start of a character of the region, is: a separator if its character is one, and
      a hard one if that is not white space or if nothing but a NUL is looked for. */
  predicate SaysAt(s: seq<Char>, kinds: seq<Kind>, ifs: seq<Char>, r: Region, i: nat)
    requires i < |s| == |kinds|
  {
    var end := UnitEnd(s, i);
    && end <= |s|
    && (kinds[i] == Text <==> !Separates(ifs, r, s[end - 1]))
    && (kinds[i] == Hard <==> Separates(ifs, r, s[end - 1]) && (r.nulonly || !IsWhite(s[end - 1])))
    && (kinds[i] == Soft <==> Separates(ifs, r, s[end - 1]) && !r.nulonly && IsWhite(s[end - 1]))
    && (s[i] == CTLESC ==> (kinds[i + 1] == Text <==> kinds[i] == Text) && kinds[i + 1] != Hard && kinds[i + 1] != Soft)
  }

  predicate Inside(r: Region, i: nat) {
    r.begoff <= i < r.endoff
  }

  lemma {:induction false} InRegion(s: seq<Char>, r: Region, ifs: seq<Char>, p: nat, i: nat, kinds: seq<Kind>)
    requires p <= i < r.endoff <= |s| == |kinds| && Aligned(s, p, r.endoff) && Aligned(s, p, i)
    requires kinds[p..r.endoff] == RegionKinds(s, r, ifs, p)
    ensures SaysAt(s, kinds, ifs, r, i)
    decreases i - p
  {
    NextReached(s, kinds, r, ifs, p);
    if p < i { InRegion(s, r, ifs, UnitEnd(s, p), i, kinds); }
  }

  /** What Kinds says of the bytes of a region, and that a byte outside of all regions is text. */
  lemma {:induction false} KindsSay(s: seq<Char>, regions: seq<Region>, ifs: seq<Char>, pos: nat, kinds: seq<Kind>)
    requires Ordered(s, regions, pos) && |kinds| == |s| && kinds[pos..] == Kinds(s, regions, ifs, pos)
    ensures forall r, i: nat :: r in regions && Inside(r, i) ==>
      r.endoff <= |s| && (Aligned(s, r.begoff, i) ==> SaysAt(s, kinds, ifs, r, i))
    ensures forall i :: pos <= i < |s| && (forall r :: r in regions ==> !Inside(r, i)) ==> kinds[i] == Text
    decreases |regions|
  {
    if regions == [] {
      assert forall i :: pos <= i < |s| ==> kinds[i] == kinds[pos..][i - pos];
    } else {
      var r, later := regions[0], regions[1..];
      FirstRegion(s, regions, ifs, pos, kinds);
      KindsSay(s, later, ifs, r.endoff, kinds);
      forall i: nat | Inside(r, i) && Aligned(s, r.begoff, i)
        ensures SaysAt(s, kinds, ifs, r, i)
      {
        InRegion(s, r, ifs, r.begoff, i, kinds);
      }
      forall q, i: nat | q in regions && Inside(q, i)
        ensures q.endoff <= |s| && (Aligned(s, q.begoff, i) ==> SaysAt(s, kinds, ifs, q, i))
      {
        if q != r { assert q in later; }
      }
      forall i | pos <= i < |s| && forall q :: q in regions ==> !Inside(q, i)
        ensures kinds[i] == Text
      {
        assert r in regions && !Inside(r, i);
        assert forall q :: q in later ==> q in regions;
      }
    }
  }

  lemma FirstRegion(s: seq<Char>, regions: seq<Region>, ifs: seq<Char>, pos: nat, kinds: seq<Kind>)
    requires Ordered(s, regions, pos) && |kinds| == |s| && kinds[pos..] == Kinds(s, regions, ifs, pos)
    requires regions != []
    ensures var r := regions[0];
      && pos <= r.begoff <= r.endoff <= |s| && Aligned(s, r.begoff, r.endoff)
      && (forall i :: pos <= i < r.begoff ==> kinds[i] == Text)
      && kinds[r.begoff..r.endoff] == RegionKinds(s, r, ifs, r.begoff)
      && kinds[r.endoff..] == Kinds(s, regions[1..], ifs, r.endoff)
  {
    hide RegionKinds;
    var r := regions[0];
    var a, b := FieldSplitting.Plain(r.begoff - pos), RegionKinds(s, r, ifs, r.begoff);
    var c := Kinds(s, regions[1..], ifs, r.endoff);
    var all := kinds[pos..];
    assert all == a + b + c;
    assert forall i :: pos <= i < r.begoff ==> kinds[i] == all[i - pos] == a[i - pos];
    assert kinds[r.begoff..r.endoff] == all[r.begoff - pos..r.endoff - pos] == b;
    assert kinds[r.endoff..] == all[r.endoff - pos..] == c;
  }

  // ---------------------------------------------------------------- quoted words

  predicate AllQuoted(regions: seq<Region>) {
    forall i :: 0 <= i < |regions| ==> regions[i].nulonly
  }

  lemma {:induction false} QuotedRegion(s: seq<Char>, r: Region, ifs: seq<Char>, p: nat, kinds: seq<Kind>)
    requires p <= r.endoff <= |s| == |kinds| && Aligned(s, p, r.endoff) && r.nulonly && 0 !in s
    requires kinds[p..r.endoff] == RegionKinds(s, r, ifs, p)
    ensures AllText(kinds, p, r.endoff)
    decreases r.endoff - p
  {
    hide RegionKinds;
    if p < r.endoff {
      NextReached(s, kinds, r, ifs, p);
      assert s[UnitEnd(s, p) - 1] in s;
      QuotedRegion(s, r, ifs, UnitEnd(s, p), kinds);
    }
  }

  lemma {:induction false} QuotedIsText(s: seq<Char>, regions: seq<Region>, ifs: seq<Char>, pos: nat, kinds: seq<Kind>)
    requires Ordered(s, regions, pos) && |kinds| == |s| && kinds[pos..] == Kinds(s, regions, ifs, pos)
    requires AllQuoted(regions) && 0 !in s
    ensures pos <= |kinds| && AllText(kinds, pos, |kinds|)
    decreases |regions|
  {
    if regions == [] {
      assert forall i :: pos <= i < |s| ==> kinds[i] == kinds[pos..][i - pos];
    } else {
      FirstRegion(s, regions, ifs, pos, kinds);
      QuotedRegion(s, regions[0], ifs, regions[0].begoff, kinds);
      QuotedIsText(s, regions[1..], ifs, regions[0].endoff, kinds);
    }
  }

  /** A word without NULs, of which at most the quoted parts are searched, is one field, the whole of it, unless it
      is empty; an empty one is a field if nothing is searched. */
  method BreakQuoted(text: array<Char>, n: nat, regions: seq<Region>, ifs: seq<Char>) returns (arglist: seq<nat>)
    requires n < text.Length && text[n] == 0 && 0 !in text[..n]
    requires Ordered(text[..n], regions, 0) && AllQuoted(regions)
    modifies text
    ensures arglist == if n > 0 || regions == [] then [0] else []
    ensures arglist != [] ==> text[..n + 1] == old(text[..n + 1])
  {
    hide *;
    ghost var s := text[..n];
    ghost var kinds := Kinds(s, regions, ifs, 0);
    ghost var full := text[..];
    assert kinds[0..] == kinds;
    QuotedIsText(s, regions, ifs, 0, kinds);
    NoNuls(s, kinds);
    ghost var done, open;
    arglist, done, open := Ifsbreakup(text, n, regions, ifs);
    OneField(s, kinds, regions, done, open, full, text[..], arglist);
  }

  lemma NoNuls(s: seq<Char>, kinds: seq<Kind>)
    requires |s| == |kinds| && 0 !in s
    ensures NulsSeparate(s, kinds)
  {
  }

  lemma OneField(s: seq<Char>, kinds: seq<Kind>, regions: seq<Region>, done: seq<Field>, open: nat, full: seq<Char>,
                 now: seq<Char>, arglist: seq<nat>)
    requires |s| == |kinds| && AllText(kinds, 0, |kinds|) && Split(s, kinds, regions, done, open, |s|)
    requires regions != [] ==> regions[|regions| - 1].begoff <= |s|
    requires |now| == |full| && |s| < |full| && full[|s|] == 0 && s == full[..|s|]
    requires Args(full, now, Fields(kinds, regions, done, open), arglist)
    ensures done == [] && open == 0 && arglist == if |s| > 0 || regions == [] then [0] else []
    ensures arglist != [] ==> now[..|s| + 1] == full[..|s| + 1]
  {
    hide Hards, AllGood, Gap;
    LastField(s, kinds, regions, done, open, |s|);
    assert done == [];
    NoneLeft(kinds, open);
    var fields := Fields(kinds, regions, done, open);
    if fields != [] {
      assert fields == [Field(0, |s|)] && Holds(full, now, fields[0]);
      assert now[..|s| + 1] == now[0..|s|] + [0] && full[..|s| + 1] == full[0..|s|] + [0];
    }
  }

  lemma NoneLeft(kinds: seq<Kind>, open: nat)
    requires open <= |kinds| && NoText(kinds, 0, open) && AllText(kinds, 0, |kinds|)
    ensures open == 0
  {
    var first := if |kinds| > 0 then kinds[0] else Text;
  }
}
