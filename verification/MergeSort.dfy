/** The sorting of file names in sh (src/bin/sh/expand.c): a merge sort that relinks a list.

    A list is described by the sequence of its nodes, in order.  Two such sequences are stable to
    each other if they have, for every text, the same nodes in the same order.
  */
module MergeSort {
  import opened ByteStrings

  class StrList {
    var next: StrList?
    var text: Text

    constructor (text: Text, next: StrList?)
      ensures this.text == text && this.next == next
    {
      this.text, this.next := text, next;
    }
  }

  // ---------------------------------------------------------------- lists of nodes

  ghost predicate Distinct(s: seq<StrList>) {
    forall i, j :: 0 <= i < j < |s| ==> s[i] != s[j]
  }

  /** The nodes s are linked one to the next, as far as they go. */
  ghost predicate Linked(s: seq<StrList>)
    reads s`next
  {
    forall i :: 0 <= i < |s| - 1 ==> s[i].next == s[i + 1]
  }

  /** The list that starts at head has the nodes s. */
  ghost predicate List(head: StrList?, s: seq<StrList>)
    reads s`next
  {
    && (head == if s == [] then null else s[0])
    && Linked(s) && (s != [] ==> s[|s| - 1].next == null)
  }

  ghost predicate Sorted(s: seq<StrList>)
    reads s`text
  {
    forall i, j :: 0 <= i < j < |s| ==> Strcmp(s[i].text, s[j].text) <= 0
  }

  /** The nodes with a given text. */
  ghost function With(s: seq<StrList>, t: Text): seq<StrList>
    reads s`text
  {
    if s == [] then [] else (if s[0].text == t then [s[0]] else []) + With(s[1..], t)
  }

  /** For each text, both lists have the same nodes with it in the same order. */
  ghost predicate Stable(s: seq<StrList>, t: seq<StrList>)
    reads s`text, t`text
  {
    forall x :: With(s, x) == With(t, x)
  }

  lemma {:induction false} WithBoth(s: seq<StrList>, t: seq<StrList>, x: Text)
    ensures With(s + t, x) == With(s, x) + With(t, x)
  {
    if s == [] {
      assert s + t == t;
    } else {
      assert (s + t)[1..] == s[1..] + t;
      WithBoth(s[1..], t, x);
    }
  }

  lemma {:induction false} WithIsThere(s: seq<StrList>, n: StrList)
    ensures n in s <==> n in With(s, n.text)
  {
    if s != [] { WithIsThere(s[1..], n); }
  }

  /** Stable lists have the same nodes. */
  lemma StableNodes(s: seq<StrList>, t: seq<StrList>)
    requires Stable(s, t)
    ensures forall n :: n in s <==> n in t
  {
    forall n
      ensures n in s <==> n in t
    {
      WithIsThere(s, n);
      WithIsThere(t, n);
    }
  }

  // ---------------------------------------------------------------- merging

  /** What is left of the halves q and p comes after what is done. */
  ghost predicate Follows(done: seq<StrList>, rest: seq<StrList>)
    reads done`text, rest`text
  {
    forall a, b :: a in done && b in rest ==> Strcmp(a.text, b.text) <= 0
  }

  /** What is done, and what is left of both halves, is stable. */
  ghost predicate Accounted(done: seq<StrList>, qs: seq<StrList>, ps: seq<StrList>, all: seq<StrList>)
    reads done`text, qs`text, ps`text, all`text
  {
    forall x :: With(done, x) + With(qs, x) + With(ps, x) == With(all, x)
  }

  /** The first node of the second half may overtake the first half, in which there is no such text. */
  lemma TakeSecond(done: seq<StrList>, qs: seq<StrList>, ps: seq<StrList>, all: seq<StrList>)
    requires qs != [] && ps != [] && Sorted(qs) && Strcmp(ps[0].text, qs[0].text) < 0
    requires Accounted(done, qs, ps, all)
    ensures Accounted(done + [ps[0]], qs, ps[1..], all)
  {
    forall x
      ensures With(done + [ps[0]], x) + With(qs, x) + With(ps[1..], x) == With(all, x)
    {
      assert With(all, x) == With(done, x) + With(qs, x) + With(ps, x);
      hide Accounted;
      var one := MoveOne(done, ps, x);
      if ps[0].text == x { NoneWith(qs, x); }
      Overtake(With(done, x), With(qs, x), one, With(ps[1..], x));
      hide *;
    }
  }

  lemma Regroup(d: seq<StrList>, one: seq<StrList>, q: seq<StrList>, p: seq<StrList>)
    ensures d + one + q + p == d + (one + q) + p
  {
    assert d + one + q == d + (one + q);
  }

  lemma Overtake(d: seq<StrList>, q: seq<StrList>, one: seq<StrList>, p: seq<StrList>)
    requires one == [] || q == []
    ensures d + one + q + p == d + q + (one + p)
  {
    if one == [] {
      assert d + one == d && one + p == p;
    } else {
      assert d + one + q == d + one && d + q == d;
    }
  }

  lemma MoveOne(done: seq<StrList>, ps: seq<StrList>, x: Text) returns (one: seq<StrList>)
    requires ps != []
    ensures one == if ps[0].text == x then [ps[0]] else []
    ensures With(done + [ps[0]], x) == With(done, x) + one && With(ps, x) == one + With(ps[1..], x)
  {
    one := if ps[0].text == x then [ps[0]] else [];
    WithBoth(done, [ps[0]], x);
    assert [ps[0]][1..] == [];
  }

  lemma {:induction false} NoneWith(qs: seq<StrList>, x: Text)
    requires qs != [] ==> Sorted(qs) && Strcmp(x, qs[0].text) < 0
    ensures With(qs, x) == []
  {
    if qs != [] {
      StrcmpOrder(x, qs[0].text);
      if |qs| > 1 {
        assert Strcmp(qs[0].text, qs[1].text) <= 0;
        StrcmpOrder(qs[0].text, qs[1].text);
        if Strcmp(qs[0].text, qs[1].text) < 0 { StrcmpTransitive(x, qs[0].text, qs[1].text); }
      }
      assert forall i :: 0 <= i < |qs[1..]| ==> qs[1..][i] == qs[i + 1];
      NoneWith(qs[1..], x);
    }
  }

  lemma TakeFirst(done: seq<StrList>, qs: seq<StrList>, ps: seq<StrList>, all: seq<StrList>)
    requires qs != [] && Accounted(done, qs, ps, all)
    ensures Accounted(done + [qs[0]], qs[1..], ps, all)
  {
    forall x
      ensures With(done + [qs[0]], x) + With(qs[1..], x) + With(ps, x) == With(all, x)
    {
      assert With(all, x) == With(done, x) + With(qs, x) + With(ps, x);
      hide Accounted;
      var one := MoveOne(done, qs, x);
      Regroup(With(done, x), one, With(qs[1..], x), With(ps, x));
      hide *;
    }
  }

  lemma LessOrEqualTransitive(a: Text, b: Text, c: Text)
    requires Strcmp(a, b) <= 0 && Strcmp(b, c) <= 0
    ensures Strcmp(a, c) <= 0
  {
    StrcmpOrder(a, b);
    StrcmpOrder(b, c);
    if Strcmp(a, b) < 0 && Strcmp(b, c) < 0 { StrcmpTransitive(a, b, c); }
  }

  /** The lesser of the two first nodes is no greater than the others, and no less than what is done. */
  lemma Least(done: seq<StrList>, n: StrList, ns: seq<StrList>, ms: seq<StrList>)
    requires Sorted(done) && Sorted([n] + ns) && Sorted(ms) && Follows(done, [n] + ns) && Follows(done, ms)
    requires ms != [] ==> Strcmp(n.text, ms[0].text) <= 0
    ensures Sorted(done + [n]) && Follows(done + [n], ns) && Follows(done + [n], ms) && Sorted(ns)
  {
    hide Sorted, Follows;
    RestIsSorted(n, ns);
    AllAfter(n, ns);
    AllAfter(n, ms);
    PutLast(done, n, ns);
    FollowsMore(done, n, ns);
    FollowsMore(done, n, ms);
  }

  lemma RestIsSorted(n: StrList, ns: seq<StrList>)
    requires Sorted([n] + ns)
    ensures Sorted(ns) && (ns != [] ==> Strcmp(n.text, ns[0].text) <= 0)
  {
    var s := [n] + ns;
    assert s[0] == n && forall i :: 0 <= i < |ns| ==> s[i + 1] == ns[i];
  }

  lemma AllAfter(n: StrList, s: seq<StrList>)
    requires Sorted(s) && (s != [] ==> Strcmp(n.text, s[0].text) <= 0)
    ensures forall b :: b in s ==> Strcmp(n.text, b.text) <= 0
  {
    forall b | b in s
      ensures Strcmp(n.text, b.text) <= 0
    {
      var i :| 0 <= i < |s| && s[i] == b;
      if i > 0 {
        assert Strcmp(s[0].text, s[i].text) <= 0;
        LessOrEqualTransitive(n.text, s[0].text, b.text);
      }
    }
  }

  lemma PutLast(done: seq<StrList>, n: StrList, ns: seq<StrList>)
    requires Sorted(done) && Follows(done, [n] + ns)
    ensures Sorted(done + [n])
  {
    var t := done + [n];
    assert ([n] + ns)[0] == n;
    forall i, j | 0 <= i < j < |t|
      ensures Strcmp(t[i].text, t[j].text) <= 0
    {
      if j == |done| { assert done[i] in done && n in [n] + ns; }
    }
  }

  lemma FollowsMore(done: seq<StrList>, n: StrList, s: seq<StrList>)
    requires (Follows(done, s) || Follows(done, [n] + s)) && forall b :: b in s ==> Strcmp(n.text, b.text) <= 0
    ensures Follows(done + [n], s)
  {
    forall a, b | a in done + [n] && b in s
      ensures Strcmp(a.text, b.text) <= 0
    {
      if a in done { assert b in [n] + s; }
    }
  }

  /** What is done is in order, and comes before what is left of both halves; nothing is lost. */
  ghost predicate Ordered(done: seq<StrList>, qs: seq<StrList>, ps: seq<StrList>, all: seq<StrList>)
    reads done`text, qs`text, ps`text, all`text
  {
    && Sorted(done) && Sorted(qs) && Sorted(ps) && Follows(done, qs) && Follows(done, ps)
    && Accounted(done, qs, ps, all) && |done| + |qs| + |ps| == |all|
  }

  lemma OrderedSecond(done: seq<StrList>, qs: seq<StrList>, ps: seq<StrList>, all: seq<StrList>)
    requires Ordered(done, qs, ps, all) && qs != [] && ps != [] && Strcmp(ps[0].text, qs[0].text) < 0
    ensures Ordered(done + [ps[0]], qs, ps[1..], all)
  {
    hide Strcmp, Follows, Accounted, Sorted, With;
    assert [ps[0]] + ps[1..] == ps;
    TakeSecond(done, qs, ps, all);
    Least(done, ps[0], ps[1..], qs);
  }

  lemma OrderedFirst(done: seq<StrList>, qs: seq<StrList>, ps: seq<StrList>, all: seq<StrList>)
    requires Ordered(done, qs, ps, all) && qs != [] && ps != [] && Strcmp(ps[0].text, qs[0].text) >= 0
    ensures Ordered(done + [qs[0]], qs[1..], ps, all)
  {
    StrcmpOrder(qs[0].text, ps[0].text);
    StrcmpOrder(ps[0].text, qs[0].text);
    hide Strcmp, Follows, Accounted, Sorted, With;
    assert [qs[0]] + qs[1..] == qs;
    TakeFirst(done, qs, ps, all);
    Least(done, qs[0], qs[1..], ps);
  }

  /** Once one half is empty, the other one is the end of the list. */
  lemma OrderedEnd(done: seq<StrList>, rest: seq<StrList>, all: seq<StrList>)
    requires Ordered(done, rest, [], all) || Ordered(done, [], rest, all)
    ensures Sorted(done + rest) && Stable(done + rest, all) && |done + rest| == |all|
  {
    forall i, j | 0 <= i < j < |done + rest|
      ensures Strcmp((done + rest)[i].text, (done + rest)[j].text) <= 0
    {
      if i < |done| <= j { assert done[i] in done && rest[j - |done|] in rest; }
    }
    forall x
      ensures With(done + rest, x) == With(all, x)
    {
      WithBoth(done, rest, x);
      assert With(done, x) + With(rest, x) + [] == With(done, x) + [] + With(rest, x) == With(done, x) + With(rest, x);
      assert With([], x) == [];
    }
  }

  // ---------------------------------------------------------------- the links

  ghost predicate Apart(s: seq<StrList>, t: seq<StrList>) {
    forall a, b :: a in s && b in t ==> a != b
  }

  /** The list as far as it is done, its last node, and what is left of the halves. */
  ghost predicate Links(list: StrList?, last: StrList?, q: StrList?, p: StrList?,
                        done: seq<StrList>, qs: seq<StrList>, ps: seq<StrList>)
    reads done`next, qs`next, ps`next
  {
    && Linked(done) && (if done == [] then last == null else list == done[0] && last == done[|done| - 1])
    && List(q, qs) && List(p, ps) && Distinct(done) && Distinct(qs) && Distinct(ps)
    && Apart(done, qs) && Apart(done, ps) && Apart(qs, ps)
  }

  /** *lpp = n, where lpp points to the list itself or to the link of the last node that is done. */
  method Append(list: StrList?, last: StrList?, n: StrList?, ghost done: seq<StrList>) returns (list': StrList?)
    requires Linked(done) && Distinct(done)
    requires if done == [] then last == null else list == done[0] && last == done[|done| - 1]
    modifies if last == null then {} else {last}`next
    ensures Linked(done) && (if done == [] then list' == n else list' == list && done[|done| - 1].next == n)
  {
    list' := list;
    if last == null {
      list' := n;
    } else {
      last.next := n;
    }
  }

  /** The loop of msort takes the first node of the half that starts at n. */
  method Step(list: StrList?, last: StrList?, n: StrList, o: StrList, ghost done: seq<StrList>,
              ghost ns: seq<StrList>, ghost os: seq<StrList>)
      returns (list': StrList?, n': StrList?)
    requires Links(list, last, n, o, done, ns, os)
    modifies if last == null then {} else {last}`next
    ensures ns != [] && ns[0] == n && Links(list', n, n', o, done + [n], ns[1..], os)
  {
    hide Links, Linked, List, Distinct, Apart;
    LinksFacts(list, last, n, o, done, ns, os);
    assert allocated(ns) && allocated(os);
    list' := Append(list, last, n, done);
    n' := n.next;
    LinksAppended(list', n, n', o, done, ns, os);
  }

  lemma LinksFacts(list: StrList?, last: StrList?, n: StrList, o: StrList?, done: seq<StrList>, ns: seq<StrList>,
                   os: seq<StrList>)
    requires Links(list, last, n, o, done, ns, os)
    ensures Linked(done) && Distinct(done) && List(n, ns) && List(o, os) && Distinct(ns) && Distinct(os)
    ensures Apart(done, ns) && Apart(done, os) && Apart(ns, os)
    ensures if done == [] then last == null else list == done[0] && last == done[|done| - 1]
    ensures done != [] ==> last !in ns && last !in os
  {
    if done != [] { assert last in done; }
  }

  lemma LinksAppended(list: StrList?, n: StrList, n': StrList?, o: StrList?, done: seq<StrList>, ns: seq<StrList>,
                      os: seq<StrList>)
    requires Linked(done) && Distinct(done) && List(n, ns) && List(o, os) && Distinct(ns) && Distinct(os)
    requires Apart(done, ns) && Apart(done, os) && Apart(ns, os)
    requires if done == [] then list == n else list == done[0] && done[|done| - 1].next == n
    requires n' == n.next
    ensures ns != [] && ns[0] == n && Links(list, n, n', o, done + [n], ns[1..], os)
  {
    var t, rest := done + [n], ns[1..];
    assert forall i :: 0 <= i < |rest| ==> rest[i] == ns[i + 1];
    assert n in ns;
    forall i, j | 0 <= i < j < |t|
      ensures t[i] != t[j]
    {
      if j == |done| { assert done[i] in done; }
    }
    forall a | a in rest
      ensures a in ns && a != n
    {
      var i :| 0 <= i < |rest| && rest[i] == a;
      assert ns[0] != ns[i + 1];
    }
  }

  /** The end of the loop: the half that is left is linked on. */
  method LinkRest(list: StrList?, last: StrList, o: StrList?, ghost done: seq<StrList>, ghost os: seq<StrList>)
    requires Links(list, last, null, o, done, [], os) && done != []
    modifies last`next
    ensures List(list, done + os) && Distinct(done + os)
  {
    hide Links, Linked, List, Distinct, Apart;
    ApartFrom(list, last, o, done, os);
    assert allocated(os);
    var l := Append(list, last, o, done);
    JoinedList(list, o, done, os);
  }

  lemma ApartFrom(list: StrList?, last: StrList?, o: StrList?, done: seq<StrList>, os: seq<StrList>)
    requires Links(list, last, null, o, done, [], os) && done != []
    ensures Linked(done) && Distinct(done) && Distinct(os) && Apart(done, os) && List(o, os) && last !in os
    ensures list == done[0] && last == done[|done| - 1]
  {
    assert last in done;
  }

  lemma JoinedList(list: StrList?, o: StrList?, done: seq<StrList>, os: seq<StrList>)
    requires Linked(done) && Distinct(done) && Distinct(os) && Apart(done, os) && List(o, os)
    requires done != [] && list == done[0] && done[|done| - 1].next == o
    ensures List(list, done + os) && Distinct(done + os)
  {
    var out := done + os;
    forall i, j | 0 <= i < j < |out|
      ensures out[i] != out[j]
    {
      if i < |done| <= j { assert out[i] in done && out[j] in os; }
    }
    forall i | 0 <= i < |out| - 1
      ensures out[i].next == out[i + 1]
    {
      if i >= |done| { assert os[i - |done|].next == os[i - |done| + 1]; }
    }
  }

  /** The loop of msort, from two sorted halves to one sorted list. */
  method Merge(q0: StrList, p0: StrList, ghost qs0: seq<StrList>, ghost ps0: seq<StrList>)
      returns (list: StrList?, ghost out: seq<StrList>)
    requires List(q0, qs0) && List(p0, ps0) && Distinct(qs0) && Distinct(ps0) && Apart(qs0, ps0)
    requires Sorted(qs0) && Sorted(ps0)
    modifies qs0`next, ps0`next
    ensures List(list, out) && Distinct(out) && Sorted(out) && Stable(out, qs0 + ps0) && |out| == |qs0 + ps0|
  {
    hide *;
    ghost var done, qs, ps := [], qs0, ps0;
    var p: StrList, q: StrList := p0, q0;
    var last: StrList? := null;
    list := q0;
    StartMerge(list, q, p, qs, ps);
    while true
      invariant Links(list, last, q, p, done, qs, ps) && Ordered(done, qs, ps, qs0 + ps0)
      invariant last != null ==> last in qs0 || last in ps0
      invariant (forall n :: n in qs ==> n in qs0) && (forall n :: n in ps ==> n in ps0)
      decreases |qs| + |ps|
    {
      HeadsAre(list, last, q, p, done, qs, ps);
      assert q in qs && p in ps;
      if Strcmp(p.text, q.text) < 0 {
        LinksSwap(list, last, q, p, done, qs, ps);
        OrderedSecond(done, qs, ps, qs0 + ps0);
        ghost var n := p;
        var p';
        list, p' := Step(list, last, p, q, done, ps, qs);
        last := p;
        done, ps := done + [p], ps[1..];
        if p' == null {
          NoneLeft(list, last, null, q, done, ps, qs);
          out := done + qs;
          LinkRest(list, last, q, done, qs);
          OrderedEnd(done, qs, qs0 + ps0);
          return;
        }
        p := p';
        LinksSwap(list, last, p, q, done, ps, qs);
      } else {
        OrderedFirst(done, qs, ps, qs0 + ps0);
        var q';
        list, q' := Step(list, last, q, p, done, qs, ps);
        last := q;
        done, qs := done + [q], qs[1..];
        if q' == null {
          NoneLeft(list, last, null, p, done, qs, ps);
          out := done + ps;
          LinkRest(list, last, p, done, ps);
          OrderedEnd(done, ps, qs0 + ps0);
          return;
        }
        q := q';
      }
    }
  }

  lemma StartMerge(list: StrList?, q: StrList, p: StrList, qs: seq<StrList>, ps: seq<StrList>)
    requires List(q, qs) && List(p, ps) && Distinct(qs) && Distinct(ps) && Apart(qs, ps)
    requires Sorted(qs) && Sorted(ps)
    ensures Links(list, null, q, p, [], qs, ps) && Ordered([], qs, ps, qs + ps)
  {
    forall x
      ensures With([], x) + With(qs, x) + With(ps, x) == With(qs + ps, x)
    {
      WithBoth(qs, ps, x);
    }
  }

  lemma HeadsAre(list: StrList?, last: StrList?, q: StrList, p: StrList, done: seq<StrList>, qs: seq<StrList>,
                 ps: seq<StrList>)
    requires Links(list, last, q, p, done, qs, ps)
    ensures qs != [] && q == qs[0] && ps != [] && p == ps[0]
  {
  }

  lemma LinksSwap(list: StrList?, last: StrList?, q: StrList?, p: StrList?, done: seq<StrList>, qs: seq<StrList>,
                  ps: seq<StrList>)
    requires Links(list, last, q, p, done, qs, ps)
    ensures Links(list, last, p, q, done, ps, qs)
  {
  }

  lemma NoneLeft(list: StrList?, last: StrList?, q: StrList?, p: StrList?, done: seq<StrList>, qs: seq<StrList>,
                 ps: seq<StrList>)
    requires Links(list, last, q, p, done, qs, ps) && q == null
    ensures qs == []
  {
  }

  // ---------------------------------------------------------------- the sort

  /** Sorts the list of the nodes `nodes` by relinking them. */
  method Msort(list: StrList?, len: nat, ghost nodes: seq<StrList>) returns (r: StrList?, ghost out: seq<StrList>)
    requires List(list, nodes) && Distinct(nodes) && len == |nodes|
    modifies nodes`next
    ensures List(r, out) && Distinct(out) && |out| == |nodes|
    ensures Sorted(out) && Stable(out, nodes)
    decreases len, 1
  {
    hide *;
    if len <= 1 {
      ShortIsSorted(nodes);
      return list, nodes;
    }
    var half := len / 2;
    ghost var front, back := nodes[..half], nodes[half..];
    var q, p := SplitAt(list, half, nodes);
    Halves(nodes, half, front, back);
    q, p, out := SortHalves(list, half, p, len - half, front, back);
    r, out := MergeHalves(q, p, half, out, nodes);
  }

  /** Sorts both halves; the sorted lists come one after the other in out. */
  method SortHalves(list: StrList?, half: nat, second: StrList?, rest: nat, ghost front: seq<StrList>,
                    ghost back: seq<StrList>)
      returns (q: StrList?, p: StrList?, ghost out: seq<StrList>)
    requires List(list, front) && List(second, back) && Distinct(front) && Distinct(back)
    requires (forall n :: n in back ==> n !in front) && half == |front| > 0 && rest == |back| > 0
    modifies front`next, back`next
    ensures |out| == half + rest && List(q, out[..half]) && List(p, out[half..])
    ensures Distinct(out[..half]) && Distinct(out[half..]) && Sorted(out[..half]) && Sorted(out[half..])
    ensures Stable(out[..half], front) && Stable(out[half..], back)
    decreases half + rest, 0
  {
    hide *;
    assert allocated(front) && allocated(back);
    ghost var qs, ps;
    label B:
    q, qs := Msort(list, half, front);
    assert forall n :: n in back ==> n.next == old@B(n.next);
    assert List(second, back);
    StableNodes(qs, front);
    assert allocated(qs) && forall n :: n in qs ==> n in front && n !in back;
    label C:
    p, ps := Msort(second, rest, back);
    assert forall n :: n in qs ==> n.next == old@C(n.next);
    assert List(q, qs);
    out := qs + ps;
    assert out[..half] == qs && out[half..] == ps;
  }

  method MergeHalves(q: StrList?, p: StrList?, half: nat, ghost both: seq<StrList>, ghost nodes: seq<StrList>)
      returns (r: StrList?, ghost out: seq<StrList>)
    requires Distinct(nodes) && 0 < half < |nodes| == |both|
    requires List(q, both[..half]) && List(p, both[half..])
    requires Distinct(both[..half]) && Distinct(both[half..]) && Sorted(both[..half]) && Sorted(both[half..])
    requires Stable(both[..half], nodes[..half]) && Stable(both[half..], nodes[half..])
    modifies nodes`next
    ensures List(r, out) && Distinct(out) && |out| == |nodes|
    ensures Sorted(out) && Stable(out, nodes)
  {
    hide *;
    ghost var qs, ps := both[..half], both[half..];
    BothHalves(nodes, half, qs, ps);
    IsNode(q, qs);
    IsNode(p, ps);
    assert forall i :: 0 <= i < |qs| ==> qs[i] in nodes;
    assert forall i :: 0 <= i < |ps| ==> ps[i] in nodes;
    r, out := Merge(q, p, qs, ps);
    StableTwice(out, qs, ps, nodes, half);
  }

  lemma ShortIsSorted(s: seq<StrList>)
    requires |s| <= 1
    ensures Sorted(s) && Stable(s, s)
  {
  }

  lemma Halves(nodes: seq<StrList>, half: nat, front: seq<StrList>, back: seq<StrList>)
    requires Distinct(nodes) && half <= |nodes| && front == nodes[..half] && back == nodes[half..]
    ensures forall n :: n in back ==> n !in front
    ensures (forall n :: n in front ==> n in nodes) && (forall n :: n in back ==> n in nodes)
  {
    forall n | n in back
      ensures n !in front
    {
      var j :| 0 <= j < |back| && back[j] == n;
      assert nodes[half + j] == n;
    }
  }

  /** Cuts the list in two after `half` nodes; q is the last of the first part. */
  method SplitAt(list: StrList?, half: nat, ghost nodes: seq<StrList>) returns (q: StrList?, p: StrList?)
    requires List(list, nodes) && Distinct(nodes) && 0 < half < |nodes|
    modifies nodes`next
    ensures List(list, nodes[..half]) && List(p, nodes[half..])
    ensures Distinct(nodes[..half]) && Distinct(nodes[half..])
  {
    q, p := null, list;
    var n := 0;
    while n < half
      invariant 0 <= n <= half && p == nodes[n] && (n > 0 ==> q == nodes[n - 1])
      invariant List(list, nodes)
    {
      q := p;
      p := p.next;
      n := n + 1;
    }
    q.next := null;
  }

  /** Counts the nodes, and sorts them. */
  method Expsort(str: StrList?, ghost nodes: seq<StrList>) returns (r: StrList?, ghost out: seq<StrList>)
    requires List(str, nodes) && Distinct(nodes)
    modifies nodes`next
    ensures List(r, out) && Distinct(out) && |out| == |nodes|
    ensures Sorted(out) && Stable(out, nodes)
  {
    var len := 0;
    var sp := str;
    while sp != null
      invariant 0 <= len <= |nodes| && sp == (if len < |nodes| then nodes[len] else null)
      invariant List(str, nodes) && Distinct(nodes)
      decreases |nodes| - len
    {
      len := len + 1;
      sp := sp.next;
    }
    r, out := Msort(str, len, nodes);
  }

  lemma IsNode(head: StrList?, s: seq<StrList>)
    requires List(head, s) && s != []
    ensures head != null
  {
  }

  lemma BothHalves(nodes: seq<StrList>, half: nat, qs: seq<StrList>, ps: seq<StrList>)
    requires Distinct(nodes) && half <= |nodes|
    requires Stable(qs, nodes[..half]) && Stable(ps, nodes[half..])
    ensures Apart(qs, ps)
    ensures (forall n :: n in qs ==> n in nodes) && (forall n :: n in ps ==> n in nodes)
  {
    StableNodes(qs, nodes[..half]);
    StableNodes(ps, nodes[half..]);
    forall a, b | a in qs && b in ps
      ensures a != b
    {
      var i :| 0 <= i < half && nodes[..half][i] == a;
      var j :| 0 <= j < |nodes| - half && nodes[half..][j] == b;
      assert nodes[i] == a && nodes[half + j] == b;
    }
  }

  lemma StableTwice(out: seq<StrList>, qs: seq<StrList>, ps: seq<StrList>, nodes: seq<StrList>, half: nat)
    requires half <= |nodes| && Stable(out, qs + ps)
    requires Stable(qs, nodes[..half]) && Stable(ps, nodes[half..])
    ensures Stable(out, nodes)
  {
    assert nodes[..half] + nodes[half..] == nodes;
    forall x
      ensures With(out, x) == With(nodes, x)
    {
      WithBoth(qs, ps, x);
      WithBoth(nodes[..half], nodes[half..], x);
    }
  }
}
