/** The variable table of csh (src/bin/csh/set.c): the operations on the tree of module
    VariableTree, which together behave as a finite map kept in order. */
module VariableTable {
  import opened VariableNames
  import opened VariableTree

  // ---------------------------------------------------------------- order and contents

  /** The entries before and after the hole of a context. */
  ghost function Before(c: Context): seq<VarEnt> {
    match c
    case Top(_) => []
    case InLeft(up, e, r) => Before(up)
    case InRight(up, e, l) => Before(up) + Inorder(l) + [e]
  }

  ghost function After(c: Context): seq<VarEnt> {
    match c
    case Top(_) => []
    case InLeft(up, e, r) => [e] + Inorder(r) + After(up)
    case InRight(up, e, l) => After(up)
  }

  lemma {:induction false} PlugInorder(c: Context, t: Shape)
    ensures Inorder(Plug(c, t)) == Before(c) + Inorder(t) + After(c)
    decreases c
  {
    if !c.Top? { PlugInorder(c.up, UpShape(c, t)); }
  }

  ghost predicate Sorted(s: seq<VarEnt>)
    reads s`v_name
  {
    forall i, j :: 0 <= i < j < |s| ==> Less(s[i].v_name, s[j].v_name)
  }

  /** The map holds the names and values of these entries. */
  ghost predicate Agree(s: seq<VarEnt>, vars: map<Name, Words>)
    reads s`v_name, s`vec
  {
    && (forall e :: e in s ==> e.v_name in vars && vars[e.v_name] == e.vec)
    && (forall n :: n in vars ==> exists e :: e in s && e.v_name == n)
  }

  /** Everything before the hole comes before the name, everything after it comes after. */
  ghost predicate Brackets(c: Context, name: Name)
    reads Before(c)`v_name, After(c)`v_name
  {
    && (forall e :: e in Before(c) ==> Less(e.v_name, name))
    && (forall e :: e in After(c) ==> Less(name, e.v_name))
  }

  /** The two sides of a sorted subtree. */
  lemma SortedSides(t: Shape)
    requires t.Node? && Sorted(Inorder(t))
    ensures Sorted(Inorder(t.left)) && Sorted(Inorder(t.right))
    ensures forall e :: e in Inorder(t.left) ==> Less(e.v_name, t.ent.v_name)
    ensures forall e :: e in Inorder(t.right) ==> Less(t.ent.v_name, e.v_name)
  {
    hide Less;
    var s, n := Inorder(t), |Inorder(t.left)|;
    assert s[n] == t.ent;
    assert forall i :: 0 <= i < n ==> s[i] == Inorder(t.left)[i];
    assert forall i :: 0 <= i < |Inorder(t.right)| ==> s[n + 1 + i] == Inorder(t.right)[i];
    forall i | 0 <= i < n
      ensures Less(Inorder(t.left)[i].v_name, t.ent.v_name)
    {
      assert Less(s[i].v_name, s[n].v_name);
    }
    forall i | 0 <= i < |Inorder(t.right)|
      ensures Less(t.ent.v_name, Inorder(t.right)[i].v_name)
    {
      assert Less(s[n].v_name, s[n + 1 + i].v_name);
    }
  }

  /** The search goes on in one subtree of the entry it is at. */
  lemma GoDown(c: Context, t: Shape, name: Name)
    requires t.Node? && Sorted(Inorder(t)) && Brackets(c, name)
    ensures Sorted(Inorder(t.left)) && Sorted(Inorder(t.right))
    ensures Less(name, t.ent.v_name) ==> Brackets(InLeft(c, t.ent, t.right), name)
    ensures Less(t.ent.v_name, name) ==> Brackets(InRight(c, t.ent, t.left), name)
  {
    hide Less, Sorted, Inorder;
    SortedSides(t);
    forall a, b, d | Less(a, b) && Less(b, d)
      ensures Less(a, d)
    {
      LessIsStrictTotalOrder(a, b, d);
    }
  }

  lemma JoinedDown(c: Context, t: Shape)
    requires t.Node? && Joined(c, t)
    ensures Joined(InLeft(c, t.ent, t.right), t.left) && t.ent.v_left == Ref(t.left)
    ensures Joined(InRight(c, t.ent, t.left), t.right) && t.ent.v_right == Ref(t.right)
  {
    assert Linked(t.left, t.ent) && Linked(t.right, t.ent);
  }

  /** A search for the name that has come down to the subtree t of the tree. */
  ghost predicate Searching(tree: Shape, c: Context, t: Shape, name: Name, vars: map<Name, Words>)
    reads Outside(c), Ents(t), Inorder(tree), Inorder(t), Before(c), After(c)
  {
    && Joined(c, t) && Plug(c, t) == tree
    && Sorted(Inorder(t)) && Brackets(c, name) && Agree(Inorder(tree), vars)
  }

  lemma SearchStep(tree: Shape, c: Context, t: Shape, name: Name, vars: map<Name, Words>)
    requires Searching(tree, c, t, name, vars) && t.Node?
    ensures Less(name, t.ent.v_name) ==> Searching(tree, InLeft(c, t.ent, t.right), t.left, name, vars)
    ensures Less(t.ent.v_name, name) ==> Searching(tree, InRight(c, t.ent, t.left), t.right, name, vars)
    ensures t.ent.v_left == Ref(t.left) && t.ent.v_right == Ref(t.right)
    ensures Height(t.left) < Height(t) && Height(t.right) < Height(t)
  {
    hide Joined, Sorted, Brackets, Agree;
    JoinedDown(c, t);
    GoDown(c, t, name);
  }

  /** A name that the search has run into, or run past. */
  lemma SearchEnds(tree: Shape, c: Context, t: Shape, name: Name, vars: map<Name, Words>)
    requires Searching(tree, c, t, name, vars)
    ensures t.Leaf? ==> name !in vars
    ensures t.Node? && t.ent.v_name == name ==> t.ent in Ents(tree) && name in vars && vars[name] == t.ent.vec
  {
    hide Joined, Sorted;
    PlugInorder(c, t);
    InorderEnts(tree);
    LessIsStrictTotalOrder(name, name, name);
    if t.Node? { assert t.ent in Inorder(t); }
  }

  // ---------------------------------------------------------------- insertion

  ghost function Names(s: seq<VarEnt>): set<Name>
    reads s`v_name
  {
    set e | e in s :: e.v_name
  }

  lemma {:induction false} CountNames(s: seq<VarEnt>)
    requires Sorted(s)
    ensures |Names(s)| == |s|
  {
    if s != [] {
      LastIsNew(s);
      hide *;
      CountNames(s[..|s| - 1]);
    }
  }

  lemma LastIsNew(s: seq<VarEnt>)
    requires Sorted(s) && s != []
    ensures var rest, e := s[..|s| - 1], s[|s| - 1];
            Sorted(rest) && e.v_name !in Names(rest) && Names(s) == Names(rest) + {e.v_name}
  {
    hide Less;
    var rest, e := s[..|s| - 1], s[|s| - 1];
    assert s == rest + [e];
    LessIsStrictTotalOrder(e.v_name, e.v_name, e.v_name);
    forall d | d in rest
      ensures d.v_name != e.v_name
    {
      var i :| 0 <= i < |rest| && rest[i] == d;
      assert Less(s[i].v_name, e.v_name);
    }
  }

  /** There are as many entries as variables. */
  lemma OneEntryEach(s: seq<VarEnt>, vars: map<Name, Words>)
    requires Sorted(s) && Agree(s, vars)
    ensures |s| == |vars|
  {
    CountNames(s);
    assert Names(s) == vars.Keys;
  }

  /** In a sorted list, an entry is known by its name. */
  lemma SortedNames(s: seq<VarEnt>)
    requires Sorted(s)
    ensures forall d, e :: d in s && e in s && d.v_name == e.v_name ==> d == e
  {
    forall d, e | d in s && e in s && d.v_name == e.v_name
      ensures d == e
    {
      var i :| 0 <= i < |s| && s[i] == d;
      var j :| 0 <= j < |s| && s[j] == e;
      LessIsStrictTotalOrder(d.v_name, e.v_name, d.v_name);
    }
  }

  /** A list stays sorted with a new name in its place, or without one of its names. */
  lemma SortedInsert(a: seq<VarEnt>, n: VarEnt, b: seq<VarEnt>)
    requires Sorted(a + b)
    requires forall e :: e in a ==> Less(e.v_name, n.v_name)
    requires forall e :: e in b ==> Less(n.v_name, e.v_name)
    ensures Sorted(a + [n] + b)
  {
    var s, t := a + b, a + [n] + b;
    forall i, j | 0 <= i < j < |t|
      ensures Less(t[i].v_name, t[j].v_name)
    {
      if i != |a| && j != |a| {
        var k, l := if i < |a| then i else i - 1, if j < |a| then j else j - 1;
        assert Less(s[k].v_name, s[l].v_name);
      } else if i == |a| {
        assert t[j] in b;
      } else {
        assert t[i] in a;
      }
    }
  }

  lemma AgreeInsert(s: seq<VarEnt>, t: seq<VarEnt>, n: VarEnt, vars: map<Name, Words>)
    requires Agree(s, vars) && n.v_name !in vars
    requires forall e :: e in t <==> e in s || e == n
    ensures Agree(t, vars[n.v_name := n.vec])
  {
    var vars' := vars[n.v_name := n.vec];
    forall m | m in vars'
      ensures exists e :: e in t && e.v_name == m
    {
      if m == n.v_name {
        assert n in t;
      } else {
        var e :| e in s && e.v_name == m;
        assert e in t;
      }
    }
  }

  lemma {:induction false} UnplugBalanced(c: Context, t: Shape)
    requires Balanced(Plug(c, t))
    ensures Balanced(t) && BalancedAround(c, Height(t))
    decreases c
  {
    hide Balanced, Height;
    if !c.Top? {
      hide BalancedAround;
      UnplugBalanced(c.up, UpShape(c, t));
      UnplugOne(c, t);
    }
  }

  lemma UnplugOne(c: Context, t: Shape)
    requires !c.Top? && Balanced(UpShape(c, t)) && BalancedAround(c.up, Height(UpShape(c, t)))
    ensures Balanced(t) && BalancedAround(c, Height(t))
  {
    hide *;
    UpBalance(c, t);
    AroundStep(c, Height(t));
  }

  /** Linking a new entry into an empty hole. */
  method LinkNew(p: VarEnt, f: bool, n: VarEnt, ghost c: Context)
    requires p == Above(c) && f == c.InRight? && Joined(c, Leaf) && n !in Outside(c)
    requires n.v_left == null && n.v_right == null && n.v_parent == p
    modifies p`v_left, p`v_right
    ensures Joined(c, Node(n, Leaf, Leaf))
  {
    if f { p.v_right := n; } else { p.v_left := n; }
  }

  /** The value of one entry changes, and nothing else about the tree does. */
  method UpdateValue(c: VarEnt, vec: Words, ghost head: VarEnt, ghost tree: Shape, ghost vars: map<Name, Words>)
    requires Joined(Top(head), tree) && Balanced(tree) && Sorted(Inorder(tree)) && Agree(Inorder(tree), vars)
    requires c in Ents(tree)
    modifies c`vec
    ensures Joined(Top(head), tree) && Balanced(tree) && Sorted(Inorder(tree))
    ensures Agree(Inorder(tree), vars[c.v_name := vec])
  {
    hide Joined, Balanced, Sorted, Inorder, Ents, Less;
    InorderEnts(tree);
    SortedNames(Inorder(tree));
    c.vec := vec;
  }

  /** A new entry for the hole of cx, and the tree after rebalancing. */
  method InsertEnt(p: VarEnt, f: bool, name: Name, vec: Words, ghost cx: Context) returns (n: VarEnt, ghost s: Shape)
    requires p == Above(cx) && f == cx.InRight?
    requires Joined(cx, Leaf) && Balanced(Plug(cx, Leaf))
    modifies Outside(cx)`v_left, Outside(cx)`v_right, Outside(cx)`v_parent, Outside(cx)`v_bal
    ensures fresh(n) && n.v_name == name && n.vec == vec
    ensures Joined(Top(HeadOf(cx)), s) && Balanced(s)
    ensures Inorder(s) == Before(cx) + [n] + After(cx)
  {
    hide Balanced, BalancedAround, Plug, Ents, Linked, Inorder;
    UnplugBalanced(cx, Leaf);
    assert allocated(Outside(cx));
    hide *;
    n := new VarEnt(name, vec, p);
    LinkNew(p, f, n, cx);
    SingleEnt(n);
    s := Balance(p, f, false, cx, Node(n, Leaf, Leaf));
    PlugInorder(cx, Node(n, Leaf, Leaf));
  }

  lemma SingleEnt(n: VarEnt)
    ensures var t := Node(n, Leaf, Leaf);
            && Ents(t) == {n} && Inorder(t) == [n] && Height(t) == Height(Leaf) + 1
            && (n.v_bal == 0 ==> Balanced(t))
  {
  }

  /** The tree with a variable added where the search for its name has ended. */
  method InsertSorted(p: VarEnt, f: bool, name: Name, vec: Words, ghost cx: Context, ghost vars: map<Name, Words>)
      returns (n: VarEnt, ghost s: Shape)
    requires Joined(cx, Leaf) && Balanced(Plug(cx, Leaf)) && Sorted(Inorder(Plug(cx, Leaf)))
    requires p == Above(cx) && f == cx.InRight?
    requires Brackets(cx, name) && Agree(Inorder(Plug(cx, Leaf)), vars) && name !in vars
    modifies Outside(cx)`v_left, Outside(cx)`v_right, Outside(cx)`v_parent, Outside(cx)`v_bal
    ensures Joined(Top(HeadOf(cx)), s) && Balanced(s) && Sorted(Inorder(s)) && Agree(Inorder(s), vars[name := vec])
    ensures fresh(n) && forall e :: e in Ents(s) ==> e in Ents(Plug(cx, Leaf)) || e == n
  {
    hide *;
    ghost var a, b := Before(cx), After(cx);
    EmptyHole(cx);
    assert allocated(a) && allocated(b) && allocated(a + b);
    n, s := InsertEnt(p, f, name, vec, cx);
    assert Sorted(a + b) && Agree(a + b, vars);
    InsertInOrder(cx, n, vars);
    NewEnts(s, a, n, b, Plug(cx, Leaf));
  }

  lemma NewEnts(s: Shape, a: seq<VarEnt>, n: VarEnt, b: seq<VarEnt>, t: Shape)
    requires Inorder(s) == a + [n] + b && Inorder(t) == a + b
    ensures forall e :: e in Ents(s) ==> e in Ents(t) || e == n
  {
    InorderEnts(s);
    InorderEnts(t);
    assert forall e :: e in a + [n] + b ==> e in a + b || e == n;
  }

  lemma EmptyHole(cx: Context)
    ensures Inorder(Plug(cx, Leaf)) == Before(cx) + After(cx)
  {
    PlugInorder(cx, Leaf);
  }

  lemma InsertInOrder(cx: Context, n: VarEnt, vars: map<Name, Words>)
    requires Brackets(cx, n.v_name) && Sorted(Before(cx) + After(cx)) && Agree(Before(cx) + After(cx), vars)
    requires n.v_name !in vars
    ensures Sorted(Before(cx) + [n] + After(cx))
    ensures Agree(Before(cx) + [n] + After(cx), vars[n.v_name := n.vec])
  {
    SortedInsert(Before(cx), n, After(cx));
    AgreeInsert(Before(cx) + After(cx), Before(cx) + [n] + After(cx), n, vars);
  }

  lemma SearchCovers(tree: Shape, c: Context, t: Shape, name: Name, vars: map<Name, Words>)
    requires Searching(tree, c, t, name, vars)
    ensures Outside(c) <= {HeadOf(c)} + Ents(tree)
  {
    PlugJoined(c, t);
  }

  // ---------------------------------------------------------------- deletion

  /** The place of an entry in the tree. */
  lemma {:induction false} Locate(c: Context, t: Shape, p: VarEnt) returns (c2: Context, t2: Shape)
    requires p in Ents(t) && Joined(c, t)
    ensures Joined(c2, t2) && t2.Node? && t2.ent == p
    ensures Plug(c2, t2) == Plug(c, t) && HeadOf(c2) == HeadOf(c)
    decreases t
  {
    if t.ent == p {
      c2, t2 := c, t;
    } else {
      JoinedDown(c, t);
      if p in Ents(t.left) {
        c2, t2 := Locate(InLeft(c, t.ent, t.right), t.left, p);
      } else {
        c2, t2 := Locate(InRight(c, t.ent, t.left), t.right, p);
      }
    }
  }

  /** The entry x with at most one child, and what hangs below it. */
  ghost predicate AtMostOneChild(t: Shape, k: Shape) {
    t.Node? && ((t.right == Leaf && k == t.left) || (t.left == Leaf && k == t.right))
  }

  lemma OneChild(c: Context, t: Shape, k: Shape)
    requires Joined(c, t) && AtMostOneChild(t, k) && Balanced(Plug(c, t))
    ensures Balanced(k) && BalancedAround(c, Height(k) + 1)
    ensures Ents(t) == Ents(k) + {t.ent} && t.ent !in Ents(k) && Distinct(k)
    ensures t.ent.v_parent == Above(c) && (Above(c).v_right == t.ent <==> c.InRight?)
    ensures Linked(k, t.ent)
  {
    hide Plug;
    UnplugBalanced(c, t);
    WhichChild(c, t);
    OneChildLower(t, k);
    hide BalancedAround, Balanced, Around, Apart, Height;
    assert Linked(t.left, t.ent) && Linked(t.right, t.ent);
  }

  lemma OneChildLower(t: Shape, k: Shape)
    requires AtMostOneChild(t, k) && Balanced(t)
    ensures Balanced(k) && Height(t) == Height(k) + 1
  {
  }

  /** The child (or null) takes the place of the entry above it. */
  method Replace(pp: VarEnt, f: bool, c: VarEnt?, ghost cx: Context, ghost x: VarEnt, ghost k: Shape)
    requires pp == Above(cx) && f == cx.InRight? && c == Ref(k)
    requires Around(cx, x) && Apart(cx) && Linked(k, x) && Distinct(k) && Ents(k) !! Outside(cx)
    modifies pp`v_left, pp`v_right, Ents(k)`v_parent
    ensures Joined(cx, k)
  {
    assert k.Node? ==> Distinct(k.left) && Distinct(k.right) && Linked(k.left, k.ent) && Linked(k.right, k.ent);
    if f { pp.v_right := c; } else { pp.v_left := c; }
    if c != null { c.v_parent := pp; }
  }

  /** Takes an entry with at most one child out of the tree. */
  method Detach(x: VarEnt, c: VarEnt?, ghost cx: Context, ghost t: Shape, ghost k: Shape) returns (ghost s: Shape)
    requires Joined(cx, t) && Balanced(Plug(cx, t)) && AtMostOneChild(t, k) && t.ent == x && c == Ref(k)
    modifies (Outside(cx) + Ents(t))`v_left, (Outside(cx) + Ents(t))`v_right, (Outside(cx) + Ents(t))`v_parent
    modifies (Outside(cx) + Ents(t))`v_bal
    ensures Joined(Top(HeadOf(cx)), s) && Balanced(s)
    ensures Inorder(s) == Before(cx) + Inorder(k) + After(cx)
  {
    OneChild(cx, t, k);
    assert Around(cx, x) && Apart(cx) && Ents(k) !! Outside(cx);
    assert allocated(Ents(k)) && allocated(Outside(cx));
    hide *;
    var pp := x.v_parent;
    var f := pp.v_right == x;
    Replace(pp, f, c, cx, x, k);
    s := Balance(pp, f, true, cx, k);
    PlugInorder(cx, k);
  }

  /** Order and contents without the entry p. */
  lemma Without(a: seq<VarEnt>, p: VarEnt, b: seq<VarEnt>, vars: map<Name, Words>)
    requires Sorted(a + [p] + b) && Agree(a + [p] + b, vars)
    ensures Sorted(a + b) && Agree(a + b, vars - {p.v_name})
  {
    hide Less;
    var s, t := a + [p] + b, a + b;
    SortedNames(s);
    forall i, j | 0 <= i < j < |t|
      ensures Less(t[i].v_name, t[j].v_name)
    {
      var k, l := if i < |a| then i else i + 1, if j < |a| then j else j + 1;
      assert Less(s[k].v_name, s[l].v_name);
    }
    forall e | e in t
      ensures e.v_name != p.v_name
    {
      var j :| 0 <= j < |t| && t[j] == e;
      var l := if j < |a| then j else j + 1;
      assert s[l] == e && s[|a|] == p;
      LessIsStrictTotalOrder(e.v_name, p.v_name, e.v_name);
      assert if l < |a| then Less(s[l].v_name, s[|a|].v_name) else Less(s[|a|].v_name, s[l].v_name);
    }
    forall m | m in vars - {p.v_name}
      ensures exists e :: e in t && e.v_name == m
    {
      var e :| e in s && e.v_name == m;
      assert e in t;
    }
  }

  /** The predecessor m of p is copied into p, so that m can be taken out in its stead: the list s
      without p becomes the list t without m. */
  method CopyPredecessor(p: VarEnt, m: VarEnt, ghost s: seq<VarEnt>, ghost t: seq<VarEnt>, ghost vars: map<Name, Words>)
    requires Sorted(s) && Agree(s, vars) && m != p && p !in s && |s| == |t|
    requires forall i :: 0 <= i < |s| ==> t[i] == s[i] || (t[i] == p && s[i] == m)
    modifies p`v_name, p`vec
    ensures Sorted(t) && Agree(t, vars)
  {
    assert allocated(s);
    hide *;
    Copy(p, m);
    SameNames(s, t, vars);
  }

  lemma WithoutMiddle(a: seq<VarEnt>, m: VarEnt, p: VarEnt, b: seq<VarEnt>, vars: map<Name, Words>)
    requires Sorted(a + [m] + [p] + b) && Agree(a + [m] + [p] + b, vars)
    ensures Sorted(a + [m] + b) && Agree(a + [m] + b, vars - {p.v_name})
  {
    assert a + [m] + [p] + b == (a + [m]) + [p] + b;
    Without(a + [m], p, b, vars);
  }

  /** The two lists differ in one place only. */
  lemma Aligned(a: seq<VarEnt>, m: VarEnt, p: VarEnt, b: seq<VarEnt>)
    requires m != p && p !in a && p !in b
    ensures p !in a + [m] + b
    ensures forall i :: 0 <= i < |a + [m] + b| ==>
      (a + [p] + b)[i] == (a + [m] + b)[i] || ((a + [p] + b)[i] == p && (a + [m] + b)[i] == m)
  {
  }

  method Copy(p: VarEnt, m: VarEnt)
    requires p != m
    modifies p`v_name, p`vec
    ensures p.v_name == m.v_name && p.vec == m.vec
  {
    p.v_name := m.v_name;
    p.vec := m.vec;
  }

  /** Two lists with the same names and values. */
  lemma SameNames(s: seq<VarEnt>, t: seq<VarEnt>, vars: map<Name, Words>)
    requires Sorted(s) && Agree(s, vars) && |s| == |t|
    requires forall i :: 0 <= i < |s| ==> t[i].v_name == s[i].v_name && t[i].vec == s[i].vec
    ensures Sorted(t) && Agree(t, vars)
  {
    forall e | e in t
      ensures e.v_name in vars && vars[e.v_name] == e.vec
    {
      var i :| 0 <= i < |t| && t[i] == e;
      assert s[i] in s;
    }
    forall n | n in vars
      ensures exists e :: e in t && e.v_name == n
    {
      var e :| e in s && e.v_name == n;
      var i :| 0 <= i < |s| && s[i] == e;
      assert t[i] in t;
    }
  }

  /** Takes out p, which has at most one child. */
  method RemoveSimple(p: VarEnt, c: VarEnt?, ghost cx: Context, ghost t: Shape, ghost k: Shape,
      ghost vars: map<Name, Words>)
      returns (ghost s: Shape)
    requires Joined(cx, t) && Balanced(Plug(cx, t)) && AtMostOneChild(t, k) && t.ent == p && c == Ref(k)
    requires Sorted(Inorder(Plug(cx, t))) && Agree(Inorder(Plug(cx, t)), vars)
    modifies (Outside(cx) + Ents(t))`v_left, (Outside(cx) + Ents(t))`v_right, (Outside(cx) + Ents(t))`v_parent
    modifies (Outside(cx) + Ents(t))`v_bal
    ensures Joined(Top(HeadOf(cx)), s) && Balanced(s) && Ents(s) <= Ents(Plug(cx, t))
    ensures Sorted(Inorder(s)) && Agree(Inorder(s), vars - {p.v_name})
  {
    ghost var a, b := SplitAt(cx, t, k);
    Without(a, p, b, vars);
    assert allocated(a + b);
    hide *;
    s := Detach(p, c, cx, t, k);
    SubEnts(s, a, p, b, Plug(cx, t));
  }

  /** The entries before and after an entry with at most one child. */
  lemma SplitAt(cx: Context, t: Shape, k: Shape) returns (a: seq<VarEnt>, b: seq<VarEnt>)
    requires AtMostOneChild(t, k)
    ensures Inorder(Plug(cx, t)) == a + [t.ent] + b
    ensures a + b == Before(cx) + Inorder(k) + After(cx)
  {
    hide Plug, After, Before;
    PlugInorder(cx, t);
    a, b := Before(cx) + Inorder(t.left), Inorder(t.right) + After(cx);
  }

  lemma SubEnts(s: Shape, a: seq<VarEnt>, p: VarEnt, b: seq<VarEnt>, t: Shape)
    requires Inorder(s) == a + b && Inorder(t) == a + [p] + b
    ensures Ents(s) <= Ents(t)
  {
    InorderEnts(s);
    InorderEnts(t);
    assert forall e :: e in a + b ==> e in a + [p] + b;
  }

  lemma ChildLinks(c: Context, t: Shape)
    requires t.Node? && Joined(c, t)
    ensures t.ent.v_left == Ref(t.left) && t.ent.v_right == Ref(t.right)
    ensures (t.ent.v_left == null <==> t.left.Leaf?) && t.ent in Ents(t)
    ensures t.ent.v_left == null ==> AtMostOneChild(t, t.right)
    ensures t.ent.v_right == null ==> AtMostOneChild(t, t.left)
  {
  }

  /** The predecessor of an entry with two children: the last entry of its left subtree. */
  method Predecessor(p: VarEnt, ghost cx: Context, ghost t: Shape)
      returns (c: VarEnt, ghost cy: Context, ghost u: Shape)
    requires Joined(cx, t) && t.Node? && t.ent == p && t.left.Node?
    ensures Joined(cy, u) && u.Node? && u.ent == c && u.right == Leaf && c != p
    ensures Plug(cy, u) == Plug(cx, t) && HeadOf(cy) == HeadOf(cx)
    ensures After(cy) != [] && After(cy)[0] == p
  {
    cy, u := InLeft(cx, p, t.right), t.left;
    JoinedDown(cx, t);
    c := p.v_left;
    assert After(cy)[0] == p;
    hide Joined, Plug, Inorder;
    ChildLinks(cy, u);
    while c.v_right != null
      invariant Joined(cy, u) && u.Node? && u.ent == c
      invariant c.v_right == Ref(u.right)
      invariant Plug(cy, u) == Plug(cx, t) && HeadOf(cy) == HeadOf(cx)
      invariant After(cy) != [] && After(cy)[0] == p
      decreases u
    {
      JoinedDown(cy, u);
      c := c.v_right;
      cy, u := InRight(cy, u.ent, u.left), u.right;
      ChildLinks(cy, u);
    }
    PredecessorDiffers(cy, u, p);
  }

  lemma PredecessorDiffers(c: Context, u: Shape, p: VarEnt)
    requires Joined(c, u) && u.Node? && After(c) != [] && After(c)[0] == p
    ensures u.ent != p
  {
    AfterIsOutside(c);
    assert p in After(c);
  }

  lemma {:induction false} AfterIsOutside(c: Context)
    ensures forall e :: e in After(c) || e in Before(c) ==> e in Outside(c)
    decreases c
  {
    if !c.Top? {
      InorderEnts(Side(c));
      AfterIsOutside(c.up);
    }
  }

  /** Takes out p, which has two children: its predecessor is copied into it and taken out. */
  method RemoveWithPredecessor(p: VarEnt, ghost cx: Context, ghost t: Shape, ghost vars: map<Name, Words>)
      returns (ghost s: Shape)
    requires Joined(cx, t) && Balanced(Plug(cx, t)) && t.Node? && t.ent == p && t.left.Node?
    requires Sorted(Inorder(Plug(cx, t))) && Agree(Inorder(Plug(cx, t)), vars)
    modifies Outside(cx) + Ents(t)
    ensures Joined(Top(HeadOf(cx)), s) && Balanced(s) && Ents(s) <= Ents(Plug(cx, t))
    ensures Sorted(Inorder(s)) && Agree(Inorder(s), vars - {old(p.v_name)})
  {
    hide *;
    assert allocated(Outside(cx)) && allocated(Ents(t)) && allocated(Inorder(Plug(cx, t)));
    assert allocated(Ents(Plug(cx, t)));
    ChildLinks(cx, t);
    var c;
    ghost var cy, u;
    c, cy, u := Predecessor(p, cx, t);
    ghost var a, b := AroundPredecessor(cy, u, p);
    SameGround(cx, t, cy, u);
    WithoutMiddle(a, c, p, b, vars);
    Aligned(a, c, p, b);
    CopyPredecessor(p, c, a + [c] + b, a + [p] + b, vars - {p.v_name});
    assert allocated(a + [p] + b);
    s := Detach(c, c.v_left, cy, u, u.left);
    WithoutEnts(s, a, c, p, b, Plug(cx, t));
  }

  /** The whole list, with the predecessor u.ent next to p. */
  lemma AroundPredecessor(c: Context, u: Shape, p: VarEnt) returns (a: seq<VarEnt>, b: seq<VarEnt>)
    requires Joined(c, u) && u.Node? && u.right == Leaf && After(c) != [] && After(c)[0] == p
    requires Sorted(Inorder(Plug(c, u)))
    ensures Inorder(Plug(c, u)) == a + [u.ent] + [p] + b
    ensures Before(c) + Inorder(u.left) + After(c) == a + [p] + b
    ensures p !in a && p !in b
    ensures u.ent in Ents(u) && u.ent.v_left == Ref(u.left) && AtMostOneChild(u, u.left)
  {
    hide Before, After, Plug;
    a, b := Before(c) + Inorder(u.left), After(c)[1..];
    PlugInorder(c, u);
    assert After(c) == [p] + b;
    assert Inorder(Plug(c, u)) == (a + [u.ent]) + [p] + b;
    OnlyOnce(a + [u.ent], p, b);
  }

  lemma OnlyOnce(a: seq<VarEnt>, p: VarEnt, b: seq<VarEnt>)
    requires Sorted(a + [p] + b)
    ensures p !in a && p !in b
  {
    var s := a + [p] + b;
    LessIsStrictTotalOrder(p.v_name, p.v_name, p.v_name);
    forall i | 0 <= i < |a|
      ensures a[i] != p
    {
      assert Less(s[i].v_name, s[|a|].v_name);
    }
    forall i | 0 <= i < |b|
      ensures b[i] != p
    {
      assert Less(s[|a|].v_name, s[|a| + 1 + i].v_name);
    }
  }

  lemma WithoutEnts(s: Shape, a: seq<VarEnt>, m: VarEnt, p: VarEnt, b: seq<VarEnt>, t: Shape)
    requires Inorder(s) == a + [p] + b && Inorder(t) == a + [m] + [p] + b
    ensures Ents(s) <= Ents(t)
  {
    InorderEnts(s);
    InorderEnts(t);
    assert forall e :: e in a + [p] + b ==> e in a + [m] + [p] + b;
  }

  lemma SameGround(c: Context, t: Shape, d: Context, u: Shape)
    requires Joined(c, t) && Joined(d, u) && Plug(c, t) == Plug(d, u) && HeadOf(c) == HeadOf(d)
    ensures Outside(c) + Ents(t) == Outside(d) + Ents(u)
  {
    PlugJoined(c, t);
    PlugJoined(d, u);
  }

  /** The tree without p, after the choice between the cases of unsetv1. */
  method RemoveEnt(p: VarEnt, ghost cx: Context, ghost t: Shape, ghost vars: map<Name, Words>) returns (ghost s: Shape)
    requires Joined(cx, t) && Balanced(Plug(cx, t)) && t.Node? && t.ent == p
    requires Sorted(Inorder(Plug(cx, t))) && Agree(Inorder(Plug(cx, t)), vars)
    modifies Outside(cx) + Ents(t)
    ensures Joined(Top(HeadOf(cx)), s) && Balanced(s) && Ents(s) <= Ents(Plug(cx, t))
    ensures Sorted(Inorder(s)) && Agree(Inorder(s), vars - {old(p.v_name)})
  {
    hide *;
    ChildLinks(cx, t);
    if p.v_right == null {
      s := RemoveSimple(p, p.v_left, cx, t, t.left, vars);
    } else if p.v_left == null {
      s := RemoveSimple(p, p.v_right, cx, t, t.right, vars);
    } else {
      s := RemoveWithPredecessor(p, cx, t, vars);
    }
  }

  // ---------------------------------------------------------------- the walks

  type Glob = (Name, Name) -> bool

  /** The first entry of a list whose name the pattern matches, or null if there is none. */
  ghost function FirstMatch(gmatch: Glob, pat: Name, s: seq<VarEnt>): VarEnt?
    reads s`v_name
  {
    if s == [] then null
    else if gmatch(s[0].v_name, pat) then s[0]
    else FirstMatch(gmatch, pat, s[1..])
  }

  /** No entry before it matches, and if there is none, no entry does. */
  lemma {:induction false} IsFirstMatch(gmatch: Glob, pat: Name, s: seq<VarEnt>)
    ensures var e := FirstMatch(gmatch, pat, s);
      if e == null then forall i :: 0 <= i < |s| ==> !gmatch(s[i].v_name, pat)
      else exists i :: 0 <= i < |s| && s[i] == e && gmatch(s[i].v_name, pat)
                       && forall j :: 0 <= j < i ==> !gmatch(s[j].v_name, pat)
    decreases |s|
  {
    if s != [] && !gmatch(s[0].v_name, pat) {
      IsFirstMatch(gmatch, pat, s[1..]);
      assert forall i :: 1 <= i < |s| ==> s[i] == s[1..][i - 1];
      var e := FirstMatch(gmatch, pat, s[1..]);
      if e != null {
        var i :| 0 <= i < |s[1..]| && s[1..][i] == e && forall j :: 0 <= j < i ==> !gmatch(s[1..][j].v_name, pat);
        assert s[i + 1] == e;
      }
    }
  }

  lemma {:induction false} FirstMatchOfBoth(gmatch: Glob, pat: Name, a: seq<VarEnt>, b: seq<VarEnt>)
    ensures FirstMatch(gmatch, pat, a + b)
         == var e := FirstMatch(gmatch, pat, a); if e != null then e else FirstMatch(gmatch, pat, b)
  {
    if a == [] {
      assert a + b == b;
    } else {
      assert (a + b)[1..] == a[1..] + b;
      FirstMatchOfBoth(gmatch, pat, a[1..], b);
    }
  }

  lemma {:induction false} FirstMatchMatches(gmatch: Glob, pat: Name, s: seq<VarEnt>)
    ensures var e := FirstMatch(gmatch, pat, s);
            if e != null then e in s && gmatch(e.v_name, pat)
            else forall e :: e in s ==> !gmatch(e.v_name, pat)
  {
    if s != [] {
      FirstMatchMatches(gmatch, pat, s[1..]);
      assert s == [s[0]] + s[1..];
    }
  }

  lemma FirstMatchInTree(gmatch: Glob, pat: Name, t: Shape)
    requires t.Node?
    ensures t.left.Leaf? ==> FirstMatch(gmatch, pat, Inorder(t.left)) == null
    ensures FirstMatch(gmatch, pat, Inorder(t))
         == var e := FirstMatch(gmatch, pat, Inorder(t.left));
            if e != null then e else if gmatch(t.ent.v_name, pat) then t.ent
            else FirstMatch(gmatch, pat, Inorder(t.right))
  {
    FirstMatchOfBoth(gmatch, pat, Inorder(t.left) + [t.ent], Inorder(t.right));
    FirstMatchOfBoth(gmatch, pat, Inorder(t.left), [t.ent]);
    assert [t.ent][1..] == [];
  }

  lemma LinkedBelow(t: Shape, up: VarEnt)
    requires t.Node? && Linked(t, up)
    ensures t.ent.v_left == Ref(t.left) && t.ent.v_right == Ref(t.right)
    ensures Linked(t.left, t.ent) && Linked(t.right, t.ent)
  {
  }

  /** The first entry in order that a pattern matches; gmatch stands for the function Gmatch. */
  method Madrof(gmatch: Glob, pat: Name, vp0: VarEnt?, ghost t0: Shape, ghost parent: VarEnt) returns (r: VarEnt?)
    requires Linked(t0, parent) && vp0 == Ref(t0)
    ensures r == FirstMatch(gmatch, pat, Inorder(t0))
    decreases t0
  {
    hide Linked, Ents;
    var vp := vp0;
    ghost var t := t0;
    ghost var up: VarEnt := parent;
    while vp != null
      invariant Linked(t, up) && vp == Ref(t) && (t == t0 || t < t0)
      invariant FirstMatch(gmatch, pat, Inorder(t)) == FirstMatch(gmatch, pat, Inorder(t0))
      decreases t
    {
      assert allocated(Ents(t.right)) && allocated(Inorder(t0)) && allocated(Inorder(t));
      LinkedBelow(t, up);
      hide Linked, Inorder, Ents;
      if vp.v_left != null {
        var vp1 := Madrof(gmatch, pat, vp.v_left, t.left, vp);
        FirstMatchInTree(gmatch, pat, t);
        if vp1 != null { return vp1; }
      }
      FirstMatchInTree(gmatch, pat, t);
      if gmatch(vp.v_name, pat) { return vp; }
      t, up := t.right, vp;
      vp := vp.v_right;
    }
    return vp;
  }

  /** The names and values of a list of entries. */
  ghost function Listing(s: seq<VarEnt>): (out: seq<(Name, Words)>)
    reads s`v_name, s`vec
    ensures |out| == |s|
    ensures forall i :: 0 <= i < |s| ==> out[i] == (s[i].v_name, s[i].vec)
  {
    if s == [] then [] else Listing(s[..|s| - 1]) + [(s[|s| - 1].v_name, s[|s| - 1].vec)]
  }

  /** The list of a map: every variable once, in increasing order of name. */
  ghost predicate IsListOf(out: seq<(Name, Words)>, vars: map<Name, Words>) {
    && (forall i, j :: 0 <= i < j < |out| ==> Less(out[i].0, out[j].0))
    && (forall i :: 0 <= i < |out| ==> out[i].0 in vars && vars[out[i].0] == out[i].1)
    && (forall n :: n in vars ==> exists i :: 0 <= i < |out| && out[i].0 == n)
  }

  lemma ListingIsListOf(s: seq<VarEnt>, vars: map<Name, Words>)
    requires Sorted(s) && Agree(s, vars)
    ensures IsListOf(Listing(s), vars)
  {
    forall i | 0 <= i < |s|
      ensures s[i].v_name in vars && vars[s[i].v_name] == s[i].vec
    {
      assert s[i] in s;
    }
    forall n | n in vars
      ensures exists i :: 0 <= i < |s| && Listing(s)[i].0 == n
    {
      var e :| e in s && e.v_name == n;
      var i :| 0 <= i < |s| && s[i] == e;
      assert Listing(s)[i].0 == n;
    }
  }

  /** Where plist stands: at the header, with everything printed, or at an entry with all before it
      printed. */
  ghost predicate Standing(p: VarEnt, tree: Shape, c: Context, t: Shape, out: seq<(Name, Words)>)
    reads p, Outside(c), Ents(t), Inorder(tree), Before(c), if t.Node? then Inorder(t.left) else []
  {
    && Joined(c, t) && Plug(c, t) == tree
    && (if p.v_parent == null then c.Top? && p == c.head && out == Listing(Inorder(tree))
        else t.Node? && t.ent == p && out == Listing(Before(c) + Inorder(t.left)))
  }

  /** The loop that goes down to the left: while (p->v_left) p = p->v_left. */
  method Leftmost(p0: VarEnt, ghost tree: Shape, ghost c0: Context, ghost t0: Shape, ghost out: seq<(Name, Words)>)
      returns (p: VarEnt, ghost c: Context, ghost t: Shape)
    requires Joined(c0, t0) && Plug(c0, t0) == tree && out == Listing(Before(c0))
    requires t0.Node? && p0 == t0.ent
    ensures HeadOf(c) == HeadOf(c0) && Standing(p, tree, c, t, out) && p.v_parent != null
  {
    p := p0;
    c, t := c0, t0;
    hide Joined, Plug, Inorder, Listing, Before;
    ChildLinks(c, t);
    while p.v_left != null
      invariant Joined(c, t) && Plug(c, t) == tree && HeadOf(c) == HeadOf(c0) && out == Listing(Before(c))
      invariant t.Node? && p == t.ent && p.v_left == Ref(t.left)
      decreases t
    {
      JoinedDown(c, t);
      DownLeft(c, t);
      p := p.v_left;
      c, t := InLeft(c, t.ent, t.right), t.left;
      ChildLinks(c, t);
    }
    LeftmostStands(p, tree, c, t, out);
  }

  lemma LeftmostStands(p: VarEnt, tree: Shape, c: Context, t: Shape, out: seq<(Name, Words)>)
    requires Joined(c, t) && Plug(c, t) == tree && t.Node? && p == t.ent && t.left.Leaf?
    requires out == Listing(Before(c))
    ensures p.v_parent != null && Standing(p, tree, c, t, out)
  {
    assert Before(c) + Inorder(t.left) == Before(c);
  }

  lemma DownLeft(c: Context, t: Shape)
    requires t.Node?
    ensures var d := InLeft(c, t.ent, t.right);
            Plug(d, t.left) == Plug(c, t) && Before(d) == Before(c) && HeadOf(d) == HeadOf(c)
  {
  }

  /** The loop that goes up as long as it comes from the right:
      do { c = p; p = p->v_parent; } while (p->v_right == c). */
  method Climb(p0: VarEnt, ghost tree: Shape, ghost c0: Context, ghost t0: Shape, ghost out: seq<(Name, Words)>)
      returns (p: VarEnt, ghost c: Context, ghost t: Shape)
    requires Joined(c0, t0) && Plug(c0, t0) == tree && out == Listing(Before(c0) + Inorder(t0))
    requires t0.Node? && t0.ent == p0
    ensures HeadOf(c) == HeadOf(c0) && Standing(p, tree, c, t, out)
  {
    hide Joined, Plug, Inorder, Listing, Outside, Ents, Before, Standing;
    c, t := c0, t0;
    var child := p0;
    EntParent(c, t);
    p := child.v_parent;
    WhichChild(c, t);
    while p.v_right == child
      invariant Joined(c, t) && Plug(c, t) == tree && HeadOf(c) == HeadOf(c0)
      invariant t.Node? && t.ent == child && p == Above(c) && (!c.Top? ==> (p.v_right == child <==> c.InRight?))
      invariant c.Top? ==> p.v_right == null
      invariant out == Listing(Before(c) + Inorder(t))
      decreases c
    {
      JoinedUp(c, t);
      FromTheRight(c, t);
      c, t := c.up, UpShape(c, t);
      EntParent(c, t);
      child := p;
      p := child.v_parent;
      WhichChild(c, t);
    }
    c, t := ClimbStands(p, tree, c, t, out);
  }

  lemma EntParent(c: Context, t: Shape)
    requires Joined(c, t) && t.Node?
    ensures t.ent.v_parent == Above(c) && (c.Top? ==> Above(c).v_right == null)
  {
  }

  lemma FromTheRight(c: Context, t: Shape)
    requires c.InRight?
    ensures Before(c.up) + Inorder(UpShape(c, t)) == Before(c) + Inorder(t)
  {
    assert Before(c.up) + Inorder(UpShape(c, t)) == Before(c.up) + Inorder(c.left) + [c.ent] + Inorder(t);
  }

  lemma ClimbStands(p: VarEnt, tree: Shape, c: Context, t: Shape, out: seq<(Name, Words)>)
      returns (d: Context, u: Shape)
    requires Joined(c, t) && Plug(c, t) == tree && t.Node? && p == Above(c) && !c.InRight?
    requires out == Listing(Before(c) + Inorder(t))
    ensures HeadOf(d) == HeadOf(c) && Standing(p, tree, d, u, out)
  {
    d, u := c, t;
    if c.Top? {
      assert Before(c) + Inorder(t) == Inorder(tree);
    } else {
      JoinedUp(c, t);
      d, u := c.up, UpShape(c, t);
    }
  }

  lemma PrintOne(p: VarEnt, tree: Shape, c: Context, t: Shape, out: seq<(Name, Words)>)
    requires Standing(p, tree, c, t, out) && p.v_parent != null
    ensures var out' := out + [(p.v_name, p.vec)];
            && t.Node? && t.ent == p && p.v_right == Ref(t.right) && |out| < |Inorder(tree)|
            && (p.v_right == null ==> out' == Listing(Before(c) + Inorder(t)))
            && (p.v_right != null ==> t.right.Node? && t.right.ent == p.v_right)
            && HeadOf(InRight(c, p, t.left)) == HeadOf(c) && Plug(InRight(c, p, t.left), t.right) == tree
            && Joined(c, t) && Plug(c, t) == tree
            && Joined(InRight(c, p, t.left), t.right) && out' == Listing(Before(InRight(c, p, t.left)))
  {
    PlugInorder(c, t);
    JoinedDown(c, t);
    assert Before(c) + Inorder(t.left) + [p] == Before(InRight(c, p, t.left));
  }

  /** Prints the entry p, and goes on to the next one. */
  method PrintAndGoOn(p0: VarEnt, out0: seq<(Name, Words)>, ghost tree: Shape, ghost c0: Context, ghost t0: Shape)
      returns (p: VarEnt, out: seq<(Name, Words)>, ghost c: Context, ghost t: Shape)
    requires Standing(p0, tree, c0, t0, out0) && p0.v_parent != null
    ensures Standing(p, tree, c, t, out) && HeadOf(c) == HeadOf(c0)
    ensures |out| == |out0| + 1 <= |Inorder(tree)|
  {
    PrintOne(p0, tree, c0, t0, out0);
    hide *;
    out := out0 + [(p0.v_name, p0.vec)];
    if p0.v_right != null {
      p, c, t := Leftmost(p0.v_right, tree, InRight(c0, p0, t0.left), t0.right, out);
    } else {
      p, c, t := Climb(p0, tree, c0, t0, out);
    }
  }

  lemma StartOfWalk(head: VarEnt, tree: Shape)
    requires Joined(Top(head), tree)
    ensures Before(Top(head)) == [] && Plug(Top(head), tree) == tree && head.v_left == Ref(tree)
    ensures HeadOf(Top(head)) == head && Listing([]) == [] && (tree.Leaf? <==> head.v_left == null)
    ensures tree.Node? ==> Ref(tree) == tree.ent
    ensures tree.Leaf? ==> Standing(head, tree, Top(head), tree, [])
  {
    assert tree.Leaf? ==> Inorder(tree) == [];
    assert Listing([]) == [];
  }

  lemma EndOfWalk(p: VarEnt, tree: Shape, c: Context, t: Shape, out: seq<(Name, Words)>)
    requires Standing(p, tree, c, t, out) && p.v_parent == null
    ensures out == Listing(Inorder(tree))
  {
  }

  // ---------------------------------------------------------------- how deep the tree can be

  function Fib(n: nat): nat {
    if n < 2 then n else Fib(n - 1) + Fib(n - 2)
  }

  lemma {:induction false} FibGrows(m: nat, n: nat)
    requires m <= n
    ensures Fib(m) <= Fib(n)
    decreases n
  {
    if m < n { FibGrows(m, n - 1); }
  }

  lemma FibStep(n: nat)
    requires n >= 2
    ensures Fib(n) == Fib(n - 1) + Fib(n - 2)
  {
  }

  /** The counts m and n of two subtrees, whose heights a and b differ by at most one. */
  lemma ShallowNode(a: nat, m: int, b: nat, n: int)
    requires a <= b + 1 && b <= a + 1
    requires m >= Fib(a + 2) - 1 && n >= Fib(b + 2) - 1
    ensures m + 1 + n >= Fib((if a < b then b else a) + 3) - 1
  {
    var h := if a < b then b else a;
    FibStep(h + 3);
    hide *;
    FibGrows(h + 1, (if a < b then a else b) + 2);
  }

  lemma LeafFacts(t: Shape)
    requires t.Leaf?
    ensures |Inorder(t)| == 0 && Fib(Height(t) + 2) == 1
  {
    hide Balanced;
    FibStep(2);
  }

  lemma NodeFacts(t: Shape)
    requires Balanced(t) && t.Node?
    ensures Balanced(t.left) && Balanced(t.right) && -1 <= Height(t.right) - Height(t.left) <= 1
    ensures |Inorder(t)| == |Inorder(t.left)| + 1 + |Inorder(t.right)|
    ensures Height(t) + 2 == (if Height(t.left) < Height(t.right) then Height(t.right) else Height(t.left)) + 3
  {
  }

  /** A balanced tree of height h holds at least Fib(h + 2) - 1 entries. */
  lemma {:induction false} BalancedIsShallow(t: Shape)
    requires Balanced(t)
    ensures |Inorder(t)| >= Fib(Height(t) + 2) - 1
  {
    hide *;
    if t.Leaf? {
      LeafFacts(t);
    } else {
      NodeFacts(t);
      BalancedIsShallow(t.left);
      BalancedIsShallow(t.right);
      ShallowNode(Height(t.left), |Inorder(t.left)|, Height(t.right), |Inorder(t.right)|);
    }
  }

  class VarTable {
    const head: VarEnt
    ghost var tree: Shape
    ghost var vars: map<Name, Words>

    ghost predicate Valid()
      reads this, head, Ents(tree), Inorder(tree)
    {
      && Joined(Top(head), tree) && Balanced(tree)
      && Sorted(Inorder(tree)) && Agree(Inorder(tree), vars)
    }

    constructor ()
      ensures Valid() && vars == map[] && fresh(head) && tree == Leaf
    {
      head := new VarEnt([], [], null);
      tree := Leaf;
      vars := map[];
    }

    /** The entry of a variable, or null if there is none. */
    method Adrof1(name: Name) returns (v: VarEnt?, ghost steps: nat)
      requires Valid()
      ensures v != null <==> name in vars
      ensures v != null ==> v in Ents(tree) && v.v_name == name && v.vec == vars[name]
      ensures steps <= Height(tree)
    {
      v := head.v_left;
      ghost var c, t := Top(head), tree;
      assert Searching(tree, c, t, name, vars);
      hide Searching, Valid, Compare, Height;
      steps := 0;
      while v != null
        invariant Searching(tree, c, t, name, vars) && v == Ref(t)
        invariant steps + Height(t) <= Height(tree)
        decreases t
      {
        var cmp := Compare(name, v.v_name);
        LessIsStrictTotalOrder(name, v.v_name, name);
        SearchStep(tree, c, t, name, vars);
        steps := steps + 1;
        if cmp == 0 {
          break;
        } else if cmp < 0 {
          v := v.v_left;
          c, t := InLeft(c, t.ent, t.right), t.left;
        } else {
          v := v.v_right;
          c, t := InRight(c, t.ent, t.left), t.right;
        }
      }
      SearchEnds(tree, c, t, name, vars);
    }

    /** The loop of setq: where the name is, or where it belongs. */
    method FindPlace(name: Name) returns (p: VarEnt, f: bool, c: VarEnt?, ghost cx: Context)
      requires Valid()
      ensures c != null ==> c in Ents(tree) && c.v_name == name
      ensures c == null ==> name !in vars && Searching(tree, cx, Leaf, name, vars)
      ensures p == Above(cx) && f == cx.InRight? && HeadOf(cx) == head && Outside(cx) <= {head} + Ents(tree)
    {
      ghost var t;
      p, f, c := head, false, head.v_left;
      cx, t := Top(head), tree;
      assert Searching(tree, cx, t, name, vars);
      hide Searching, Valid, Compare, Height;
      while c != null
        invariant Searching(tree, cx, t, name, vars) && c == Ref(t)
        invariant p == Above(cx) && f == cx.InRight? && HeadOf(cx) == head
        decreases t
      {
        var cmp := Compare(name, c.v_name);
        LessIsStrictTotalOrder(name, c.v_name, name);
        SearchStep(tree, cx, t, name, vars);
        if cmp == 0 { break; }
        p := c;
        f := cmp > 0;
        if f {
          c := p.v_right;
          cx, t := InRight(cx, t.ent, t.left), t.right;
        } else {
          c := p.v_left;
          cx, t := InLeft(cx, t.ent, t.right), t.left;
        }
      }
      SearchEnds(tree, cx, t, name, vars);
      SearchCovers(tree, cx, t, name, vars);
    }

    /** Sets a variable, which is created if there is none of that name. */
    method Setq(name: Name, vec: Words)
      requires Valid()
      modifies this`tree, this`vars, head, Ents(tree)
      ensures Valid() && forall e :: e in Ents(tree) ==> e in old(Ents(tree)) || fresh(e)
      ensures vars == old(vars)[name := vec]
    {
      hide Valid, Searching, Joined, Balanced, Inorder, Sorted, Agree, Outside, HeadOf, Above;
      assert allocated(Ents(tree)) && allocated(Inorder(tree));
      var p, f, c;
      ghost var cx;
      p, f, c, cx := FindPlace(name);
      if c != null {
        SetValue(c, vec);
      } else {
        label B:
        Insert(p, f, name, vec, cx);
        assert forall e :: e in Ents(tree) ==> e in old(Ents(tree)) || !old@B(allocated(e));
      }
    }

    method SetValue(c: VarEnt, vec: Words)
      requires Valid() && c in Ents(tree)
      modifies this`vars, c`vec
      ensures Valid() && vars == old(vars)[c.v_name := vec]
    {
      hide Joined, Balanced, Sorted, Inorder, Ents, Agree;
      UpdateValue(c, vec, head, tree, vars);
      vars := vars[c.v_name := vec];
    }

    /** Creates a variable below p, where the search for its name has ended. */
    method Insert(p: VarEnt, f: bool, name: Name, vec: Words, ghost cx: Context)
      requires Valid() && Searching(tree, cx, Leaf, name, vars) && name !in vars
      requires p == Above(cx) && f == cx.InRight? && HeadOf(cx) == head
      modifies this`tree, this`vars, Outside(cx)
      ensures Valid() && forall e :: e in Ents(tree) ==> e in old(Ents(tree)) || fresh(e)
      ensures vars == old(vars)[name := vec]
    {
      hide Joined, Balanced, Inorder, Ents, Sorted, Agree, Brackets, Plug, HeadOf, Above, Outside;
      var n;
      n, tree := InsertSorted(p, f, name, vec, cx, vars);
      vars := vars[name := vec];
    }

    /** Where an entry is in the tree, with what the removal needs to know. */
    lemma PlaceOf(p: VarEnt) returns (c: Context, t: Shape)
      requires Valid() && p in Ents(tree)
      ensures Joined(c, t) && t.Node? && t.ent == p && Plug(c, t) == tree && HeadOf(c) == head
      ensures Balanced(Plug(c, t)) && Sorted(Inorder(Plug(c, t))) && Agree(Inorder(Plug(c, t)), vars)
      ensures Outside(c) + Ents(t) <= {head} + Ents(tree)
    {
      c, t := Locate(Top(head), tree, p);
      PlugJoined(c, t);
    }

    /** Removes the variable of an entry. */
    method Unsetv1(p: VarEnt)
      requires Valid() && p in Ents(tree)
      modifies this`tree, this`vars, head, Ents(tree)
      ensures Valid() && Ents(tree) <= old(Ents(tree))
      ensures vars == old(vars) - {old(p.v_name)}
    {
      hide *;
      ghost var c, t := PlaceOf(p);
      ghost var name := p.v_name;
      tree := RemoveEnt(p, c, t, vars);
      vars := vars - {name};
      IsValid();
    }

    /** The variables whose names no pattern matches. */
    static function Unmatched(gmatch: Glob, pats: seq<Name>, vars: map<Name, Words>): map<Name, Words> {
      map n | n in vars && !(exists p :: p in pats && gmatch(n, p)) :: vars[n]
    }

    /** Removes the variables that a pattern matches, always the first one left. */
    method UnsetPattern(gmatch: Glob, pat: Name)
      requires Valid()
      modifies this`tree, this`vars, head, Ents(tree)
      ensures Valid() && Ents(tree) <= old(Ents(tree))
      ensures vars == Unmatched(gmatch, [pat], old(vars))
    {
      hide *;
      assert allocated(Ents(tree)) && allocated(Inorder(tree));
      var vp := FirstOf(gmatch, pat);
      while vp != null
        invariant Valid() && Ents(tree) <= old(Ents(tree))
        invariant vp != null ==> vp in Ents(tree) && vp.v_name in vars && gmatch(vp.v_name, pat)
        invariant vp == null ==> forall n :: n in vars ==> !gmatch(n, pat)
        invariant forall n :: n in vars ==> n in old(vars) && vars[n] == old(vars)[n]
        invariant forall n :: n in old(vars) && n !in vars ==> gmatch(n, pat)
        decreases |vars|
      {
        assert vp.v_name in vars;
        Unsetv1(vp);
        assert allocated(Ents(tree)) && allocated(Inorder(tree));
        vp := FirstOf(gmatch, pat);
      }
      UnmatchedIs(gmatch, pat, old(vars), vars);
    }

    static lemma UnmatchedIs(gmatch: Glob, pat: Name, before: map<Name, Words>, after: map<Name, Words>)
      requires forall n :: n in after ==> n in before && after[n] == before[n] && !gmatch(n, pat)
      requires forall n :: n in before && n !in after ==> gmatch(n, pat)
      ensures after == Unmatched(gmatch, [pat], before)
    {
      assert [pat][0] == pat;
    }

    method FirstOf(gmatch: Glob, pat: Name) returns (r: VarEnt?)
      requires Valid()
      ensures r != null ==> r in Ents(tree) && r.v_name in vars && gmatch(r.v_name, pat)
      ensures r == null ==> forall n :: n in vars ==> !gmatch(n, pat)
    {
      assert Linked(tree, head) && head.v_left == Ref(tree);
      assert allocated(Inorder(tree)) && Agree(Inorder(tree), vars);
      hide *;
      r := Madrof(gmatch, pat, head.v_left, tree, head);
      FirstIsVariable(gmatch, pat, r);
    }

    lemma FirstIsVariable(gmatch: Glob, pat: Name, r: VarEnt?)
      requires Agree(Inorder(tree), vars) && r == FirstMatch(gmatch, pat, Inorder(tree))
      ensures r != null ==> r in Ents(tree) && r.v_name in vars && gmatch(r.v_name, pat)
      ensures r == null ==> forall n :: n in vars ==> !gmatch(n, pat)
    {
      FirstMatchMatches(gmatch, pat, Inorder(tree));
      InorderEnts(tree);
    }

    /** Removes what each of the patterns matches. */
    method Unset1(gmatch: Glob, pats: seq<Name>)
      requires Valid()
      modifies this`tree, this`vars, head, Ents(tree)
      ensures Valid() && Ents(tree) <= old(Ents(tree))
      ensures vars == Unmatched(gmatch, pats, old(vars))
    {
      hide *;
      UnmatchedNone(gmatch, vars);
      for i := 0 to |pats|
        invariant Valid() && Ents(tree) <= old(Ents(tree))
        invariant vars == Unmatched(gmatch, pats[..i], old(vars))
      {
        UnsetPattern(gmatch, pats[i]);
        UnmatchedMore(gmatch, pats, i, old(vars));
      }
      assert pats[..|pats|] == pats;
    }

    static lemma UnmatchedNone(gmatch: Glob, vars: map<Name, Words>)
      ensures Unmatched(gmatch, [], vars) == vars
    {
    }

    static lemma UnmatchedMore(gmatch: Glob, pats: seq<Name>, i: nat, vars: map<Name, Words>)
      requires i < |pats|
      ensures Unmatched(gmatch, [pats[i]], Unmatched(gmatch, pats[..i], vars)) == Unmatched(gmatch, pats[..i + 1], vars)
    {
      var p := [pats[i]];
      assert pats[..i + 1] == pats[..i] + p && p[0] == pats[i];
      assert forall n :: ((exists q :: q in pats[..i + 1] && gmatch(n, q))
                          <==> ((exists q :: q in pats[..i] && gmatch(n, q)) || gmatch(n, pats[i])));
      assert forall n :: (exists q :: q in p && gmatch(n, q)) <==> gmatch(n, pats[i]);
    }

    /** Prints the variables, without a stack: the parent links lead back up. */
    method Plist() returns (out: seq<(Name, Words)>)
      requires Valid()
      ensures IsListOf(out, vars)
    {
      hide *;
      ghost var c, t := Top(head), tree;
      out := [];
      var p := head;
      IsListed();
      assert allocated(Inorder(tree)) && allocated(Ents(tree));
      StartOfWalk(head, tree);
      if p.v_left != null {
        p, c, t := Leftmost(p.v_left, tree, c, t, out);
      }
      while p.v_parent != null
        invariant Standing(p, tree, c, t, out) && HeadOf(c) == head
        decreases |Inorder(tree)| - |out|
      {
        p, out, c, t := PrintAndGoOn(p, out, tree, c, t);
      }
      EndOfWalk(p, tree, c, t, out);
    }

    lemma IsListed()
      requires Valid()
      ensures Joined(Top(head), tree) && IsListOf(Listing(Inorder(tree)), vars)
    {
      ListingIsListOf(Inorder(tree), vars);
    }

    /** A search takes no more steps than the number of variables allows: h of them need at least
        Fib(h + 2) - 1 variables. */
    lemma SearchIsShort()
      requires Valid()
      ensures |Inorder(tree)| == |vars| && Fib(Height(tree) + 2) <= |vars| + 1
    {
      BalancedIsShallow(tree);
      OneEntryEach(Inorder(tree), vars);
    }

    lemma IsValid()
      requires Joined(Top(head), tree) && Balanced(tree) && Sorted(Inorder(tree)) && Agree(Inorder(tree), vars)
      ensures Valid()
    {
    }
  }
}
