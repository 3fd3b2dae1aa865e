/** The variables of csh (src/bin/csh/set.c): an AVL tree with parent links, hung from the left
    link of a header.

    A shape says which entries are where; a context is a shape with a hole, seen from the hole up to
    the header.  The loop of balance moves the hole up.
  */
module VariableTree {
  import opened VariableNames

  type Words = seq<seq<int>>

  class VarEnt {
    var v_name: Name
    var vec: Words
    var v_left: VarEnt?
    var v_right: VarEnt?
    var v_parent: VarEnt?
    var v_bal: int

    constructor (name: Name, vec: Words, parent: VarEnt?)
      ensures v_name == name && this.vec == vec && v_parent == parent
      ensures v_left == null && v_right == null && v_bal == 0
    {
      v_name, this.vec, v_parent := name, vec, parent;
      v_left, v_right, v_bal := null, null, 0;
    }
  }

  // ---------------------------------------------------------------- shapes

  /** The shape of a subtree, as a value. */
  datatype Shape = Leaf | Node(ent: VarEnt, left: Shape, right: Shape)

  function Ref(t: Shape): VarEnt? {
    if t.Leaf? then null else t.ent
  }

  ghost function Ents(t: Shape): set<VarEnt> {
    if t.Leaf? then {} else {t.ent} + Ents(t.left) + Ents(t.right)
  }

  ghost function Inorder(t: Shape): seq<VarEnt> {
    if t.Leaf? then [] else Inorder(t.left) + [t.ent] + Inorder(t.right)
  }

  ghost function Height(t: Shape): nat {
    if t.Leaf? then 0
    else 1 + if Height(t.left) > Height(t.right) then Height(t.left) else Height(t.right)
  }

  ghost predicate Distinct(t: Shape) {
    t.Node? ==>
      && t.ent !in Ents(t.left) && t.ent !in Ents(t.right) && Ents(t.left) !! Ents(t.right)
      && Distinct(t.left) && Distinct(t.right)
  }

  /** The links of the entries are those of the shape. */
  ghost predicate Linked(t: Shape, parent: VarEnt)
    reads Ents(t)`v_left, Ents(t)`v_right, Ents(t)`v_parent
  {
    t.Node? ==>
      && t.ent.v_left == Ref(t.left) && t.ent.v_right == Ref(t.right) && t.ent.v_parent == parent
      && Linked(t.left, t.ent) && Linked(t.right, t.ent)
  }

  /** Every balance is right height minus left height, and at most one off. */
  ghost predicate Balanced(t: Shape)
    reads Ents(t)`v_bal
  {
    t.Node? ==>
      && t.ent.v_bal == Height(t.right) - Height(t.left) && -1 <= t.ent.v_bal <= 1
      && Balanced(t.left) && Balanced(t.right)
  }

  // ---------------------------------------------------------------- rotations

  /** The macro rleft: p goes down to the left of its right child, which is returned. */
  method RLeft(p: VarEnt, ghost pp: VarEnt, ghost a: Shape, ghost b: Shape, ghost c: Shape) returns (t: VarEnt)
    requires p.v_right != null
    requires var s := Node(p, a, Node(p.v_right, b, c)); Linked(s, pp) && Distinct(s)
    modifies p`v_right, p`v_parent, p.v_right`v_left, p.v_right`v_parent, Ents(b)`v_parent
    ensures t == old(p.v_right)
    ensures Linked(Node(t, Node(p, a, b), c), pp)
  {
    t := p.v_right;
    assert Linked(Node(t, b, c), p) && Linked(b, t) && Distinct(Node(t, b, c)) && Distinct(b);
    t.v_parent := p.v_parent;
    p.v_right := t.v_left;
    if t.v_left != null {
      t.v_left.v_parent := p;
    }
    t.v_left := p;
    p.v_parent := t;
    assert Linked(b, p);
  }

  method RRight(p: VarEnt, ghost pp: VarEnt, ghost a: Shape, ghost b: Shape, ghost c: Shape) returns (t: VarEnt)
    requires p.v_left != null
    requires var s := Node(p, Node(p.v_left, a, b), c); Linked(s, pp) && Distinct(s)
    modifies p`v_left, p`v_parent, p.v_left`v_right, p.v_left`v_parent, Ents(b)`v_parent
    ensures t == old(p.v_left)
    ensures Linked(Node(t, a, Node(p, b, c)), pp)
  {
    t := p.v_left;
    assert Linked(Node(t, a, b), p) && Linked(b, t) && Distinct(Node(t, a, b)) && Distinct(b);
    t.v_parent := p.v_parent;
    p.v_left := t.v_right;
    if t.v_right != null {
      t.v_right.v_parent := p;
    }
    t.v_right := p;
    p.v_parent := t;
    assert Linked(b, p);
  }

  // ---------------------------------------------------------------- one node

  function Max(a: nat, b: nat): nat {
    if a > b then a else b
  }

  /** The height of a node before its right (or left) side grew by one; it is one more than this
      if the other side shrank instead. */
  ghost function HeightBefore(right: bool, left: Shape, r: Shape): int {
    1 + if right then (if Height(left) > Height(r) - 1 then Height(left) else Height(r) - 1)
        else (if Height(r) > Height(left) - 1 then Height(r) else Height(left) - 1)
  }

  /** Two shapes of the same entries in the same order. */
  ghost predicate SameEntries(s: Shape, t: Shape) {
    Distinct(s) && Ents(s) == Ents(t) && Inorder(s) == Inorder(t)
  }

  lemma LeftRotationIsSame(p: VarEnt, a: Shape, r: VarEnt, b: Shape, c: Shape)
    requires Distinct(Node(p, a, Node(r, b, c)))
    ensures Distinct(Node(r, b, c))
    ensures SameEntries(Node(r, Node(p, a, b), c), Node(p, a, Node(r, b, c)))
  {
    var s, t := Node(r, Node(p, a, b), c), Node(p, a, Node(r, b, c));
    assert Distinct(Node(r, b, c)) && Distinct(Node(p, a, b));
    assert Inorder(s) == Inorder(t);
  }

  lemma RightRotationIsSame(p: VarEnt, a: Shape, r: VarEnt, b: Shape, c: Shape)
    requires Distinct(Node(r, Node(p, a, b), c))
    ensures Distinct(Node(p, a, b))
    ensures SameEntries(Node(p, a, Node(r, b, c)), Node(r, Node(p, a, b), c))
  {
    var s, t := Node(p, a, Node(r, b, c)), Node(r, Node(p, a, b), c);
    assert Distinct(Node(p, a, b)) && Distinct(Node(r, b, c));
    assert Inorder(s) == Inorder(t);
  }

  lemma SameInRight(p: VarEnt, a: Shape, s: Shape, t: Shape)
    requires Distinct(Node(p, a, t)) && SameEntries(s, t)
    ensures SameEntries(Node(p, a, s), Node(p, a, t))
  {
  }

  lemma SameInLeft(p: VarEnt, a: Shape, s: Shape, t: Shape)
    requires Distinct(Node(p, t, a)) && SameEntries(s, t)
    ensures SameEntries(Node(p, s, a), Node(p, t, a))
  {
  }

  /** A single rotation to the left, when the right child r leans right or not at all. */
  method SingleLeft(p: VarEnt, ghost pp: VarEnt, ghost a: Shape, ghost r: VarEnt, ghost b: Shape, ghost c: Shape)
      returns (q: VarEnt)
    requires var t := Node(p, a, Node(r, b, c)); Linked(t, pp) && Distinct(t)
    modifies p`v_right, p`v_parent, r`v_left, r`v_parent, Ents(b)`v_parent, p`v_bal, r`v_bal
    ensures q == r && Linked(Node(r, Node(p, a, b), c), pp)
    ensures old(r.v_bal) == 1 ==> p.v_bal == 0 && r.v_bal == 0
    ensures old(r.v_bal) != 1 ==> p.v_bal == 1 && r.v_bal == -1
  {
    q := RLeft(p, pp, a, b, c);
    if q.v_bal == 1 {
      q.v_left.v_bal := 0;
      q.v_bal := 0;
    } else {
      q.v_left.v_bal := 1;
      q.v_bal := -1;
    }
  }

  /** The two rotations that bring m, the left child of the right child of p, to the top. */
  method RotateTwiceLeft(p: VarEnt, ghost pp: VarEnt, ghost a: Shape, ghost r: VarEnt, ghost m: VarEnt, ghost b: Shape,
                         ghost c: Shape, ghost d: Shape) returns (q: VarEnt)
    requires var t := Node(p, a, Node(r, Node(m, b, c), d)); Linked(t, pp) && Distinct(t)
    modifies p`v_right, p`v_parent, r`v_left, r`v_parent, m`v_left, m`v_right, m`v_parent
    modifies Ents(b)`v_parent, Ents(c)`v_parent
    ensures q == m && Linked(Node(m, Node(p, a, b), Node(r, c, d)), pp)
  {
    hide SameEntries;
    DoubleIsDistinct(p, a, r, m, b, c, d);
    assert Linked(Node(r, Node(m, b, c), d), p);
    assert allocated(Ents(a));
    var r' := RRight(p.v_right, p, b, c, d);
    p.v_right := r';
    assert Linked(Node(m, b, Node(r, c, d)), p);
    q := RLeft(p, pp, a, b, Node(r, c, d));
  }

  /** A double rotation to the left, when the right child r leans left. */
  method DoubleLeft(p: VarEnt, ghost pp: VarEnt, ghost a: Shape, ghost r: VarEnt, ghost m: VarEnt, ghost b: Shape,
                    ghost c: Shape, ghost d: Shape) returns (q: VarEnt)
    requires var t := Node(p, a, Node(r, Node(m, b, c), d)); Linked(t, pp) && Distinct(t)
    modifies p`v_right, p`v_parent, r`v_left, r`v_parent, m`v_left, m`v_right, m`v_parent
    modifies Ents(b)`v_parent, Ents(c)`v_parent, p`v_bal, r`v_bal, m`v_bal
    ensures q == m && Linked(Node(m, Node(p, a, b), Node(r, c, d)), pp)
    ensures p.v_bal == (if old(m.v_bal) < 1 then 0 else -1) && r.v_bal == (if old(m.v_bal) > -1 then 0 else 1)
    ensures m.v_bal == 0
  {
    DoubleIsDistinct(p, a, r, m, b, c, d);
    assert p != r && r != m && m != p;
    hide Distinct, Ents;
    q := RotateTwiceLeft(p, pp, a, r, m, b, c, d);
    assert q.v_left == p && q.v_right == r && allocated(Ents(Node(m, Node(p, a, b), Node(r, c, d))));
    hide Linked;
    Level(q);
  }

  /** The balances after a double rotation. */
  method Level(q: VarEnt)
    requires q.v_left != null && q.v_right != null && q != q.v_left && q != q.v_right && q.v_left != q.v_right
    modifies q`v_bal, q.v_left`v_bal, q.v_right`v_bal
    ensures q.v_left.v_bal == (if old(q.v_bal) < 1 then 0 else -1)
    ensures q.v_right.v_bal == (if old(q.v_bal) > -1 then 0 else 1) && q.v_bal == 0
  {
    q.v_left.v_bal := if q.v_bal < 1 then 0 else -1;
    q.v_right.v_bal := if q.v_bal > -1 then 0 else 1;
    q.v_bal := 0;
  }

  lemma DoubleIsDistinct(p: VarEnt, a: Shape, r: VarEnt, m: VarEnt, b: Shape, c: Shape, d: Shape)
    requires Distinct(Node(p, a, Node(r, Node(m, b, c), d)))
    ensures Distinct(Node(r, Node(m, b, c), d)) && Distinct(Node(m, b, c))
    ensures Distinct(Node(p, a, Node(m, b, Node(r, c, d))))
    ensures SameEntries(Node(m, Node(p, a, b), Node(r, c, d)), Node(p, a, Node(r, Node(m, b, c), d)))
  {
    assert Distinct(Node(r, Node(m, b, c), d));
    RightRotationIsSame(m, b, r, c, d);
    SameInRight(p, a, Node(m, b, Node(r, c, d)), Node(r, Node(m, b, c), d));
    LeftRotationIsSame(p, a, m, b, Node(r, c, d));
  }

  /** The mirror images of the three methods above. */
  method SingleRight(p: VarEnt, ghost pp: VarEnt, ghost l: VarEnt, ghost a: Shape, ghost b: Shape, ghost c: Shape)
      returns (q: VarEnt)
    requires var t := Node(p, Node(l, a, b), c); Linked(t, pp) && Distinct(t)
    modifies p`v_left, p`v_parent, l`v_right, l`v_parent, Ents(b)`v_parent, p`v_bal, l`v_bal
    ensures q == l && Linked(Node(l, a, Node(p, b, c)), pp)
    ensures old(l.v_bal) == -1 ==> p.v_bal == 0 && l.v_bal == 0
    ensures old(l.v_bal) != -1 ==> p.v_bal == -1 && l.v_bal == 1
  {
    q := RRight(p, pp, a, b, c);
    if q.v_bal == -1 {
      q.v_right.v_bal := 0;
      q.v_bal := 0;
    } else {
      q.v_right.v_bal := -1;
      q.v_bal := 1;
    }
  }

  method RotateTwiceRight(p: VarEnt, ghost pp: VarEnt, ghost l: VarEnt, ghost m: VarEnt, ghost a: Shape, ghost b: Shape,
                          ghost c: Shape, ghost d: Shape) returns (q: VarEnt)
    requires var t := Node(p, Node(l, a, Node(m, b, c)), d); Linked(t, pp) && Distinct(t)
    modifies p`v_left, p`v_parent, l`v_right, l`v_parent, m`v_left, m`v_right, m`v_parent
    modifies Ents(b)`v_parent, Ents(c)`v_parent
    ensures q == m && Linked(Node(m, Node(l, a, b), Node(p, c, d)), pp)
  {
    hide SameEntries;
    DoubleRightIsDistinct(p, l, m, a, b, c, d);
    assert Linked(Node(l, a, Node(m, b, c)), p);
    assert allocated(Ents(d));
    var l' := RLeft(p.v_left, p, a, b, c);
    p.v_left := l';
    assert Linked(Node(m, Node(l, a, b), c), p);
    q := RRight(p, pp, Node(l, a, b), c, d);
  }

  method DoubleRight(p: VarEnt, ghost pp: VarEnt, ghost l: VarEnt, ghost m: VarEnt, ghost a: Shape, ghost b: Shape,
                     ghost c: Shape, ghost d: Shape) returns (q: VarEnt)
    requires var t := Node(p, Node(l, a, Node(m, b, c)), d); Linked(t, pp) && Distinct(t)
    modifies p`v_left, p`v_parent, l`v_right, l`v_parent, m`v_left, m`v_right, m`v_parent
    modifies Ents(b)`v_parent, Ents(c)`v_parent, p`v_bal, l`v_bal, m`v_bal
    ensures q == m && Linked(Node(m, Node(l, a, b), Node(p, c, d)), pp)
    ensures l.v_bal == (if old(m.v_bal) < 1 then 0 else -1) && p.v_bal == (if old(m.v_bal) > -1 then 0 else 1)
    ensures m.v_bal == 0
  {
    DoubleRightIsDistinct(p, l, m, a, b, c, d);
    assert p != l && l != m && m != p;
    hide Distinct, Ents;
    q := RotateTwiceRight(p, pp, l, m, a, b, c, d);
    assert q.v_left == l && q.v_right == p && allocated(Ents(Node(m, Node(l, a, b), Node(p, c, d))));
    hide Linked;
    Level(q);
  }

  lemma DoubleRightIsDistinct(p: VarEnt, l: VarEnt, m: VarEnt, a: Shape, b: Shape, c: Shape, d: Shape)
    requires Distinct(Node(p, Node(l, a, Node(m, b, c)), d))
    ensures Distinct(Node(l, a, Node(m, b, c))) && Distinct(Node(m, b, c))
    ensures Distinct(Node(p, Node(m, Node(l, a, b), c), d))
    ensures SameEntries(Node(m, Node(l, a, b), Node(p, c, d)), Node(p, Node(l, a, Node(m, b, c)), d))
  {
    assert Distinct(Node(l, a, Node(m, b, c)));
    LeftRotationIsSame(l, a, m, b, c);
    SameInLeft(p, d, Node(m, Node(l, a, b), c), Node(l, a, Node(m, b, c)));
    RightRotationIsSame(m, Node(l, a, b), p, c, d);
  }

  /** What a node and its subtree look like once the node has been put right. */
  ghost predicate Fixed(q: VarEnt, s: Shape, t: Shape, parent: VarEnt, low: int)
    reads Ents(s)
  {
    && s.Node? && s.ent == q
    && Linked(s, parent) && Balanced(s) && SameEntries(s, t)
    && Height(s) == low + if q.v_bal == 0 then 0 else 1
  }

  /** p is two higher on the right, and its right child r does not lean left. */
  method FixRightSingle(p: VarEnt, ghost pp: VarEnt, ghost a: Shape, ghost r: VarEnt, ghost b: Shape, ghost c: Shape)
      returns (q: VarEnt, ghost s: Shape)
    requires var t := Node(p, a, Node(r, b, c)); Linked(t, pp) && Distinct(t)
    requires Balanced(a) && Balanced(Node(r, b, c)) && r.v_bal >= 0 && Height(Node(r, b, c)) == Height(a) + 2
    modifies p`v_right, p`v_parent, r`v_left, r`v_parent, Ents(b)`v_parent, p`v_bal, r`v_bal
    ensures Fixed(q, s, Node(p, a, Node(r, b, c)), pp, Height(a) + 2)
  {
    s := Node(r, Node(p, a, b), c);
    LeftRotationIsSame(p, a, r, b, c);
    assert allocated(Ents(a)) && allocated(Ents(b)) && allocated(Ents(c));
    q := SingleLeft(p, pp, a, r, b, c);
    assert Balanced(Node(p, a, b));
  }

  /** p is two higher on the right, and its right child r leans left. */
  method FixRightDouble(p: VarEnt, ghost pp: VarEnt, ghost a: Shape, ghost r: VarEnt, ghost m: VarEnt, ghost b: Shape,
                        ghost c: Shape, ghost d: Shape) returns (q: VarEnt, ghost s: Shape)
    requires var t := Node(p, a, Node(r, Node(m, b, c), d)); Linked(t, pp) && Distinct(t)
    requires Balanced(a) && Balanced(Node(r, Node(m, b, c), d)) && r.v_bal == -1
    requires Height(Node(r, Node(m, b, c), d)) == Height(a) + 2
    modifies p`v_right, p`v_parent, r`v_left, r`v_parent, m`v_left, m`v_right, m`v_parent
    modifies Ents(b)`v_parent, Ents(c)`v_parent, p`v_bal, r`v_bal, m`v_bal
    ensures Fixed(q, s, Node(p, a, Node(r, Node(m, b, c), d)), pp, Height(a) + 2)
  {
    s := Node(m, Node(p, a, b), Node(r, c, d));
    hide Linked, Balanced, Distinct, Ents, Height, Inorder, SameEntries, Fixed, Ref;
    DoubleIsDistinct(p, a, r, m, b, c, d);
    BalancedBelow(r, Node(m, b, c), d);
    BalancedBelow(m, b, c);
    DoubleApart(p, a, r, m, b, c, d);
    assert allocated(Ents(a)) && allocated(Ents(b)) && allocated(Ents(c)) && allocated(Ents(d));
    q := DoubleLeft(p, pp, a, r, m, b, c, d);
    DoubleBalances(p, a, r, m, b, c, d);
    IsFixed(q, s, Node(p, a, Node(r, Node(m, b, c), d)), pp, Height(a) + 2);
  }

  lemma BalancedBelow(e: VarEnt, l: Shape, r: Shape)
    requires Balanced(Node(e, l, r))
    ensures Balanced(l) && Balanced(r) && -1 <= e.v_bal == Height(r) - Height(l) <= 1
    ensures e.v_bal == 1 ==> Height(Node(e, l, r)) == Height(r) + 1
    ensures e.v_bal == -1 ==> Height(Node(e, l, r)) == Height(l) + 1
  {
  }

  /** The entry belongs to none of the four subtrees. */
  ghost predicate Free(e: VarEnt, a: Shape, b: Shape, c: Shape, d: Shape) {
    e !in Ents(a) && e !in Ents(b) && e !in Ents(c) && e !in Ents(d)
  }

  lemma DoubleApart(p: VarEnt, a: Shape, r: VarEnt, m: VarEnt, b: Shape, c: Shape, d: Shape)
    requires Distinct(Node(p, a, Node(r, Node(m, b, c), d)))
    ensures Free(p, a, b, c, d) && Free(r, a, b, c, d) && Free(m, a, b, c, d)
  {
    var u, v := Node(m, b, c), Node(r, Node(m, b, c), d);
    assert Distinct(v) && Distinct(u);
    assert Free(p, a, b, c, d) by { assert p !in Ents(v) && p !in Ents(u); }
    assert Free(r, a, b, c, d) by { assert r in Ents(v) && r !in Ents(u); }
    assert Free(m, a, b, c, d) by { assert m in Ents(v) && m in Ents(u); }
  }

  lemma IsFixed(q: VarEnt, s: Shape, t: Shape, parent: VarEnt, low: int)
    requires s.Node? && s.ent == q && Linked(s, parent) && Balanced(s) && SameEntries(s, t)
    requires Height(s) == low + if q.v_bal == 0 then 0 else 1
    ensures Fixed(q, s, t, parent, low)
  {
  }

  /** The balances that a double rotation leaves are those of the new heights. */
  lemma DoubleBalances(p: VarEnt, a: Shape, r: VarEnt, m: VarEnt, b: Shape, c: Shape, d: Shape)
    requires Balanced(a) && Balanced(b) && Balanced(c) && Balanced(d) && -1 <= Height(c) - Height(b) <= 1
    requires Height(a) == Height(d) == Height(Node(m, b, c)) - 1
    requires p.v_bal == (if Height(c) - Height(b) < 1 then 0 else -1)
    requires r.v_bal == (if Height(c) - Height(b) > -1 then 0 else 1)
    requires m.v_bal == 0
    ensures var s := Node(m, Node(p, a, b), Node(r, c, d)); Balanced(s) && Height(s) == Height(a) + 2
  {
    assert Balanced(Node(p, a, b)) && Balanced(Node(r, c, d));
  }

  method FixLeftSingle(p: VarEnt, ghost pp: VarEnt, ghost l: VarEnt, ghost a: Shape, ghost b: Shape, ghost c: Shape)
      returns (q: VarEnt, ghost s: Shape)
    requires var t := Node(p, Node(l, a, b), c); Linked(t, pp) && Distinct(t)
    requires Balanced(Node(l, a, b)) && Balanced(c) && l.v_bal <= 0 && Height(Node(l, a, b)) == Height(c) + 2
    modifies p`v_left, p`v_parent, l`v_right, l`v_parent, Ents(b)`v_parent, p`v_bal, l`v_bal
    ensures Fixed(q, s, Node(p, Node(l, a, b), c), pp, Height(c) + 2)
  {
    s := Node(l, a, Node(p, b, c));
    RightRotationIsSame(l, a, p, b, c);
    assert allocated(Ents(a)) && allocated(Ents(b)) && allocated(Ents(c));
    q := SingleRight(p, pp, l, a, b, c);
    assert Balanced(Node(p, b, c));
  }

  method FixLeftDouble(p: VarEnt, ghost pp: VarEnt, ghost l: VarEnt, ghost m: VarEnt, ghost a: Shape, ghost b: Shape,
                       ghost c: Shape, ghost d: Shape) returns (q: VarEnt, ghost s: Shape)
    requires var t := Node(p, Node(l, a, Node(m, b, c)), d); Linked(t, pp) && Distinct(t)
    requires Balanced(Node(l, a, Node(m, b, c))) && Balanced(d) && l.v_bal == 1
    requires Height(Node(l, a, Node(m, b, c))) == Height(d) + 2
    modifies p`v_left, p`v_parent, l`v_right, l`v_parent, m`v_left, m`v_right, m`v_parent
    modifies Ents(b)`v_parent, Ents(c)`v_parent, p`v_bal, l`v_bal, m`v_bal
    ensures Fixed(q, s, Node(p, Node(l, a, Node(m, b, c)), d), pp, Height(d) + 2)
  {
    s := Node(m, Node(l, a, b), Node(p, c, d));
    hide Linked, Balanced, Distinct, Ents, Height, Inorder, SameEntries, Fixed, Ref;
    DoubleRightIsDistinct(p, l, m, a, b, c, d);
    BalancedBelow(l, a, Node(m, b, c));
    BalancedBelow(m, b, c);
    DoubleRightApart(p, l, m, a, b, c, d);
    assert allocated(Ents(a)) && allocated(Ents(b)) && allocated(Ents(c)) && allocated(Ents(d));
    q := DoubleRight(p, pp, l, m, a, b, c, d);
    DoubleBalances(l, a, p, m, b, c, d);
    IsFixed(q, s, Node(p, Node(l, a, Node(m, b, c)), d), pp, Height(d) + 2);
  }

  lemma DoubleRightApart(p: VarEnt, l: VarEnt, m: VarEnt, a: Shape, b: Shape, c: Shape, d: Shape)
    requires Distinct(Node(p, Node(l, a, Node(m, b, c)), d))
    ensures Free(p, a, b, c, d) && Free(l, a, b, c, d) && Free(m, a, b, c, d)
  {
    var u, v := Node(m, b, c), Node(l, a, Node(m, b, c));
    assert Distinct(v) && Distinct(u);
    assert Free(p, a, b, c, d) by { assert p !in Ents(v) && p !in Ents(u); }
    assert Free(l, a, b, c, d) by { assert l in Ents(v) && l !in Ents(u); }
    assert Free(m, a, b, c, d) by { assert m in Ents(v) && m in Ents(u); }
  }

  /** One round of balance at p: its right side has become higher (or its left side lower) by one
      if `right` holds, the other way round if not. */
  method FixNode(p: VarEnt, right: bool, ghost pp: VarEnt, ghost l: Shape, ghost r: Shape)
      returns (q: VarEnt, ghost s: Shape)
    requires Linked(Node(p, l, r), pp) && Distinct(Node(p, l, r)) && Balanced(l) && Balanced(r)
    requires -1 <= p.v_bal <= 1
    requires Height(r) - Height(l) == p.v_bal + if right then 1 else -1
    modifies Ents(Node(p, l, r))`v_left, Ents(Node(p, l, r))`v_right, Ents(Node(p, l, r))`v_parent
    modifies Ents(Node(p, l, r))`v_bal
    ensures Fixed(q, s, Node(p, l, r), pp, HeightBefore(right, l, r))
  {
    hide Inorder;
    q, s := p, Node(p, l, r);
    if right {
      if p.v_bal == 1 {
        assert Linked(r, p);
        if p.v_right.v_bal == -1 {
          q, s := FixRightDouble(p, pp, l, r.ent, r.left.ent, r.left.left, r.left.right, r.right);
        } else {
          q, s := FixRightSingle(p, pp, l, r.ent, r.left, r.right);
        }
      } else {
        p.v_bal := p.v_bal + 1;
      }
    } else {
      if p.v_bal == -1 {
        assert Linked(l, p);
        if p.v_left.v_bal == 1 {
          q, s := FixLeftDouble(p, pp, l.ent, l.right.ent, l.left, l.right.left, l.right.right, r);
        } else {
          q, s := FixLeftSingle(p, pp, l.ent, l.left, l.right, r);
        }
      } else {
        p.v_bal := p.v_bal - 1;
      }
    }
  }

  // ---------------------------------------------------------------- the way up

  /** The part of a tree around one of its subtrees, from the inside out. */
  datatype Context =
    | Top(head: VarEnt)
    | InLeft(up: Context, ent: VarEnt, right: Shape)
    | InRight(up: Context, ent: VarEnt, left: Shape)

  /** The entry above the hole. */
  function Above(c: Context): VarEnt {
    if c.Top? then c.head else c.ent
  }

  function Plug(c: Context, t: Shape): Shape {
    match c
    case Top(_) => t
    case InLeft(up, e, r) => Plug(up, Node(e, t, r))
    case InRight(up, e, l) => Plug(up, Node(e, l, t))
  }

  function HeadOf(c: Context): VarEnt {
    if c.Top? then c.head else HeadOf(c.up)
  }

  ghost function Side(c: Context): Shape
    requires !c.Top?
  {
    if c.InLeft? then c.right else c.left
  }

  ghost function Outside(c: Context): set<VarEnt> {
    if c.Top? then {c.head} else {c.ent} + Ents(Side(c)) + Outside(c.up)
  }

  ghost predicate Apart(c: Context) {
    !c.Top? ==>
      && c.ent !in Ents(Side(c)) && Distinct(Side(c)) && Apart(c.up)
      && c.ent !in Outside(c.up) && Ents(Side(c)) !! Outside(c.up)
  }

  /** The links around the hole, in which `child` hangs. */
  ghost predicate Around(c: Context, child: VarEnt?)
    reads Outside(c)`v_left, Outside(c)`v_right, Outside(c)`v_parent
  {
    match c
    case Top(h) => h.v_left == child && h.v_right == null && h.v_parent == null
    case InLeft(up, e, r) =>
      e.v_left == child && e.v_right == Ref(r) && e.v_parent == Above(up) && Linked(r, e) && Around(up, e)
    case InRight(up, e, l) =>
      e.v_left == Ref(l) && e.v_right == child && e.v_parent == Above(up) && Linked(l, e) && Around(up, e)
  }

  /** The balances around the hole are right for a subtree of height h. */
  ghost predicate BalancedAround(c: Context, h: int)
    reads Outside(c)`v_bal
  {
    !c.Top? ==>
      && -1 <= c.ent.v_bal <= 1 && Balanced(Side(c))
      && c.ent.v_bal == (if c.InLeft? then Height(c.right) - h else h - Height(c.left))
      && BalancedAround(c.up, 1 + if h > Height(Side(c)) then h else Height(Side(c)))
  }

  /** The subtree t hangs in the hole of c, and all entries are different. */
  ghost predicate Joined(c: Context, t: Shape)
    reads Outside(c)`v_left, Outside(c)`v_right, Outside(c)`v_parent
    reads Ents(t)`v_left, Ents(t)`v_right, Ents(t)`v_parent
  {
    Around(c, Ref(t)) && Linked(t, Above(c)) && Distinct(t) && Apart(c) && Ents(t) !! Outside(c)
  }

  /** One level up, with the entry above the hole and what hangs below it as the subtree. */
  function UpShape(c: Context, t: Shape): Shape
    requires !c.Top?
  {
    if c.InLeft? then Node(c.ent, t, c.right) else Node(c.ent, c.left, t)
  }

  lemma JoinedUp(c: Context, t: Shape)
    requires !c.Top? && Joined(c, t)
    ensures Joined(c.up, UpShape(c, t)) && Plug(c.up, UpShape(c, t)) == Plug(c, t)
    ensures Outside(c) + Ents(t) == Outside(c.up) + Ents(UpShape(c, t))
  {
  }

  /** The other child of the parent is another entry. */
  lemma WhichChild(c: Context, t: Shape)
    requires t.Node? && Joined(c, t)
    ensures !c.Top? ==> (Above(c).v_right == t.ent <==> c.InRight?)
    ensures Above(c).v_parent == null <==> c.Top?
  {
  }

  /** pp->v_link[ff] = q */
  method Relink(pp: VarEnt, ff: bool, q: VarEnt, ghost c: Context, ghost child: VarEnt)
    requires pp == Above(c) && Around(c, child) && Apart(c)
    requires if c.Top? then !ff else ff == c.InRight?
    modifies pp`v_left, pp`v_right
    ensures Around(c, q)
    ensures if ff then pp.v_right == q && pp.v_left == old(pp.v_left)
            else pp.v_left == q && pp.v_right == old(pp.v_right)
  {
    if ff { pp.v_right := q; } else { pp.v_left := q; }
  }

  /** The balance of p before the change was that of the heights before it. */
  lemma BalanceBefore(c: Context, t: Shape, d: bool)
    requires !c.Top? && Balanced(t) && BalancedAround(c, Height(t) + if d then 1 else -1)
    ensures var u, right := UpShape(c, t), c.InRight? != d;
            && Balanced(u.left) && Balanced(u.right) && -1 <= c.ent.v_bal <= 1
            && Height(u.right) - Height(u.left) == c.ent.v_bal + (if right then 1 else -1)
            && BalancedAround(c.up, HeightBefore(right, u.left, u.right) + if d then 1 else 0)
  {
    hide Height, Balanced, Ents, Distinct;
    var h, g := Height(t) + if d then 1 else -1, Height(Side(c));
    var u, right := UpShape(c, t), c.InRight? != d;
    assert BalancedAround(c.up, 1 + if h > g then h else g);
    assert HeightBefore(right, u.left, u.right) + (if d then 1 else 0) == 1 + if h > g then h else g;
  }

  /** A round of balance, from p to its parent. */
  method UpOne(p: VarEnt, f: bool, d: bool, ghost c: Context, ghost t: Shape)
      returns (pp: VarEnt, ff: bool, q: VarEnt, ghost s: Shape)
    requires !c.Top? && c.ent == p && f == c.InRight?
    requires Joined(c, t) && Balanced(t) && BalancedAround(c, Height(t) + if d then 1 else -1)
    modifies (Outside(c) + Ents(t))`v_left, (Outside(c) + Ents(t))`v_right, (Outside(c) + Ents(t))`v_parent
    modifies Ents(UpShape(c, t))`v_bal
    ensures pp == Above(c.up) && (if c.up.Top? then !ff else ff == c.up.InRight?)
    ensures Joined(c.up, s) && Balanced(s) && SameEntries(s, UpShape(c, t)) && s.Node? && s.ent == q
    ensures BalancedAround(c.up, Height(s) + if (q.v_bal == 0) != d then 0 else if d then 1 else -1)
  {
    hide Linked, Balanced, Inorder, Distinct, Apart, BalancedAround, Height, Plug;
    JoinedUp(c, t);
    WhichChild(c.up, UpShape(c, t));
    pp := p.v_parent;
    ff := pp.v_right == p;
    assert allocated(Outside(c.up));
    q, s := FixAt(p, f, d, pp, c, t);
    assert allocated(Ents(s));
    if q != p {
      Relink(pp, ff, q, c.up, p);
    }
    JoinedAgain(c.up, s, UpShape(c, t));
  }

  /** The subtree at p is put right. */
  method FixAt(p: VarEnt, f: bool, d: bool, ghost pp: VarEnt, ghost c: Context, ghost t: Shape)
      returns (q: VarEnt, ghost s: Shape)
    requires !c.Top? && c.ent == p && f == c.InRight? && Linked(UpShape(c, t), pp) && Distinct(UpShape(c, t))
    requires Balanced(t) && BalancedAround(c, Height(t) + if d then 1 else -1)
    requires Ents(UpShape(c, t)) !! Outside(c.up)
    modifies Ents(UpShape(c, t))`v_left, Ents(UpShape(c, t))`v_right, Ents(UpShape(c, t))`v_parent
    modifies Ents(UpShape(c, t))`v_bal
    ensures Linked(s, pp) && Balanced(s) && SameEntries(s, UpShape(c, t)) && s.Node? && s.ent == q
    ensures BalancedAround(c.up, Height(s) + if (q.v_bal == 0) != d then 0 else if d then 1 else -1)
  {
    hide Linked, Balanced, Inorder, Distinct, Apart, BalancedAround, Height, Plug, HeightBefore, SameEntries;
    BalanceBefore(c, t, d);
    ghost var u := UpShape(c, t);
    assert allocated(Outside(c.up));
    q, s := FixNode(p, f != d, pp, u.left, u.right);
  }

  lemma JoinedAgain(c: Context, s: Shape, u: Shape)
    requires Around(c, Ref(s)) && Linked(s, Above(c)) && SameEntries(s, u) && Apart(c) && Ents(u) !! Outside(c)
    ensures Joined(c, s)
  {
    hide Around, Linked, Apart, Inorder, Distinct;
  }

  lemma {:induction false} PlugSame(c: Context, s: Shape, t: Shape)
    requires Inorder(s) == Inorder(t)
    ensures Inorder(Plug(c, s)) == Inorder(Plug(c, t))
    decreases c
  {
    if !c.Top? { PlugSame(c.up, UpShape(c, s), UpShape(c, t)); }
  }

  lemma {:induction false} InorderEnts(t: Shape)
    ensures Ents(t) == set e | e in Inorder(t)
  {
    if t.Node? {
      InorderEnts(t.left);
      InorderEnts(t.right);
    }
  }

  lemma {:induction false} PlugJoined(c: Context, t: Shape)
    requires Joined(c, t)
    ensures Joined(Top(HeadOf(c)), Plug(c, t))
    ensures Outside(c) + Ents(t) == {HeadOf(c)} + Ents(Plug(c, t))
    decreases c
  {
    if !c.Top? {
      JoinedUp(c, t);
      PlugJoined(c.up, UpShape(c, t));
    }
  }

  lemma {:induction false} PlugBalanced(c: Context, t: Shape)
    requires Balanced(t) && BalancedAround(c, Height(t))
    ensures Balanced(Plug(c, t))
    decreases c
  {
    if !c.Top? {
      BalancedUp(c, t);
      PlugBalanced(c.up, UpShape(c, t));
    }
  }

  lemma BalancedUp(c: Context, t: Shape)
    requires !c.Top? && Balanced(t) && BalancedAround(c, Height(t))
    ensures Balanced(UpShape(c, t)) && BalancedAround(c.up, Height(UpShape(c, t)))
  {
    hide *;
    UpBalance(c, t);
    AroundStep(c, Height(t));
  }

  lemma AroundStep(c: Context, h: int)
    requires !c.Top?
    ensures var g := Height(Side(c));
            BalancedAround(c, h) <==>
              -1 <= c.ent.v_bal <= 1 && Balanced(Side(c)) && c.ent.v_bal == (if c.InLeft? then g - h else h - g)
              && BalancedAround(c.up, 1 + if h > g then h else g)
  {
    hide Height, Balanced;
  }

  /** The balance and the height of the shape above a hole that is filled. */
  lemma UpBalance(c: Context, t: Shape)
    requires !c.Top?
    ensures var h, g := Height(t), Height(Side(c));
            && Height(UpShape(c, t)) == 1 + (if h > g then h else g)
            && (Balanced(UpShape(c, t)) <==>
                  Balanced(t) && Balanced(Side(c)) && -1 <= c.ent.v_bal <= 1
                  && c.ent.v_bal == if c.InLeft? then g - h else h - g)
  {
    hide BalancedAround;
  }

  /** Rebalances a tree from p up, when the subtree t on the side f of p has become one higher by an
      insertion, or one lower by a deletion (d). */
  method Balance(p0: VarEnt, f0: bool, d: bool, ghost c0: Context, ghost t0: Shape) returns (ghost s: Shape)
    requires p0 == Above(c0) && (!c0.Top? ==> f0 == c0.InRight?)
    requires Joined(c0, t0) && Balanced(t0) && BalancedAround(c0, Height(t0) + if d then 1 else -1)
    modifies (Outside(c0) + Ents(t0))`v_left, (Outside(c0) + Ents(t0))`v_right, (Outside(c0) + Ents(t0))`v_parent
    modifies (Outside(c0) + Ents(t0))`v_bal
    ensures Joined(Top(HeadOf(c0)), s) && Balanced(s)
    ensures Inorder(s) == Inorder(Plug(c0, t0))
  {
    hide Linked, Balanced, Inorder, Distinct, Apart, BalancedAround, Height, Around, Ents;
    var p, f := p0, f0;
    ghost var c, t := c0, t0;
    ghost var off := if d then 1 else -1;
    ParentOfAbove(c, Ref(t));
    while p.v_parent != null
      invariant p == Above(c) && (!c.Top? ==> f == c.InRight?) && (p.v_parent == null <==> c.Top?)
      invariant Joined(c, t) && Balanced(t) && BalancedAround(c, Height(t) + off) && off == if d then 1 else -1
      invariant Inorder(Plug(c, t)) == Inorder(Plug(c0, t0)) && HeadOf(c) == HeadOf(c0)
      invariant Outside(c) + Ents(t) == Outside(c0) + Ents(t0)
      decreases c
    {
      ghost var u := UpShape(c, t);
      JoinedUp(c, t);
      var pp, ff, q;
      pp, ff, q, t := UpOne(p, f, d, c, t);
      PlugSame(c.up, t, u);
      c := c.up;
      ParentOfAbove(c, Ref(t));
      if (q.v_bal == 0) != d {
        PlugBalanced(c, t);
        PlugJoined(c, t);
        s := Plug(c, t);
        return;
      }
      p, f := pp, ff;
    }
    s := t;
  }

  lemma ParentOfAbove(c: Context, child: VarEnt?)
    requires Around(c, child)
    ensures Above(c).v_parent == null <==> c.Top?
  {
  }
}
