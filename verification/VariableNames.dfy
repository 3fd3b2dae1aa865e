/** Names of csh variables and the order in which the tree keeps them (src/bin/csh/set.c and
    src/bin/csh/str.c). */
module VariableNames {

  /** Characters are signed shorts; a string has no NUL inside. */
  type Char = c: int | -0x8000 <= c < 0x8000
  type Name = s: seq<Char> | 0 !in s witness []

  /** The first character of a C string, which is the NUL when the string is empty. */
  function First(s: Name): int {
    if s == [] then 0 else s[0]
  }

  function Rest(s: Name): Name
    requires s != []
  {
    s[1..]
  }

  /** Characters compare by value, but the end of the string comes before all of them. */
  function StrcmpSpec(a: Name, b: Name): int {
    if a == [] && b == [] then 0
    else if a == [] then -1
    else if b == [] then 1
    else if a[0] == b[0] then StrcmpSpec(Rest(a), Rest(b))
    else a[0] as int - b[0] as int
  }

  /** The comparison of adrof1 and setq: the difference of the first characters, and Strcmp only
      if there is none. */
  function Compare(a: Name, b: Name): int {
    if First(a) != First(b) then First(a) - First(b) else StrcmpSpec(a, b)
  }

  predicate Less(a: Name, b: Name) {
    Compare(a, b) < 0
  }

  method Strcmp(a: Name, b: Name) returns (r: int)
    ensures r == StrcmpSpec(a, b)
  {
    var i := 0;
    while i < |a| && i < |b| && a[i] == b[i]
      invariant 0 <= i <= |a| && i <= |b|
      invariant StrcmpSpec(a[i..], b[i..]) == StrcmpSpec(a, b)
    {
      assert Rest(a[i..]) == a[i + 1..] && Rest(b[i..]) == b[i + 1..];
      i := i + 1;
    }
    if i == |a| && i == |b| { return 0; }
    if i == |a| { return -1; }
    if i == |b| { return 1; }
    return a[i] as int - b[i] as int;
  }

  lemma {:induction false} StrcmpOrder(a: Name, b: Name)
    ensures StrcmpSpec(a, b) == 0 <==> a == b
    ensures StrcmpSpec(a, b) < 0 <==> StrcmpSpec(b, a) > 0
  {
    if a != [] && b != [] && a[0] == b[0] {
      assert a == [a[0]] + Rest(a) && b == [b[0]] + Rest(b);
      StrcmpOrder(Rest(a), Rest(b));
    }
  }

  lemma {:induction false} StrcmpTransitive(a: Name, b: Name, c: Name)
    requires StrcmpSpec(a, b) < 0 && StrcmpSpec(b, c) < 0
    ensures StrcmpSpec(a, c) < 0
  {
    if a != [] && b != [] && c != [] && a[0] == b[0] == c[0] {
      StrcmpTransitive(Rest(a), Rest(b), Rest(c));
    }
  }

  /** Less is a strict total order on names, and Compare is zero for equal names only.  The order is
      not that of Strcmp alone: the empty name comes after a name with a negative first character. */
  lemma LessIsStrictTotalOrder(a: Name, b: Name, c: Name)
    ensures Compare(a, b) == 0 <==> a == b
    ensures !Less(a, a)
    ensures Less(a, b) || a == b || Less(b, a)
    ensures Less(a, b) && Less(b, c) ==> Less(a, c)
    ensures Compare(a, b) > 0 <==> Less(b, a)
  {
    StrcmpOrder(a, b);
    StrcmpOrder(b, a);
    StrcmpOrder(a, a);
    if First(a) == First(b) == First(c) && Less(a, b) && Less(b, c) { StrcmpTransitive(a, b, c); }
  }

  /** The order of a dictionary: a is a proper beginning of b, or at the first place where they differ it has the
      smaller character. */
  ghost predicate Precedes(a: Name, b: Name) {
    exists i :: 0 <= i <= |a| && i <= |b| && a[..i] == b[..i] && FirstDiffers(a, b, i)
  }

  predicate FirstDiffers(a: Name, b: Name, i: nat)
    requires i <= |a| && i <= |b|
  {
    i < |b| && (i < |a| ==> a[i] < b[i])
  }

  lemma {:induction false} StrcmpIsDictionary(a: Name, b: Name)
    ensures StrcmpSpec(a, b) < 0 <==> Precedes(a, b)
    decreases |a|
  {
    if a != [] && b != [] && a[0] == b[0] {
      var c, d := Rest(a), Rest(b);
      StrcmpIsDictionary(c, d);
      if Precedes(c, d) {
        var i :| 0 <= i <= |c| && i <= |d| && c[..i] == d[..i] && FirstDiffers(c, d, i);
        assert a[..i + 1] == [a[0]] + c[..i] && b[..i + 1] == [b[0]] + d[..i] && FirstDiffers(a, b, i + 1);
      }
      if Precedes(a, b) {
        var i :| 0 <= i <= |a| && i <= |b| && a[..i] == b[..i] && FirstDiffers(a, b, i);
        assert i > 0;
        assert c[..i - 1] == a[..i][1..] && d[..i - 1] == b[..i][1..] && FirstDiffers(c, d, i - 1);
      }
    } else if b != [] && (a == [] || a[0] < b[0]) {
      assert a[..0] == b[..0] && FirstDiffers(a, b, 0);
    } else {
      SameStart(a, b);
    }
  }

  lemma SameStart(a: Name, b: Name)
    ensures forall i :: 0 < i <= |a| && i <= |b| && a[..i] == b[..i] ==> a[0] == b[0]
  {
    forall i | 0 < i <= |a| && i <= |b| && a[..i] == b[..i]
      ensures a[0] == b[0]
    {
      assert a[..i][0] == b[..i][0];
    }
  }

  /** The tree is in the order of a dictionary, but that the empty name comes behind the names that start with a
      negative character. */
  lemma LessIsDictionary(a: Name, b: Name)
    ensures Less(a, b) <==>
      if a == [] then b != [] && b[0] > 0
      else if b == [] then a[0] < 0
      else Precedes(a, b)
  {
    StrcmpIsDictionary(a, b);
    assert b != [] ==> b[0] in b;
    assert a != [] ==> a[0] in a;
  }
}
