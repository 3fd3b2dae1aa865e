/** C strings and strcmp, of which only the sign of its result is used. */
module ByteStrings {

  /** A byte of a string is not NUL, and counts as unsigned. */
  type Byte = b: int | 0 < b < 0x100 witness 1
  type Text = seq<Byte>

  function Strcmp(a: Text, b: Text): int {
    if a == [] then (if b == [] then 0 else -(b[0] as int))
    else if b == [] then a[0] as int
    else if a[0] == b[0] then Strcmp(a[1..], b[1..])
    else a[0] as int - b[0] as int
  }

  lemma {:induction false} StrcmpOrder(a: Text, b: Text)
    ensures Strcmp(a, b) == 0 <==> a == b
    ensures Strcmp(a, b) < 0 <==> Strcmp(b, a) > 0
  {
    if a != [] && b != [] && a[0] == b[0] {
      assert a == [a[0]] + a[1..] && b == [b[0]] + b[1..];
      StrcmpOrder(a[1..], b[1..]);
    }
  }

  lemma {:induction false} StrcmpTransitive(a: Text, b: Text, c: Text)
    requires Strcmp(a, b) < 0 && Strcmp(b, c) < 0
    ensures Strcmp(a, c) < 0
  {
    if a != [] && b != [] && c != [] && a[0] == b[0] == c[0] { StrcmpTransitive(a[1..], b[1..], c[1..]); }
  }

  /** The order of a dictionary: a is a proper beginning of b, or at the first place where they differ it has the
      smaller byte. */
  ghost predicate Precedes(a: Text, b: Text) {
    exists i :: 0 <= i <= |a| && i <= |b| && a[..i] == b[..i] && FirstDiffers(a, b, i)
  }

  predicate FirstDiffers(a: Text, b: Text, i: nat)
    requires i <= |a| && i <= |b|
  {
    i < |b| && (i < |a| ==> a[i] < b[i])
  }

  lemma {:induction false} StrcmpIsDictionary(a: Text, b: Text)
    ensures Strcmp(a, b) < 0 <==> Precedes(a, b)
    decreases |a|
  {
    if a != [] && b != [] && a[0] == b[0] {
      var c, d := a[1..], b[1..];
      StrcmpIsDictionary(c, d);
      if Precedes(c, d) {
        var i :| 0 <= i <= |c| && i <= |d| && c[..i] == d[..i] && FirstDiffers(c, d, i);
        assert a[..i + 1] == [a[0]] + c[..i] && b[..i + 1] == [b[0]] + d[..i] && FirstDiffers(a, b, i + 1);
      }
      if Precedes(a, b) {
        var i :| 0 <= i <= |a| && i <= |b| && a[..i] == b[..i] && FirstDiffers(a, b, i);
        assert i > 0;
        assert c[..i - 1] == a[..i][1..] && d[..i - 1] == b[..i][1..] && FirstDiffers(c, d, i - 1);
      }
    } else if b != [] && (a == [] || a[0] < b[0]) {
      assert a[..0] == b[..0] && FirstDiffers(a, b, 0);
    } else {
      SameStart(a, b);
    }
  }

  lemma SameStart(a: Text, b: Text)
    ensures forall i :: 0 < i <= |a| && i <= |b| && a[..i] == b[..i] ==> a[0] == b[0]
  {
    forall i | 0 < i <= |a| && i <= |b| && a[..i] == b[..i]
      ensures a[0] == b[0]
    {
      assert a[..i][0] == b[..i][0];
    }
  }
}
