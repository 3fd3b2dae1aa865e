/** How sh marks the characters of a value that are to be taken literally, and takes the marks away
    again (src/bin/sh/expand.c, src/bin/sh/mksyntax.c). */
module Quoting {
  import opened Patterns

  // ---------------------------------------------------------------- marking

  /** The characters in class CCTL of the syntax table for double quotes, or of the basic one. */
  predicate Special(c: Char, dq: bool) {
    -127 <= c <= -120 || (dq && c in {33, 42, 45, 47, 58, 61, 63, 91, 93, 126})
  }

  function Escaped(val: Str, dq: bool): Str {
    if val == [] then []
    else (if Special(val[0], dq) then [CTLESC, val[0]] else [val[0]]) + Escaped(val[1..], dq)
  }

  /** The loop of evalvar that copies a value, with an escape before each special character. */
  method CopyValue(val: Str, dq: bool) returns (dest: Str)
    ensures dest == Escaped(val, dq)
  {
    hide Special, Escaped;
    dest := [];
    var i := 0;
    while i < |val|
      invariant 0 <= i <= |val| && dest + Escaped(val[i..], dq) == Escaped(val, dq)
    {
      EscapedStep(val, i, dq);
      var next := [val[i]];
      if Special(val[i], dq) { next := [CTLESC, val[i]]; }
      dest := dest + next;
      i := i + 1;
    }
    EscapedStep(val, i, dq);
  }

  lemma EscapedStep(val: Str, i: nat, dq: bool)
    requires i <= |val|
    ensures i == |val| ==> Escaped(val[i..], dq) == []
    ensures i < |val| ==>
      Escaped(val[i..], dq)
      == (if Special(val[i], dq) then [CTLESC, val[i]] else [val[i]]) + Escaped(val[i + 1..], dq)
  {
    hide Special;
    if i < |val| { assert val[i..][1..] == val[i + 1..]; }
  }

  // ---------------------------------------------------------------- taking the marks away

  /** The string without escapes and quote marks; an escaped character stays, whatever it is. */
  function Unescaped(s: Str): Str
    decreases |s|
  {
    if s == [] then []
    else if s[0] == CTLQUOTEMARK then Unescaped(s[1..])
    else if s[0] == CTLESC && |s| > 1 then [s[1]] + Unescaped(s[2..])
    else [s[0]] + Unescaped(s[1..])
  }

  /** The C string at a place of a buffer. */
  predicate HoldsAt(m: seq<Char>, p: nat, s: Str) {
    p + |s| < |m| && forall i :: 0 <= i <= |s| ==> m[p + i] == At(s, i)
  }

  /** Removes the escapes from a string where it stands. */
  method Rmescapes(buf: array<Char>, p0: nat, ghost s: Str)
    requires HoldsAt(buf[..], p0, s) && Whole(s)
    modifies buf
    ensures HoldsAt(buf[..], p0, Unescaped(s))
    ensures forall i :: 0 <= i < buf.Length && !(p0 <= i <= p0 + |s|) ==> buf[i] == old(buf[i])
  {
    hide Unescaped, Whole;
    assert s[0..] == s;
    var p := p0;
    ghost var k := 0;
    while buf[p] != CTLESC && buf[p] != CTLQUOTEMARK
      invariant 0 <= k <= |s| && p == p0 + k && Whole(s[k..])
      invariant s[..k] + Unescaped(s[k..]) == Unescaped(s) && buf[..] == old(buf[..])
      decreases |s| - k
    {
      assert buf[..][p0 + k] == At(s, k);
      PlainStep(s, k);
      if buf[p] == 0 {
        assert Unescaped(s) == s + [] == s;
        return;
      }
      p, k := p + 1, k + 1;
    }
    ShiftUnescaped(buf, p0, p, s);
  }

  lemma PlainStep(s: Str, i: nat)
    requires i <= |s| && Whole(s[i..]) && At(s, i) != CTLESC && At(s, i) != CTLQUOTEMARK
    ensures At(s, i) == 0 ==> i == |s|
    ensures i == |s| ==> s[..i] == s && Unescaped(s[i..]) == []
    ensures i < |s| ==> Unescaped(s[i..]) == [s[i]] + Unescaped(s[i + 1..]) && Whole(s[i + 1..])
    ensures i < |s| ==> s[..i + 1] == s[..i] + [s[i]]
  {
    if i < |s| { assert s[i..][1..] == s[i + 1..]; }
  }

  /** The second loop of rmescapes, which moves down what stays. */
  method ShiftUnescaped(buf: array<Char>, p0: nat, p1: nat, ghost s: Str)
    requires p0 <= p1 <= p0 + |s| && Whole(s[p1 - p0..]) && HoldsAt(buf[..], p0, s)
    requires s[..p1 - p0] + Unescaped(s[p1 - p0..]) == Unescaped(s)
    modifies buf
    ensures HoldsAt(buf[..], p0, Unescaped(s))
    ensures SameOutside(buf[..], old(buf[..]), p0, p0 + |s|)
  {
    hide *;
    var p: nat, q: nat := p1, p1;
    ghost var end := p0 + |s|;
    ghost var done: seq<Char>, rest: Str := s[..p1 - p0], s[p1 - p0..];
    StartOfShift(buf[..], p0, p1, s);
    while buf[p] != 0
      invariant Shifting(buf[..], p0, q, p, end, done, rest) && q <= p <= end < buf.Length
      invariant Whole(rest) && done + Unescaped(rest) == Unescaped(s)
      invariant SameOutside(buf[..], old(buf[..]), p0, end)
      decreases end - p
    {
      Drop(buf[..], p0, q, p, end, done, rest);
      UnescapedStep(rest);
      if buf[p] == CTLQUOTEMARK {
        p, rest := p + 1, rest[1..];
      } else {
        if buf[p] == CTLESC { p, rest := p + 1, rest[1..]; }
        Copy(buf[..], p0, q, p, end, done, rest, old(buf[..]));
        Regroup(done, [buf[p]], Unescaped(rest[1..]));
        done, rest := done + [buf[p]], rest[1..];
        ghost var m := buf[..];
        buf[q] := buf[p];
        assert buf[..] == m[q := m[p]];
        q, p := q + 1, p + 1;
      }
    }
    EndOfShift(buf[..], p0, q, p, end, done, rest, old(buf[..]));
    UnescapedEnd(rest, done);
    ghost var m := buf[..];
    buf[q] := 0;
    assert buf[..] == m[q := 0];
  }

  /** The part done lies at p0, up to q, and the rest of the string at p, with its terminator at the end. */
  predicate Shifting(m: seq<Char>, p0: nat, q: nat, p: nat, end: nat, done: seq<Char>, rest: Str) {
    p0 <= q <= p <= end < |m| && m[p..end + 1] == rest + [0] && m[p0..q] == done
  }

  predicate SameOutside(m: seq<Char>, n: seq<Char>, p0: nat, end: nat) {
    |m| == |n| && forall i :: 0 <= i < |m| && !(p0 <= i <= end) ==> m[i] == n[i]
  }

  /** The first character is passed over. */
  lemma Drop(m: seq<Char>, p0: nat, q: nat, p: nat, end: nat, done: seq<Char>, rest: Str)
    requires Shifting(m, p0, q, p, end, done, rest) && m[p] != 0
    ensures rest != [] && m[p] == rest[0] && 0 !in rest[1..] && Shifting(m, p0, q, p + 1, end, done, rest[1..])
  {
    var r := m[p..end + 1];
    assert m[p] == r[0] && m[p + 1..end + 1] == r[1..];
  }

  /** The first character is added to what is done. */
  lemma Copy(m: seq<Char>, p0: nat, q: nat, p: nat, end: nat, done: seq<Char>, rest: Str, n: seq<Char>)
    requires Shifting(m, p0, q, p, end, done, rest) && rest != [] && SameOutside(m, n, p0, end)
    ensures m[p] == rest[0] && p < end && 0 !in rest[1..]
    ensures Shifting(m[q := m[p]], p0, q + 1, p + 1, end, done + [m[p]], rest[1..])
    ensures SameOutside(m[q := m[p]], n, p0, end)
  {
    var r, m' := m[p..end + 1], m[q := m[p]];
    assert m[p] == r[0] && m'[p + 1..end + 1] == m[p + 1..end + 1] == r[1..];
    assert m'[p0..q] == m[p0..q];
  }

  lemma Regroup(a: seq<Char>, b: seq<Char>, c: seq<Char>)
    ensures a + (b + c) == a + b + c
  {
  }

  lemma StartOfShift(m: seq<Char>, p0: nat, p: nat, s: Str)
    requires HoldsAt(m, p0, s) && p0 <= p <= p0 + |s|
    ensures Shifting(m, p0, p, p, p0 + |s|, s[..p - p0], s[p - p0..]) && SameOutside(m, m, p0, p0 + |s|)
  {
    forall i | 0 <= i <= |s|
      ensures m[p0..][i] == At(s, i)
    {
      assert m[p0 + i] == At(s, i);
    }
    var k := p - p0;
    assert m[p..p0 + |s| + 1] == m[p0..][k..|s| + 1] && m[p0..p] == m[p0..][..k];
  }

  /** The terminator is put down. */
  lemma EndOfShift(m: seq<Char>, p0: nat, q: nat, p: nat, end: nat, done: Str, rest: Str, n: seq<Char>)
    requires Shifting(m, p0, q, p, end, done, rest) && m[p] == 0 && SameOutside(m, n, p0, end)
    ensures rest == [] && HoldsAt(m[q := 0], p0, done) && SameOutside(m[q := 0], n, p0, end)
  {
    var m' := m[q := 0];
    assert m[p] == m[p..end + 1][0];
    assert m'[p0..q] == m[p0..q] == done;
    forall i | 0 <= i <= |done|
      ensures m'[p0 + i] == At(done, i)
    {
      if i < |done| { assert m'[p0 + i] == m'[p0..q][i]; }
    }
  }

  lemma UnescapedEnd(rest: Str, done: seq<Char>)
    requires rest == []
    ensures done + Unescaped(rest) == done
  {
  }

  /** The first character that is read, and what it leaves. */
  lemma UnescapedStep(s: Str)
    requires s != [] && Whole(s)
    ensures s[0] == CTLQUOTEMARK ==> Unescaped(s) == Unescaped(s[1..]) && Whole(s[1..])
    ensures s[0] != CTLQUOTEMARK && s[0] != CTLESC ==> Unescaped(s) == [s[0]] + Unescaped(s[1..]) && Whole(s[1..])
    ensures s[0] == CTLESC ==>
      |s| > 1 && s[1] != 0 && Unescaped(s) == [s[1]] + Unescaped(s[1..][1..]) && Whole(s[1..][1..])
  {
    if |s| > 1 { assert s[1..][1..] == s[2..]; }
  }

  // ---------------------------------------------------------------- what marking is good for

  /** Taking the marks away gives back the value. */
  lemma {:induction false} EscapedRoundTrip(val: Str, dq: bool)
    ensures Whole(Escaped(val, dq)) && Unescaped(Escaped(val, dq)) == val
    ensures Whole(Escaped(val, dq)) && View(Escaped(val, dq), true) == val
  {
    if val != [] {
      var e, r := Escaped(val, dq), Escaped(val[1..], dq);
      EscapedRoundTrip(val[1..], dq);
      if Special(val[0], dq) {
        assert e[2..] == r && e[1] == val[0];
      } else {
        assert e[1..] == r;
      }
    }
  }

  function Lits(val: Str): seq<Elem> {
    if val == [] then [] else [Lit(val[0])] + Lits(val[1..])
  }

  lemma {:induction false} EscapedIsLiteral(val: Str)
    requires BACKSLASH !in val
    ensures Clear(Escaped(val, true)) && Parse(Escaped(val, true)) == Lits(val)
  {
    if val != [] {
      var e, r := Escaped(val, true), Escaped(val[1..], true);
      EscapedIsLiteral(val[1..]);
      assert val[0] in val;
      if Special(val[0], true) {
        assert Next(e) == (Lit(val[0]), 2) && e[2..] == r;
      } else {
        assert Next(e) == (Lit(val[0]), 1) && e[1..] == r;
      }
    }
  }

  lemma {:induction false} LitsMatch(val: Str, s: seq<Char>)
    ensures Lang(Lits(val), s) <==> s == val
  {
    if val != [] {
      assert Lits(val)[1..] == Lits(val[1..]);
      if s != [] {
        LitsMatch(val[1..], s[1..]);
        assert s == [s[0]] + s[1..] && val == [val[0]] + val[1..];
      }
    }
  }

  /** The number of backslashes at the start. */
  function Lead(val: Str): (n: nat)
    ensures n <= |val|
  {
    if val == [] || val[0] != BACKSLASH then 0 else 1 + Lead(val[1..])
  }

  /** A double-quoted value that starts with n backslashes stands for no string that starts with more
      than half as many. */
  lemma {:induction false} BackslashesVanish(val: Str, s: seq<Char>)
    requires Lead(val) / 2 < |s| && forall i :: 0 <= i <= Lead(val) / 2 ==> s[i] == BACKSLASH
    ensures !Lang(Parse(Escaped(val, true)), s)
    decreases |val|
  {
    var e := Escaped(val, true);
    if val == [] {
    } else if val[0] != BACKSLASH {
      assert Next(e).0 == Lit(val[0]);
      assert Parse(e)[0] == Lit(val[0]);
    } else {
      assert !Special(BACKSLASH, true) && e == [BACKSLASH] + Escaped(val[1..], true);
      assert Next(e).0 == Slashed(At(e, 1)) && Parse(e)[0] == Slashed(At(e, 1));
      if |val| > 1 && val[1] == BACKSLASH {
        var rest := val[2..];
        assert val[1..][1..] == rest && Escaped(val[1..], true) == [BACKSLASH] + Escaped(rest, true);
        assert e[2..] == Escaped(rest, true) && Parse(e)[1..] == Parse(Escaped(rest, true));
        assert Lead(val) == 2 + Lead(rest);
        BackslashesVanish(rest, s[1..]);
      } else {
        assert At(e, 1) != BACKSLASH;
      }
    }
  }

  /** A value with a backslash does not match itself in double quotes. */
  lemma {:induction false} BackslashIsNotItself(val: Str)
    requires BACKSLASH in val
    ensures !Lang(Parse(Escaped(val, true)), val)
  {
    if val[0] == BACKSLASH {
      LeadIsBackslashes(val);
      BackslashesVanish(val, val);
    } else {
      var e := Escaped(val, true);
      BackslashIsNotItself(val[1..]);
      assert Next(e).0 == Lit(val[0]) && e[Next(e).1..] == Escaped(val[1..], true);
      assert Parse(e)[1..] == Parse(Escaped(val[1..], true));
    }
  }

  lemma {:induction false} LeadIsBackslashes(val: Str)
    ensures forall i :: 0 <= i < Lead(val) ==> val[i] == BACKSLASH
  {
    if Lead(val) > 0 { LeadIsBackslashes(val[1..]); }
  }

  /** In double quotes, as a pattern, a value stands for itself alone just when it has no backslash; and just
      then it is the only string that pmatch accepts. */
  lemma QuotedStandsForItself(val: Str)
    ensures MeansOnly(Parse(Escaped(val, true)), val) <==> BACKSLASH !in val
    ensures AcceptsOnly(Parse(Escaped(val, true)), val) <==> BACKSLASH !in val
  {
    hide *;
    var e := Parse(Escaped(val, true));
    if BACKSLASH in val {
      BackslashIsNotItself(val);
      AcceptsIsLang(e, val);
      NotOnly(e, val);
    } else {
      EscapedIsLiteral(val);
      LitsOnly(val);
    }
  }

  /** The pattern stands for one string and for no other. */
  ghost predicate MeansOnly(e: seq<Elem>, val: Str) {
    forall s: seq<Char> :: Lang(e, s) <==> s == val
  }

  /** pmatch accepts one string and no other. */
  ghost predicate AcceptsOnly(e: seq<Elem>, val: Str) {
    forall s: seq<Char> :: Accepts(e, s) <==> s == val
  }

  lemma NotOnly(e: seq<Elem>, val: Str)
    requires !Lang(e, val) && !Accepts(e, val)
    ensures !MeansOnly(e, val) && !AcceptsOnly(e, val)
  {
    hide Lang, Accepts;
  }

  lemma LitsOnly(val: Str)
    ensures MeansOnly(Lits(val), val) && AcceptsOnly(Lits(val), val)
  {
    hide Lang, Accepts, Lits, StarsAgree;
    LitsHaveNoStar(val);
    forall s
      ensures (Lang(Lits(val), s) <==> s == val) && (Accepts(Lits(val), s) <==> s == val)
    {
      LitsMatch(val, s);
      AcceptsIsLang(Lits(val), s);
    }
  }

  lemma LitsHaveNoStar(val: Str)
    ensures StarsAgree(Lits(val))
  {
  }

  // ---------------------------------------------------------------- which characters are marked

  /** The characters that the shell uses to mark parts of a word. */
  predicate IsControl(c: Char) {
    -127 <= c <= -120
  }

  /** One of !*?[=~:/-] and the closing bracket. */
  predicate IsPatternChar(c: Char) {
    c in [33, 42, 63, 91, 61, 126, 58, 47, 45, 93]
  }

  /** A value is copied as it is if and only if it has none of the characters of the shell's own and, in double
      quotes, none that could mean something in a pattern.  So without quotes a value may be a pattern. */
  lemma {:induction false} CopiedAsItIs(val: Str, dq: bool)
    ensures Escaped(val, dq) == val <==> forall c :: c in val ==> !IsControl(c) && (dq ==> !IsPatternChar(c))
  {
    hide Special, IsControl, IsPatternChar;
    if val != [] {
      var rest := val[1..];
      SpecialIs(val[0], dq);
      CopiedAsItIs(rest, dq);
      EscapedLength(rest, dq);
      assert val == [val[0]] + rest && forall c :: c in val <==> c == val[0] || c in rest;
      if Special(val[0], dq) {
        assert |Escaped(val, dq)| > |val|;
      } else {
        assert Escaped(val, dq) == [val[0]] + Escaped(rest, dq);
        assert Escaped(val, dq) == val <==> Escaped(rest, dq) == rest by {
          if Escaped(val, dq) == val { assert Escaped(val, dq)[1..] == val[1..]; }
        }
      }
    }
  }

  lemma SpecialIs(c: Char, dq: bool)
    ensures Special(c, dq) <==> IsControl(c) || (dq && IsPatternChar(c))
  {
  }

  lemma {:induction false} EscapedLength(val: Str, dq: bool)
    ensures |Escaped(val, dq)| >= |val|
  {
    if val != [] { EscapedLength(val[1..], dq); }
  }
}
