/** Shell patterns (src/bin/sh/expand.c): their syntax, their language, and the matcher pmatch. */
module Patterns {
  import opened Options

  /** Characters are signed; a C string has no NUL inside. */
  type Char = c: int | -128 <= c < 128
  type Str = s: seq<Char> | 0 !in s witness []

  const CTLESC: Char := -127
  const CTLQUOTEMARK: Char := -120
  const BANG: Char := 33
  const STAR: Char := 42
  const DASH: Char := 45
  const QUERY: Char := 63
  const BRACKET: Char := 91
  const BACKSLASH: Char := 92
  const CLOSE: Char := 93

  /** The character at a place of a C string, the last of which holds the NUL. */
  function At(s: Str, i: nat): Char
    requires i <= |s|
  {
    if i < |s| then s[i] else 0
  }

  // ---------------------------------------------------------------- the language

  datatype Elem =
    | Lit(c: Char)
    | Slashed(c: Char)
    | Any
    | Star
    | Set(invert: bool, ranges: seq<(Char, Char)>)

  predicate InRanges(ranges: seq<(Char, Char)>, c: Char) {
    exists i :: 0 <= i < |ranges| && ranges[i].0 <= c <= ranges[i].1
  }

  predicate One(e: Elem, c: Char)
    requires !e.Star?
  {
    match e
    case Lit(d) => c == d
    case Slashed(d) => c == d
    case Any => true
    case Set(invert, ranges) => InRanges(ranges, c) != invert
  }

  /** The strings that a pattern stands for, by POSIX Shell Command Language, section 2.13. */
  ghost predicate Lang(e: seq<Elem>, s: seq<Char>)
    decreases |e|
  {
    if e == [] then s == []
    else if e[0].Star? then exists k :: 0 <= k <= |s| && Lang(e[1..], s[k..])
    else s != [] && One(e[0], s[0]) && Lang(e[1..], s[1..])
  }

  /** The place of the first backslash, or past the end. */
  function FirstBackslash(s: seq<Char>): nat {
    if s == [] then 1 else if s[0] == BACKSLASH then 0 else 1 + FirstBackslash(s[1..])
  }

  /** Where pmatch starts to look for what follows a star.  Before a backslash in the pattern it looks
      for a backslash in the string. */
  function Skip(e: seq<Elem>, s: seq<Char>): nat {
    if e != [] && e[0].Slashed? then FirstBackslash(s) else 0
  }

  /** The strings that pmatch accepts. */
  ghost predicate Accepts(e: seq<Elem>, s: seq<Char>)
    decreases |e|
  {
    if e == [] then s == []
    else if e[0].Star? then exists k :: Skip(e[1..], s) <= k <= |s| && Accepts(e[1..], s[k..])
    else s != [] && One(e[0], s[0]) && Accepts(e[1..], s[1..])
  }

  /** After a star, a backslash stands before a backslash only. */
  predicate StarsAgree(e: seq<Elem>) {
    forall i :: 0 <= i < |e| - 1 && e[i].Star? && e[i + 1].Slashed? ==> e[i + 1].c == BACKSLASH
  }

  /** Some element matches no character at all, so that the pattern stands for nothing. */
  ghost predicate Hollow(e: seq<Elem>) {
    exists i :: 0 <= i < |e| && !e[i].Star? && Barren(e[i])
  }

  ghost predicate Barren(x: Elem)
    requires !x.Star?
  {
    forall c: Char :: c != 0 ==> !One(x, c)
  }

  /** How many elements take a character. */
  function Plain(e: seq<Elem>): nat {
    if e == [] then 0 else Plain(e[1..]) + if e[0].Star? then 0 else 1
  }

  /** What pmatch accepts is in the language of the pattern, and where the stars agree it is all of it. */
  lemma {:induction false} AcceptsIsLang(e: seq<Elem>, s: seq<Char>)
    ensures Accepts(e, s) ==> Lang(e, s)
    ensures StarsAgree(e) ==> Accepts(e, s) == Lang(e, s)
    decreases |e|
  {
    if e != [] {
      var rest := e[1..];
      assert forall i :: 0 <= i < |rest| ==> rest[i] == e[i + 1];
      if e[0].Star? {
        forall k | 0 <= k <= |s|
          ensures Accepts(rest, s[k..]) ==> Lang(rest, s[k..])
          ensures StarsAgree(e) && Lang(rest, s[k..]) ==> Accepts(rest, s[k..]) && Skip(rest, s) <= k
        {
          AcceptsIsLang(rest, s[k..]);
          if StarsAgree(e) && Lang(rest, s[k..]) && rest != [] && rest[0].Slashed? {
            assert s[k] == s[k..][0] == BACKSLASH;
            BackslashAt(s, k);
          }
        }
      } else if s != [] {
        AcceptsIsLang(rest, s[1..]);
      }
    }
  }

  lemma {:induction false} BackslashAt(s: seq<Char>, k: nat)
    requires k < |s| && s[k] == BACKSLASH
    ensures FirstBackslash(s) <= k
    decreases k
  {
    if s[0] != BACKSLASH { BackslashAt(s[1..], k - 1); }
  }

  lemma {:induction false} HollowIsEmpty(e: seq<Elem>, s: seq<Char>)
    requires Hollow(e) && 0 !in s
    ensures !Lang(e, s)
    decreases |e|
  {
    var i :| 0 <= i < |e| && !e[i].Star? && Barren(e[i]);
    if i > 0 {
      assert e[1..][i - 1] == e[i];
      forall k | 0 <= k <= |s| {
        HollowIsEmpty(e[1..], s[k..]);
      }
    }
  }

  /** A string of the language with one character for each element but the stars. */
  lemma {:induction false} Shortest(e: seq<Elem>) returns (s: Str)
    requires !Hollow(e)
    ensures Lang(e, s) && |s| == Plain(e)
    decreases |e|
  {
    if e == [] {
      s := [];
    } else {
      assert forall i :: 0 <= i < |e| - 1 ==> e[1..][i] == e[i + 1];
      var t := Shortest(e[1..]);
      if e[0].Star? {
        s := t;
        assert s[0..] == t;
      } else {
        assert !Barren(e[0]);
        var c: Char :| c != 0 && One(e[0], c);
        s := [c] + t;
        assert s[1..] == t;
      }
    }
  }

  /** If pmatch accepts no more characters than it must, it leaves every star empty. */
  lemma {:induction false} NoShorter(e: seq<Elem>, s: seq<Char>)
    requires Accepts(e, s)
    ensures |s| >= Plain(e)
    ensures |s| == Plain(e) ==> StarsAgree(e)
    decreases |e|
  {
    if e != [] {
      var rest := e[1..];
      var k: nat := 1;
      if e[0].Star? { k :| Skip(rest, s) <= k <= |s| && Accepts(rest, s[k..]); }
      NoShorter(rest, s[k..]);
      if |s| == Plain(e) {
        assert e[0].Star? ==> s[0..] == s && k == 0;
        assert forall i :: 1 <= i < |e| ==> e[i] == rest[i - 1];
      }
    }
  }

  /** Every backslash after a star stands before a backslash, or the pattern stands for nothing. */
  ghost predicate Exact(e: seq<Elem>) {
    StarsAgree(e) || Hollow(e)
  }

  lemma WhereExact(e: seq<Elem>, s: seq<Char>)
    requires Exact(e) && 0 !in s
    ensures Accepts(e, s) <==> Lang(e, s)
  {
    AcceptsIsLang(e, s);
    if Hollow(e) { HollowIsEmpty(e, s); }
  }

  /** pmatch accepts the strings of the pattern and no others. */
  ghost predicate Agrees(e: seq<Elem>) {
    forall s: Str :: Accepts(e, s) <==> Lang(e, s)
  }

  lemma AcceptsIsExact(e: seq<Elem>)
    ensures Agrees(e) <==> Exact(e)
  {
    if Exact(e) {
      forall s: Str
        ensures Accepts(e, s) <==> Lang(e, s)
      {
        WhereExact(e, s);
      }
    } else if Agrees(e) {
      var s := Shortest(e);
      assert Accepts(e, s);
      NoShorter(e, s);
    }
  }

  // ---------------------------------------------------------------- the syntax

  /** A member of a bracket expression: an escaped character, or any other. */
  function Member(pat: Str, i: nat): Option<(Char, nat)>
    requires i <= |pat|
  {
    if i == |pat| then None
    else if pat[i] != CTLESC then Some((pat[i], i + 1))
    else if i + 1 == |pat| then None
    else Some((pat[i + 1], i + 2))
  }

  /** The members and ranges from i up to the closing bracket, and the place of the latter. */
  function Members(pat: Str, i: nat): (r: Option<(seq<(Char, Char)>, nat)>)
    requires i <= |pat|
    ensures r.Some? ==> i < r.value.1 < |pat| && pat[r.value.1] == CLOSE
    decreases |pat| - i, 0
  {
    match Member(pat, i)
    case None => None
    case Some((c, j)) =>
      if At(pat, j) == DASH && At(pat, j + 1) != CLOSE then
        (match Member(pat, j + 1)
         case None => None
         case Some((d, k)) => Closed(pat, (c, d), k))
      else Closed(pat, (c, c), j)
  }

  /** What follows one member or range: the closing bracket, or more of them. */
  function Closed(pat: Str, range: (Char, Char), j: nat): (r: Option<(seq<(Char, Char)>, nat)>)
    requires j <= |pat|
    ensures r.Some? ==> j <= r.value.1 < |pat| && pat[r.value.1] == CLOSE
    decreases |pat| - j, 1
  {
    if At(pat, j) == CLOSE then Some(([range], j))
    else
      match Members(pat, j)
      case None => None
      case Some((rs, end)) => Some(([range] + rs, end))
  }

  function Inverted(pat: Str): bool {
    |pat| > 1 && pat[1] == BANG
  }

  /** The first place from i on that is no quote mark. */
  function AfterMarks(pat: Str, i: nat): (j: nat)
    requires i <= |pat|
    ensures i <= j <= |pat| && At(pat, j) != CTLQUOTEMARK
    ensures forall k :: i <= k < j ==> pat[k] == CTLQUOTEMARK
    decreases |pat| - i
  {
    if At(pat, i) == CTLQUOTEMARK then AfterMarks(pat, i + 1) else i
  }

  /** The closing bracket that comes behind one member or more, whatever quote marks there are. */
  function CloseAt(pat: Str, i: nat): (r: Option<nat>)
    requires i <= |pat|
    ensures r.Some? ==> i < r.value < |pat|
    decreases |pat| - i
  {
    match Member(pat, AfterMarks(pat, i))
    case None => None
    case Some((c, j)) =>
      var k := AfterMarks(pat, j);
      if At(pat, k) == CLOSE then Some(k) else CloseAt(pat, k)
  }

  function SetStart(pat: Str): (i: nat)
    requires pat != []
    ensures 0 < i <= |pat|
  {
    if Inverted(pat) then 2 else 1
  }

  function Bracket(pat: Str): (r: Option<(seq<(Char, Char)>, nat)>)
    requires pat != []
    ensures r.Some? ==> 1 < r.value.1 < |pat|
  {
    if CloseAt(pat, SetStart(pat)).Some? then Members(pat, SetStart(pat)) else None
  }

  /** The first element of a pattern, and how many characters it takes. */
  function Next(pat: Str): (r: (Elem, nat))
    requires pat != []
    ensures 0 < r.1 <= |pat|
  {
    var c := pat[0];
    if c == CTLESC then (Lit(At(pat, 1)), if |pat| > 1 then 2 else 1)
    else if c == BACKSLASH then (Slashed(At(pat, 1)), if |pat| > 1 then 2 else 1)
    else if c == QUERY then (Any, 1)
    else if c == STAR then (Star, 1)
    else if c == BRACKET && Bracket(pat).Some? then
      var (ranges, end) := Bracket(pat).value;
      (Set(Inverted(pat), ranges), end + 1)
    else (Lit(c), 1)
  }

  /** The elements of a pattern; quote marks stand for nothing. */
  function Parse(pat: Str): seq<Elem>
    decreases |pat|
  {
    if pat == [] then []
    else if pat[0] == CTLQUOTEMARK then Parse(pat[1..])
    else [Next(pat).0] + Parse(pat[Next(pat).1..])
  }

  /** The search for the closing bracket does not run into an escape at the end. */
  predicate Scannable(pat: Str, i: nat)
    requires i <= |pat|
    decreases |pat| - i
  {
    var m := AfterMarks(pat, i);
    m == |pat| ||
    match Member(pat, m)
    case None => false
    case Some((c, j)) => At(pat, j) == CLOSE || Scannable(pat, j)
  }

  /** There is no quote mark up to the closing bracket, if there is one. */
  predicate Unmarked(pat: Str, i: nat)
    requires i <= |pat|
  {
    var close := CloseAt(pat, i);
    close.Some? ==> CTLQUOTEMARK !in pat[i..close.value]
  }

  /** No escape stands at the end, and no quote mark inside a bracket expression. */
  predicate Clear(pat: Str)
    decreases |pat|
  {
    pat == [] ||
    if pat[0] == CTLQUOTEMARK then Clear(pat[1..])
    else
      && ((pat[0] == CTLESC || pat[0] == BACKSLASH) ==> |pat| > 1)
      && (pat[0] == BRACKET ==> Scannable(pat, SetStart(pat)) && Unmarked(pat, SetStart(pat)))
      && Clear(pat[Next(pat).1..])
  }

  // ---------------------------------------------------------------- the string

  /** No escape stands at the end. */
  predicate Whole(s: Str)
    decreases |s|
  {
    s == [] || if s[0] == CTLESC then |s| > 1 && Whole(s[2..]) else Whole(s[1..])
  }

  /** The characters of a string, without the escapes if it may have some. */
  function View(s: Str, squoted: bool): seq<Char>
    decreases |s|
  {
    if s == [] then []
    else if squoted && s[0] == CTLESC && |s| > 1 then [s[1]] + View(s[2..], squoted)
    else [s[0]] + View(s[1..], squoted)
  }

  // ---------------------------------------------------------------- the matcher

  /** The closing bracket that pmatch looks for before it reads the members. */
  function ScanEnd(pat: Str, i: nat): (r: Option<nat>)
    requires i <= |pat|
    ensures r.Some? ==> i < r.value < |pat|
    decreases |pat| - i
  {
    match Member(pat, i)
    case None => None
    case Some((c, j)) => if At(pat, j) == CLOSE then Some(j) else ScanEnd(pat, j)
  }

  /** It is the bracket at which the members end. */
  lemma {:induction false} ScanEndsMembers(pat: Str, i: nat)
    requires i <= |pat|
    ensures Members(pat, i).Some? <==> ScanEnd(pat, i).Some?
    ensures Members(pat, i).Some? ==> Members(pat, i).value.1 == ScanEnd(pat, i).value
    decreases |pat| - i
  {
    if Member(pat, i).Some? {
      var (c, j) := Member(pat, i).value;
      if At(pat, j) == DASH && At(pat, j + 1) != CLOSE {
        assert Member(pat, j) == Some((DASH, j + 1));
        assert ScanEnd(pat, i) == ScanEnd(pat, j) == ScanEnd(pat, j + 1);
        if Member(pat, j + 1).Some? {
          var (d, k) := Member(pat, j + 1).value;
          if At(pat, k) != CLOSE { ScanEndsMembers(pat, k); }
        }
      } else if At(pat, j) != CLOSE {
        ScanEndsMembers(pat, j);
      }
    }
  }

  /** Without quote marks, the bracket is the one that ends the members. */
  lemma {:induction false} NoMarks(pat: Str, i: nat)
    requires i <= |pat| && CloseAt(pat, i).Some? && CTLQUOTEMARK !in pat[i..CloseAt(pat, i).value]
    ensures ScanEnd(pat, i) == CloseAt(pat, i)
    decreases |pat| - i
  {
    hide CloseAt, ScanEnd, AfterMarks;
    NoMarkStep(pat, i);
    var close, j := CloseAt(pat, i).value, Member(pat, i).value.1;
    if j < close {
      assert pat[j..close] == pat[i..close][j - i..];
      NoMarks(pat, j);
    }
  }

  lemma NoMarkStep(pat: Str, i: nat)
    requires i <= |pat| && CloseAt(pat, i).Some? && CTLQUOTEMARK !in pat[i..CloseAt(pat, i).value]
    ensures Member(pat, i).Some?
    ensures var j, close := Member(pat, i).value.1, CloseAt(pat, i).value;
            && j <= close && (j == close ==> ScanEnd(pat, i) == Some(close))
            && (j < close ==> CloseAt(pat, j) == Some(close) && ScanEnd(pat, i) == ScanEnd(pat, j))
  {
    var close := CloseAt(pat, i).value;
    assert pat[i] == pat[i..close][0];
    assert AfterMarks(pat, i) == i;
    var j := Member(pat, i).value.1;
    assert j < close ==> pat[j] == pat[i..close][j - i];
    assert AfterMarks(pat, j) == j;
  }

  lemma ClosedIsMembers(pat: Str, i: nat)
    requires i <= |pat| && Unmarked(pat, i) && CloseAt(pat, i).Some?
    ensures Members(pat, i).Some? && Members(pat, i).value.1 == CloseAt(pat, i).value
  {
    NoMarks(pat, i);
    ScanEndsMembers(pat, i);
  }

  method SkipMarks(pat: Str, i: nat) returns (j: nat)
    requires i <= |pat|
    ensures j == AfterMarks(pat, i)
  {
    j := i;
    while At(pat, j) == CTLQUOTEMARK
      invariant i <= j <= |pat| && AfterMarks(pat, j) == AfterMarks(pat, i)
      decreases |pat| - j
    {
      j := j + 1;
    }
  }

  /** The loop that looks for the closing bracket. */
  method FindClose(pat: Str, i: nat) returns (closed: bool)
    requires i <= |pat| && Scannable(pat, i) && Unmarked(pat, i)
    ensures closed == CloseAt(pat, i).Some?
  {
    hide Unmarked, Scannable, CloseAt, AfterMarks;
    var endp := i;
    while true
      invariant i <= endp <= |pat| && Scannable(pat, endp) && Unmarked(pat, endp)
      invariant CloseAt(pat, i).Some? == CloseAt(pat, endp).Some?
      decreases |pat| - endp
    {
      LookOn(pat, endp);
      endp := SkipMarks(pat, endp);
      if At(pat, endp) == 0 { return false; }
      if At(pat, endp) == CTLESC { endp := endp + 1; }
      endp := endp + 1;
      if At(pat, endp) == CLOSE { return true; }
    }
  }

  /** What the look ahead goes on with after a member. */
  lemma LookOn(pat: Str, i: nat)
    requires i <= |pat| && Scannable(pat, i) && Unmarked(pat, i)
    ensures var m := AfterMarks(pat, i);
            if m == |pat| then CloseAt(pat, i).None?
            else
              var j := if pat[m] == CTLESC then m + 2 else m + 1;
              j <= |pat|
              && if At(pat, j) == CLOSE then CloseAt(pat, i).Some?
                 else Scannable(pat, j) && Unmarked(pat, j) && CloseAt(pat, i) == CloseAt(pat, j)
  {
    var m := AfterMarks(pat, i);
    if m < |pat| {
      var j := Member(pat, m).value.1;
      MarksSkipped(pat, j);
      if At(pat, j) != CLOSE && CloseAt(pat, i).Some? {
        var close := CloseAt(pat, i).value;
        assert j < close ==> pat[j] == pat[i..close][j - i];
        assert pat[j..close] == pat[i..close][j - i..];
      }
    }
  }

  lemma {:induction false} MarksSkipped(pat: Str, i: nat)
    requires i <= |pat|
    ensures AfterMarks(pat, AfterMarks(pat, i)) == AfterMarks(pat, i)
    ensures CloseAt(pat, AfterMarks(pat, i)) == CloseAt(pat, i)
  {
  }

  /** The loop over the members, which tells whether chr is among them and where they end. */
  method MatchMembers(pat: Str, i: nat, chr: Char) returns (found: bool, end: nat)
    requires i <= |pat| && Members(pat, i).Some?
    ensures end == Members(pat, i).value.1 && found == InRanges(Members(pat, i).value.0, chr)
  {
    ghost var (all, last) := Members(pat, i).value;
    found := false;
    end := i;
    while true
      invariant i <= end <= |pat| && Members(pat, end).Some? && Members(pat, end).value.1 == last
      invariant InRanges(all, chr) <==> found || InRanges(Members(pat, end).value.0, chr)
      decreases |pat| - end
    {
      ghost var start := end;
      if At(pat, end) == CTLESC { end := end + 1; }
      var c := At(pat, end);
      end := end + 1;
      ghost var top := c;
      if At(pat, end) == DASH && At(pat, end + 1) != CLOSE {
        end := end + 1;
        if At(pat, end) == CTLESC { end := end + 1; }
        top := At(pat, end);
        if c <= chr <= At(pat, end) { found := true; }
        end := end + 1;
      } else if chr == c {
        found := true;
      }
      OneMember(pat, start, c, top, end, chr);
      if At(pat, end) == CLOSE { return; }
    }
  }

  lemma OneMember(pat: Str, i: nat, c: Char, d: Char, j: nat, chr: Char)
    requires i <= |pat| && j <= |pat| && Members(pat, i).Some? && Members(pat, i) == Closed(pat, (c, d), j)
    ensures At(pat, j) != CLOSE ==> Members(pat, j).Some? && Members(pat, j).value.1 == Members(pat, i).value.1
    ensures At(pat, j) == CLOSE ==> Members(pat, i).value.1 == j
    ensures InRanges(Members(pat, i).value.0, chr)
      <==> c <= chr <= d || (At(pat, j) != CLOSE && InRanges(Members(pat, j).value.0, chr))
  {
    var all := Members(pat, i).value.0;
    if At(pat, j) != CLOSE {
      var rest := Members(pat, j).value.0;
      assert all == [(c, d)] + rest;
      assert all[0] == (c, d) && forall k :: 0 <= k < |rest| ==> all[k + 1] == rest[k];
      assert forall k :: 1 <= k < |all| ==> all[k] == rest[k - 1];
    } else {
      assert all == [(c, d)] && all[0] == (c, d);
    }
  }

  /** Some place from which the rest of the string is accepted, after a star. */
  ghost predicate Somewhere(e: seq<Elem>, v: seq<Char>) {
    exists k :: 0 <= k <= |v| && Accepts(e, v[k..])
  }

  ghost predicate StarAccepts(e: seq<Elem>, v: seq<Char>) {
    exists k :: Skip(e, v) <= k <= |v| && Accepts(e, v[k..])
  }

  /** What a pattern that does not start with a wildcard needs first; NUL at the end. */
  function Wanted(e: seq<Elem>): Option<Char> {
    if e == [] then Some(0)
    else if e[0].Lit? then Some(e[0].c)
    else if e[0].Slashed? then Some(BACKSLASH)
    else None
  }

  /** Characters that differ from the wanted one can be skipped after a star, without a difference. */
  lemma SkipAhead(e: seq<Elem>, v: seq<Char>, c: Char)
    requires Wanted(e) == Some(c) && 0 !in v
    ensures v == [] ==> StarAccepts(e, v) == (c == 0 && e == [])
    ensures v != [] && v[0] != c ==> StarAccepts(e, v) == StarAccepts(e, v[1..])
    ensures v != [] && v[0] == c ==> StarAccepts(e, v) == Somewhere(e, v)
  {
    assert v[0..] == v;
    if v != [] && v[0] != c {
      var w := v[1..];
      if StarAccepts(e, v) {
        var k :| Skip(e, v) <= k <= |v| && Accepts(e, v[k..]);
        assert k > 0;
        assert w[k - 1..] == v[k..];
      }
      if StarAccepts(e, w) {
        var k :| Skip(e, w) <= k <= |w| && Accepts(e, w[k..]);
        assert w[k..] == v[k + 1..];
      }
    }
  }

  lemma SomewhereStep(e: seq<Elem>, v: seq<Char>)
    ensures Somewhere(e, v) <==> Accepts(e, v) || (v != [] && Somewhere(e, v[1..]))
  {
    assert v[0..] == v;
    if v != [] {
      assert forall k :: 0 <= k <= |v[1..]| ==> v[1..][k..] == v[k + 1..];
      if Somewhere(e, v) && !Accepts(e, v) {
        var k :| 0 <= k <= |v| && Accepts(e, v[k..]);
        assert v[1..][k - 1..] == v[k..];
      }
      if Somewhere(e, v[1..]) {
        var k :| 0 <= k <= |v[1..]| && Accepts(e, v[1..][k..]);
        assert v[k + 1..] == v[1..][k..];
      }
    } else if Somewhere(e, v) {
      var k :| 0 <= k <= |v| && Accepts(e, v[k..]);
      assert v[k..] == v;
    }
  }

  /** Two stars are one. */
  lemma StarStar(e: seq<Elem>, v: seq<Char>)
    ensures StarAccepts([Star] + e, v) == StarAccepts(e, v)
  {
    var s := [Star] + e;
    assert s[1..] == e;
    if StarAccepts(s, v) {
      var k :| Skip(s, v) <= k <= |v| && Accepts(s, v[k..]);
      var l :| Skip(e, v[k..]) <= l <= |v[k..]| && Accepts(e, v[k..][l..]);
      assert v[k..][l..] == v[k + l..];
      SkipLater(e, v, k);
    }
    if StarAccepts(e, v) {
      assert v[0..] == v;
      assert Accepts(s, v[0..]);
    }
  }

  lemma {:induction false} SkipLater(e: seq<Elem>, v: seq<Char>, k: nat)
    requires k <= |v|
    ensures Skip(e, v) <= k + Skip(e, v[k..])
    decreases k
  {
    if k > 0 {
      assert v[1..][k - 1..] == v[k..];
      SkipLater(e, v[1..], k - 1);
    } else {
      assert v[0..] == v;
    }
  }

  /** How many characters of a string stand for the first one of its view. */
  function Width(s: Str, squoted: bool): (n: nat)
    requires s != []
    ensures 0 < n <= |s|
  {
    if squoted && s[0] == CTLESC && |s| > 1 then 2 else 1
  }

  lemma ViewStep(s: Str, squoted: bool)
    requires s != [] && (squoted ==> Whole(s))
    ensures var n := Width(s, squoted);
            && View(s, squoted) == [At(s, n - 1)] + View(s[n..], squoted)
            && (squoted ==> Whole(s[n..])) && (squoted && s[0] == CTLESC ==> n == 2)
            && View(s, squoted)[1..] == View(s[n..], squoted)
  {
  }

  lemma {:induction false} ViewHasNoNul(s: Str, squoted: bool)
    ensures 0 !in View(s, squoted) && (View(s, squoted) == [] <==> s == [])
    decreases |s|
  {
    if s != [] { ViewHasNoNul(s[Width(s, squoted)..], squoted); }
  }

  /** What follows a star in a pattern. */
  predicate Literal(c: Char) {
    c != CTLESC && c != CTLQUOTEMARK && c != QUERY && c != STAR && c != BRACKET
  }

  lemma WantedIsFirst(pat: Str)
    requires Literal(At(pat, 0)) && Clear(pat)
    ensures Wanted(Parse(pat)) == Some(At(pat, 0))
  {
    if pat != [] { assert Parse(pat)[0] == Next(pat).0; }
  }

  /** The next element of a pattern that has one. */
  lemma ParseStep(pat: Str)
    requires pat != [] && Clear(pat)
    ensures pat[0] == CTLQUOTEMARK ==> Parse(pat) == Parse(pat[1..]) && Clear(pat[1..])
    ensures pat[0] != CTLQUOTEMARK ==>
      var (e, n) := Next(pat);
      Parse(pat) == [e] + Parse(pat[n..]) && Clear(pat[n..]) && Parse(pat)[0] == e && Parse(pat)[1..] == Parse(pat[n..])
  {
  }

  /** One element against one character. */
  lemma AcceptsStep(e: Elem, es: seq<Elem>, s: Str, squoted: bool)
    requires !e.Star? && (squoted ==> Whole(s))
    ensures s == [] ==> !Accepts([e] + es, View(s, squoted))
    ensures s != [] ==>
      var n := Width(s, squoted);
      Accepts([e] + es, View(s, squoted)) == (One(e, At(s, n - 1)) && Accepts(es, View(s[n..], squoted)))
  {
    assert ([e] + es)[1..] == es;
    if s != [] { ViewStep(s, squoted); }
  }

  /** The characters after a star that are stars too, or quote marks. */
  method AfterStars(pat: Str, p0: nat) returns (p: nat)
    requires p0 <= |pat| && Clear(pat[p0..])
    ensures p0 <= p <= |pat| && Clear(pat[p..]) && At(pat, p) != CTLQUOTEMARK && At(pat, p) != STAR
    ensures forall v :: StarAccepts(Parse(pat[p..]), v) == StarAccepts(Parse(pat[p0..]), v)
  {
    hide Clear, Next, Parse, StarAccepts, Somewhere, Accepts;
    p := p0;
    while At(pat, p) == CTLQUOTEMARK || At(pat, p) == STAR
      invariant p0 <= p <= |pat| && Clear(pat[p..])
      invariant forall v :: StarAccepts(Parse(pat[p..]), v) == StarAccepts(Parse(pat[p0..]), v)
      decreases |pat| - p
    {
      ParseStep(pat[p..]);
      assert pat[p..][1..] == pat[p + 1..];
      if pat[p] == STAR {
        StarIsNext(pat[p..]);
        forall v
          ensures StarAccepts(Parse(pat[p + 1..]), v) == StarAccepts(Parse(pat[p..]), v)
        {
          StarStar(Parse(pat[p + 1..]), v);
        }
      }
      p := p + 1;
    }
  }

  lemma StarIsNext(pat: Str)
    requires pat != [] && pat[0] == STAR
    ensures Next(pat) == (Star, 1) && pat[0] != CTLQUOTEMARK
  {
  }

  /** The loop that goes on to the next place where c is found. */
  method SkipTo(s: Str, q0: nat, squoted: bool, c: Char, ghost e: seq<Elem>) returns (found: bool, q: nat)
    requires q0 <= |s| && (squoted ==> Whole(s[q0..])) && c != CTLESC && Wanted(e) == Some(c)
    ensures q0 <= q <= |s| && (squoted ==> Whole(s[q..]))
    ensures if found then StarAccepts(e, View(s[q0..], squoted)) == Somewhere(e, View(s[q..], squoted))
            else !StarAccepts(e, View(s[q0..], squoted))
  {
    hide StarAccepts, Somewhere, Wanted, Parse, Accepts;
    q := q0;
    while At(s, q) != c
      invariant q0 <= q <= |s| && (squoted ==> Whole(s[q..]))
      invariant StarAccepts(e, View(s[q0..], squoted)) == StarAccepts(e, View(s[q..], squoted))
      decreases |s| - q
    {
      ViewHasNoNul(s[q..], squoted);
      SkipAhead(e, View(s[q..], squoted), c);
      if At(s, q) == 0 { return false, q; }
      ViewStep(s[q..], squoted);
      ghost var n := Width(s[q..], squoted);
      assert s[q..][n..] == s[q + n..] && At(s[q..], n - 1) == At(s, q + n - 1);
      if squoted && At(s, q) == CTLESC && At(s, q + 1) == c { return true, q; }
      if squoted && At(s, q) == CTLESC { q := q + 1; }
      q := q + 1;
    }
    found := true;
    ViewHasNoNul(s[q..], squoted);
    SkipAhead(e, View(s[q..], squoted), c);
    SkipDone(e, s[q..], squoted, c);
  }

  lemma SkipDone(e: seq<Elem>, s: Str, squoted: bool, c: Char)
    requires At(s, 0) == c && c != CTLESC && Wanted(e) == Some(c)
    ensures StarAccepts(e, View(s, squoted)) == Somewhere(e, View(s, squoted))
  {
    var v := View(s, squoted);
    ViewHasNoNul(s, squoted);
    SkipAhead(e, v, c);
    assert v[0..] == v;
    if s == [] {
      assert e == [] || e[0].Lit?;
    }
  }

  /** One step of the matcher: the element at the start of the pattern takes one character. */
  lemma TakeOne(pat: Str, s: Str, squoted: bool)
    requires Clear(pat) && pat != [] && pat[0] != CTLQUOTEMARK && !Next(pat).0.Star? && (squoted ==> Whole(s))
    ensures s == [] ==> !Accepts(Parse(pat), View(s, squoted))
    ensures s != [] ==>
      var (e, m) := Next(pat);
      var n := Width(s, squoted);
      && Clear(pat[m..]) && (squoted ==> Whole(s[n..]))
      && Accepts(Parse(pat), View(s, squoted))
         == (One(e, At(s, n - 1)) && Accepts(Parse(pat[m..]), View(s[n..], squoted)))
  {
    hide Accepts, Clear, Next, Parse, Whole, View, One;
    ParseStep(pat);
    var (e, m) := Next(pat);
    AcceptsStep(e, Parse(pat[m..]), s, squoted);
    if s != [] { ViewStep(s, squoted); }
  }

  /** Whether the pattern matches the string, which may have escapes if squoted holds. */
  method Pmatch(pattern: Str, str: Str, squoted: bool) returns (r: bool)
    requires Clear(pattern) && (squoted ==> Whole(str))
    ensures r == Accepts(Parse(pattern), View(str, squoted))
    decreases |pattern|, 0
  {
    hide Accepts, Clear, Next, Parse, Whole, View, One, Somewhere, StarAccepts;
    var p, q := 0, 0;
    while p < |pattern|
      invariant 0 <= p <= |pattern| && 0 <= q <= |str|
      invariant Clear(pattern[p..]) && (squoted ==> Whole(str[q..]))
      invariant Accepts(Parse(pattern[p..]), View(str[q..], squoted)) == Accepts(Parse(pattern), View(str, squoted))
      decreases |pattern| - p
    {
      ghost var pat, s := pattern[p..], str[q..];
      if pattern[p] == CTLQUOTEMARK {
        ParseStep(pat);
        assert pat[1..] == pattern[p + 1..];
        p := p + 1;
      } else if pattern[p] == STAR {
        StarFirst(pat, s, squoted);
        assert pat[1..] == pattern[p + 1..];
        r := MatchStar(pattern, p + 1, str, q, squoted);
        return;
      } else {
        var ok;
        ok, p, q := MatchOne(pattern, p, str, q, squoted);
        if !ok { return false; }
      }
    }
    AtEnd(str[q..], squoted);
    assert pattern[p..] == [];
    r := q == |str|;
  }

  /** pmatch as the rest of the shell calls it. */
  method Patmatch(pattern: Str, str: Str, squoted: bool) returns (r: bool)
    requires Clear(pattern) && (squoted ==> Whole(str))
    ensures r == Accepts(Parse(pattern), View(str, squoted))
    ensures r ==> Lang(Parse(pattern), View(str, squoted))
    ensures Exact(Parse(pattern)) ==> r == Lang(Parse(pattern), View(str, squoted))
  {
    hide *;
    ViewHasNoNul(str, squoted);
    AcceptsIsLang(Parse(pattern), View(str, squoted));
    if Exact(Parse(pattern)) { WhereExact(Parse(pattern), View(str, squoted)); }
    r := Pmatch(pattern, str, squoted);
  }

  /** The pattern *\a and the string a: the one stands for the other, but what pmatch computes does not
      hold of them. */
  lemma StarBackslashFails()
    ensures var pat: Str := [STAR, BACKSLASH, 97];
            && Clear(pat) && Parse(pat) == [Star, Slashed(97)] && View([97], false) == [97]
            && Lang(Parse(pat), View([97], false)) && !Accepts(Parse(pat), View([97], false))
  {
    SlashedLetter();
    var pat: Str, rest: Str, s: Str := [STAR, BACKSLASH, 97], [BACKSLASH, 97], [97];
    assert pat[1..] == rest && s[1..] == [];
    assert Next(pat) == (Star, 1);
    var e: seq<Elem> := [Star, Slashed(97)];
    assert e[1..] == [Slashed(97)] && e[1..][1..] == [];
    assert Lang(e[1..], s[0..]);
    assert View(s, false) == [97] + View([], false);
    assert FirstBackslash(s) == 2;
  }

  lemma SlashedLetter()
    ensures Clear([BACKSLASH, 97]) && Parse([BACKSLASH, 97]) == [Slashed(97)]
  {
    var rest: Str := [BACKSLASH, 97];
    assert rest[2..] == [] && At(rest, 1) == 97;
    assert Next(rest) == (Slashed(97), 2);
    assert Parse([]) == [] && Clear([]);
  }

  lemma StarFirst(pat: Str, s: Str, squoted: bool)
    requires Clear(pat) && pat != [] && pat[0] == STAR
    ensures Clear(pat[1..]) && Accepts(Parse(pat), View(s, squoted)) == StarAccepts(Parse(pat[1..]), View(s, squoted))
  {
    ParseStep(pat);
  }

  lemma AtEnd(s: Str, squoted: bool)
    ensures Accepts(Parse([]), View(s, squoted)) == (s == [])
  {
    ViewHasNoNul(s, squoted);
  }

  /** The case of a star, with what follows it at p0. */
  method MatchStar(pattern: Str, p0: nat, str: Str, q0: nat, squoted: bool) returns (r: bool)
    requires p0 <= |pattern| && q0 <= |str| && Clear(pattern[p0..]) && (squoted ==> Whole(str[q0..]))
    ensures r == StarAccepts(Parse(pattern[p0..]), View(str[q0..], squoted))
    decreases |pattern| - p0, 2
  {
    hide Accepts, Clear, Parse, Whole, View, Somewhere, StarAccepts;
    var q := q0;
    var p := AfterStars(pattern, p0);
    var c := At(pattern, p);
    if Literal(c) {
      WantedIsFirst(pattern[p..]);
      var found;
      found, q := SkipTo(str, q, squoted, c, Parse(pattern[p..]));
      if !found { return false; }
    } else {
      NoSkip(pattern[p..], View(str[q..], squoted));
    }
    r := TryFrom(pattern[p..], str, q, squoted);
  }

  lemma NoSkip(pat: Str, v: seq<Char>)
    requires !Literal(At(pat, 0)) && At(pat, 0) != CTLQUOTEMARK
    ensures StarAccepts(Parse(pat), v) == Somewhere(Parse(pat), v)
  {
    assert Parse(pat)[0] == Next(pat).0;
  }

  /** Tries the pattern at each place of the string from q0 on. */
  method TryFrom(pattern: Str, str: Str, q0: nat, squoted: bool) returns (r: bool)
    requires q0 <= |str| && Clear(pattern) && (squoted ==> Whole(str[q0..]))
    ensures r == Somewhere(Parse(pattern), View(str[q0..], squoted))
    decreases |pattern|, 1
  {
    hide Accepts, Clear, Parse, Whole, View, Somewhere;
    var q := q0;
    while true
      invariant q0 <= q <= |str| && (squoted ==> Whole(str[q..]))
      invariant Somewhere(Parse(pattern), View(str[q0..], squoted))
             == Somewhere(Parse(pattern), View(str[q..], squoted))
      decreases |str| - q
    {
      ghost var s := str[q..];
      SomewhereStep(Parse(pattern), View(s, squoted));
      ViewHasNoNul(s, squoted);
      r := Pmatch(pattern, str[q..], squoted);
      if r { return true; }
      if s != [] { ViewStep(s, squoted); }
      if squoted && At(str, q) == CTLESC { q := q + 1; }
      if At(str, q) == 0 { return false; }
      q := q + 1;
      assert s[Width(s, squoted)..] == str[q..];
    }
  }

  /** The cases of an escape, a question mark, a bracket and any other character. */
  method MatchOne(pattern: Str, p0: nat, str: Str, q0: nat, squoted: bool) returns (ok: bool, p: nat, q: nat)
    requires p0 < |pattern| && q0 <= |str| && Clear(pattern[p0..]) && (squoted ==> Whole(str[q0..]))
    requires pattern[p0] != CTLQUOTEMARK && pattern[p0] != STAR
    ensures p0 < p <= |pattern| && q0 <= q <= |str|
    ensures !ok ==> !Accepts(Parse(pattern[p0..]), View(str[q0..], squoted))
    ensures ok ==> Clear(pattern[p..]) && (squoted ==> Whole(str[q..]))
    ensures ok ==>
      (Accepts(Parse(pattern[p..]), View(str[q..], squoted))
       == Accepts(Parse(pattern[p0..]), View(str[q0..], squoted)))
  {
    hide Accepts, Clear, Parse, Whole, View, One, Next;
    ghost var pat, s := pattern[p0..], str[q0..];
    NextIs(pat);
    TakeOne(pat, s, squoted);
    var c := pattern[p0];
    p, q := p0 + 1, q0;
    if squoted && At(str, q) == CTLESC {
      ViewStep(s, squoted);
      q := q + 1;
    }
    ok := q < |str|;
    if !ok { return; }
    var d := str[q];
    q := q + 1;
    assert s[Width(s, squoted)..] == str[q..] && d == At(s, Width(s, squoted) - 1);
    if c == CTLESC || c == BACKSLASH {
      ok := d == pattern[p];
      p := p + 1;
    } else if c != QUERY {
      var closed := false;
      if c == BRACKET {
        var inverted := At(pattern, p) == BANG;
        assert inverted == Inverted(pat);
        closed := FindClose(pattern[p0..], if inverted then 2 else 1);
        if closed { ClosedIsMembers(pat, SetStart(pat)); }
        if closed {
          var found, end := MatchMembers(pattern[p0..], if inverted then 2 else 1, d);
          ok := found != inverted;
          p := p0 + end + 1;
        }
      }
      if !closed { ok := d == c; }
    }
    assert pat[Next(pat).1..] == pattern[p..];
    OneIs(Next(pat).0, d);
  }

  lemma OneIs(e: Elem, d: Char)
    requires !e.Star?
    ensures e.Lit? || e.Slashed? ==> One(e, d) == (d == e.c)
    ensures e.Any? ==> One(e, d)
    ensures e.Set? ==> One(e, d) == (InRanges(e.ranges, d) != e.invert)
  {
  }

  lemma NextIs(pat: Str)
    requires pat != [] && pat[0] != STAR && pat[0] != CTLQUOTEMARK && Clear(pat)
    ensures !Next(pat).0.Star?
    ensures pat[0] == CTLESC || pat[0] == BACKSLASH ==> |pat| > 1
    ensures pat[0] == CTLESC ==> Next(pat) == (Lit(pat[1]), 2)
    ensures pat[0] == BACKSLASH ==> Next(pat) == (Slashed(pat[1]), 2)
    ensures pat[0] == QUERY ==> Next(pat) == (Any, 1)
    ensures pat[0] == BRACKET ==> Scannable(pat, SetStart(pat)) && Unmarked(pat, SetStart(pat))
    ensures pat[0] == BRACKET && CloseAt(pat, SetStart(pat)).Some? ==>
      var members := Members(pat, SetStart(pat));
      members.Some? && Next(pat) == (Set(Inverted(pat), members.value.0), members.value.1 + 1)
    ensures pat[0] == BRACKET && CloseAt(pat, SetStart(pat)).None? ==> Next(pat) == (Lit(pat[0]), 1)
    ensures pat[0] !in {CTLESC, BACKSLASH, QUERY, BRACKET} ==> Next(pat) == (Lit(pat[0]), 1)
  {
    if pat[0] == BRACKET && CloseAt(pat, SetStart(pat)).Some? { ClosedIsMembers(pat, SetStart(pat)); }
  }
}
