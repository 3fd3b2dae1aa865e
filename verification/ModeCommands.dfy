/** The mode commands of umask (src/bin/sh/setmode.c): the interpreter getmode, the in-place
    optimiser compress_mode, and the growing buffer that ADDCMD fills. */
module ModeCommands {

  /** A mode_t is the set of the numbers of its bits: the operators | and & and &~ are union,
      intersection and difference, and a shift moves the bits. */
  type Bit = b: nat | b < 32
  type Mode = set<Bit>

  const S_IRWXO: Mode := {0, 1, 2}
  const S_IRWXG: Mode := {3, 4, 5}
  const S_IRWXU: Mode := {6, 7, 8}
  /** S_ISUID, S_ISGID and the permissions: 06777. */
  const STANDARD_BITS: Mode := {0, 1, 2, 3, 4, 5, 6, 7, 8, 10, 11}
  /** S_IFDIR, S_IXUSR, S_IXGRP and S_IXOTH: 040111. */
  const X_TEST: Mode := {0, 3, 6, 14}
  const ALL_BITS: Mode := set b: Bit | 0 <= b < 32

  datatype Cmd2 = Clr | Set | GBits | OBits | UBits

  datatype BitCmd = BitCmd(cmd: char, cmd2: set<Cmd2>, bits: Mode)

  // ---------------------------------------------------------------- what commands mean

  predicate Plain(c: BitCmd) {
    c.cmd == '+' || c.cmd == '-' || c.cmd == 'X'
  }

  predicate Copies(c: BitCmd) {
    c.cmd == 'u' || c.cmd == 'g' || c.cmd == 'o'
  }

  predicate Ends(c: BitCmd) {
    !Plain(c) && !Copies(c)
  }

  function ShiftUp(v: Mode, n: nat): Mode {
    set b: Bit | b in v && b + n < 32 :: (b + n) as Bit
  }

  function ShiftDown(v: Mode, n: nat): Mode {
    set b: Bit | b in v && b >= n :: (b - n) as Bit
  }

  /** Three bits, moved to the places of each class of users that cmd2 names. */
  function Spread(v: Mode, cmd2: set<Cmd2>): Mode {
    (if UBits in cmd2 then ShiftUp(v, 6) else {}) + (if GBits in cmd2 then ShiftUp(v, 3) else {})
    + if OBits in cmd2 then v else {}
  }

  /** The three permission bits that a copying command takes from the mode. */
  function Taken(cmd: char, m: Mode): Mode {
    if cmd == 'u' then ShiftDown(m * S_IRWXU, 6)
    else if cmd == 'g' then ShiftDown(m * S_IRWXG, 3)
    else m * S_IRWXO
  }

  /** Copying the bits v to other classes of users, among the bits that may change. */
  function Copy(v: Mode, cmd2: set<Cmd2>, bits: Mode, m: Mode): Mode {
    var clr := if Clr in cmd2 then Spread(if Set in cmd2 then S_IRWXO else v, cmd2) else {};
    var add := if Set in cmd2 then Spread(v, cmd2) else {};
    (m - (clr * bits)) + (add * bits)
  }

  predicate XApplies(omode: Mode) {
    omode * X_TEST != {}
  }

  /** The mode after one command; omode is the mode that the whole list started from. */
  function Apply(c: BitCmd, omode: Mode, m: Mode): Mode {
    if c.cmd == '+' then m + c.bits
    else if c.cmd == '-' then m - c.bits
    else if c.cmd == 'X' then if XApplies(omode) then m + c.bits else m
    else Copy(Taken(c.cmd, m), c.cmd2, c.bits, m)
  }

  /** The mode after a list of commands, up to the first that ends it. */
  function Run(s: seq<BitCmd>, omode: Mode, m: Mode): Mode {
    if s == [] || Ends(s[0]) then m else Run(s[1..], omode, Apply(s[0], omode, m))
  }

  predicate Terminated(s: seq<BitCmd>) {
    exists i :: 0 <= i < |s| && s[i].cmd == '\0'
  }

  /** The case `common` of getmode. */
  method CopyBits(value: Mode, cmd2: set<Cmd2>, bits: Mode, m: Mode) returns (newmode: Mode)
    ensures newmode == Copy(value, cmd2, bits, m)
  {
    hide ShiftUp;
    newmode := m;
    if Clr in cmd2 {
      var clrval := if Set in cmd2 then S_IRWXO else value;
      if UBits in cmd2 { newmode := newmode - (ShiftUp(clrval, 6) * bits); }
      if GBits in cmd2 { newmode := newmode - (ShiftUp(clrval, 3) * bits); }
      if OBits in cmd2 { newmode := newmode - (clrval * bits); }
    }
    assert newmode == m - ((if Clr in cmd2 then Spread(if Set in cmd2 then S_IRWXO else value, cmd2) else {}) * bits);
    if Set in cmd2 {
      if UBits in cmd2 { newmode := newmode + (ShiftUp(value, 6) * bits); }
      if GBits in cmd2 { newmode := newmode + (ShiftUp(value, 3) * bits); }
      if OBits in cmd2 { newmode := newmode + (value * bits); }
    }
  }

  method Getmode(box: array<BitCmd>, omode: Mode) returns (newmode: Mode)
    requires Terminated(box[..])
    ensures newmode == Run(box[..], omode, omode)
  {
    hide XApplies, Copy, Taken, Terminated;
    ghost var end := FirstEnd(box[..]);
    newmode := omode;
    var i := 0;
    while Plain(box[i]) || Copies(box[i])
      invariant 0 <= i <= end
      invariant Run(box[i..], omode, newmode) == Run(box[..], omode, omode)
      decreases end - i
    {
      var c := box[i];
      assert box[i..][0] == c && box[i..][1..] == box[i + 1..];
      if Copies(c) {
        newmode := CopyBits(Taken(c.cmd, newmode), c.cmd2, c.bits, newmode);
      } else if c.cmd == '+' {
        newmode := newmode + c.bits;
      } else if c.cmd == '-' {
        newmode := newmode - c.bits;
      } else if XApplies(omode) {
        newmode := newmode + c.bits;
      }
      i := i + 1;
    }
  }

  lemma FirstEnd(s: seq<BitCmd>) returns (end: nat)
    requires Terminated(s)
    ensures end < |s| && s[end].cmd == '\0' && Ends(s[end])
  {
    end :| 0 <= end < |s| && s[end].cmd == '\0';
  }

  // ---------------------------------------------------------------- the optimiser

  /** What a run of plain commands amounts to. */
  datatype Sums = Sums(setbits: Mode, clrbits: Mode, xbits: Mode)

  const NOTHING := Sums({}, {}, {})

  function Absorb(a: Sums, c: BitCmd): Sums {
    if c.cmd == '-' then Sums(a.setbits - c.bits, a.clrbits + c.bits, a.xbits - c.bits)
    else if c.cmd == '+' then Sums(a.setbits + c.bits, a.clrbits - c.bits, a.xbits - c.bits)
    else Sums(a.setbits, a.clrbits, a.xbits + (c.bits - a.setbits))
  }

  function Emit(a: Sums): seq<BitCmd> {
    EmitOne('-', a.clrbits) + EmitOne('+', a.setbits) + EmitOne('X', a.xbits)
  }

  /** The list s, after a run that amounts to a, with each run of plain commands made short. */
  function Pack(s: seq<BitCmd>, a: Sums): seq<BitCmd>
    decreases |s|
  {
    if s == [] then Emit(a)
    else if Plain(s[0]) then Pack(s[1..], Absorb(a, s[0]))
    else Emit(a) + [s[0]] + Pack(s[1..], NOTHING)
  }

  /** Bits that are set are neither cleared nor left to X. */
  predicate Disjoint(a: Sums) {
    a.setbits !! a.clrbits && a.setbits !! a.xbits
  }

  function ApplySums(a: Sums, omode: Mode, m: Mode): Mode {
    var r := (m - a.clrbits) + a.setbits;
    if XApplies(omode) then r + a.xbits else r
  }

  /** Absorbing a command into the sums of a run is applying it after them. */
  lemma AbsorbMeans(a: Sums, c: BitCmd, omode: Mode, m: Mode)
    requires Disjoint(a) && Plain(c)
    ensures Disjoint(Absorb(a, c))
    ensures ApplySums(Absorb(a, c), omode, m) == Apply(c, omode, ApplySums(a, omode, m))
  {
    hide XApplies;
  }

  lemma {:induction false} RunOfBoth(s: seq<BitCmd>, t: seq<BitCmd>, omode: Mode, m: Mode)
    requires forall c :: c in s ==> !Ends(c)
    ensures Run(s + t, omode, m) == Run(t, omode, Run(s, omode, m))
  {
    hide Apply, Ends;
    if s == [] {
      assert s + t == t;
    } else {
      assert (s + t)[1..] == s[1..] + t;
      RunOfBoth(s[1..], t, omode, Apply(s[0], omode, m));
    }
  }

  /** A command without bits, which is left out, and any other, which is put down. */
  function EmitOne(cmd: char, bits: Mode): seq<BitCmd> {
    if bits != {} then [BitCmd(cmd, {}, bits)] else []
  }

  lemma EmitOneMeans(cmd: char, bits: Mode, t: seq<BitCmd>, omode: Mode, m: Mode)
    requires cmd == '+' || cmd == '-' || cmd == 'X'
    ensures Run(EmitOne(cmd, bits) + t, omode, m) == Run(t, omode, Apply(BitCmd(cmd, {}, bits), omode, m))
  {
    hide XApplies;
    RunOfBoth(EmitOne(cmd, bits), t, omode, m);
    assert m + {} == m && m - {} == m;
    assert EmitOne(cmd, bits) != [] ==> EmitOne(cmd, bits)[1..] == [];
  }

  /** The commands put down for a run mean what the run meant. */
  lemma EmitMeans(a: Sums, t: seq<BitCmd>, omode: Mode, m: Mode)
    ensures Run(Emit(a) + t, omode, m) == Run(t, omode, ApplySums(a, omode, m))
  {
    hide XApplies, Run, EmitOne;
    var x := EmitOne('X', a.xbits) + t;
    var s := EmitOne('+', a.setbits) + x;
    assert Emit(a) + t == EmitOne('-', a.clrbits) + s;
    EmitOneMeans('-', a.clrbits, s, omode, m);
    EmitOneMeans('+', a.setbits, x, omode, m - a.clrbits);
    EmitOneMeans('X', a.xbits, t, omode, m - a.clrbits + a.setbits);
  }

  /** The packed list means what the list meant, whatever the modes. */
  lemma {:induction false} PackMeans(s: seq<BitCmd>, a: Sums, omode: Mode, m: Mode)
    requires Disjoint(a)
    ensures Run(Pack(s, a), omode, m) == Run(s, omode, ApplySums(a, omode, m))
    decreases |s|
  {
    hide Disjoint, ApplySums, Apply, Emit, Absorb;
    var n := ApplySums(a, omode, m);
    if s == [] {
      EmitMeans(a, [], omode, m);
      assert Emit(a) + [] == Emit(a);
    } else if Plain(s[0]) {
      AbsorbMeans(a, s[0], omode, m);
      PackMeans(s[1..], Absorb(a, s[0]), omode, m);
    } else {
      var t := [s[0]] + Pack(s[1..], NOTHING);
      assert Pack(s, a) == Emit(a) + t;
      EmitMeans(a, t, omode, m);
      NothingMeans(omode, Apply(s[0], omode, n));
      PackMeans(s[1..], NOTHING, omode, Apply(s[0], omode, n));
      assert t[1..] == Pack(s[1..], NOTHING);
    }
  }

  lemma NothingMeans(omode: Mode, m: Mode)
    ensures Disjoint(NOTHING) && ApplySums(NOTHING, omode, m) == m && Emit(NOTHING) == []
  {
    hide XApplies;
  }

  // ---------------------------------------------------------------- what packing achieves

  lemma {:induction false} PackIsNoLonger(s: seq<BitCmd>, a: Sums)
    ensures |Pack(s, a)| <= |s| + |Emit(a)|
    decreases |s|
  {
    if s != [] {
      if Plain(s[0]) {
        PackIsNoLonger(s[1..], Absorb(a, s[0]));
        AbsorbEmits(a, s[0]);
      } else {
        PackIsNoLonger(s[1..], NOTHING);
      }
    }
  }

  /** One more command calls for one more command at most. */
  lemma AbsorbEmits(a: Sums, c: BitCmd)
    requires Plain(c)
    ensures |Emit(Absorb(a, c))| <= |Emit(a)| + 1
  {
    assert a.setbits == {} ==> a.setbits - c.bits == {};
    assert a.xbits == {} ==> a.xbits - c.bits == {};
    assert a.clrbits == {} ==> a.clrbits - c.bits == {};
  }

  /** Reading back what was put down for a run restores its sums. */
  lemma EmitIsAbsorbed(a: Sums, t: seq<BitCmd>)
    requires Disjoint(a)
    ensures Pack(Emit(a) + t, NOTHING) == Pack(t, a)
  {
    hide Pack;
    var b := Sums({}, a.clrbits, {});
    var c := Sums(a.setbits, a.clrbits, {});
    var x := EmitOne('X', a.xbits) + t;
    var s := EmitOne('+', a.setbits) + x;
    assert Emit(a) + t == EmitOne('-', a.clrbits) + s;
    OneIsAbsorbed('-', a.clrbits, s, NOTHING, b);
    OneIsAbsorbed('+', a.setbits, x, b, c);
    OneIsAbsorbed('X', a.xbits, t, c, a);
  }

  lemma OneIsAbsorbed(cmd: char, bits: Mode, t: seq<BitCmd>, a: Sums, b: Sums)
    requires Plain(BitCmd(cmd, {}, bits))
    requires Absorb(a, BitCmd(cmd, {}, bits)).setbits == b.setbits
    requires Absorb(a, BitCmd(cmd, {}, bits)).clrbits == b.clrbits
    requires Absorb(a, BitCmd(cmd, {}, bits)).xbits == b.xbits
    ensures Pack(EmitOne(cmd, bits) + t, a) == Pack(t, b)
  {
    var c := BitCmd(cmd, {}, bits);
    assert Absorb(a, c) == b;
    if bits == {} {
      assert a.setbits + {} == a.setbits && a.setbits - {} == a.setbits && a.clrbits + {} == a.clrbits;
      assert a.clrbits - {} == a.clrbits && a.xbits - {} == a.xbits && {} - a.setbits == {};
      assert a.xbits + {} == a.xbits;
      assert EmitOne(cmd, bits) + t == t;
    } else {
      assert ([c] + t)[1..] == t;
    }
  }

  /** Packing twice is packing once. */
  lemma {:induction false} PackTwice(s: seq<BitCmd>, a: Sums)
    requires Disjoint(a)
    ensures Pack(Pack(s, a), NOTHING) == Pack(s, a)
    decreases |s|
  {
    hide Disjoint, Emit, Absorb;
    NothingMeans({}, {});
    if s == [] {
      EmitIsAbsorbed(a, []);
      assert Emit(a) + [] == Emit(a);
    } else if Plain(s[0]) {
      AbsorbMeans(a, s[0], {}, {});
      PackTwice(s[1..], Absorb(a, s[0]));
    } else {
      var t := [s[0]] + Pack(s[1..], NOTHING);
      assert Pack(s, a) == Emit(a) + t && t[1..] == Pack(s[1..], NOTHING);
      EmitIsAbsorbed(a, t);
      PackTwice(s[1..], NOTHING);
    }
  }

  /** The order within a packed run. */
  function Rank(c: BitCmd): int {
    if c.cmd == '-' then 0 else if c.cmd == '+' then 1 else 2
  }

  /** Neighbours in a packed run: the order -, +, X allows three commands at most, and the bits of
      + are apart from the others. */
  predicate InOrder(c: BitCmd, d: BitCmd) {
    Rank(c) < Rank(d) && (c.cmd == '+' || d.cmd == '+' ==> c.bits !! d.bits)
  }

  predicate Packed(s: seq<BitCmd>) {
    && (forall i :: 0 <= i < |s| && Plain(s[i]) ==> s[i].bits != {} && s[i].cmd2 == {})
    && (forall i :: 0 <= i < |s| - 1 && Plain(s[i]) && Plain(s[i + 1]) ==> InOrder(s[i], s[i + 1]))
  }

  lemma EmitIsPacked(a: Sums, t: seq<BitCmd>)
    requires Disjoint(a) && Packed(t) && (t != [] ==> !Plain(t[0]))
    ensures Packed(Emit(a) + t)
  {
    var e := Emit(a);
    forall i | 0 <= i < |e + t| - 1 && Plain((e + t)[i]) && Plain((e + t)[i + 1])
      ensures InOrder((e + t)[i], (e + t)[i + 1])
    {
      if i >= |e| {
        assert (e + t)[i] == t[i - |e|] && (e + t)[i + 1] == t[i - |e| + 1];
      } else {
        assert i + 1 < |e|;
      }
    }
  }

  lemma {:induction false} PackIsPacked(s: seq<BitCmd>, a: Sums)
    requires Disjoint(a)
    ensures Packed(Pack(s, a))
    decreases |s|
  {
    hide Disjoint, Emit, Absorb;
    NothingMeans({}, {});
    if s == [] {
      EmitIsPacked(a, []);
      assert Emit(a) + [] == Emit(a);
    } else if Plain(s[0]) {
      AbsorbMeans(a, s[0], {}, {});
      PackIsPacked(s[1..], Absorb(a, s[0]));
    } else {
      PackIsPacked(s[1..], NOTHING);
      var t := [s[0]] + Pack(s[1..], NOTHING);
      assert Pack(s, a) == Emit(a) + t;
      assert forall i :: 0 < i < |t| ==> t[i] == Pack(s[1..], NOTHING)[i - 1];
      EmitIsPacked(a, t);
    }
  }

  /** The run that a packed list starts with. */
  lemma LeadingRun(s: seq<BitCmd>) returns (a: Sums, t: seq<BitCmd>)
    requires Packed(s)
    ensures Disjoint(a) && s == Emit(a) + t && Packed(t) && (t != [] ==> !Plain(t[0]))
  {
    hide Packed, EmitOne;
    var clr, s1 := Leading('-', s);
    var add, s2 := Leading('+', s1);
    assert add !! clr;
    var x, s3 := Leading('X', s2);
    assert add !! x && (s3 != [] ==> !Plain(s3[0]));
    hide *;
    ApartIsDisjoint(clr, add, x);
    a, t := Sums(add, clr, x), s3;
    JoinEmitted(clr, add, x, t);
  }

  lemma ApartIsDisjoint(clr: Mode, add: Mode, x: Mode)
    requires add !! clr && add !! x
    ensures Disjoint(Sums(add, clr, x))
  {
  }

  lemma JoinEmitted(clr: Mode, add: Mode, x: Mode, t: seq<BitCmd>)
    ensures EmitOne('-', clr) + (EmitOne('+', add) + (EmitOne('X', x) + t)) == Emit(Sums(add, clr, x)) + t
  {
    hide EmitOne;
    assert EmitOne('-', clr) + (EmitOne('+', add) + (EmitOne('X', x) + t))
        == EmitOne('-', clr) + EmitOne('+', add) + EmitOne('X', x) + t;
  }

  /** The command of the given kind that a packed list starts with, if there is one. */
  lemma Leading(cmd: char, s: seq<BitCmd>) returns (bits: Mode, t: seq<BitCmd>)
    requires Packed(s) && (cmd == '+' || cmd == '-' || cmd == 'X')
    requires s != [] && Plain(s[0]) ==> Rank(s[0]) >= Rank(BitCmd(cmd, {}, {}))
    ensures s == EmitOne(cmd, bits) + t && Packed(t)
    ensures t != [] && Plain(t[0]) ==> Rank(t[0]) > Rank(BitCmd(cmd, {}, {}))
    ensures bits != {} ==> s != [] && s[0] == BitCmd(cmd, {}, bits) && (t != [] && Plain(t[0]) ==> InOrder(s[0], t[0]))
    ensures bits == {} ==> t == s
  {
    if s != [] && s[0].cmd == cmd {
      bits, t := s[0].bits, s[1..];
      assert Plain(s[0]) && s[0] == BitCmd(cmd, {}, bits);
      assert t != [] && Plain(t[0]) ==> InOrder(s[0], s[1]);
      assert forall i :: 0 <= i < |t| ==> t[i] == s[i + 1];
    } else {
      bits, t := {}, s;
    }
  }

  /** The lists that packing leaves alone are those that are packed. */
  lemma {:induction false} FixedIfPacked(s: seq<BitCmd>)
    ensures Packed(s) <==> Pack(s, NOTHING) == s
    decreases |s|
  {
    NothingMeans({}, {});
    PackIsPacked(s, NOTHING);
    if Packed(s) {
      hide Disjoint, Emit;
      var a, t := LeadingRun(s);
      EmitIsAbsorbed(a, t);
      if t != [] {
        assert Packed(t[1..]) by {
          assert forall i :: 0 <= i < |t[1..]| ==> t[1..][i] == t[i + 1];
        }
        FixedIfPacked(t[1..]);
        assert t == [t[0]] + t[1..];
      } else {
        assert Emit(a) + [] == Emit(a);
      }
    }
  }

  predicate AllPlain(s: seq<BitCmd>) {
    forall c :: c in s ==> Plain(c)
  }

  ghost predicate SameMeaning(s: seq<BitCmd>, t: seq<BitCmd>) {
    forall omode, m :: Run(s, omode, m) == Run(t, omode, m)
  }

  /** The sums of a list of plain commands. */
  lemma {:induction false} SumsOf(s: seq<BitCmd>, a: Sums) returns (b: Sums)
    requires AllPlain(s) && Disjoint(a)
    ensures Disjoint(b) && Pack(s, a) == Emit(b)
    decreases |s|
  {
    hide Disjoint, Emit, Absorb;
    if s == [] {
      b := a;
    } else {
      assert s[0] in s && forall c :: c in s[1..] ==> c in s;
      AbsorbMeans(a, s[0], {}, {});
      b := SumsOf(s[1..], Absorb(a, s[0]));
    }
  }

  /** Sums can be told from their effects on three pairs of modes. */
  lemma SumsFromEffects(a: Sums, b: Sums)
    requires Disjoint(a) && Disjoint(b)
    requires forall omode, m :: ApplySums(a, omode, m) == ApplySums(b, omode, m)
    ensures a == b
  {
    assert !XApplies({}) && XApplies(X_TEST) by { assert 0 in X_TEST * X_TEST; }
    hide XApplies;
    assert ApplySums(a, {}, {}) == ApplySums(b, {}, {});
    assert ApplySums(a, X_TEST, {}) == ApplySums(b, X_TEST, {});
    assert ApplySums(a, {}, ALL_BITS) == ApplySums(b, {}, ALL_BITS);
    assert a.setbits == {} - a.clrbits + a.setbits && b.setbits == {} - b.clrbits + b.setbits;
    forall i: Bit
      ensures i in a.clrbits <==> i in b.clrbits
      ensures i in a.xbits <==> i in b.xbits
    {
      assert i in ALL_BITS;
      assert i in ALL_BITS - a.clrbits + a.setbits <==> i in ALL_BITS - b.clrbits + b.setbits;
      assert i in {} - a.clrbits + a.setbits + a.xbits <==> i in {} - b.clrbits + b.setbits + b.xbits;
    }
    assert a.clrbits == b.clrbits && a.xbits == b.xbits;
  }

  /** Runs of plain commands that mean the same are packed into the same commands. */
  lemma PackIsCanonical(s: seq<BitCmd>, t: seq<BitCmd>)
    requires AllPlain(s) && AllPlain(t)
    ensures SameMeaning(s, t) <==> Pack(s, NOTHING) == Pack(t, NOTHING)
  {
    hide Pack, Emit, Disjoint, ApplySums, Run, AllPlain;
    NothingMeans({}, {});
    var a := SumsOf(s, NOTHING);
    var b := SumsOf(t, NOTHING);
    forall omode, m
      ensures Run(s, omode, m) == ApplySums(a, omode, m) && Run(t, omode, m) == ApplySums(b, omode, m)
      ensures Run(s, omode, m) == Run(Pack(s, NOTHING), omode, m)
      ensures Run(t, omode, m) == Run(Pack(t, NOTHING), omode, m)
    {
      PackIsRun(s, a, omode, m);
      PackIsRun(t, b, omode, m);
    }
    if SameMeaning(s, t) {
      SumsFromEffects(a, b);
    }
  }

  lemma PackIsRun(s: seq<BitCmd>, a: Sums, omode: Mode, m: Mode)
    requires Disjoint(a) && Pack(s, NOTHING) == Emit(a)
    ensures Run(s, omode, m) == ApplySums(a, omode, m) == Run(Pack(s, NOTHING), omode, m)
  {
    hide Emit, Disjoint, ApplySums;
    NothingMeans(omode, m);
    PackMeans(s, NOTHING, omode, m);
    EmitMeans(a, [], omode, m);
    assert Emit(a) + [] == Emit(a);
  }

  /** No run of plain commands that means the same is shorter than the packed one. */
  lemma PackIsShortest(s: seq<BitCmd>, t: seq<BitCmd>)
    requires AllPlain(s) && AllPlain(t) && SameMeaning(s, t)
    ensures |Pack(s, NOTHING)| <= |t|
  {
    PackIsCanonical(s, t);
    PackIsNoLonger(t, NOTHING);
    NothingMeans({}, {});
  }

  // ---------------------------------------------------------------- in place

  /** The commands before the terminator. */
  function Body(s: seq<BitCmd>): (r: seq<BitCmd>)
    ensures |r| <= |s| && r == s[..|r|]
    ensures |r| < |s| ==> s[|r|].cmd == '\0'
    ensures forall c :: c in r ==> c.cmd != '\0'
    ensures Terminated(s) <==> |r| < |s|
  {
    if s == [] || s[0].cmd == '\0' then []
    else
      assert Terminated(s) <==> Terminated(s[1..]) by {
        assert forall i :: 0 <= i < |s[1..]| ==> s[1..][i] == s[i + 1];
        assert forall i :: 1 <= i < |s| ==> s[i] == s[1..][i - 1];
      }
      [s[0]] + Body(s[1..])
  }

  lemma {:induction false} RunOfBody(s: seq<BitCmd>, omode: Mode, m: Mode)
    ensures Run(s, omode, m) == Run(Body(s), omode, m)
  {
    hide Apply;
    if s != [] && s[0].cmd != '\0' {
      RunOfBody(s[1..], omode, Apply(s[0], omode, m));
      assert Body(s)[1..] == Body(s[1..]);
    }
  }

  /** Puts down a command, unless it has no bits. */
  method PutOne(box: array<BitCmd>, w: nat, cmd: char, bits: Mode) returns (w': nat)
    requires w + |EmitOne(cmd, bits)| <= box.Length
    modifies box
    ensures w' == w + |EmitOne(cmd, bits)|
    ensures box[..w'] == old(box[..w]) + EmitOne(cmd, bits)
    ensures forall i :: w' <= i < box.Length ==> box[i] == old(box[i])
  {
    w' := w;
    if bits != {} {
      box[w] := BitCmd(cmd, {}, bits);
      w' := w + 1;
      assert box[..w'] == old(box[..w]) + [BitCmd(cmd, {}, bits)];
    }
  }

  method PutSums(box: array<BitCmd>, w: nat, a: Sums) returns (w': nat)
    requires w + |Emit(a)| <= box.Length
    modifies box
    ensures w' == w + |Emit(a)|
    ensures box[..w'] == old(box[..w]) + Emit(a)
    ensures forall i :: w' <= i < box.Length ==> box[i] == old(box[i])
  {
    w' := PutOne(box, w, '-', a.clrbits);
    w' := PutOne(box, w', '+', a.setbits);
    w' := PutOne(box, w', 'X', a.xbits);
  }

  /** Copies down the commands up to the next run, or to the end. */
  method CopyOthers(box: array<BitCmd>, w0: nat, r0: nat, ghost n: nat) returns (w: nat, r: nat, done: bool)
    requires w0 <= r0 <= n < box.Length && box[n].cmd == '\0'
    requires forall i :: r0 <= i < n ==> box[i].cmd != '\0'
    modifies box
    ensures w0 <= w <= r <= n && (done <==> r == n) && (!done ==> Plain(box[r]))
    ensures r - w == r0 - w0 && forall i :: r0 <= i < r ==> !Plain(old(box[i]))
    ensures box[..w] == old(box[..w0]) + old(box[r0..r])
    ensures forall i :: r <= i < n ==> box[i] == old(box[i])
    ensures done ==> box[w] == old(box[n])
    ensures forall i :: n <= i < box.Length && (!done || i > w) ==> box[i] == old(box[i])
    ensures done ==> forall i :: w < i < box.Length ==> box[i] == old(box[i])
    ensures !done ==> forall i :: w <= i < box.Length ==> box[i] == old(box[i])
  {
    w, r := w0, r0;
    while !Plain(box[r])
      invariant w0 <= w <= r <= n && r - w == r0 - w0
      invariant forall i :: r0 <= i < r ==> !Plain(old(box[i]))
      invariant box[..w] == old(box[..w0]) + old(box[r0..r])
      invariant forall i :: w <= i < box.Length ==> box[i] == old(box[i])
      decreases n - r
    {
      box[w] := box[r];
      if box[r].cmd == '\0' { return w, r, true; }
      assert box[..w + 1] == old(box[..w0]) + old(box[r0..r]) + [old(box[r])];
      w, r := w + 1, r + 1;
    }
    done := false;
  }

  /** Adds up the run that starts at r0. */
  method SumRun(box: array<BitCmd>, r0: nat, ghost n: nat) returns (r: nat, a: Sums)
    requires r0 <= n < box.Length && box[n].cmd == '\0'
    ensures r0 <= r <= n && !Plain(box[r]) && |Emit(a)| <= r - r0
    ensures Pack(box[r0..n], NOTHING) == Pack(box[r..n], a)
  {
    hide Emit, Absorb;
    NothingMeans({}, {});
    r, a := r0, NOTHING;
    while Plain(box[r])
      invariant r0 <= r <= n && |Emit(a)| <= r - r0
      invariant Pack(box[r0..n], NOTHING) == Pack(box[r..n], a)
      decreases n - r
    {
      AbsorbEmits(a, box[r]);
      assert box[r..n][1..] == box[r + 1..n];
      a := Absorb(a, box[r]);
      r := r + 1;
    }
  }

  lemma {:induction false} PackOthers(s: seq<BitCmd>, t: seq<BitCmd>)
    requires forall c :: c in s ==> !Plain(c)
    ensures Pack(s + t, NOTHING) == s + Pack(t, NOTHING)
    decreases |s|
  {
    if s == [] {
      assert s + t == t;
    } else {
      assert (s + t)[1..] == s[1..] + t;
      PackOthers(s[1..], t);
      assert Emit(NOTHING) == [];
    }
  }

  lemma PackEnds(t: seq<BitCmd>, a: Sums)
    requires t != [] ==> !Plain(t[0])
    ensures Pack(t, a) == Emit(a) + Pack(t, NOTHING)
  {
    assert Emit(NOTHING) == [];
  }

  /** Packs the commands of an array in place.  What is written never overtakes what is read. */
  method CompressMode(box: array<BitCmd>)
    requires Terminated(box[..])
    modifies box
    ensures Body(box[..]) == Pack(Body(old(box[..])), NOTHING) && Terminated(box[..])
    ensures forall i :: |Body(box[..])| < i < box.Length ==> box[i] == old(box[i])
    ensures SameMeaning(box[..], old(box[..]))
  {
    hide *;
    ghost var s := box[..];
    ghost var n := |Body(s)|;
    assert forall i :: 0 <= i < n ==> s[i] in Body(s);
    var w, r, done := 0, 0, false;
    assert s[0..n] == Body(s);
    while !done
      invariant 0 <= w <= r <= n < box.Length
      invariant !done ==> forall i :: w <= i < box.Length ==> box[i] == s[i]
      invariant !done ==> box[..w] + Pack(s[r..n], NOTHING) == Pack(Body(s), NOTHING)
      invariant done ==> box[..w] == Pack(Body(s), NOTHING) && box[w] == s[n]
      invariant done ==> forall i :: w < i < box.Length ==> box[i] == s[i]
      decreases !done, n - r
    {
      w, r, done := PackStep(box, w, r, s, n);
    }
    BodyIs(box[..], w, Body(s));
    PackedBody(s, box[..]);
  }

  /** Packing what comes before the terminator keeps the meaning. */
  lemma PackedBody(s: seq<BitCmd>, t: seq<BitCmd>)
    requires Body(t) == Pack(Body(s), NOTHING)
    ensures SameMeaning(t, s)
  {
    hide Body, Pack, Run, ApplySums;
    forall omode, m
      ensures Run(t, omode, m) == Run(s, omode, m)
    {
      RunOfBody(s, omode, m);
      RunOfBody(t, omode, m);
      NothingMeans(omode, m);
      PackMeans(Body(s), NOTHING, omode, m);
    }
  }

  lemma BodyIs(s: seq<BitCmd>, w: nat, t: seq<BitCmd>)
    requires w < |s| && s[w].cmd == '\0' && s[..w] == Pack(t, NOTHING) && forall c :: c in t ==> c.cmd != '\0'
    ensures Body(s) == Pack(t, NOTHING) && Terminated(s)
  {
    PackHasNoEnd(t, NOTHING);
    BodyUpTo(s, w);
  }

  lemma {:induction false} PackHasNoEnd(s: seq<BitCmd>, a: Sums)
    requires forall c :: c in s ==> c.cmd != '\0'
    ensures forall c :: c in Pack(s, a) ==> c.cmd != '\0'
    decreases |s|
  {
    if s != [] {
      PackHasNoEnd(s[1..], if Plain(s[0]) then Absorb(a, s[0]) else NOTHING);
    }
  }

  lemma {:induction false} BodyUpTo(s: seq<BitCmd>, w: nat)
    requires w < |s| && s[w].cmd == '\0' && forall c :: c in s[..w] ==> c.cmd != '\0'
    ensures Body(s) == s[..w]
  {
    if w > 0 {
      assert s[0] in s[..w];
      assert forall c :: c in s[1..][..w - 1] ==> c in s[..w];
      BodyUpTo(s[1..], w - 1);
      assert s[..w] == [s[0]] + s[1..][..w - 1];
    }
  }

  /** One round of the outer loop: what is not plain is copied, and the run after it is packed. */
  method PackStep(box: array<BitCmd>, w0: nat, r0: nat, ghost s: seq<BitCmd>, ghost n: nat)
      returns (w: nat, r: nat, done: bool)
    requires w0 <= r0 <= n < box.Length == |s| && s[n].cmd == '\0'
    requires forall i :: r0 <= i < n ==> s[i].cmd != '\0'
    requires forall i :: w0 <= i < box.Length ==> box[i] == s[i]
    modifies box
    ensures w <= r <= n && (!done ==> r > r0)
    ensures !done ==> forall i :: w <= i < box.Length ==> box[i] == s[i]
    ensures !done ==> box[..w] + Pack(s[r..n], NOTHING) == old(box[..w0]) + Pack(s[r0..n], NOTHING)
    ensures done ==> box[..w] == old(box[..w0]) + Pack(s[r0..n], NOTHING) && box[w] == s[n]
    ensures done ==> forall i :: w < i < box.Length ==> box[i] == s[i]
  {
    hide *;
    w, r, done := CopyOthers(box, w0, r0, n);
    ghost var r1 := r;
    assert box[..w] == old(box[..w0]) + s[r0..r1];
    OthersThenRun(s, r0, r1, n);
    if !done {
      ghost var before := box[..w];
      var a;
      r, a := SumRun(box, r, n);
      assert box[r1..n] == s[r1..n] && box[r..n] == s[r..n];
      PackEnds(s[r..n], a);
      w := PutSums(box, w, a);
      assert r > r1;
      Regroup(before, Emit(a), Pack(s[r..n], NOTHING));
      Regroup(old(box[..w0]), s[r0..r1], Pack(s[r1..n], NOTHING));
    }
  }

  lemma Regroup(a: seq<BitCmd>, b: seq<BitCmd>, c: seq<BitCmd>)
    ensures (a + b) + c == a + (b + c)
  {
  }

  lemma OthersThenRun(s: seq<BitCmd>, r0: nat, r: nat, n: nat)
    requires r0 <= r <= n < |s| && forall i :: r0 <= i < r ==> !Plain(s[i])
    ensures Pack(s[r0..n], NOTHING) == s[r0..r] + Pack(s[r..n], NOTHING)
    ensures r == n ==> Pack(s[r..n], NOTHING) == []
  {
    assert s[r0..n] == s[r0..r] + s[r..n];
    PackOthers(s[r0..r], s[r..n]);
    assert Emit(NOTHING) == [];
  }

  // ---------------------------------------------------------------- building the list

  /** The operand of addcmd: permission bits, or the operator of a copy. */
  datatype Oparg = Bits(perm: Mode) | Op(op: char)

  predicate GoodOp(op: char, oparg: Oparg) {
    match oparg
    case Bits(_) => op == '=' || op == '+' || op == '-' || op == 'X'
    case Op(o) => (op == 'u' || op == 'g' || op == 'o') && (o == '+' || o == '-' || o == '=')
  }

  /** The bits that may be set for these users: all that the mask allows if none are named. */
  function Target(who: Mode, mask: Mode): Mode {
    if who != {} then who else mask
  }

  function Classes(who: Mode): set<Cmd2> {
    if who == {} then {UBits, GBits, OBits}
    else (if 8 in who then {UBits} else {}) + (if 5 in who then {GBits} else {}) + (if 2 in who then {OBits} else {})
  }

  /** What an operation of a symbolic mode is to do to the mode m. */
  function Intended(op: char, who: Mode, oparg: Oparg, mask: Mode, omode: Mode, m: Mode): Mode {
    match oparg
    case Bits(perm) =>
      var bits := Target(who, mask) * perm;
      if op == '=' then m - (if who != {} then who else STANDARD_BITS) + bits
      else if op == '+' then m + bits
      else if op == '-' then m - bits
      else if XApplies(omode) then m + bits
      else m
    case Op(o) =>
      var v, cs, bits := Taken(op, m), Classes(who), if who != {} then ALL_BITS else mask;
      if o == '+' then m + (Spread(v, cs) * bits)
      else if o == '-' then m - (Spread(v, cs) * bits)
      else m - (Spread(S_IRWXO, cs) * bits) + (Spread(v, cs) * bits)
  }

  lemma CopyIsIntended(o: char, cmd2: set<Cmd2>, cs: set<Cmd2>, bits: Mode, v: Mode, m: Mode)
    requires Set !in cs && Clr !in cs && (o == '+' || o == '-' || o == '=')
    requires cmd2 == if o == '+' then {Set} else if o == '-' then {Clr} else {Set, Clr}
    ensures Copy(v, cmd2 + cs, bits, m)
         == (if o == '+' then m + (Spread(v, cs) * bits) else if o == '-' then m - (Spread(v, cs) * bits)
             else m - (Spread(S_IRWXO, cs) * bits) + (Spread(v, cs) * bits))
  {
    hide ShiftUp;
    assert forall c :: c == UBits || c == GBits || c == OBits ==> (c in cmd2 + cs <==> c in cs);
    assert Spread(v, cmd2 + cs) == Spread(v, cs) && Spread(S_IRWXO, cmd2 + cs) == Spread(S_IRWXO, cs);
    assert m - ({} * bits) == m;
    hide Spread;
    if o == '-' { assert (m - (Spread(v, cs) * bits)) + ({} * bits) == m - (Spread(v, cs) * bits); }
  }

  lemma ClassesAreClasses(who: Mode)
    ensures Set !in Classes(who) && Clr !in Classes(who)
  {
  }

  /** The array that setmode fills, which ADDCMD enlarges. */
  class CmdBuffer {
    var box: array<BitCmd>
    var next: nat

    /** There is always room for the terminator. */
    ghost predicate Valid()
      reads this, box
    {
      2 <= box.Length && next < box.Length && forall i :: 0 <= i < next ==> !Ends(box[i])
    }

    ghost function Meaning(omode: Mode, m: Mode): Mode
      reads this, box
      requires Valid()
    {
      Run(box[..next], omode, m)
    }

    constructor ()
      ensures Valid() && fresh(box) && forall omode, m :: Meaning(omode, m) == m
    {
      box := new BitCmd[8];
      next := 0;
    }

    /** Puts down one command; the field cmd2 keeps what was there. */
    method Put(cmd: char, bits: Mode)
      requires Valid() && next + 1 < box.Length && Plain(BitCmd(cmd, {}, bits))
      modifies this`next, box
      ensures Valid() && next == old(next) + 1
      ensures forall omode, m :: Meaning(omode, m) == Apply(BitCmd(cmd, {}, bits), omode, old(Meaning(omode, m)))
    {
      ghost var s := box[..next];
      box[next] := box[next].(cmd := cmd, bits := bits);
      ghost var c := box[next];
      next := next + 1;
      assert box[..next] == s + [c];
      Appended(s, c);
    }

    method PutCopy(cmd: char, cmd2: set<Cmd2>, bits: Mode)
      requires Valid() && next + 1 < box.Length && Copies(BitCmd(cmd, cmd2, bits))
      modifies this`next, box
      ensures Valid() && next == old(next) + 1
      ensures forall omode, m :: Meaning(omode, m) == Apply(BitCmd(cmd, cmd2, bits), omode, old(Meaning(omode, m)))
    {
      ghost var s := box[..next];
      ghost var c := BitCmd(cmd, cmd2, bits);
      box[next] := BitCmd(cmd, cmd2, bits);
      next := next + 1;
      assert box[..next] == s + [c];
      Appended(s, c);
    }

    static lemma Appended(s: seq<BitCmd>, c: BitCmd)
      requires !Ends(c) && forall i :: 0 <= i < |s| ==> !Ends(s[i])
      ensures forall omode, m :: Run(s + [c], omode, m) == Apply(c, omode, Run(s, omode, m))
    {
      forall omode, m
        ensures Run(s + [c], omode, m) == Apply(c, omode, Run(s, omode, m))
      {
        RunOfBoth(s, [c], omode, m);
      }
    }

    /** The first part of ADDCMD: four more places once no more than two are left. */
    method Grow()
      requires Valid()
      modifies this`box
      ensures Valid() && next + 2 < box.Length && (box == old(box) || fresh(box))
      ensures box[..next] == old(box[..next])
    {
      if next >= box.Length - 2 {
        var newset := new BitCmd[box.Length + 4];
        var i := 0;
        while i < box.Length
          invariant 0 <= i <= box.Length && box == old(box) && Valid()
          invariant newset[..i] == box[..i] == old(box[..i])
          modifies newset
        {
          newset[i] := box[i];
          i := i + 1;
        }
        assert newset[..next] == newset[..i][..next] && box[..next] == box[..i][..next];
        assert forall j :: 0 <= j < next ==> newset[j] == newset[..next][j];
        box := newset;
      }
    }

    /** Puts down the commands of one operation. */
    method AddCmd(op: char, who: Mode, oparg: Oparg, mask: Mode)
      requires Valid() && GoodOp(op, oparg)
      modifies this, box
      ensures Valid() && (box == old(box) || fresh(box))
      ensures forall omode, m :: Meaning(omode, m) == Intended(op, who, oparg, mask, omode, old(Meaning(omode, m)))
    {
      ClassesAreClasses(who);
      hide Run, Taken, Spread, XApplies, Classes, Copy;
      Grow();
      match oparg {
        case Bits(perm) =>
          if op == '=' { Put('-', if who != {} then who else STANDARD_BITS); }
          Put(if op == '=' then '+' else op, Target(who, mask) * perm);
        case Op(o) =>
          var cmd2 := if o == '+' then {Set} else if o == '-' then {Clr} else {Set, Clr};
          var bits := if who != {} then ALL_BITS else mask;
          forall m
            ensures Copy(Taken(op, m), cmd2 + Classes(who), bits, m) == Intended(op, who, oparg, mask, {}, m)
          {
            CopyIsIntended(o, cmd2, Classes(who), bits, Taken(op, m), m);
          }
          PutCopy(op, cmd2 + Classes(who), bits);
      }
    }

    /** The end of setmode: the terminator, and the optimiser. */
    method Finish()
      requires Valid()
      modifies box
      ensures Terminated(box[..]) && Packed(Body(box[..]))
      ensures forall omode, m :: Run(box[..], omode, m) == old(Meaning(omode, m))
    {
      ghost var s := box[..next];
      box[next] := box[next].(cmd := '\0');
      assert box[..][next].cmd == '\0';
      hide *;
      TerminatedBuffer(box[..], s);
      CompressMode(box);
      NothingMeans({}, {});
      PackIsPacked(s, NOTHING);
    }

    static lemma TerminatedBuffer(t: seq<BitCmd>, s: seq<BitCmd>)
      requires |s| < |t| && t[..|s|] == s && t[|s|].cmd == '\0' && forall i :: 0 <= i < |s| ==> !Ends(s[i])
      ensures Body(t) == s && SameMeaning(t, s) && Terminated(t)
    {
      BodyUpTo(t, |s|);
      forall omode, m
        ensures Run(t, omode, m) == Run(s, omode, m)
      {
        RunOfBody(t, omode, m);
      }
    }
  }
}
