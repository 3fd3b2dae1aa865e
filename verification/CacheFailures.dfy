/** The two ways in which the command cache goes wrong, each on a run from an empty table. */
module CacheFailures {
  import opened Options
  import opened SearchPath
  import opened CommandCache
  import opened CacheCoherence
  import opened CacheRuns

  /** A file /b/f, and a file with the name of a builtin beside it. */
  const W := World(map["echo" := 3], {"/b/f", "/b/echo"}, map[])

  lemma OnePart(path: string)
    requires ':' !in path
    ensures Components(path) == [path]
  {
    AfterComponent(path, |path|);
    assert path[..|path|] == path;
    assert Components(path) == [Components(path)[0]] + Components(path)[1..];
  }

  /** A directory without options. */
  lemma PlainDirectory()
    ensures Components("/b") == ["/b"] && MarkIndex(["/b"]) == -1 && Clean("/b")
    ensures OptionText("/b") == None && Directory("/b") == "/b"
  {
    OnePart("/b");
    var b := "/b";
    assert b[1..] == "b" && b[1..][1..] == "";
    assert OptionText(b) == OptionText(b[1..]) == OptionText(b[1..][1..]);
    assert HasBuiltinMark(b) == HasBuiltinMark(b[1..]) == HasBuiltinMark(b[1..][1..]);
    assert Directory(b[1..]) == "b" + Directory(b[1..][1..]);
    assert ["/b"][1..] == [];
  }

  /** A search of a PATH that starts with that directory finds what is there. */
  lemma FoundThere(name: string, rest: seq<string>)
    requires "/b/" + name in W.files
    ensures Scan(W, "/x", name, ["/b"] + rest, 0) == Found(CMDNORMAL, 0)
  {
    PlainDirectory();
    assert FullName("/b", name) == "/b/" + name;
  }

  lemma FoundFirst(name: string, rest: seq<string>, firstchange: int)
    requires "/b/" + name in W.files && firstchange > 0
    ensures Rescan(W, "/x", name, ["/b"] + rest, 0, -1, firstchange, true) == HitFile(0, true)
  {
    PlainDirectory();
    assert FullName("/b", name) == "/b/" + name;
  }

  /** A lookup, a cd, and a function of the same name: the function is not found. */
  lemma LostFunctionRun()
    ensures var ops := [Lookup("f", None, false), Cd("/y"), Defun("f", 7)];
            var s := Run(W, Initial("/b", "/x"), ops);
            && Coherent(W, Initial("/b", "/x")) && (forall op :: op in ops ==> CleanOp(op))
            && Search(W, s.cwd, s.funs, "f", Components(s.path)) == Found(CMDFUNCTION, 7)
            && Find(W, s, "f", None, false).0 != Found(CMDFUNCTION, 7)
  {
    hide Directory, Rescan, Components, IsRegular;
    PlainDirectory();
    var s0 := Initial("/b", "/x");
    InitiallyCoherent(W, "/b", "/x");
    assert "/b/" + "f" == "/b/f";
    FoundFirst("f", [], NO_CHANGE);
    assert ["/b"] + [] == ["/b"] && "f" !in W.builtins;
    var s1 := Step(W, s0, Lookup("f", None, false));
    assert s1.table == map["f" := Ent(CMDNORMAL, 0, false)];
    var s2 := Step(W, s1, Cd("/y"));
    assert s2.table == map["f" := Ent(CMDNORMAL, 0, true)];
    var s3 := Step(W, s2, Defun("f", 7));
    assert s3.table == map["f" := Ent(CMDFUNCTION, 7, true)];
    LostFunction(W, s3, "f");
    ThreeSteps(W, s0, Lookup("f", None, false), Cd("/y"), Defun("f", 7));
  }

  lemma ThreeSteps(w: World, s: State, a: Op, b: Op, c: Op)
    ensures Run(w, s, [a, b, c]) == Step(w, Step(w, Step(w, s, a), b), c)
  {
    hide Step;
    var ops := [a, b, c];
    assert ops[1..] == [b, c] && ops[1..][1..] == [c] && ops[1..][1..][1..] == [];
    assert Run(w, Step(w, s, a), [b, c]) == Run(w, Step(w, Step(w, s, a), b), [c]);
  }

  /** The component %builtin. */
  lemma MarkedPart()
    ensures OptionText("%builtin") == Some("builtin") && HasBuiltinMark("%builtin")
    ensures IsBuiltinOption("%builtin") && !IsFuncOption("%builtin")
  {
    var b := "%builtin";
    assert b[1..] == "builtin" && b[1..][0] == 'b';
  }

  lemma TwoParts()
    ensures Components("/b:%builtin") == ["/b", "%builtin"]
    ensures MarkIndex(["/b", "%builtin"]) == 1 && Clean("/b:%builtin")
    ensures ChangeFor(Initial("/b", "/x"), "/b:%builtin") == 1
  {
    hide Components, OptionText, HasBuiltinMark, IsBuiltinOption, IsFuncOption;
    PlainDirectory();
    MarkedPart();
    Parted();
    var n: seq<string>, o: seq<string> := ["/b", "%builtin"], ["/b"];
    assert n[1..] == ["%builtin"] && o[1..] == [];
    NoMark();
    assert CommonLength(o, n) == 1 + CommonLength([], n[1..]);
  }

  lemma NoMark()
    ensures !HasBuiltinMark("/b") && !IsBuiltinOption("/b") && !IsFuncOption("/b")
  {
    PlainDirectory();
    assert MarkIndex(["/b"]) == -1;
  }

  lemma Parted()
    ensures Components("/b:%builtin") == ["/b", "%builtin"]
  {
    hide Components;
    var p := "/b:%builtin";
    var first := p[..2];
    assert first == "/b";
    assert p[3..] == "%builtin";
    AfterComponent(p, 2);
    OnePart("%builtin");
    assert Components(p) == [Components(p)[0]] + Components(p)[1..];
  }

  /** A lookup of a builtin's name on a temporary path that names %builtin: afterwards the builtin is not
      found on PATH, which does not name it. */
  lemma LostBuiltinRun()
    ensures var temp := Some("/b:%builtin");
            var s0 := Initial("/b", "/x");
            var s := Run(W, s0, [Lookup("echo", temp, false)]);
            && Coherent(W, s0) && CleanTemp(temp) && Harmful(W, s0, "echo", temp)
            && Search(W, s.cwd, s.funs, "echo", Components(s.path)) == Found(CMDBUILTIN, 3)
            && Find(W, s, "echo", None, false).0 == Found(CMDNORMAL, 0)
  {
    hide Coherent, CleanTemp, Harmful, Search, Find, Initial, Components;
    var s0, temp := Initial("/b", "/x"), Some("/b:%builtin");
    HarmfulLookup();
    OneStep(W, s0, Lookup("echo", temp, false));
    Reused(Step(W, s0, Lookup("echo", temp, false)));
  }

  lemma OneStep(w: World, s: State, op: Op)
    ensures Run(w, s, [op]) == Step(w, s, op)
  {
    hide Step;
    assert [op][1..] == [];
  }

  lemma HarmfulLookup()
    ensures var s0, temp := Initial("/b", "/x"), Some("/b:%builtin");
            && Coherent(W, s0) && CleanTemp(temp) && Harmful(W, s0, "echo", temp)
            && Find(W, s0, "echo", temp, false).1 == s0.(table := map["echo" := Ent(CMDNORMAL, 0, false)])
  {
    hide *;
    Before();
    IsHarmful();
    Stored();
    InitiallyCoherent(W, "/b", "/x");
  }

  lemma IsHarmful()
    ensures Harmful(W, Initial("/b", "/x"), "echo", Some("/b:%builtin"))
  {
    hide Initial, ChangeOf, BltinOf, SearchedPath, Scan, IsRegular, HasSlash;
    Before();
    AtX();
    NotRegular();
    FoundThere("echo", ["%builtin"]);
  }

  /** What the lookup starts from. */
  lemma Before()
    ensures var s0, temp := Initial("/b", "/x"), Some("/b:%builtin");
            && Clean("/b") && CleanTemp(temp) && s0.builtinloc == -1 && s0.table == map[] && s0.funs == map[]
            && ChangeOf(s0, temp) == 1 && BltinOf(s0, temp) == 1 && SearchedPath(s0, temp) == ["/b"] + ["%builtin"]
  {
    hide Components, MarkIndex, Clean, ChangeFor;
    PlainDirectory();
    TwoParts();
  }

  lemma Stored()
    ensures var s0, temp := Initial("/b", "/x"), Some("/b:%builtin");
            Find(W, s0, "echo", temp, false).1 == s0.(table := map["echo" := Ent(CMDNORMAL, 0, false)])
  {
    hide Initial, ChangeOf, BltinOf, SearchedPath, Rescan;
    var s0, temp := Initial("/b", "/x"), Some("/b:%builtin");
    Before();
    NotRegular();
    FoundFirst("echo", ["%builtin"], 1);
    AtX();
    assert OutcomeOf(W, s0, "echo", temp, false) == Store(CMDNORMAL, 0);
  }

  lemma AtX()
    ensures Initial("/b", "/x").cwd == "/x"
  {
  }

  lemma NotRegular()
    ensures !IsRegular("echo") && !HasSlash("echo") && "/b/" + "echo" == "/b/echo"
  {
  }

  lemma Reused(s: State)
    requires s == Initial("/b", "/x").(table := map["echo" := Ent(CMDNORMAL, 0, false)])
    ensures Search(W, s.cwd, s.funs, "echo", Components(s.path)) == Found(CMDBUILTIN, 3)
    ensures Find(W, s, "echo", None, false).0 == Found(CMDNORMAL, 0)
  {
    PlainDirectory();
    NotRegular();
  }
}
