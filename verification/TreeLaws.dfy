/** Laws of shell trees that speak of statuses and of the commands that are run. */
module TreeLaws {
  import opened ShellTrees
  import opened StructuredEval

  // ---------------------------------------------------------------- negation

  /** `! a` succeeds if and only if a fails, and does what a does. */
  lemma NotNegates(env: Env, a: Tree, h: History, st: int, loops: nat, funcs: nat, fuel: nat)
    ensures var r, n := Eval(env, a, h, st, loops, funcs, fuel), Eval(env, Not(a), h, st, loops, funcs, fuel);
      && n.Timeout? == r.Timeout?
      && (n.Res? ==> n.h == r.h && n.sig == r.sig && (n.st == 0 || n.st == 1) && (n.st == 0 <==> r.st != 0))
  {
  }

  /** The laws of De Morgan hold of every environment, but that the second part starts with the status 1 rather
      than 0 in `$?`, or with 0 rather than that of the first part: if it is run, it must not matter. */
  lemma DeMorgan(env: Env, a: Tree, b: Tree, h: History, st: int, loops: nat, funcs: nat, fuel: nat)
    ensures var r := Eval(env, a, h, st, loops, funcs, fuel);
      Eval(env, Not(And(a, b)), h, st, loops, funcs, fuel)
         == Eval(env, Or(Not(a), Not(b)), h, st, loops, funcs, fuel)
      <==>
        (r.Res? && r.sig == Next && r.st == 0 ==>
          Eval(env, Not(b), r.h, 0, loops, funcs, fuel) == Eval(env, Not(b), r.h, 1, loops, funcs, fuel))
    ensures var r := Eval(env, a, h, st, loops, funcs, fuel);
      Eval(env, Not(Or(a, b)), h, st, loops, funcs, fuel)
         == Eval(env, And(Not(a), Not(b)), h, st, loops, funcs, fuel)
      <==>
        (r.Res? && r.sig == Next && r.st != 0 ==>
          Eval(env, Not(b), r.h, r.st, loops, funcs, fuel) == Eval(env, Not(b), r.h, 0, loops, funcs, fuel))
  {
    NotOfList(env, a, b, h, st, loops, funcs, fuel);
    ListOfNots(env, a, b, h, st, loops, funcs, fuel);
    hide Eval;
    NotNegates(env, a, h, st, loops, funcs, fuel);
  }

  lemma NotOfList(env: Env, a: Tree, b: Tree, h: History, st: int, loops: nat, funcs: nat, fuel: nat)
    ensures var r := Eval(env, a, h, st, loops, funcs, fuel);
      && Eval(env, Not(And(a, b)), h, st, loops, funcs, fuel)
         == (if r.Res? && r.sig == Next && r.st == 0 then Eval(env, Not(b), r.h, r.st, loops, funcs, fuel)
             else Eval(env, Not(a), h, st, loops, funcs, fuel))
      && Eval(env, Not(Or(a, b)), h, st, loops, funcs, fuel)
         == (if r.Res? && r.sig == Next && r.st != 0 then Eval(env, Not(b), r.h, r.st, loops, funcs, fuel)
             else Eval(env, Not(a), h, st, loops, funcs, fuel))
  {
    assert Eval(env, And(a, b), h, st, loops, funcs, fuel)
      == var r := Eval(env, a, h, st, loops, funcs, fuel);
         if r.Res? && r.sig == Next && r.st == 0 then Eval(env, b, r.h, r.st, loops, funcs, fuel) else r;
    assert Eval(env, Or(a, b), h, st, loops, funcs, fuel)
      == var r := Eval(env, a, h, st, loops, funcs, fuel);
         if r.Res? && r.sig == Next && r.st != 0 then Eval(env, b, r.h, r.st, loops, funcs, fuel) else r;
  }

  lemma ListOfNots(env: Env, a: Tree, b: Tree, h: History, st: int, loops: nat, funcs: nat, fuel: nat)
    ensures var n := Eval(env, Not(a), h, st, loops, funcs, fuel);
      && Eval(env, Or(Not(a), Not(b)), h, st, loops, funcs, fuel)
         == (if n.Res? && n.sig == Next && n.st != 0 then Eval(env, Not(b), n.h, n.st, loops, funcs, fuel) else n)
      && Eval(env, And(Not(a), Not(b)), h, st, loops, funcs, fuel)
         == (if n.Res? && n.sig == Next && n.st == 0 then Eval(env, Not(b), n.h, n.st, loops, funcs, fuel) else n)
  {
  }

  // ---------------------------------------------------------------- environments that do not look at `$?`

  /** The history without the statuses that commands could see. */
  function Erased(h: History): History {
    match h
    case Start => Start
    case After(before, event) => After(Erased(before), Unseen(event))
  }

  function Unseen(e: Event): Event {
    match e
    case Command(id, _) => Command(id, 0)
    case ExpandWords(args, _) => ExpandWords(args, 0)
    case ExpandWord(expr, _) => ExpandWord(expr, 0)
    case TryPattern(pattern, word, _) => TryPattern(pattern, word, 0)
    case _ => e
  }

  /** Nothing depends on `$?`. */
  ghost predicate Blind(env: Env) {
    forall g: History, h: History :: Erased(g) == Erased(h) ==> env(g) == env(h)
  }

  /** The same has been run, with the same outcome. */
  predicate Alike(q: Res, r: Res) {
    q.Timeout? == r.Timeout? && (q.Res? ==> Erased(q.h) == Erased(r.h) && q.st == r.st && q.sig == r.sig)
  }

  lemma BlindToEvent(env: Env, g: History, h: History, d: Event, e: Event)
    requires Blind(env) && Erased(g) == Erased(h) && Unseen(d) == Unseen(e)
    ensures Erased(After(g, d)) == Erased(After(h, e)) && env(After(g, d)) == env(After(h, e))
  {
  }

  /** What a command does, and the status that it ends with, do not depend on the status that it starts with. */
  lemma {:induction false} StatusUnseen(env: Env, t: Tree, g: History, s: int, h: History, st: int, loops: nat,
                                        funcs: nat, fuel: nat)
    requires Blind(env) && Erased(g) == Erased(h)
    ensures Alike(Eval(env, t, g, s, loops, funcs, fuel), Eval(env, t, h, st, loops, funcs, fuel))
    decreases fuel, t, 1
  {
    hide Blind;
    match t
    case Null =>
    case Not(a) => StatusUnseen(env, a, g, s, h, st, loops, funcs, fuel);
    case Redir(redirect, n) =>
      StatusUnseen(env, n, After(g, Redirect(redirect)), s, After(h, Redirect(redirect)), st, loops, funcs, fuel);
    case Loop(until, test, body) => LoopUnseen(env, until, test, body, g, s, h, st, 0, loops, funcs, fuel);
    case For(args, v, body) =>
      BlindToEvent(env, g, h, ExpandWords(args, s), ExpandWords(args, st));
      var g1, h1 := After(g, ExpandWords(args, s)), After(h, ExpandWords(args, st));
      ForUnseen(env, v, env(h1).words, body, g1, h1, 0, 0, loops, funcs, fuel);
    case Case(expr, clauses) =>
      BlindToEvent(env, g, h, ExpandWord(expr, s), ExpandWord(expr, st));
      var g1, h1 := After(g, ExpandWord(expr, s)), After(h, ExpandWord(expr, st));
      SelectUnseen(env, clauses, env(h1).word, g1, h1, env(h1).status);
      var c, d := Select(env, clauses, env(h1).word, g1, env(h1).status),
                  Select(env, clauses, env(h1).word, h1, env(h1).status);
      if d.3 { StatusUnseen(env, d.2, c.0, c.1, d.0, d.1, loops, funcs, fuel); }
    case Cmd(id) =>
      BlindToEvent(env, g, h, Command(id, s), Command(id, st));
      var g1, h1 := After(g, Command(id, s)), After(h, Command(id, st));
      if env(h1).action.Call? && fuel > 0 {
        StatusUnseen(env, env(h1).action.body, g1, env(h1).status, h1, env(h1).status, loops, funcs + 1, fuel - 1);
      }
    case _ => ListUnseen(env, t, g, s, h, st, loops, funcs, fuel);
  }

  lemma {:induction false} ListUnseen(env: Env, t: Tree, g: History, s: int, h: History, st: int, loops: nat,
                                      funcs: nat, fuel: nat)
    requires Blind(env) && Erased(g) == Erased(h) && (t.Semi? || t.And? || t.Or? || t.If?)
    ensures Alike(Eval(env, t, g, s, loops, funcs, fuel), Eval(env, t, h, st, loops, funcs, fuel))
    decreases fuel, t, 0
  {
    hide Blind, Erased;
    var first := if t.If? then t.test else t.ch1;
    StatusUnseen(env, first, g, s, h, st, loops, funcs, fuel);
    var q, r := Eval(env, first, g, s, loops, funcs, fuel), Eval(env, first, h, st, loops, funcs, fuel);
    if r.Res? && r.sig == Next {
      var second := if !t.If? then t.ch2 else if r.st == 0 then t.ifpart else t.elsepart;
      StatusUnseen(env, second, q.h, q.st, r.h, r.st, loops, funcs, fuel);
    }
  }

  lemma {:induction false} SelectUnseen(env: Env, cs: Clauses, word: string, g: History, h: History, st: int)
    requires Blind(env) && Erased(g) == Erased(h)
    ensures var c, d := Select(env, cs, word, g, st), Select(env, cs, word, h, st);
            Erased(c.0) == Erased(d.0) && c.1 == d.1 && c.2 == d.2 && c.3 == d.3
    decreases cs
  {
    if cs.Clause? {
      MatchUnseen(env, cs.patterns, word, g, h, st);
      var c, d := MatchAny(env, cs.patterns, word, g, st), MatchAny(env, cs.patterns, word, h, st);
      if !d.2 { SelectUnseen(env, cs.next, word, c.0, d.0, d.1); }
    }
  }

  lemma {:induction false} MatchUnseen(env: Env, patterns: seq<int>, word: string, g: History, h: History, st: int)
    requires Blind(env) && Erased(g) == Erased(h)
    ensures var c, d := MatchAny(env, patterns, word, g, st), MatchAny(env, patterns, word, h, st);
            Erased(c.0) == Erased(d.0) && c.1 == d.1 && c.2 == d.2
    decreases |patterns|
  {
    if patterns != [] {
      var e := TryPattern(patterns[0], word, st);
      BlindToEvent(env, g, h, e, e);
      var g1, h1 := After(g, e), After(h, e);
      if !env(h1).matched { MatchUnseen(env, patterns[1..], word, g1, h1, env(h1).status); }
    }
  }

  lemma {:induction false} ForUnseen(env: Env, v: string, words: seq<string>, body: Tree, g: History, h: History,
                                     s: int, st: int, loops: nat, funcs: nat, fuel: nat)
    requires Blind(env) && Erased(g) == Erased(h) && s == st
    ensures Alike(EvalFor(env, v, words, body, g, s, loops, funcs, fuel),
                  EvalFor(env, v, words, body, h, st, loops, funcs, fuel))
    decreases fuel, body, |words| + 2
  {
    hide Blind, Eval;
    if words != [] {
      var e := SetVar(v, words[0]);
      var g1, h1 := After(g, e), After(h, e);
      StatusUnseen(env, body, g1, s, h1, st, loops + 1, funcs, fuel);
      var q, r := Eval(env, body, g1, s, loops + 1, funcs, fuel), Eval(env, body, h1, st, loops + 1, funcs, fuel);
      if r.Res? && Again(r.sig) {
        ForUnseen(env, v, words[1..], body, q.h, r.h, q.st, r.st, loops, funcs, fuel);
      }
    }
  }

  lemma {:induction false} LoopUnseen(env: Env, until: bool, test: Tree, body: Tree, g: History, s: int, h: History,
                                      st: int, status: int, loops: nat, funcs: nat, fuel: nat)
    requires Blind(env) && Erased(g) == Erased(h)
    ensures Alike(EvalLoop(env, until, test, body, g, s, status, loops, funcs, fuel),
                  EvalLoop(env, until, test, body, h, st, status, loops, funcs, fuel))
    decreases fuel, body, 2
  {
    hide Blind, Erased, Eval, EvalRound;
    if fuel > 0 {
      RoundUnseen(env, until, test, body, g, s, h, st, status, loops, funcs, fuel);
      var q, r := EvalRound(env, until, test, body, g, s, status, loops, funcs, fuel),
                  EvalRound(env, until, test, body, h, st, status, loops, funcs, fuel);
      if r.Stay? {
        LoopUnseen(env, until, test, body, q.h, q.st, r.h, r.st, r.status, loops, funcs, fuel - 1);
      }
    }
  }

  predicate RoundsAlike(q: Round, r: Round) {
    match r
    case Late => q.Late?
    case Stay(h, st, status) => q.Stay? && Erased(q.h) == Erased(h) && q.status == status
    case Leave(h, status, sig) => q.Leave? && Erased(q.h) == Erased(h) && q.status == status && q.sig == sig
  }

  lemma {:induction false} RoundUnseen(env: Env, until: bool, test: Tree, body: Tree, g: History, s: int, h: History,
                                       st: int, status: int, loops: nat, funcs: nat, fuel: nat)
    requires Blind(env) && Erased(g) == Erased(h) && fuel > 0
    ensures RoundsAlike(EvalRound(env, until, test, body, g, s, status, loops, funcs, fuel),
                        EvalRound(env, until, test, body, h, st, status, loops, funcs, fuel))
    decreases fuel, body, 1
  {
    hide Blind, Erased, Eval;
    StatusUnseen(env, test, g, s, h, st, loops + 1, funcs, fuel - 1);
    var q, r := Eval(env, test, g, s, loops + 1, funcs, fuel - 1), Eval(env, test, h, st, loops + 1, funcs, fuel - 1);
    if r.Res? && r.sig == Next {
      StatusUnseen(env, body, q.h, q.st, r.h, r.st, loops + 1, funcs, fuel - 1);
    }
  }

  /** Where nothing depends on `$?`, the laws of De Morgan hold: the same is run, and the status and the jump, if
      any, are the same. */
  lemma DeMorganUnseen(env: Env, a: Tree, b: Tree, h: History, st: int, loops: nat, funcs: nat, fuel: nat)
    requires Blind(env)
    ensures Alike(Eval(env, Not(And(a, b)), h, st, loops, funcs, fuel),
                  Eval(env, Or(Not(a), Not(b)), h, st, loops, funcs, fuel))
    ensures Alike(Eval(env, Not(Or(a, b)), h, st, loops, funcs, fuel),
                  Eval(env, And(Not(a), Not(b)), h, st, loops, funcs, fuel))
  {
    NotOfList(env, a, b, h, st, loops, funcs, fuel);
    ListOfNots(env, a, b, h, st, loops, funcs, fuel);
    hide Eval, Blind;
    NotNegates(env, a, h, st, loops, funcs, fuel);
    var r, n := Eval(env, a, h, st, loops, funcs, fuel), Eval(env, Not(a), h, st, loops, funcs, fuel);
    if r.Res? { StatusUnseen(env, Not(b), r.h, r.st, n.h, n.st, loops, funcs, fuel); }
  }

  /** They do not hold of a part that looks at `$?`: `! (true && f)` and `! true || ! f`, where f ends with `$?`. */
  lemma DeMorganFails(env: Env)
    requires forall h: History, st: int :: env(After(h, Command(1, st))) == Reply(0, Done, [], "", false)
    requires forall h: History, st: int :: env(After(h, Command(2, st))) == Reply(st, Done, [], "", false)
    ensures var x := Eval(env, Not(And(Cmd(1), Cmd(2))), Start, 0, 0, 0, 0);
            var y := Eval(env, Or(Not(Cmd(1)), Not(Cmd(2))), Start, 0, 0, 0, 0);
            x.Res? && y.Res? && x.st == 1 && y.st == 0
  {
    var h1 := After(Start, Command(1, 0));
    assert env(h1).action == Done && env(h1).status == 0;
    assert Eval(env, Cmd(1), Start, 0, 0, 0, 0) == Res(h1, 0, Next);
    var h2, h3 := After(h1, Command(2, 0)), After(h1, Command(2, 1));
    assert Eval(env, Cmd(2), h1, 0, 0, 0, 0) == Res(h2, 0, Next);
    assert Eval(env, Cmd(2), h1, 1, 0, 0, 0) == Res(h3, 1, Next);
    NotOfList(env, Cmd(1), Cmd(2), Start, 0, 0, 0, 0);
    ListOfNots(env, Cmd(1), Cmd(2), Start, 0, 0, 0, 0);
  }

  // ---------------------------------------------------------------- lists of simple commands

  /** Runs a simple command that is neither a function nor a jump. */
  function Ran(env: Env, id: int, h: History, st: int): (History, int) {
    var h1 := After(h, Command(id, st));
    (h1, env(h1).status)
  }

  ghost predicate Simple(env: Env) {
    forall h: History :: env(h).action == Done
  }

  /** Of simple commands, the second of a list is run if and only if the first has succeeded (&&) or has failed
      (||); the branch of an `if` depends on its test in the same way; and the last one run gives the status. */
  lemma ListsOfCommands(env: Env, x: int, y: int, z: int, h: History, st: int, loops: nat, funcs: nat, fuel: nat)
    requires Simple(env)
    ensures var first := Ran(env, x, h, st);
      var second, other := Ran(env, y, first.0, first.1), Ran(env, z, first.0, first.1);
      var and, or := if first.1 == 0 then second else first, if first.1 == 0 then first else second;
      var branch := if first.1 == 0 then second else other;
      && Eval(env, Semi(Cmd(x), Cmd(y)), h, st, loops, funcs, fuel) == Res(second.0, second.1, Next)
      && Eval(env, And(Cmd(x), Cmd(y)), h, st, loops, funcs, fuel) == Res(and.0, and.1, Next)
      && Eval(env, Or(Cmd(x), Cmd(y)), h, st, loops, funcs, fuel) == Res(or.0, or.1, Next)
      && Eval(env, If(Cmd(x), Cmd(y), Cmd(z)), h, st, loops, funcs, fuel) == Res(branch.0, branch.1, Next)
  {
    OneCommand(env, x, h, st, loops, funcs, fuel);
    var first := Ran(env, x, h, st);
    OneCommand(env, y, first.0, first.1, loops, funcs, fuel);
    OneCommand(env, z, first.0, first.1, loops, funcs, fuel);
  }

  lemma OneCommand(env: Env, x: int, h: History, st: int, loops: nat, funcs: nat, fuel: nat)
    requires Simple(env)
    ensures var r := Ran(env, x, h, st); Eval(env, Cmd(x), h, st, loops, funcs, fuel) == Res(r.0, r.1, Next)
  {
    assert env(After(h, Command(x, st))).action == Done;
  }

  // ---------------------------------------------------------------- loops of simple commands

  /** The history and the status when n rounds of `x; y` have been run. */
  function Rounds(env: Env, x: int, y: int, h: History, st: int, n: nat): (History, int)
    decreases n
  {
    if n == 0 then (h, st)
    else
      var test := Ran(env, x, h, st);
      var body := Ran(env, y, test.0, test.1);
      Rounds(env, x, y, body.0, body.1, n - 1)
  }

  /** The test of round n, after n rounds, ends with this. */
  function TestOf(env: Env, x: int, y: int, h: History, st: int, n: nat): (History, int) {
    var before := Rounds(env, x, y, h, st, n);
    Ran(env, x, before.0, before.1)
  }

  /** `while x; do y; done`, or `until`, runs x and y in turn for as long as x succeeds, or fails; it ends with the
      status of the last y, or with 0 if there was none. */
  lemma LoopsOfCommands(env: Env, until: bool, x: int, y: int, h: History, st: int, n: nat, loops: nat, funcs: nat,
                        fuel: nat)
    requires Simple(env) && fuel > n
    requires forall m :: 0 <= m < n ==> (TestOf(env, x, y, h, st, m).1 == 0) != until
    requires (TestOf(env, x, y, h, st, n).1 == 0) == until
    ensures Eval(env, Loop(until, Cmd(x), Cmd(y)), h, st, loops, funcs, fuel)
         == Res(TestOf(env, x, y, h, st, n).0, if n == 0 then 0 else Rounds(env, x, y, h, st, n).1, Next)
  {
    RoundsOfCommands(env, until, x, y, h, st, 0, n, loops, funcs, fuel);
  }

  lemma {:induction false} RoundsOfCommands(env: Env, until: bool, x: int, y: int, h: History, st: int, status: int,
                                            n: nat, loops: nat, funcs: nat, fuel: nat)
    requires Simple(env) && fuel > n
    requires forall m :: 0 <= m < n ==> (TestOf(env, x, y, h, st, m).1 == 0) != until
    requires (TestOf(env, x, y, h, st, n).1 == 0) == until
    ensures EvalLoop(env, until, Cmd(x), Cmd(y), h, st, status, loops, funcs, fuel)
         == Res(TestOf(env, x, y, h, st, n).0, if n == 0 then status else Rounds(env, x, y, h, st, n).1, Next)
    decreases n
  {
    hide Ran, Eval, Simple;
    var test := Ran(env, x, h, st);
    var body := Ran(env, y, test.0, test.1);
    OneCommand(env, x, h, st, loops + 1, funcs, fuel - 1);
    OneCommand(env, y, test.0, test.1, loops + 1, funcs, fuel - 1);
    assert TestOf(env, x, y, h, st, 0) == test;
    assert EvalRound(env, until, Cmd(x), Cmd(y), h, st, status, loops, funcs, fuel)
        == if (test.1 == 0) == until then Leave(test.0, status, Next) else Stay(body.0, body.1, body.1);
    if n > 0 {
      forall m | 0 <= m < n
        ensures TestOf(env, x, y, h, st, m + 1) == TestOf(env, x, y, body.0, body.1, m)
      {
      }
      RoundsOfCommands(env, until, x, y, body.0, body.1, body.1, n - 1, loops, funcs, fuel - 1);
      assert Rounds(env, x, y, h, st, n) == Rounds(env, x, y, body.0, body.1, n - 1);
      assert Rounds(env, x, y, body.0, body.1, 0) == body;
    }
  }

  /** The history and the status when the variable has been set to each word in turn, and y been run each time. */
  function ForEach(env: Env, v: string, words: seq<string>, y: int, h: History, st: int): (History, int) {
    if words == [] then (h, st)
    else
      var r := Ran(env, y, After(h, SetVar(v, words[0])), st);
      ForEach(env, v, words[1..], y, r.0, r.1)
  }

  /** `for v in words; do y; done` ends with the status of the last y, or with 0 if there was none. */
  lemma ForLoopsOfCommands(env: Env, args: int, v: string, y: int, h: History, st: int, loops: nat, funcs: nat,
                           fuel: nat)
    requires Simple(env)
    ensures var h1 := After(h, ExpandWords(args, st));
      var r := ForEach(env, v, env(h1).words, y, h1, 0);
      Eval(env, For(args, v, Cmd(y)), h, st, loops, funcs, fuel) == Res(r.0, r.1, Next)
  {
    var h1 := After(h, ExpandWords(args, st));
    WordsOfCommands(env, v, env(h1).words, y, h1, 0, loops, funcs, fuel);
  }

  lemma {:induction false} WordsOfCommands(env: Env, v: string, words: seq<string>, y: int, h: History, st: int,
                                           loops: nat, funcs: nat, fuel: nat)
    requires Simple(env)
    ensures var r := ForEach(env, v, words, y, h, st);
            EvalFor(env, v, words, Cmd(y), h, st, loops, funcs, fuel) == Res(r.0, r.1, Next)
    decreases |words|
  {
    hide Ran, Eval, Simple;
    if words != [] {
      var r := Ran(env, y, After(h, SetVar(v, words[0])), st);
      OneCommand(env, y, After(h, SetVar(v, words[0])), st, loops + 1, funcs, fuel);
      WordsOfCommands(env, v, words[1..], y, r.0, r.1, loops, funcs, fuel);
    }
  }

  // ---------------------------------------------------------------- case commands

  /** All patterns of a case command in order, each with the body of its clause. */
  function Choices(cs: Clauses): seq<(int, Tree)> {
    match cs
    case NoClause => []
    case Clause(patterns, body, next) => WithBody(patterns, body) + Choices(next)
  }

  function WithBody(patterns: seq<int>, body: Tree): (r: seq<(int, Tree)>)
    ensures |r| == |patterns| && forall i :: 0 <= i < |r| ==> r[i] == (patterns[i], body)
  {
    if patterns == [] then [] else [(patterns[0], body)] + WithBody(patterns[1..], body)
  }

  /** The history and the status when the first n of them have been tried. */
  function Tried(env: Env, choices: seq<(int, Tree)>, word: string, h: History, st: int, n: nat): (History, int)
    requires n <= |choices|
  {
    if n == 0 then (h, st)
    else
      var before := Tried(env, choices, word, h, st, n - 1);
      var h1 := After(before.0, TryPattern(choices[n - 1].0, word, before.1));
      (h1, env(h1).status)
  }

  predicate Matched(env: Env, choices: seq<(int, Tree)>, word: string, h: History, st: int, n: nat)
    requires n < |choices|
  {
    env(Tried(env, choices, word, h, st, n + 1).0).matched
  }

  predicate NoneMatched(env: Env, choices: seq<(int, Tree)>, word: string, h: History, st: int, n: nat)
    requires n <= |choices|
  {
    forall m :: 0 <= m < n ==> !Matched(env, choices, word, h, st, m)
  }

  /** The first pattern that matches has been found, after those before it were tried and did not; or none does. */
  ghost predicate IsFirst(env: Env, choices: seq<(int, Tree)>, word: string, h: History, st: int,
                          s: (History, int, Tree, bool)) {
    if s.3 then
      exists n :: 0 <= n < |choices| && Matched(env, choices, word, h, st, n)
        && NoneMatched(env, choices, word, h, st, n)
        && (s.0, s.1) == Tried(env, choices, word, h, st, n + 1) && s.2 == choices[n].1
    else
      NoneMatched(env, choices, word, h, st, |choices|) && (s.0, s.1) == Tried(env, choices, word, h, st, |choices|)
  }

  /** A case command takes the clause of the first pattern that matches. */
  lemma {:induction false} SelectsFirst(env: Env, cs: Clauses, word: string, h: History, st: int)
    ensures IsFirst(env, Choices(cs), word, h, st, Select(env, cs, word, h, st))
    decreases cs
  {
    if cs.Clause? {
      var here, later := WithBody(cs.patterns, cs.body), Choices(cs.next);
      var r := MatchAny(env, cs.patterns, word, h, st);
      MatchesFirst(env, cs.patterns, cs.body, word, h, st);
      if r.2 {
        FirstOfBoth(env, here, later, word, h, st, (r.0, r.1, cs.body, true));
      } else {
        SelectsFirst(env, cs.next, word, r.0, r.1);
        LaterOfBoth(env, here, later, word, h, st, (r.0, r.1), Select(env, cs.next, word, r.0, r.1));
      }
    }
  }

  lemma {:induction false} MatchesFirst(env: Env, patterns: seq<int>, body: Tree, word: string, h: History, st: int)
    ensures var r := MatchAny(env, patterns, word, h, st);
            IsFirst(env, WithBody(patterns, body), word, h, st, (r.0, r.1, body, r.2))
    decreases |patterns|
  {
    if patterns != [] {
      var one, later := [(patterns[0], body)], WithBody(patterns[1..], body);
      var h1 := After(h, TryPattern(patterns[0], word, st));
      assert Tried(env, one, word, h, st, 1) == (h1, env(h1).status);
      var r := MatchAny(env, patterns, word, h, st);
      if env(h1).matched {
        assert Matched(env, one, word, h, st, 0) && NoneMatched(env, one, word, h, st, 0);
        FirstOfBoth(env, one, later, word, h, st, (r.0, r.1, body, true));
      } else {
        assert NoneMatched(env, one, word, h, st, 1);
        MatchesFirst(env, patterns[1..], body, word, h1, env(h1).status);
        LaterOfBoth(env, one, later, word, h, st, (h1, env(h1).status), (r.0, r.1, body, r.2));
      }
    }
  }

  lemma {:induction false} TriedOfBoth(env: Env, a: seq<(int, Tree)>, b: seq<(int, Tree)>, word: string, h: History,
                                       st: int, n: nat)
    requires n <= |a| + |b|
    ensures n <= |a| ==> Tried(env, a + b, word, h, st, n) == Tried(env, a, word, h, st, n)
    ensures n > |a| ==>
      var t := Tried(env, a, word, h, st, |a|);
      Tried(env, a + b, word, h, st, n) == Tried(env, b, word, t.0, t.1, n - |a|)
    decreases n
  {
    if n > 0 { TriedOfBoth(env, a, b, word, h, st, n - 1); }
  }

  lemma FirstOfBoth(env: Env, a: seq<(int, Tree)>, b: seq<(int, Tree)>, word: string, h: History, st: int,
                    s: (History, int, Tree, bool))
    requires s.3 && IsFirst(env, a, word, h, st, s)
    ensures IsFirst(env, a + b, word, h, st, s)
  {
    hide Tried;
    var n :| 0 <= n < |a| && Matched(env, a, word, h, st, n) && NoneMatched(env, a, word, h, st, n)
      && (s.0, s.1) == Tried(env, a, word, h, st, n + 1) && s.2 == a[n].1;
    forall m | 0 <= m <= n
      ensures Matched(env, a + b, word, h, st, m) == Matched(env, a, word, h, st, m)
    {
      TriedOfBoth(env, a, b, word, h, st, m + 1);
    }
    TriedOfBoth(env, a, b, word, h, st, n + 1);
    assert Matched(env, a + b, word, h, st, n) && NoneMatched(env, a + b, word, h, st, n);
  }

  lemma LaterOfBoth(env: Env, a: seq<(int, Tree)>, b: seq<(int, Tree)>, word: string, h: History, st: int,
                    t: (History, int), s: (History, int, Tree, bool))
    requires NoneMatched(env, a, word, h, st, |a|) && t == Tried(env, a, word, h, st, |a|)
    requires IsFirst(env, b, word, t.0, t.1, s)
    ensures IsFirst(env, a + b, word, h, st, s)
  {
    hide Tried;
    forall m | 0 <= m < |a| + |b|
      ensures Matched(env, a + b, word, h, st, m)
           == if m < |a| then Matched(env, a, word, h, st, m) else Matched(env, b, word, t.0, t.1, m - |a|)
    {
      TriedOfBoth(env, a, b, word, h, st, m + 1);
    }
    hide Matched;
    if s.3 {
      var n :| 0 <= n < |b| && Matched(env, b, word, t.0, t.1, n) && NoneMatched(env, b, word, t.0, t.1, n)
        && (s.0, s.1) == Tried(env, b, word, t.0, t.1, n + 1) && s.2 == b[n].1;
      TriedOfBoth(env, a, b, word, h, st, |a| + n + 1);
      assert (a + b)[|a| + n] == b[n];
      assert Matched(env, a + b, word, h, st, |a| + n) && NoneMatched(env, a + b, word, h, st, |a| + n);
    } else {
      TriedOfBoth(env, a, b, word, h, st, |a| + |b|);
      ZeroTried(env, b, word, t);
      if b == [] { assert a + b == a; }
    }
  }

  lemma ZeroTried(env: Env, b: seq<(int, Tree)>, word: string, t: (History, int))
    ensures Tried(env, b, word, t.0, t.1, 0) == t
  {
  }
}
