/** Facts about the structured semantics: its signals stay within the loops and calls around
    them, and its fuel never changes a result. */
module StructuredFacts {
  import opened ShellTrees
  import opened StructuredEval

  predicate InBounds(sig: Signal, loops: nat, funcs: nat) {
    match sig
    case Next => true
    case Brk(n) => 1 <= n <= loops
    case Cnt(n) => 1 <= n <= loops
    case RetFn => funcs > 0
    case RetFile => funcs == 0
  }

  /** A pending jump always names an enclosing loop or call; none is left outside all of them. */
  lemma {:induction false} SignalInBounds(env: Env, t: Tree, h: History, st: int, loops: nat, funcs: nat, fuel: nat)
    ensures var r := Eval(env, t, h, st, loops, funcs, fuel); r.Res? ==> InBounds(r.sig, loops, funcs)
    decreases fuel, t, 1
  {
    match t
    case Null =>
    case Semi(a, _) =>
      SignalInBounds(env, a, h, st, loops, funcs, fuel);
      SecondInBounds(env, t, a, t.ch2, h, st, loops, funcs, fuel);
    case And(a, _) =>
      SignalInBounds(env, a, h, st, loops, funcs, fuel);
      SecondInBounds(env, t, a, t.ch2, h, st, loops, funcs, fuel);
    case Or(a, _) =>
      SignalInBounds(env, a, h, st, loops, funcs, fuel);
      SecondInBounds(env, t, a, t.ch2, h, st, loops, funcs, fuel);
    case Not(a) => SignalInBounds(env, a, h, st, loops, funcs, fuel);
    case If(c, a, b) =>
      SignalInBounds(env, c, h, st, loops, funcs, fuel);
      SecondInBounds(env, t, c, a, h, st, loops, funcs, fuel);
      SecondInBounds(env, t, c, b, h, st, loops, funcs, fuel);
    case Loop(until, test, body) => LoopInBounds(env, until, test, body, h, st, 0, loops, funcs, fuel);
    case For(args, v, body) =>
      var h1 := After(h, ExpandWords(args, st));
      ForInBounds(env, v, env(h1).words, body, h1, 0, loops, funcs, fuel);
    case Case(expr, clauses) =>
      var h1 := After(h, ExpandWord(expr, st));
      var s := Select(env, clauses, env(h1).word, h1, env(h1).status);
      if s.3 { SignalInBounds(env, s.2, s.0, s.1, loops, funcs, fuel); }
    case Redir(redirect, n) => SignalInBounds(env, n, After(h, Redirect(redirect)), st, loops, funcs, fuel);
    case Cmd(id) =>
      var h1 := After(h, Command(id, st));
      if env(h1).action.Call? && fuel > 0 {
        SignalInBounds(env, env(h1).action.body, h1, env(h1).status, loops, funcs + 1, fuel - 1);
      }
  }

  /** The command that runs after `a`, both inside `outer`. */
  lemma {:induction false} SecondInBounds(env: Env, outer: Tree, a: Tree, b: Tree, h: History, st: int,
                                          loops: nat, funcs: nat, fuel: nat)
    requires b < outer
    ensures var r := Eval(env, a, h, st, loops, funcs, fuel);
            r.Res? ==> var q := Eval(env, b, r.h, r.st, loops, funcs, fuel);
                       q.Res? ==> InBounds(q.sig, loops, funcs)
    decreases fuel, outer, 0
  {
    var r := Eval(env, a, h, st, loops, funcs, fuel);
    if r.Res? { SignalInBounds(env, b, r.h, r.st, loops, funcs, fuel); }
  }

  lemma {:induction false} LoopInBounds(env: Env, until: bool, test: Tree, body: Tree, h: History, st: int, status: int,
                                        loops: nat, funcs: nat, fuel: nat)
    ensures var r := EvalLoop(env, until, test, body, h, st, status, loops, funcs, fuel);
            r.Res? ==> InBounds(r.sig, loops, funcs)
    decreases fuel, body, 2
  {
    if fuel > 0 {
      SignalInBounds(env, test, h, st, loops + 1, funcs, fuel - 1);
      SecondInBounds(env, Loop(until, test, body), test, body, h, st, loops + 1, funcs, fuel - 1);
      var p := Eval(env, test, h, st, loops + 1, funcs, fuel - 1);
      var r := EvalRound(env, until, test, body, h, st, status, loops, funcs, fuel);
      assert p.Res? ==> r == EvalRest(env, until, body, p, status, loops, funcs, fuel);
      if r.Stay? { LoopInBounds(env, until, test, body, r.h, r.st, r.status, loops, funcs, fuel - 1); }
    }
  }

  lemma {:induction false} ForInBounds(env: Env, v: string, words: seq<string>, body: Tree, h: History, st: int,
                                       loops: nat, funcs: nat, fuel: nat)
    ensures var r := EvalFor(env, v, words, body, h, st, loops, funcs, fuel); r.Res? ==> InBounds(r.sig, loops, funcs)
    decreases fuel, body, |words| + 2
  {
    if words != [] {
      var h1 := After(h, SetVar(v, words[0]));
      var r := Eval(env, body, h1, st, loops + 1, funcs, fuel);
      SignalInBounds(env, body, h1, st, loops + 1, funcs, fuel);
      if r.Res? && Again(r.sig) { ForInBounds(env, v, words[1..], body, r.h, r.st, loops, funcs, fuel); }
    }
  }

  /** More fuel never changes a result: fuel only decides whether there is one. */
  lemma {:induction false} FuelDoesNotMatter(env: Env, t: Tree, h: History, st: int, loops: nat, funcs: nat,
                                             fuel: nat, more: nat)
    requires fuel <= more
    requires Eval(env, t, h, st, loops, funcs, fuel).Res?
    ensures Eval(env, t, h, st, loops, funcs, more) == Eval(env, t, h, st, loops, funcs, fuel)
    decreases fuel, t, 1
  {
    match t
    case Null =>
    case Semi(a, b) =>
      FuelDoesNotMatter(env, a, h, st, loops, funcs, fuel, more);
      SecondFuel(env, t, a, b, h, st, loops, funcs, fuel, more);
    case And(a, b) =>
      FuelDoesNotMatter(env, a, h, st, loops, funcs, fuel, more);
      SecondFuel(env, t, a, b, h, st, loops, funcs, fuel, more);
    case Or(a, b) =>
      FuelDoesNotMatter(env, a, h, st, loops, funcs, fuel, more);
      SecondFuel(env, t, a, b, h, st, loops, funcs, fuel, more);
    case Not(a) => FuelDoesNotMatter(env, a, h, st, loops, funcs, fuel, more);
    case If(c, a, b) =>
      FuelDoesNotMatter(env, c, h, st, loops, funcs, fuel, more);
      SecondFuel(env, t, c, a, h, st, loops, funcs, fuel, more);
      SecondFuel(env, t, c, b, h, st, loops, funcs, fuel, more);
    case Loop(until, test, body) => LoopFuel(env, until, test, body, h, st, 0, loops, funcs, fuel, more);
    case For(args, v, body) =>
      var h1 := After(h, ExpandWords(args, st));
      ForFuel(env, v, env(h1).words, body, h1, 0, loops, funcs, fuel, more);
    case Case(expr, clauses) =>
      var h1 := After(h, ExpandWord(expr, st));
      var s := Select(env, clauses, env(h1).word, h1, env(h1).status);
      if s.3 { FuelDoesNotMatter(env, s.2, s.0, s.1, loops, funcs, fuel, more); }
    case Redir(redirect, n) =>
      FuelDoesNotMatter(env, n, After(h, Redirect(redirect)), st, loops, funcs, fuel, more);
    case Cmd(id) =>
      var h1 := After(h, Command(id, st));
      if env(h1).action.Call? {
        FuelDoesNotMatter(env, env(h1).action.body, h1, env(h1).status, loops, funcs + 1, fuel - 1, more - 1);
      }
  }

  lemma {:induction false} SecondFuel(env: Env, outer: Tree, a: Tree, b: Tree, h: History, st: int,
                                      loops: nat, funcs: nat, fuel: nat, more: nat)
    requires fuel <= more && b < outer
    ensures var r := Eval(env, a, h, st, loops, funcs, fuel);
            r.Res? && Eval(env, b, r.h, r.st, loops, funcs, fuel).Res? ==>
              Eval(env, b, r.h, r.st, loops, funcs, more) == Eval(env, b, r.h, r.st, loops, funcs, fuel)
    decreases fuel, outer, 0
  {
    var r := Eval(env, a, h, st, loops, funcs, fuel);
    if r.Res? && Eval(env, b, r.h, r.st, loops, funcs, fuel).Res? {
      FuelDoesNotMatter(env, b, r.h, r.st, loops, funcs, fuel, more);
    }
  }

  lemma {:induction false} LoopFuel(env: Env, until: bool, test: Tree, body: Tree, h: History, st: int, status: int,
                                    loops: nat, funcs: nat, fuel: nat, more: nat)
    requires fuel <= more
    requires EvalLoop(env, until, test, body, h, st, status, loops, funcs, fuel).Res?
    ensures EvalLoop(env, until, test, body, h, st, status, loops, funcs, more)
         == EvalLoop(env, until, test, body, h, st, status, loops, funcs, fuel)
    decreases fuel, body, 2
  {
    hide Eval, EvalRound;
    RoundFuel(env, until, test, body, h, st, status, loops, funcs, fuel, more);
    var r := EvalRound(env, until, test, body, h, st, status, loops, funcs, fuel);
    if r.Stay? { LoopFuel(env, until, test, body, r.h, r.st, r.status, loops, funcs, fuel - 1, more - 1); }
  }

  lemma {:induction false} RoundFuel(env: Env, until: bool, test: Tree, body: Tree, h: History, st: int, status: int,
                                     loops: nat, funcs: nat, fuel: nat, more: nat)
    requires 0 < fuel <= more
    requires !EvalRound(env, until, test, body, h, st, status, loops, funcs, fuel).Late?
    ensures EvalRound(env, until, test, body, h, st, status, loops, funcs, more)
         == EvalRound(env, until, test, body, h, st, status, loops, funcs, fuel)
    decreases fuel, body, 0
  {
    hide Eval;
    FuelDoesNotMatter(env, test, h, st, loops + 1, funcs, fuel - 1, more - 1);
    SecondFuel(env, Loop(until, test, body), test, body, h, st, loops + 1, funcs, fuel - 1, more - 1);
    var r := Eval(env, test, h, st, loops + 1, funcs, fuel - 1);
    assert EvalRest(env, until, body, r, status, loops, funcs, more)
        == EvalRest(env, until, body, r, status, loops, funcs, fuel);
  }

  lemma {:induction false} ForFuel(env: Env, v: string, words: seq<string>, body: Tree, h: History, st: int,
                                   loops: nat, funcs: nat, fuel: nat, more: nat)
    requires fuel <= more
    requires EvalFor(env, v, words, body, h, st, loops, funcs, fuel).Res?
    ensures EvalFor(env, v, words, body, h, st, loops, funcs, more)
         == EvalFor(env, v, words, body, h, st, loops, funcs, fuel)
    decreases fuel, body, |words| + 2
  {
    if words != [] {
      var h1 := After(h, SetVar(v, words[0]));
      var r := Eval(env, body, h1, st, loops + 1, funcs, fuel);
      FuelDoesNotMatter(env, body, h1, st, loops + 1, funcs, fuel, more);
      if Again(r.sig) { ForFuel(env, v, words[1..], body, r.h, r.st, loops, funcs, fuel, more); }
    }
  }
}
