/** A machine with an explicit control stack, on which each jump drops frames: a reference for Eval. */
module ControlStack {
  import opened ShellTrees
  import opened StructuredEval
  import opened StructuredFacts

  /** What is still to be done when the current command ends. */
  datatype Frame =
    | SemiF(next: Tree)
    | AndF(next: Tree)
    | OrF(next: Tree)
    | NotF
    | IfF(ifpart: Tree, elsepart: Tree)
    | TestF(until: bool, test: Tree, body: Tree, status: int)
    | BodyF(until: bool, test: Tree, body: Tree)
    | ForF(v: string, words: seq<string>, body: Tree)
    | RedirF
    | CallF

  datatype Stack = Empty | Push(top: Frame, rest: Stack)

  datatype Config = Run(t: Tree, k: Stack, h: History, st: int) | Back(k: Stack, h: History, st: int)

  predicate IsLoop(f: Frame) {
    f.TestF? || f.BodyF? || f.ForF?
  }

  function LoopDepth(k: Stack): nat {
    if k.Empty? then 0 else LoopDepth(k.rest) + if IsLoop(k.top) then 1 else 0
  }

  function CallDepth(k: Stack): nat {
    if k.Empty? then 0 else CallDepth(k.rest) + if k.top.CallF? then 1 else 0
  }

  /** The history and the status once a frame has been dropped by a jump. */
  function Drop(f: Frame, h: History, st: int): (History, int) {
    match f
    case NotF => (h, Negate(st))
    case TestF(_, _, _, status) => (h, status)
    case RedirF => (After(h, PopRedir), st)
    case CallF => (After(h, LeaveFunction), st)
    case _ => (h, st)
  }

  function NextWord(v: string, words: seq<string>, body: Tree, k: Stack, h: History, st: int): Config {
    if words == [] then Back(k, h, st)
    else Run(body, Push(ForF(v, words[1..], body), k), After(h, SetVar(v, words[0])), st)
  }

  /** `break n`: on with what follows the n-th loop of the stack. */
  function BreakTo(k: Stack, n: int, h: History, st: int): Config
    requires 1 <= n <= LoopDepth(k)
  {
    var d := Drop(k.top, h, st);
    if !IsLoop(k.top) then BreakTo(k.rest, n, d.0, d.1)
    else if n == 1 then Back(k.rest, d.0, d.1)
    else BreakTo(k.rest, n - 1, d.0, d.1)
  }

  /** `continue n`: on with the next round of the n-th loop of the stack. */
  function ContinueTo(k: Stack, n: int, h: History, st: int): Config
    requires 1 <= n <= LoopDepth(k)
  {
    var d := Drop(k.top, h, st);
    if !IsLoop(k.top) then ContinueTo(k.rest, n, d.0, d.1)
    else if n > 1 then ContinueTo(k.rest, n - 1, d.0, d.1)
    else
      match k.top
      case ForF(v, words, body) => NextWord(v, words, body, k.rest, h, st)
      case TestF(until, test, body, status) => Run(test, k, h, st)
      case BodyF(until, test, body) => Run(test, Push(TestF(until, test, body, st), k.rest), h, st)
  }

  /** `return`: back to the caller of the innermost function, or to the end of the program. */
  function ReturnTo(k: Stack, h: History, st: int): Config {
    if k.Empty? then Back(k, h, st)
    else
      var d := Drop(k.top, h, st);
      if k.top.CallF? then Back(k.rest, d.0, d.1) else ReturnTo(k.rest, d.0, d.1)
  }

  function JumpTo(isBreak: bool, k: Stack, n: nat, h: History): Config {
    var m := if n > LoopDepth(k) then LoopDepth(k) else n;
    if m == 0 then Back(k, h, 0)
    else if isBreak then BreakTo(k, m, h, 0)
    else ContinueTo(k, m, h, 0)
  }

  function Start(env: Env, t: Tree, k: Stack, h: History, st: int): Config {
    match t
    case Null => Back(k, h, 0)
    case Semi(a, b) => Run(a, Push(SemiF(b), k), h, st)
    case And(a, b) => Run(a, Push(AndF(b), k), h, st)
    case Or(a, b) => Run(a, Push(OrF(b), k), h, st)
    case Not(a) => Run(a, Push(NotF, k), h, st)
    case If(c, a, b) => Run(c, Push(IfF(a, b), k), h, st)
    case Loop(until, test, body) => Run(test, Push(TestF(until, test, body, 0), k), h, st)
    case For(args, v, body) =>
      var h1 := After(h, ExpandWords(args, st));
      NextWord(v, env(h1).words, body, k, h1, 0)
    case Case(expr, clauses) =>
      var h1 := After(h, ExpandWord(expr, st));
      var s := Select(env, clauses, env(h1).word, h1, env(h1).status);
      if s.3 then Run(s.2, k, s.0, s.1) else Back(k, s.0, s.1)
    case Redir(redirect, n) => Run(n, Push(RedirF, k), After(h, Redirect(redirect)), st)
    case Cmd(id) =>
      var h1 := After(h, Command(id, st));
      match env(h1).action
      case Done => Back(k, h1, env(h1).status)
      case BreakCmd(n) => JumpTo(true, k, n, h1)
      case ContinueCmd(n) => JumpTo(false, k, n, h1)
      case ReturnCmd => ReturnTo(k, h1, env(h1).status)
      case Call(body) => Run(body, Push(CallF, k), h1, env(h1).status)
  }

  function Resume(f: Frame, k: Stack, h: History, st: int): Config {
    match f
    case SemiF(b) => Run(b, k, h, st)
    case AndF(b) => if st != 0 then Back(k, h, st) else Run(b, k, h, st)
    case OrF(b) => if st == 0 then Back(k, h, st) else Run(b, k, h, st)
    case NotF => Back(k, h, Negate(st))
    case IfF(a, b) => if st == 0 then Run(a, k, h, st) else Run(b, k, h, st)
    case TestF(until, test, body, status) =>
      if (st == 0) == until then Back(k, h, status) else Run(body, Push(BodyF(until, test, body), k), h, st)
    case BodyF(until, test, body) => Run(test, Push(TestF(until, test, body, st), k), h, st)
    case ForF(v, words, body) => NextWord(v, words, body, k, h, st)
    case RedirF => Back(k, After(h, PopRedir), st)
    case CallF => Back(k, After(h, LeaveFunction), st)
  }

  predicate Halted(c: Config) {
    c.Back? && c.k.Empty?
  }

  function Step(env: Env, c: Config): Config {
    match c
    case Run(t, k, h, st) => Start(env, t, k, h, st)
    case Back(k, h, st) => if k.Empty? then c else Resume(k.top, k.rest, h, st)
  }

  function Steps(env: Env, n: nat, c: Config): Config {
    if n == 0 then c else Steps(env, n - 1, Step(env, c))
  }

  lemma {:induction false} StepsAdd(env: Env, m: nat, n: nat, c: Config)
    ensures Steps(env, m + n, c) == Steps(env, n, Steps(env, m, c))
  {
    if m > 0 { StepsAdd(env, m - 1, n, Step(env, c)); }
  }

  /** Where the machine goes when a command inside the stack k ends with a signal. */
  function Deliver(k: Stack, sig: Signal, h: History, st: int): Config
    requires InBounds(sig, LoopDepth(k), CallDepth(k))
  {
    match sig
    case Next => Back(k, h, st)
    case Brk(n) => BreakTo(k, n, h, st)
    case Cnt(n) => ContinueTo(k, n, h, st)
    case RetFn => ReturnTo(k, h, st)
    case RetFile => ReturnTo(k, h, st)
  }

  /** Eval inside the loops and calls of the stack k. */
  function EvalIn(env: Env, t: Tree, k: Stack, h: History, st: int, fuel: nat): (r: Res)
    ensures r.Res? ==> InBounds(r.sig, LoopDepth(k), CallDepth(k))
  {
    SignalInBounds(env, t, h, st, LoopDepth(k), CallDepth(k), fuel);
    Eval(env, t, h, st, LoopDepth(k), CallDepth(k), fuel)
  }

  ghost predicate Reaches(env: Env, c: Config, d: Config) {
    exists n: nat :: Steps(env, n, c) == d
  }

  lemma ReachesVia(env: Env, c: Config, d: Config, e: Config)
    requires Reaches(env, c, d) && Reaches(env, d, e)
    ensures Reaches(env, c, e)
  {
    var m: nat :| Steps(env, m, c) == d;
    var n: nat :| Steps(env, n, d) == e;
    StepsAdd(env, m, n, c);
  }

  lemma ReachesStep(env: Env, c: Config, e: Config)
    requires Reaches(env, Step(env, c), e)
    ensures Reaches(env, c, e)
  {
    var n: nat :| Steps(env, n, Step(env, c)) == e;
    assert Steps(env, n + 1, c) == e;
  }

  lemma ReachesSelf(env: Env, c: Config)
    ensures Reaches(env, c, c)
  {
    assert Steps(env, 0, c) == c;
  }

  /** The machine just after a command run on top of the frame f has ended. */
  function AfterChild(f: Frame, k: Stack, r: Res): Config
    requires r.Res? && InBounds(r.sig, LoopDepth(Push(f, k)), CallDepth(Push(f, k)))
  {
    if r.sig == Next then Resume(f, k, r.h, r.st) else Deliver(Push(f, k), r.sig, r.h, r.st)
  }

  /** The machine runs a command as Eval says, whatever the stack below it. */
  lemma {:induction false} Simulates(env: Env, t: Tree, k: Stack, h: History, st: int, fuel: nat)
    requires EvalIn(env, t, k, h, st, fuel).Res?
    ensures var r := EvalIn(env, t, k, h, st, fuel);
            && Reaches(env, Step(env, Run(t, k, h, st)), Deliver(k, r.sig, r.h, r.st))
            && Reaches(env, Run(t, k, h, st), Deliver(k, r.sig, r.h, r.st))
    decreases fuel, t, 2
  {
    var c := Run(t, k, h, st);
    var r := EvalIn(env, t, k, h, st, fuel);
    var goal := Deliver(k, r.sig, r.h, r.st);
    match t {
      case Null => ReachesSelf(env, goal);
      case Semi(_, _) => SimulatesPair(env, t, k, h, st, fuel);
      case And(_, _) => SimulatesPair(env, t, k, h, st, fuel);
      case Or(_, _) => SimulatesPair(env, t, k, h, st, fuel);
      case If(_, _, _) => SimulatesPair(env, t, k, h, st, fuel);
      case Not(a) => Child(env, NotF, a, k, h, st, fuel);
      case Redir(redirect, n) => Child(env, RedirF, n, k, After(h, Redirect(redirect)), st, fuel);
      case _ => SimulatesOther(env, t, k, h, st, fuel);
    }
    ReachesStep(env, c, goal);
  }

  /** The commands that run a first part and then perhaps a second. */
  lemma {:induction false} SimulatesPair(env: Env, t: Tree, k: Stack, h: History, st: int, fuel: nat)
    requires t.Semi? || t.And? || t.Or? || t.If?
    requires EvalIn(env, t, k, h, st, fuel).Res?
    ensures var r := EvalIn(env, t, k, h, st, fuel);
            Reaches(env, Step(env, Run(t, k, h, st)), Deliver(k, r.sig, r.h, r.st))
    decreases fuel, t, 1
  {
    match t
    case Semi(a, b) =>
      Child(env, SemiF(b), a, k, h, st, fuel);
      SimulatesSecond(env, t, SemiF(b), a, b, k, h, st, fuel);
    case And(a, b) =>
      Child(env, AndF(b), a, k, h, st, fuel);
      SimulatesSecond(env, t, AndF(b), a, b, k, h, st, fuel);
    case Or(a, b) =>
      Child(env, OrF(b), a, k, h, st, fuel);
      SimulatesSecond(env, t, OrF(b), a, b, k, h, st, fuel);
    case If(test, a, b) =>
      Child(env, IfF(a, b), test, k, h, st, fuel);
      SimulatesSecond(env, t, IfF(a, b), test, a, k, h, st, fuel);
      SimulatesSecond(env, t, IfF(a, b), test, b, k, h, st, fuel);
  }

  /** Loops, case commands and simple commands. */
  lemma {:induction false} SimulatesOther(env: Env, t: Tree, k: Stack, h: History, st: int, fuel: nat)
    requires t.Loop? || t.For? || t.Case? || t.Cmd?
    requires EvalIn(env, t, k, h, st, fuel).Res?
    ensures var r := EvalIn(env, t, k, h, st, fuel);
            Reaches(env, Step(env, Run(t, k, h, st)), Deliver(k, r.sig, r.h, r.st))
    decreases fuel, t, 1
  {
    hide Reaches, Steps;
    match t
    case Loop(until, test, body) => SimulatesLoop(env, until, test, body, k, h, st, 0, fuel);
    case For(args, v, body) =>
      var h1 := After(h, ExpandWords(args, st));
      SimulatesFor(env, v, env(h1).words, body, k, h1, 0, fuel);
    case Case(_, _) => SimulatesCase(env, t, k, h, st, fuel);
    case Cmd(_) => SimulatesCmd(env, t, k, h, st, fuel);
  }

  lemma {:induction false} SimulatesCase(env: Env, t: Tree, k: Stack, h: History, st: int, fuel: nat)
    requires t.Case? && EvalIn(env, t, k, h, st, fuel).Res?
    ensures var r := EvalIn(env, t, k, h, st, fuel);
            Reaches(env, Step(env, Run(t, k, h, st)), Deliver(k, r.sig, r.h, r.st))
    decreases fuel, t, 0
  {
    hide Reaches, Steps;
    var r := EvalIn(env, t, k, h, st, fuel);
    var h1 := After(h, ExpandWord(t.expr, st));
    var s := Select(env, t.clauses, env(h1).word, h1, env(h1).status);
    if s.3 {
      Simulates(env, s.2, k, s.0, s.1, fuel);
    } else {
      ReachesSelf(env, Deliver(k, r.sig, r.h, r.st));
    }
  }

  lemma {:induction false} SimulatesCmd(env: Env, t: Tree, k: Stack, h: History, st: int, fuel: nat)
    requires t.Cmd? && EvalIn(env, t, k, h, st, fuel).Res?
    ensures var r := EvalIn(env, t, k, h, st, fuel);
            Reaches(env, Step(env, Run(t, k, h, st)), Deliver(k, r.sig, r.h, r.st))
    decreases fuel, t, 0
  {
    hide Reaches, Steps;
    var r := EvalIn(env, t, k, h, st, fuel);
    var h1 := After(h, Command(t.id, st));
    if env(h1).action.Call? {
      Child(env, CallF, env(h1).action.body, k, h1, env(h1).status, fuel - 1);
    } else {
      ReachesSelf(env, Deliver(k, r.sig, r.h, r.st));
    }
  }

  lemma {:induction false} Child(env: Env, f: Frame, a: Tree, k: Stack, h: History, st: int, fuel: nat)
    requires EvalIn(env, a, Push(f, k), h, st, fuel).Res?
    ensures var r := EvalIn(env, a, Push(f, k), h, st, fuel);
            && Reaches(env, Step(env, Run(a, Push(f, k), h, st)), AfterChild(f, k, r))
            && Reaches(env, Run(a, Push(f, k), h, st), AfterChild(f, k, r))
    decreases fuel, a, 3
  {
    var r := EvalIn(env, a, Push(f, k), h, st, fuel);
    Simulates(env, a, Push(f, k), h, st, fuel);
    if r.sig == Next {
      var d := Back(Push(f, k), r.h, r.st);
      ReachesSelf(env, Step(env, d));
      ReachesStep(env, d, Step(env, d));
      ReachesVia(env, Step(env, Run(a, Push(f, k), h, st)), d, Step(env, d));
    }
    ReachesStep(env, Run(a, Push(f, k), h, st), AfterChild(f, k, r));
  }

  /** If the frame f goes on with b after a, so does the run. */
  lemma {:induction false} SimulatesSecond(env: Env, outer: Tree, f: Frame, a: Tree, b: Tree, k: Stack, h: History,
                                           st: int, fuel: nat)
    requires b < outer
    requires EvalIn(env, a, Push(f, k), h, st, fuel).Res?
    requires var c := Run(a, Push(f, k), h, st);
             Reaches(env, c, AfterChild(f, k, EvalIn(env, a, Push(f, k), h, st, fuel)))
    ensures var r := EvalIn(env, a, Push(f, k), h, st, fuel);
            var q := EvalIn(env, b, k, r.h, r.st, fuel);
            r.sig == Next && Resume(f, k, r.h, r.st) == Run(b, k, r.h, r.st) && q.Res? ==>
              Reaches(env, Run(a, Push(f, k), h, st), Deliver(k, q.sig, q.h, q.st))
    decreases fuel, outer, 0
  {
    var r := EvalIn(env, a, Push(f, k), h, st, fuel);
    var q := EvalIn(env, b, k, r.h, r.st, fuel);
    if r.sig == Next && Resume(f, k, r.h, r.st) == Run(b, k, r.h, r.st) && q.Res? {
      Simulates(env, b, k, r.h, r.st, fuel);
      ReachesVia(env, Run(a, Push(f, k), h, st), Run(b, k, r.h, r.st), Deliver(k, q.sig, q.h, q.st));
    }
  }

  lemma {:induction false} SimulatesLoop(env: Env, until: bool, test: Tree, body: Tree, k: Stack, h: History, st: int,
                                         status: int, fuel: nat)
    requires EvalLoop(env, until, test, body, h, st, status, LoopDepth(k), CallDepth(k), fuel).Res?
    ensures var r := EvalLoop(env, until, test, body, h, st, status, LoopDepth(k), CallDepth(k), fuel);
            && InBounds(r.sig, LoopDepth(k), CallDepth(k))
            && Reaches(env, Run(test, Push(TestF(until, test, body, status), k), h, st), Deliver(k, r.sig, r.h, r.st))
    decreases fuel, body, 4
  {
    var loops, funcs := LoopDepth(k), CallDepth(k);
    var goal := EvalLoop(env, until, test, body, h, st, status, loops, funcs, fuel);
    LoopInBounds(env, until, test, body, h, st, status, loops, funcs, fuel);
    var f := TestF(until, test, body, status);
    var c := Run(test, Push(f, k), h, st);
    var r := EvalIn(env, test, Push(f, k), h, st, fuel - 1);
    Child(env, f, test, k, h, st, fuel - 1);
    assert EvalRound(env, until, test, body, h, st, status, loops, funcs, fuel)
        == EvalRest(env, until, body, r, status, loops, funcs, fuel);
    if r.sig == Next && (r.st == 0) != until {
      SimulatesBody(env, until, test, body, k, r.h, r.st, goal, fuel);
      ReachesVia(env, c, AfterChild(f, k, r), Deliver(k, goal.sig, goal.h, goal.st));
    } else if r.sig != Next && Again(r.sig) {
      SimulatesLoop(env, until, test, body, k, r.h, r.st, status, fuel - 1);
      ReachesVia(env, c, AfterChild(f, k, r), Deliver(k, goal.sig, goal.h, goal.st));
    }
  }

  /** The rest of a loop from the start of its body. */
  lemma {:induction false} SimulatesBody(env: Env, until: bool, test: Tree, body: Tree, k: Stack, h: History, st: int,
                                         goal: Res, fuel: nat)
    requires fuel > 0 && goal.Res? && InBounds(goal.sig, LoopDepth(k), CallDepth(k))
    requires var q := Eval(env, body, h, st, LoopDepth(k) + 1, CallDepth(k), fuel - 1);
             && q.Res?
             && goal == if Again(q.sig)
                        then EvalLoop(env, until, test, body, q.h, q.st, q.st, LoopDepth(k), CallDepth(k), fuel - 1)
                        else Res(q.h, q.st, LeaveLoop(q.sig))
    ensures Reaches(env, Run(body, Push(BodyF(until, test, body), k), h, st), Deliver(k, goal.sig, goal.h, goal.st))
    decreases fuel, body, 0
  {
    var g := BodyF(until, test, body);
    var c := Run(body, Push(g, k), h, st);
    var q := EvalIn(env, body, Push(g, k), h, st, fuel - 1);
    Child(env, g, body, k, h, st, fuel - 1);
    if Again(q.sig) {
      SimulatesLoop(env, until, test, body, k, q.h, q.st, q.st, fuel - 1);
      ReachesVia(env, c, AfterChild(g, k, q), Deliver(k, goal.sig, goal.h, goal.st));
    }
  }

  lemma {:induction false} SimulatesFor(env: Env, v: string, words: seq<string>, body: Tree, k: Stack, h: History,
      st: int, fuel: nat)
    requires EvalFor(env, v, words, body, h, st, LoopDepth(k), CallDepth(k), fuel).Res?
    ensures var r := EvalFor(env, v, words, body, h, st, LoopDepth(k), CallDepth(k), fuel);
            && InBounds(r.sig, LoopDepth(k), CallDepth(k))
            && Reaches(env, NextWord(v, words, body, k, h, st), Deliver(k, r.sig, r.h, r.st))
    decreases fuel, body, |words| + 4
  {
    hide Step, Steps, Reaches, Eval, EvalRound, EvalLoop;
    var goal := EvalFor(env, v, words, body, h, st, LoopDepth(k), CallDepth(k), fuel);
    ForInBounds(env, v, words, body, h, st, LoopDepth(k), CallDepth(k), fuel);
    if words == [] {
      ReachesSelf(env, Back(k, h, st));
    } else {
      var f := ForF(v, words[1..], body);
      var h1 := After(h, SetVar(v, words[0]));
      var r := EvalIn(env, body, Push(f, k), h1, st, fuel);
      Child(env, f, body, k, h1, st, fuel);
      if Again(r.sig) {
        SimulatesFor(env, v, words[1..], body, k, r.h, r.st, fuel);
        ReachesVia(env, Run(body, Push(f, k), h1, st), AfterChild(f, k, r), Deliver(k, goal.sig, goal.h, goal.st));
      }
    }
  }

  /** The machine is still at work after some n >= least steps. */
  ghost predicate RunsFor(env: Env, c: Config, least: nat) {
    exists n: nat :: n >= least && !Halted(Steps(env, n, c))
  }

  lemma RunsAfter(env: Env, c: Config, d: Config, least: nat)
    requires Reaches(env, c, d) && RunsFor(env, d, least)
    ensures RunsFor(env, c, least)
  {
    var m: nat :| Steps(env, m, c) == d;
    var n: nat :| n >= least && !Halted(Steps(env, n, d));
    StepsAdd(env, m, n, c);
  }

  lemma RunsStep(env: Env, c: Config, least: nat)
    requires RunsFor(env, Step(env, c), least)
    ensures RunsFor(env, c, least + 1)
    ensures RunsFor(env, c, least)
  {
    var n: nat :| n >= least && !Halted(Steps(env, n, Step(env, c)));
    assert !Halted(Steps(env, n + 1, c));
  }

  lemma RunsHere(env: Env, c: Config)
    requires !Halted(c)
    ensures RunsFor(env, c, 0)
  {
    assert !Halted(Steps(env, 0, c));
  }

  /** When Eval runs out of fuel, the machine has more than that many steps to make. */
  lemma {:induction false} TimeoutRuns(env: Env, t: Tree, k: Stack, h: History, st: int, fuel: nat)
    requires EvalIn(env, t, k, h, st, fuel).Timeout?
    ensures RunsFor(env, Run(t, k, h, st), fuel + 1)
    decreases fuel, t, 2
  {
    var c := Run(t, k, h, st);
    match t {
      case Semi(a, b) => TimeoutSecond(env, t, SemiF(b), a, b, k, h, st, fuel);
      case And(a, b) => TimeoutSecond(env, t, AndF(b), a, b, k, h, st, fuel);
      case Or(a, b) => TimeoutSecond(env, t, OrF(b), a, b, k, h, st, fuel);
      case If(test, a, b) =>
        var r := EvalIn(env, test, Push(IfF(a, b), k), h, st, fuel);
        TimeoutSecond(env, t, IfF(a, b), test, if r.Res? && r.st == 0 then a else b, k, h, st, fuel);
      case Not(a) => TimeoutRuns(env, a, Push(NotF, k), h, st, fuel);
      case Redir(redirect, n) => TimeoutRuns(env, n, Push(RedirF, k), After(h, Redirect(redirect)), st, fuel);
      case Loop(until, test, body) => TimeoutLoop(env, until, test, body, k, h, st, 0, fuel);
      case For(args, v, body) =>
        var h1 := After(h, ExpandWords(args, st));
        TimeoutFor(env, v, env(h1).words, body, k, h1, 0, fuel);
      case Case(expr, clauses) =>
        var h1 := After(h, ExpandWord(expr, st));
        var s := Select(env, clauses, env(h1).word, h1, env(h1).status);
        TimeoutRuns(env, s.2, k, s.0, s.1, fuel);
      case Cmd(id) =>
        var h1 := After(h, Command(id, st));
        var d := Run(env(h1).action.body, Push(CallF, k), h1, env(h1).status);
        if fuel == 0 {
          RunsHere(env, d);
        } else {
          TimeoutRuns(env, d.t, d.k, d.h, d.st, fuel - 1);
        }
    }
    RunsStep(env, c, if t.Loop? || t.Cmd? then fuel else fuel + 1);
  }

  lemma {:induction false} TimeoutSecond(env: Env, outer: Tree, f: Frame, a: Tree, b: Tree, k: Stack, h: History,
                                         st: int, fuel: nat)
    requires a < outer && b < outer
    requires var r := EvalIn(env, a, Push(f, k), h, st, fuel);
             r.Res? ==> && r.sig == Next && Resume(f, k, r.h, r.st) == Run(b, k, r.h, r.st)
                        && EvalIn(env, b, k, r.h, r.st, fuel).Timeout?
    ensures RunsFor(env, Run(a, Push(f, k), h, st), fuel + 1)
    decreases fuel, outer, 0
  {
    var r := EvalIn(env, a, Push(f, k), h, st, fuel);
    if r.Timeout? {
      TimeoutRuns(env, a, Push(f, k), h, st, fuel);
    } else {
      Child(env, f, a, k, h, st, fuel);
      TimeoutRuns(env, b, k, r.h, r.st, fuel);
      RunsAfter(env, Run(a, Push(f, k), h, st), Run(b, k, r.h, r.st), fuel + 1);
    }
  }

  lemma {:induction false} TimeoutLoop(env: Env, until: bool, test: Tree, body: Tree, k: Stack, h: History, st: int,
                                       status: int, fuel: nat)
    requires EvalLoop(env, until, test, body, h, st, status, LoopDepth(k), CallDepth(k), fuel).Timeout?
    ensures RunsFor(env, Run(test, Push(TestF(until, test, body, status), k), h, st), fuel)
    decreases fuel, body, 4
  {
    var f := TestF(until, test, body, status);
    var c := Run(test, Push(f, k), h, st);
    if fuel == 0 {
      RunsHere(env, c);
    } else {
      var r := EvalIn(env, test, Push(f, k), h, st, fuel - 1);
      if r.Timeout? {
        TimeoutRuns(env, test, Push(f, k), h, st, fuel - 1);
      } else {
        Child(env, f, test, k, h, st, fuel - 1);
        assert EvalRound(env, until, test, body, h, st, status, LoopDepth(k), CallDepth(k), fuel)
            == EvalRest(env, until, body, r, status, LoopDepth(k), CallDepth(k), fuel);
        if r.sig == Next {
          TimeoutBody(env, until, test, body, k, r.h, r.st, fuel);
        } else {
          TimeoutLoop(env, until, test, body, k, r.h, r.st, status, fuel - 1);
        }
        RunsAfter(env, Step(env, c), AfterChild(f, k, r), fuel - 1);
        RunsStep(env, c, fuel - 1);
      }
    }
  }

  lemma {:induction false} TimeoutBody(env: Env, until: bool, test: Tree, body: Tree, k: Stack, h: History, st: int,
                                       fuel: nat)
    requires fuel > 0
    requires var q := EvalIn(env, body, Push(BodyF(until, test, body), k), h, st, fuel - 1);
             q.Res? ==>
               && Again(q.sig)
               && EvalLoop(env, until, test, body, q.h, q.st, q.st, LoopDepth(k), CallDepth(k), fuel - 1).Timeout?
    ensures RunsFor(env, Run(body, Push(BodyF(until, test, body), k), h, st), fuel - 1)
    decreases fuel, body, 0
  {
    var g := BodyF(until, test, body);
    var q := EvalIn(env, body, Push(g, k), h, st, fuel - 1);
    if q.Timeout? {
      TimeoutRuns(env, body, Push(g, k), h, st, fuel - 1);
    } else {
      Child(env, g, body, k, h, st, fuel - 1);
      TimeoutLoop(env, until, test, body, k, q.h, q.st, q.st, fuel - 1);
      RunsAfter(env, Run(body, Push(g, k), h, st), AfterChild(g, k, q), fuel - 1);
    }
  }

  lemma {:induction false} TimeoutFor(env: Env, v: string, words: seq<string>, body: Tree, k: Stack, h: History,
      st: int, fuel: nat)
    requires EvalFor(env, v, words, body, h, st, LoopDepth(k), CallDepth(k), fuel).Timeout?
    ensures RunsFor(env, NextWord(v, words, body, k, h, st), fuel + 1)
    decreases fuel, body, |words| + 4
  {
    var f := ForF(v, words[1..], body);
    var h1 := After(h, SetVar(v, words[0]));
    var r := EvalIn(env, body, Push(f, k), h1, st, fuel);
    if r.Timeout? {
      TimeoutRuns(env, body, Push(f, k), h1, st, fuel);
    } else {
      Child(env, f, body, k, h1, st, fuel);
      TimeoutFor(env, v, words[1..], body, k, r.h, r.st, fuel);
      RunsAfter(env, Run(body, Push(f, k), h1, st), AfterChild(f, k, r), fuel + 1);
    }
  }

  lemma {:induction false} HaltedStays(env: Env, m: nat, n: nat, c: Config)
    requires m <= n && Halted(Steps(env, m, c))
    ensures Steps(env, n, c) == Steps(env, m, c)
  {
    if m > 0 {
      HaltedStays(env, m - 1, n - 1, Step(env, c));
    } else if n > 0 {
      HaltedStays(env, 0, n - 1, c);
    }
  }

  /** A program ends in the machine, with its history and status, exactly when it ends in Eval. */
  lemma EvalIsTheMachine(env: Env, t: Tree, h: History, st: int, h1: History, st1: int)
    ensures Reaches(env, Run(t, Empty, h, st), Back(Empty, h1, st1))
       <==> exists fuel: nat, sig: Signal :: Eval(env, t, h, st, 0, 0, fuel) == Res(h1, st1, sig)
  {
    hide *;
    if Reaches(env, Run(t, Empty, h, st), Back(Empty, h1, st1)) {
      var n, sig := MachineEnds(env, t, h, st, h1, st1);
      assert Eval(env, t, h, st, 0, 0, n) == Res(h1, st1, sig);
    }
    if exists fuel: nat, sig: Signal :: Eval(env, t, h, st, 0, 0, fuel) == Res(h1, st1, sig) {
      var fuel: nat, sig: Signal :| Eval(env, t, h, st, 0, 0, fuel) == Res(h1, st1, sig);
      EvalEnds(env, t, h, st, h1, st1, fuel, sig);
    }
  }

  lemma MachineEnds(env: Env, t: Tree, h: History, st: int, h1: History, st1: int) returns (n: nat, sig: Signal)
    requires Reaches(env, Run(t, Empty, h, st), Back(Empty, h1, st1))
    ensures Eval(env, t, h, st, 0, 0, n) == Res(h1, st1, sig)
  {
    hide Eval, Step, Deliver;
    var c, d := Run(t, Empty, h, st), Back(Empty, h1, st1);
    n :| Steps(env, n, c) == d;
    var r := EvalIn(env, t, Empty, h, st, n);
    if r.Timeout? {
      hide Steps;
      TimeoutRuns(env, t, Empty, h, st, n);
      var m: nat :| m >= n + 1 && !Halted(Steps(env, m, c));
      HaltedStays(env, n, m, c);
      assert false;
    }
    EndsOnce(env, t, h, st, n, d);
    sig := r.sig;
  }

  lemma EvalEnds(env: Env, t: Tree, h: History, st: int, h1: History, st1: int, fuel: nat, sig: Signal)
    requires Eval(env, t, h, st, 0, 0, fuel) == Res(h1, st1, sig)
    ensures Reaches(env, Run(t, Empty, h, st), Back(Empty, h1, st1))
  {
    hide Eval, Step, Steps, Reaches;
    Simulates(env, t, Empty, h, st, fuel);
  }

  lemma EndsOnce(env: Env, t: Tree, h: History, st: int, fuel: nat, d: Config)
    requires EvalIn(env, t, Empty, h, st, fuel).Res?
    requires Halted(d) && Reaches(env, Run(t, Empty, h, st), d)
    ensures d == Back(Empty, EvalIn(env, t, Empty, h, st, fuel).h, EvalIn(env, t, Empty, h, st, fuel).st)
  {
    var c, r := Run(t, Empty, h, st), EvalIn(env, t, Empty, h, st, fuel);
    Simulates(env, t, Empty, h, st, fuel);
    var m: nat :| Steps(env, m, c) == d;
    var n: nat :| Steps(env, n, c) == Deliver(Empty, r.sig, r.h, r.st);
    if m <= n { HaltedStays(env, m, n, c); } else { HaltedStays(env, n, m, c); }
  }

  /** The status with which a `return` of status st reaches its caller. */
  function ReturnStatus(k: Stack, st: int): int {
    if k.Empty? then st
    else
      var d := Drop(k.top, History.Start, st);
      if k.top.CallF? then d.1 else ReturnStatus(k.rest, d.1)
  }

  /** There is no `!` and no loop test between the `return` and its function. */
  predicate PlainReturn(k: Stack) {
    k.Empty? || k.top.CallF? || (!k.top.NotF? && !k.top.TestF? && PlainReturn(k.rest))
  }

  lemma {:induction false} ReturnToStatus(k: Stack, h: History, st: int)
    ensures ReturnTo(k, h, st).Back? && ReturnTo(k, h, st).st == ReturnStatus(k, st)
  {
    if !k.Empty? && !k.top.CallF? {
      var d := Drop(k.top, h, st);
      ReturnToStatus(k.rest, d.0, d.1);
    }
  }

  lemma {:induction false} PlainReturnKeeps(k: Stack, st: int)
    requires PlainReturn(k)
    ensures ReturnStatus(k, st) == st
  {
    if !k.Empty? && !k.top.CallF? { PlainReturnKeeps(k.rest, st); }
  }

  lemma {:induction false} OtherReturnForgets(k: Stack)
    requires !PlainReturn(k)
    ensures ReturnStatus(k, 2) == ReturnStatus(k, 3)
  {
    if !k.top.NotF? && !k.top.TestF? { OtherReturnForgets(k.rest); }
  }

  /** `return n` makes n the status its caller sees, for every n, exactly when it is not in the
      test of a loop and not under `!` within its function. */
  lemma ReturnValueKept(k: Stack, h: History)
    ensures (forall st: int :: ReturnTo(k, h, st).st == st) <==> PlainReturn(k)
  {
    forall st: int
      ensures ReturnTo(k, h, st).st == ReturnStatus(k, st)
    {
      ReturnToStatus(k, h, st);
    }
    if PlainReturn(k) {
      forall st: int
        ensures ReturnTo(k, h, st).st == st
      {
        PlainReturnKeeps(k, st);
      }
    } else {
      OtherReturnForgets(k);
      assert ReturnTo(k, h, 2).st != 2 || ReturnTo(k, h, 3).st != 3;
    }
  }

  /** The case that fails: f() { while return 3; do :; done; } ends with status 0, not 3. */
  lemma ReturnInTestIsLost()
    ensures var f := Loop(false, Cmd(2), Null);
            var env := (h: History) =>
              if h.After? && h.event.Command? && h.event.id == 1 then Reply(0, Call(f), [], "", false)
              else Reply(3, ReturnCmd, [], "", false);
            var r := Eval(env, Cmd(1), History.Start, 0, 0, 0, 2);
            r.Res? && r.sig == Next && r.st == 0
  {
    var f := Loop(false, Cmd(2), Null);
    var env := (h: History) =>
      if h.After? && h.event.Command? && h.event.id == 1 then Reply(0, Call(f), [], "", false)
      else Reply(3, ReturnCmd, [], "", false);
    var h1 := After(History.Start, Command(1, 0));
    assert Eval(env, Cmd(2), h1, 0, 1, 1, 0).sig == RetFn;
    assert EvalRound(env, false, Cmd(2), Null, h1, 0, 0, 0, 1, 1).sig == RetFn;
    assert EvalLoop(env, false, Cmd(2), Null, h1, 0, 0, 0, 1, 1).st == 0;
  }

  /** A file of commands, read and run one by one at the top level; `return` ends it. */
  function RunFile(env: Env, file: seq<Tree>, h: History, st: int, fuel: nat): Res {
    if file == [] then Res(h, st, Next)
    else if file[0].Null? then RunFile(env, file[1..], h, st, fuel)
    else
      var r := Eval(env, file[0], h, st, 0, 0, fuel);
      if r.Timeout? || r.sig == RetFile then r else RunFile(env, file[1..], r.h, r.st, fuel)
  }
}
