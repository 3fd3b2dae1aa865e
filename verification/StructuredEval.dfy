/** A structured semantics of shell trees, in which a command yields a signal: go on, or jump. */
module StructuredEval {
  import opened ShellTrees

  /** How a command ended: normally, or with a jump still to be made. */
  datatype Signal = Next | Brk(n: int) | Cnt(n: int) | RetFn | RetFile

  datatype Res = Timeout | Res(h: History, st: int, sig: Signal)

  /** The jump a `break n` or `continue n` asks for inside `loops` loops. */
  function JumpSignal(isBreak: bool, n: nat, loops: nat): Signal {
    var m := if n > loops then loops else n;
    if m == 0 then Next else if isBreak then Brk(m) else Cnt(m)
  }

  /** What is left of a signal outside the loop that saw it. */
  function LeaveLoop(sig: Signal): Signal {
    match sig
    case Brk(n) => if n <= 1 then Next else Brk(n - 1)
    case Cnt(n) => if n <= 1 then Next else Cnt(n - 1)
    case _ => sig
  }

  predicate Again(sig: Signal) {
    sig == Next || (sig.Cnt? && sig.n <= 1)
  }

  /** Evaluation of a tree inside `loops` loops and `funcs` function calls.  The fuel bounds loop
      iterations and function calls; FuelDoesNotMatter shows that it never changes a result. */
  function Eval(env: Env, t: Tree, h: History, st: int, loops: nat, funcs: nat, fuel: nat): Res
    decreases fuel, t, 0
  {
    match t
    case Null => Res(h, 0, Next)
    case Semi(a, b) =>
      var r := Eval(env, a, h, st, loops, funcs, fuel);
      if r.Timeout? || r.sig != Next then r
      else Eval(env, b, r.h, r.st, loops, funcs, fuel)
    case And(a, b) =>
      var r := Eval(env, a, h, st, loops, funcs, fuel);
      if r.Timeout? || r.sig != Next || r.st != 0 then r
      else Eval(env, b, r.h, r.st, loops, funcs, fuel)
    case Or(a, b) =>
      var r := Eval(env, a, h, st, loops, funcs, fuel);
      if r.Timeout? || r.sig != Next || r.st == 0 then r
      else Eval(env, b, r.h, r.st, loops, funcs, fuel)
    case Not(a) =>
      var r := Eval(env, a, h, st, loops, funcs, fuel);
      if r.Timeout? then r else r.(st := Negate(r.st))
    case If(c, a, b) =>
      var r := Eval(env, c, h, st, loops, funcs, fuel);
      if r.Timeout? || r.sig != Next then r
      else if r.st == 0 then Eval(env, a, r.h, r.st, loops, funcs, fuel)
      else Eval(env, b, r.h, r.st, loops, funcs, fuel)
    case Loop(until, test, body) =>
      EvalLoop(env, until, test, body, h, st, 0, loops, funcs, fuel)
    case For(args, v, body) =>
      var h1 := After(h, ExpandWords(args, st));
      EvalFor(env, v, env(h1).words, body, h1, 0, loops, funcs, fuel)
    case Case(expr, clauses) =>
      var h1 := After(h, ExpandWord(expr, st));
      var s := Select(env, clauses, env(h1).word, h1, env(h1).status);
      if s.3 then Eval(env, s.2, s.0, s.1, loops, funcs, fuel) else Res(s.0, s.1, Next)
    case Redir(redirect, n) =>
      var r := Eval(env, n, After(h, Redirect(redirect)), st, loops, funcs, fuel);
      if r.Timeout? then r else r.(h := After(r.h, PopRedir))
    case Cmd(id) =>
      var h1 := After(h, Command(id, st));
      match env(h1).action
      case Done => Res(h1, env(h1).status, Next)
      case BreakCmd(n) => Res(h1, 0, JumpSignal(true, n, loops))
      case ContinueCmd(n) => Res(h1, 0, JumpSignal(false, n, loops))
      case ReturnCmd => Res(h1, env(h1).status, if funcs > 0 then RetFn else RetFile)
      case Call(body) =>
        if fuel == 0 then Timeout
        else
          var r := Eval(env, body, h1, env(h1).status, loops, funcs + 1, fuel - 1);
          if r.Timeout? then r
          else Res(After(r.h, LeaveFunction), r.st, if r.sig == RetFn then Next else r.sig)
  }

  /** One round of a while or until loop: the test and perhaps the body. */
  datatype Round = Late | Stay(h: History, st: int, status: int) | Leave(h: History, status: int, sig: Signal)

  /** `status` is the status of the last run of the body; the loop ends with it, even when it is
      left from its test. */
  function EvalRound(env: Env, until: bool, test: Tree, body: Tree, h: History, st: int, status: int,
                        loops: nat, funcs: nat, fuel: nat): Round
    requires fuel > 0
    decreases fuel, body, 1
  {
    var r := Eval(env, test, h, st, loops + 1, funcs, fuel - 1);
    if r.Timeout? then Late else EvalRest(env, until, body, r, status, loops, funcs, fuel)
  }

  /** The rest of a round, when its test has ended with r. */
  function EvalRest(env: Env, until: bool, body: Tree, r: Res, status: int, loops: nat, funcs: nat, fuel: nat): Round
    requires fuel > 0 && r.Res?
    decreases fuel, body, 0
  {
    if r.sig != Next then
      if Again(r.sig) then Stay(r.h, r.st, status) else Leave(r.h, status, LeaveLoop(r.sig))
    else if (r.st == 0) == until then Leave(r.h, status, Next)
    else
      var q := Eval(env, body, r.h, r.st, loops + 1, funcs, fuel - 1);
      if q.Timeout? then Late
      else if Again(q.sig) then Stay(q.h, q.st, q.st)
      else Leave(q.h, q.st, LeaveLoop(q.sig))
  }

  /** A while or until loop. */
  function EvalLoop(env: Env, until: bool, test: Tree, body: Tree, h: History, st: int, status: int,
                       loops: nat, funcs: nat, fuel: nat): Res
    decreases fuel, body, 2
  {
    if fuel == 0 then Timeout
    else
      match EvalRound(env, until, test, body, h, st, status, loops, funcs, fuel)
      case Late => Timeout
      case Stay(h1, st1, status1) =>
        EvalLoop(env, until, test, body, h1, st1, status1, loops, funcs, fuel - 1)
      case Leave(h1, st1, sig) => Res(h1, st1, sig)
  }

  /** A for loop over the words still to be visited. */
  function EvalFor(env: Env, v: string, words: seq<string>, body: Tree, h: History, st: int,
                      loops: nat, funcs: nat, fuel: nat): Res
    decreases fuel, body, |words| + 1
  {
    if words == [] then Res(h, st, Next)
    else
      var r := Eval(env, body, After(h, SetVar(v, words[0])), st, loops + 1, funcs, fuel);
      if r.Timeout? then r
      else if Again(r.sig) then EvalFor(env, v, words[1..], body, r.h, r.st, loops, funcs, fuel)
      else Res(r.h, r.st, LeaveLoop(r.sig))
  }
}
