/** The trees that sh evaluates (src/bin/sh/eval.c), and the world in which it does. */
module ShellTrees {

  // `break`, `continue` and `return` work by setting the global flag `evalskip` and the counter
  // `skipcount`; every routine looks at the flag after each call and falls through when it is
  // set.  The class Shell (module FlagEval) is that code.  It is proved equal to a structured
  // semantics (module StructuredEval), where a command yields a signal, and that is proved equal
  // to a machine with an explicit control stack (module ControlStack), where `break n` jumps to
  // the n-th enclosing loop.
  //
  // What the rest of the shell does (expanding words, running simple commands, redirecting,
  // saving parameters around a function call) is an event.  The world is the history of the
  // events so far, and an environment, which may depend on all of that history, says how the
  // last event turned out.

  datatype Tree =
    | Null
    | Semi(ch1: Tree, ch2: Tree)
    | And(ch1: Tree, ch2: Tree)
    | Or(ch1: Tree, ch2: Tree)
    | Not(com: Tree)
    | If(test: Tree, ifpart: Tree, elsepart: Tree)
    | Loop(until: bool, test: Tree, body: Tree)
    | For(args: int, v: string, body: Tree)
    | Case(expr: int, clauses: Clauses)
    | Redir(redirect: int, n: Tree)
    | Cmd(id: int)

  /** The clauses of a case command, each with its list of patterns. */
  datatype Clauses = NoClause | Clause(patterns: seq<int>, body: Tree, next: Clauses)

  /** `status` is the exit status when the event happens, which `$?` and `return` can see. */
  datatype Event =
    | Command(id: int, status: int)
    | ExpandWords(args: int, status: int)
    | SetVar(v: string, word: string)
    | ExpandWord(expr: int, status: int)
    | TryPattern(pattern: int, word: string, status: int)
    | Redirect(redirect: int)
    | PopRedir
    | LeaveFunction

  /** The events so far, the latest one outermost. */
  datatype History = Start | After(before: History, event: Event)

  /** What a simple command turns out to be, once its words are expanded and its name looked up. */
  datatype Action =
    | Done
    | Call(body: Tree)
    | BreakCmd(n: nat)
    | ContinueCmd(n: nat)
    | ReturnCmd

  /** How an event turned out; each event uses the parts that concern it. */
  datatype Reply = Reply(status: int, action: Action, words: seq<string>, word: string, matched: bool)

  type Env = History -> Reply

  function Negate(status: int): int {
    if status == 0 then 1 else 0
  }

  /** The pattern list of one clause, tried left to right until one matches. */
  function MatchAny(env: Env, patterns: seq<int>, word: string, h: History, st: int): (History, int, bool) {
    if patterns == [] then (h, st, false)
    else
      var h1 := After(h, TryPattern(patterns[0], word, st));
      var r := env(h1);
      if r.matched then (h1, r.status, true) else MatchAny(env, patterns[1..], word, h1, r.status)
  }

  /** The clause a case command selects, if any; the history and status are those after matching. */
  function Select(env: Env, cs: Clauses, word: string, h: History, st: int): (r: (History, int, Tree, bool))
    ensures r.3 ==> r.2 < cs
    decreases cs
  {
    match cs
    case NoClause => (h, st, Null, false)
    case Clause(patterns, body, next) =>
      var r := MatchAny(env, patterns, word, h, st);
      if r.2 then (r.0, r.1, body, true) else Select(env, next, word, r.0, r.1)
  }
}
