/** The flag-driven evaluator itself, with the globals of eval.c as fields. */
module FlagEval {
  import opened ShellTrees
  import opened StructuredEval
  import opened StructuredFacts
  import opened ControlStack

  const SKIPBREAK := 1
  const SKIPCONT := 2
  const SKIPFUNC := 3
  const SKIPFILE := 4

  predicate Jumping(evalskip: int) {
    evalskip == SKIPBREAK || evalskip == SKIPCONT
  }

  /** The signal that the flag and the counter stand for. */
  function FlagSignal(evalskip: int, skipcount: int): Signal
  {
    if evalskip == SKIPBREAK then Brk(skipcount)
    else if evalskip == SKIPCONT then Cnt(skipcount)
    else if evalskip == SKIPFUNC then RetFn
    else if evalskip == SKIPFILE then RetFile
    else Next
  }

  /** A pending break or continue asks for at least one loop, and for no more than `loops`. */
  predicate Fits(evalskip: int, skipcount: int, loops: int) {
    && 0 <= evalskip <= SKIPFILE
    && (Jumping(evalskip) ==> 1 <= skipcount <= loops)
  }

  class Shell {
    const env: Env
    var h: History
    var exitstatus: int
    var evalskip: int
    var skipcount: int
    var loopnest: nat
    var funcnest: nat

    constructor (env: Env)
      ensures this.env == env && h == Start && exitstatus == 0
      ensures Fits(evalskip, skipcount, loopnest) && FlagSignal(evalskip, skipcount) == Next
        && loopnest == funcnest == 0
    {
      this.env := env;
      h := Start;
      exitstatus, evalskip, skipcount, loopnest, funcnest := 0, 0, 0, 0, 0;
    }

    method EvalTree(n: Tree, fuel: nat) returns (ok: bool)
      requires evalskip == 0
      modifies this
      ensures loopnest == old(loopnest) && funcnest == old(funcnest)
      ensures ok ==> Fits(evalskip, skipcount, loopnest)
      ensures old(Eval(env, n, h, exitstatus, loopnest, funcnest, fuel))
           == if ok then Res(h, exitstatus, FlagSignal(evalskip, skipcount)) else Timeout
      decreases fuel, 1, n, 0
    {
      match n
      case Null =>
        exitstatus := 0;
        ok := true;
      case Semi(ch1, ch2) =>
        ok := EvalTree(ch1, fuel);
        if !ok || evalskip != 0 { return; }
        ok := EvalTree(ch2, fuel);
      case And(ch1, ch2) =>
        ok := EvalTree(ch1, fuel);
        if !ok || evalskip != 0 || exitstatus != 0 { return; }
        ok := EvalTree(ch2, fuel);
      case Or(ch1, ch2) =>
        ok := EvalTree(ch1, fuel);
        if !ok || evalskip != 0 || exitstatus == 0 { return; }
        ok := EvalTree(ch2, fuel);
      case Not(com) =>
        ok := EvalTree(com, fuel);
        exitstatus := Negate(exitstatus);
      case If(test, ifpart, elsepart) =>
        ok := EvalTree(test, fuel);
        if !ok || evalskip != 0 { return; }
        if exitstatus == 0 {
          ok := EvalTree(ifpart, fuel);
        } else if elsepart != Null {
          ok := EvalTree(elsepart, fuel);
        } else {
          exitstatus := 0;
        }
      case Loop(until, test, body) =>
        ok := RunLoop(until, test, body, fuel);
      case For(args, v, body) =>
        ok := RunFor(args, v, body, fuel);
      case Case(expr, clauses) =>
        ok := RunCase(expr, clauses, fuel);
      case Redir(redirect, com) =>
        h := After(h, Redirect(redirect));
        ok := EvalTree(com, fuel);
        h := After(h, PopRedir);
      case Cmd(id) =>
        ok := EvalCommand(id, fuel);
    }

    /** The check a loop makes after each call: one level of a break or continue is used up, and
        the loop goes on when that was the last level of a continue, or when nothing is pending. */
    method SkipInLoop() returns (again: bool)
      requires Fits(evalskip, skipcount, loopnest) && loopnest > 0
      modifies `evalskip, `skipcount
      ensures again == Again(old(FlagSignal(evalskip, skipcount)))
      ensures again ==> evalskip == 0
      ensures Fits(evalskip, skipcount, loopnest - 1)
      ensures !again ==> FlagSignal(evalskip, skipcount) == LeaveLoop(old(FlagSignal(evalskip, skipcount)))
    {
      if evalskip == 0 { return true; }
      if evalskip == SKIPCONT {
        skipcount := skipcount - 1;
        if skipcount <= 0 {
          evalskip := 0;
          return true;
        }
      }
      if evalskip == SKIPBREAK {
        skipcount := skipcount - 1;
        if skipcount <= 0 { evalskip := 0; }
      }
      return false;
    }

    /** One run of the body of a loop, and the check after it. */
    method RunBody(body: Tree, fuel: nat) returns (ok: bool, again: bool)
      requires evalskip == 0 && loopnest > 0
      modifies this
      ensures loopnest == old(loopnest) && funcnest == old(funcnest)
      ensures ok ==> Fits(evalskip, skipcount, loopnest - 1)
      ensures ok && again ==> evalskip == 0
      ensures var r := old(Eval(env, body, h, exitstatus, loopnest, funcnest, fuel));
              && (!ok ==> r == Timeout)
              && (ok ==> && r.Res? && r.h == h && r.st == exitstatus && again == Again(r.sig)
                         && (!again ==> FlagSignal(evalskip, skipcount) == LeaveLoop(r.sig)))
      decreases fuel, 1, body, 1
    {
      hide Eval;
      again := false;
      ok := EvalTree(body, fuel);
      if ok { again := SkipInLoop(); }
    }

    /** The part of a while or until loop between two tests of its `for (;;)`. */
    method RunRound(until: bool, test: Tree, body: Tree, last: int, fuel: nat)
        returns (ok: bool, again: bool, status: int)
      requires evalskip == 0 && loopnest > 0 && fuel > 0
      modifies this
      ensures loopnest == old(loopnest) && funcnest == old(funcnest)
      ensures ok ==> Fits(evalskip, skipcount, loopnest - 1)
      ensures ok && again ==> evalskip == 0
      ensures old(EvalRound(env, until, test, body, h, exitstatus, last, loopnest - 1, funcnest, fuel))
           == if !ok then Late
              else if again then Stay(h, exitstatus, status)
              else Leave(h, status, FlagSignal(evalskip, skipcount))
      decreases fuel, 0, 1
    {
      hide Eval;
      status, again := last, false;
      ok := EvalTree(test, fuel - 1);
      if !ok { return; }
      ok, again, status := RestOfRound(until, body, last, fuel);
    }

    /** The part of a round after its test. */
    method RestOfRound(until: bool, body: Tree, last: int, fuel: nat) returns (ok: bool, again: bool, status: int)
      requires Fits(evalskip, skipcount, loopnest) && loopnest > 0 && fuel > 0
      modifies this
      ensures loopnest == old(loopnest) && funcnest == old(funcnest)
      ensures ok ==> Fits(evalskip, skipcount, loopnest - 1)
      ensures ok && again ==> evalskip == 0
      ensures old(EvalRest(env, until, body, Res(h, exitstatus, FlagSignal(evalskip, skipcount)), last,
                           loopnest - 1, funcnest, fuel))
           == if !ok then Late
              else if again then Stay(h, exitstatus, status)
              else Leave(h, status, FlagSignal(evalskip, skipcount))
      decreases fuel, 0, 0
    {
      hide Eval;
      ok, status, again := true, last, false;
      if evalskip != 0 {
        again := SkipInLoop();
      } else if (exitstatus == 0) != until {
        ok, again := RunBody(body, fuel - 1);
        status := exitstatus;
      }
    }

    /** The rounds of a loop, which end with a skip, with the test, or with the fuel. */
    method RunRounds(until: bool, test: Tree, body: Tree, fuel: nat) returns (ok: bool, status: int)
      requires evalskip == 0 && loopnest > 0
      modifies this
      ensures loopnest == old(loopnest) && funcnest == old(funcnest)
      ensures ok ==> Fits(evalskip, skipcount, loopnest - 1)
      ensures old(EvalLoop(env, until, test, body, h, exitstatus, 0, loopnest - 1, funcnest, fuel))
           == if ok then Res(h, status, FlagSignal(evalskip, skipcount)) else Timeout
      decreases fuel, 1, body, 0
    {
      hide Eval, EvalRound, EvalFor;
      ghost var goal := EvalLoop(env, until, test, body, h, exitstatus, 0, loopnest - 1, funcnest, fuel);
      var left, again := fuel, true;
      status := 0;
      while left > 0
        invariant 0 <= left <= fuel && loopnest == old(loopnest) && funcnest == old(funcnest)
        invariant evalskip == 0
        invariant goal == EvalLoop(env, until, test, body, h, exitstatus, status, loopnest - 1, funcnest, left)
        decreases left
      {
        ok, again, status := RunRound(until, test, body, status, left);
        if !ok || !again { return; }
        left := left - 1;
      }
      ok := false;
    }

    method RunLoop(until: bool, test: Tree, body: Tree, fuel: nat) returns (ok: bool)
      requires evalskip == 0
      modifies this
      ensures loopnest == old(loopnest) && funcnest == old(funcnest)
      ensures ok ==> Fits(evalskip, skipcount, loopnest)
      ensures old(Eval(env, Loop(until, test, body), h, exitstatus, loopnest, funcnest, fuel))
           == if ok then Res(h, exitstatus, FlagSignal(evalskip, skipcount)) else Timeout
      decreases fuel, 1, body, 1
    {
      loopnest := loopnest + 1;
      var status;
      ok, status := RunRounds(until, test, body, fuel);
      loopnest := loopnest - 1;
      exitstatus := status;
    }

    method RunFor(args: int, v: string, body: Tree, fuel: nat) returns (ok: bool)
      requires evalskip == 0
      modifies this
      ensures loopnest == old(loopnest) && funcnest == old(funcnest)
      ensures ok ==> Fits(evalskip, skipcount, loopnest)
      ensures old(Eval(env, For(args, v, body), h, exitstatus, loopnest, funcnest, fuel))
           == if ok then Res(h, exitstatus, FlagSignal(evalskip, skipcount)) else Timeout
      decreases fuel, 1, body, 2
    {
      ghost var loops, funcs := loopnest, funcnest;
      ghost var goal := Eval(env, For(args, v, body), h, exitstatus, loops, funcs, fuel);
      h := After(h, ExpandWords(args, exitstatus));
      var list := env(h).words;
      exitstatus := 0;
      loopnest := loopnest + 1;
      ok := true;
      while list != []
        invariant ok && evalskip == 0
        invariant loopnest == loops + 1 && funcnest == funcs
        invariant goal == EvalFor(env, v, list, body, h, exitstatus, loops, funcs, fuel)
        decreases |list|
      {
        h := After(h, SetVar(v, list[0]));
        var again;
        ok, again := RunBody(body, fuel);
        if !ok || !again { break; }
        list := list[1..];
      }
      loopnest := loopnest - 1;
    }

    method RunCase(expr: int, clauses: Clauses, fuel: nat) returns (ok: bool)
      requires evalskip == 0
      modifies this
      ensures loopnest == old(loopnest) && funcnest == old(funcnest)
      ensures ok ==> Fits(evalskip, skipcount, loopnest)
      ensures old(Eval(env, Case(expr, clauses), h, exitstatus, loopnest, funcnest, fuel))
           == if ok then Res(h, exitstatus, FlagSignal(evalskip, skipcount)) else Timeout
      decreases fuel, 1, clauses, 1
    {
      h := After(h, ExpandWord(expr, exitstatus));
      var word := env(h).word;
      exitstatus := env(h).status;
      ghost var chosen := Select(env, clauses, word, h, exitstatus);
      var cp := clauses;
      while cp.Clause?
        invariant unchanged(`evalskip, `skipcount, `loopnest, `funcnest)
        invariant cp == clauses || cp < clauses
        invariant Select(env, cp, word, h, exitstatus) == chosen
        decreases cp
      {
        var patp := cp.patterns;
        var found := false;
        while patp != [] && !found
          invariant unchanged(`evalskip, `skipcount, `loopnest, `funcnest)
          invariant chosen == if found then (h, exitstatus, cp.body, true)
                              else var r := MatchAny(env, patp, word, h, exitstatus);
                                   if r.2 then (r.0, r.1, cp.body, true)
                                   else Select(env, cp.next, word, r.0, r.1)
          decreases |patp|, !found
        {
          h := After(h, TryPattern(patp[0], word, exitstatus));
          exitstatus, found := env(h).status, env(h).matched;
          patp := patp[1..];
        }
        if found {
          ok := EvalTree(cp.body, fuel);
          return;
        }
        cp := cp.next;
      }
      ok := true;
    }

    method EvalCommand(id: int, fuel: nat) returns (ok: bool)
      requires evalskip == 0
      modifies this
      ensures loopnest == old(loopnest) && funcnest == old(funcnest)
      ensures ok ==> Fits(evalskip, skipcount, loopnest)
      ensures old(Eval(env, Cmd(id), h, exitstatus, loopnest, funcnest, fuel))
           == if ok then Res(h, exitstatus, FlagSignal(evalskip, skipcount)) else Timeout
      decreases fuel, 0
    {
      ok := true;
      h := After(h, Command(id, exitstatus));
      match env(h).action
      case Done =>
        exitstatus := env(h).status;
      case BreakCmd(n) =>
        RunBreak(true, n);
      case ContinueCmd(n) =>
        RunBreak(false, n);
      case ReturnCmd =>
        exitstatus := env(h).status;
        evalskip := if funcnest > 0 then SKIPFUNC else SKIPFILE;
        skipcount := 1;
      case Call(body) =>
        if fuel == 0 { return false; }
        exitstatus := env(h).status;
        funcnest := funcnest + 1;
        ok := EvalTree(body, fuel - 1);
        funcnest := funcnest - 1;
        h := After(h, LeaveFunction);
        if evalskip == SKIPFUNC {
          evalskip := 0;
          skipcount := 0;
        }
    }

    /** The break and continue commands. */
    method RunBreak(isBreak: bool, count: nat)
      requires evalskip == 0
      modifies `evalskip, `skipcount, `exitstatus
      ensures Fits(evalskip, skipcount, loopnest) && exitstatus == 0
      ensures FlagSignal(evalskip, skipcount) == JumpSignal(isBreak, count, loopnest)
    {
      var n := count;
      if n > loopnest { n := loopnest; }
      if n > 0 {
        evalskip := if isBreak then SKIPBREAK else SKIPCONT;
        skipcount := n;
      }
      exitstatus := 0;
    }

    /** The loop that reads commands at the top level.  It finds no flag left over by a command,
        except that of a `return` outside all functions, which ends the file. */
    method CmdLoop(file: seq<Tree>, fuel: nat) returns (ok: bool)
      requires evalskip == 0 && loopnest == 0 && funcnest == 0
      modifies this
      ensures loopnest == 0 && funcnest == 0
      ensures ok ==> evalskip == 0
      ensures var r := old(RunFile(env, file, h, exitstatus, fuel));
              if ok then r.Res? && r.h == h && r.st == exitstatus else r == Timeout
    {
      hide Eval;
      var rest := file;
      ok := true;
      while rest != []
        invariant ok && evalskip == 0 && loopnest == 0 && funcnest == 0
        invariant old(RunFile(env, file, h, exitstatus, fuel)) == RunFile(env, rest, h, exitstatus, fuel)
        decreases |rest|
      {
        if rest[0] != Null {
          SignalInBounds(env, rest[0], h, exitstatus, 0, 0, fuel);
          ok := EvalTree(rest[0], fuel);
          if !ok { return; }
        }
        if evalskip == SKIPFILE {
          evalskip := 0;
          return;
        }
        rest := rest[1..];
      }
    }
  }
}
