# Models of two shells

This project models the parts of NetBSD `sh` and BSD `csh` that keep state of their own, and proves what they
promise. Code that changes things step by step is modelled by classes, arrays and loops; each such method is proved
against a function of the inputs or of the old state, and lemmas prove what that function promises.

| part | modules | what is proved |
|---|---|---|
| command cache of `sh` | `SearchPath`, `CommandCache`, `CacheCoherence`, `CacheRuns`, `CacheFailures`, `SearchMeaning`, `CommandTable` | what a search finds, from the text of PATH; over whole runs, the cache answers as a left-to-right search of PATH does; which steps keep it so, exactly |
| tree evaluator of `sh` | `ShellTrees`, `StructuredEval`, `StructuredFacts`, `ControlStack`, `TreeLaws`, `FlagEval` | the flags `evalskip`, `skipcount` and `loopnest` do what structured signals do, and these do what jumps on a control stack do |
| redirections of `sh` | `Redirections`, `RedirectionMeaning` | what each redirection does; nested redirections restore the whole descriptor table, exactly when the descriptors were open |
| words and patterns of `sh` | `Patterns`, `PatternTexts`, `Quoting`, `Trims`, `FieldSplitting`, `FieldKinds`, `ByteStrings`, `MergeSort` | the matcher accepts the pattern's language, exactly when it does, trims are optimal, quoting round-trips, field splitting loses nothing, sorting relinks in place |
| mode commands of `umask` | `ModeCommands`, `ModeBits` | what operations do to each bit; the optimiser keeps the meaning, is idempotent and canonical, and its result is the shortest |
| stack storage of `sh` | `StackBlocks` | marks restore exactly what was in use; strings keep their text wherever the block moves |
| variables of `csh` | `VariableNames`, `VariableTree`, `VariableTable` | the AVL tree with parent links is a finite map, kept in order and shallow |
| allocator of `csh` | `Buckets` | blocks tile the memory obtained; each is on one free list or in use |
| job table of `csh` | `Jobs`, `JobFlags` | flags, rings, indices, current and previous job under every operation |
| file name patterns of `csh` | `Glob`, `GlobTexts`, `Braces` | compiling in place and matching give the pattern's language; the brace worklist gives the recursive expansion, errors included, and that is the product of the groups |

`Options` holds the datatype of a value that may be missing.

The class invariants (`Valid`) say what every operation keeps:

- `CommandTable.CmdTable`: each entry is in the chain of its hash, and no name is in a chain twice. Chains are
  sequences; a bucket and a place in it stand for the link that `lastcmdentry` points to.
- `VariableTable.VarTable`: the tree below the header is ordered, every `v_bal` is the difference of the heights of
  its subtrees and lies in -1..1, every parent link and the link of the header agree, and the entries are the map.
- `Redirections.Shell`: the slots of all frames are open descriptors from 10 on, no two the same.
- `ModeCommands.CmdBuffer`: no command so far is a terminator, and there is room for one more.
- `StackBlocks.BlockStack`: the free part, from `stacknxt` on, lies in the top block, and every mark still names its
  block, with all that was in use when it was set. `Full` says besides that the free part reaches to the end of the
  block, now and after going back to any mark: every operation keeps that, but for the growth of a block that a mark
  names, which always loses it.
- `Buckets.Allocator`: the free lists are acyclic, disjoint and of blocks of their own size; blocks are disjoint,
  aligned, and cover exactly the memory obtained; `nmalloc` counts the blocks in use.
- `Jobs.JobTable`: `proclist` is acyclic; live processes have distinct pids and belong to one job each, whose
  `p_friends` form a ring; jobs have distinct indices, with `pmaxindex` the largest; `pcurrent` and `pprevious` are
  null or distinct leaders of live jobs, and the latter is null if the former is.

## Where the code does not do what is asked of it

Each of these is proved as an exact condition, or shown by an input.

- `addcmdentry` in exec.c keeps the rehash mark of the entry that it replaces. A function defined over an entry that a
  `cd` has marked is not found afterwards; defining one is safe if and only if the entry bears no mark
  (`CacheRuns.StepKeepsCoherence`). `CacheFailures.LostFunctionRun` shows it on a lookup, a `cd` and a definition.
- A lookup on a temporary PATH that names `%builtin`, when PATH does not, may store a file under the name of a builtin
  (`CacheCoherence.FindKeepsCoherence`). `CacheFailures.LostBuiltinRun` shows it on one lookup.
- `return n` in the test of a loop loses n, and under `!` it is negated (`ControlStack.ReturnValueKept`,
  `ControlStack.ReturnInTestIsLost`).
- The laws of De Morgan fail for `! (true && f)` where f looks at `$?`, since `! true || ! f` starts f with another
  status; they hold if and only if that does not matter (`TreeLaws.DeMorgan`, `TreeLaws.DeMorganFails`).
- A redirection of a descriptor that is closed leaks a copy from 10 on, since nothing is saved for it
  (`Redirections.Shell.RunAtTop`). `Redirections.RunOneRedirection` shows it on `: fd>file`.
- In `pmatch`, a backslash after a star is looked for in the string: the answer is that of the language for all
  strings if and only if every such backslash stands before a backslash, or some element matches no character
  (`Patterns.AcceptsIsExact`). `Patterns.StarBackslashFails` shows it on the pattern `*\a` and the string `a`.
- A double-quoted value that has a backslash does not match itself as a pattern (`Quoting.QuotedStandsForItself`):
  the backslash is missing from the characters of class CCTL in mksyntax.c.
- `growstackblock` lets realloc move, or make bigger, a block that an outstanding mark names
  (`StackBlocks.BlockStack.GrowStackBlock`), so that the mark is lost, or leaves part of the block unused; and
  `STACKSTRNUL` without room leaves the counter one too small (`StackBlocks.BlockStack.StackStrNul`).
  `StackBlocks.MarkThenGrow` and `StackBlocks.FillAndEnd` show them on every stack that they start from.

Noted in passing, and not proved:

- A backslash or an escape at the end of a pattern makes `pmatch` read past it; `Patterns.Clear` excludes that.
- In `ifsbreakup`, `strchr` finds a NUL in the list of white space, so that in a region that is not `nulonly` a NUL
  counts as white space; `FieldSplitting.IsSpace` follows the code.
- The list of regular builtins in exec.c names `newgrp`, which builtins.def does not have.
- A function may be given a name with a slash, since the check of the name in parser.c is compiled out, but
  `find_command` takes such a name for a file before it looks at the table.
- `realloc` in alloc.c copies as many bytes as are asked for, also from an old block that holds fewer.
- `globbrace` takes the end of the word for the end of a group that is not closed, when the braces inside that group
  are; the list it returns is then not the one its caller reads. `Braces.Expansion` has the case `Undefined` for this,
  and `Braces.ListIsToldBy` tells when it arises.

## Model

| member | source | states |
|---|---|---|
| CacheRuns.RunIsAccurate | src/bin/sh/exec.c:431-639 | after every run of safe cd, PATH, function, hash and lookup steps from a coherent cache, a lookup (with functions or not, on PATH or on a temporary path) answers as the uncached left-to-right search does |
| CacheRuns.StepKeepsCoherence | src/bin/sh/exec.c:668-733 | each of the eight operations keeps the cache coherent if and only if it is safe, which is a test of the state before it |
| CacheRuns.SafeIsNeeded | src/bin/sh/exec.c:860-876 | after an operation that is not safe some lookup gives a wrong answer, so the condition cannot be dropped |
| CacheRuns.LostFunction | src/bin/sh/exec.c:860-876 | the case that fails: a function defined over an entry marked for a rehash is not found by its own name, because addcmdentry leaves the mark |
| CacheFailures.LostFunctionRun | src/bin/sh/exec.c:860-876 | that case on a run: with a file /b/f and PATH=/b, a lookup of f, a cd and a definition of f, after which f is not found as the function |
| CacheFailures.LostBuiltinRun | src/bin/sh/exec.c:508-639 | the harmful lookup on a run: with a file /b/echo and PATH=/b, a lookup of echo on the temporary path /b:%builtin, after which the file is found where PATH means the builtin |
| CacheRuns.InitiallyCoherent | src/bin/sh/exec.c:784-821 | the empty table is coherent for every PATH and directory |
| CacheCoherence.FindIsSearch | src/bin/sh/exec.c:431-639 | from a coherent cache, find_command gives the type and index of the uncached search, whatever was cached, with DO_NOFUN and with a temporary path |
| CacheCoherence.FindKeepsCoherence | src/bin/sh/exec.c:431-639 | a lookup leaves the cache coherent if and only if it is not the harmful one: PATH lacks %builtin, the temporary path has it, and a file named like a builtin lies in a directory both paths begin with |
| CacheCoherence.KeptEntry | src/bin/sh/exec.c:709-743 | an entry that does not depend on a component from the first change on is true of the new PATH |
| CacheCoherence.RescanAgrees | src/bin/sh/exec.c:540-598 | the loop over the directories, which skips absolute directories that a stale entry has ruled out, finds what the full scan finds |
| CacheCoherence.ReuseIsTrue | src/bin/sh/exec.c:481-506 | an entry that is returned at once, or after the rescan found no change, is true of PATH in the current directory |
| CacheCoherence.StoreIsTrue | src/bin/sh/exec.c:508-639 | a result that is stored is what PATH itself gives, if and only if the lookup is not the harmful one |
| CacheCoherence.HarmfulStores | src/bin/sh/exec.c:508-639 | the harmful lookup always stores its result |
| CacheCoherence.MarkBelowChange | src/bin/sh/exec.c:1122-1156 | with %builtin in both PATHs it is at one place, or in the changed part of both |
| SearchPath.PathChange | src/bin/sh/exec.c:1122-1156 | path_change: the first component that differs (9999 if none, 0 if %builtin is lost) and the index of the new %builtin |
| SearchPath.CommonHead | src/bin/sh/exec.c:1122-1156 | comparing PATHs character by character counts the components they have in common |
| SearchPath.NoCommonHead | src/bin/sh/exec.c:1122-1156 | at the first difference one more component is common only where it ends in both PATHs |
| SearchPath.Padvance | src/bin/sh/exec.c:297-329 | yields the file name for the first component, tells its option, and leaves the other components; SearchMeaning.FileIsNamed says what that file name is |
| SearchPath.OptionOfComponent | src/bin/sh/exec.c:297-329 | an option behind % never reaches into the next component |
| SearchMeaning.CommandMeans | src/bin/sh/exec.c:540-598 | what a search gives, told from the text of PATH between its colons and from the files: a file if no builtin comes first and its part is the first without % that has it, as d/name, or as name in the current directory for an empty part; the builtin if it comes first; and else nothing |
| SearchMeaning.SplitIsComponents | src/bin/sh/exec.c:297-329 | the components of a PATH are the only parts without colons that joined by colons give it |
| SearchMeaning.FileIsNamed | src/bin/sh/exec.c:313-318 | a part d stands for d/name, with no slash put in if it is empty |
| SearchMeaning.BuiltinsAreNamed | src/bin/sh/exec.c:550-566 | a part stands for the builtins if and only if the text behind its first % begins with builtin |
| SearchMeaning.RegularOnes | src/bin/sh/exec.c:1158-1173 | the builtins that are found before any file are the sixteen listed |
| SearchMeaning.FindAnswers | src/bin/sh/exec.c:431-639 | from a coherent cache a lookup gives the function of that name, or else what PATH and the files mean |
| CommandTable.CmdTable.FindCommand | src/bin/sh/exec.c:431-639 | on the chained hash table, the result and the new table are those of the abstract lookup; a name with a slash is a file, or with DO_ABS is one if stat finds it, and the table is left alone; from a coherent table, any other name gives the function or what the text of PATH and the files mean |
| CommandTable.CmdTable.Resolve | src/bin/sh/exec.c:431-639 | from a coherent table the answer is that of a plain search, which is what the text of PATH and the files mean, and the table stays coherent just when the lookup is not the harmful one |
| CommandTable.LookInDirectories | src/bin/sh/exec.c:540-598 | the loop of find_command over the directories of a path |
| CommandTable.CmdTable.CmdLookup | src/bin/sh/exec.c:784-821 | without the argument add: finds the name in its chain if it is in the table, and remembers where |
| CommandTable.CmdTable.DeleteCmdEntry | src/bin/sh/exec.c:822-832 | takes out the entry found last, and no other |
| CommandTable.CmdTable.HashCd | src/bin/sh/exec.c:667-681 | marks exactly the entries that a search of directories produced |
| CommandTable.CmdTable.ClearCmdEntry | src/bin/sh/exec.c:709-743 | takes out exactly the entries that may depend on a component from the first change on |
| CommandTable.CmdTable.DeleteAllFuncs | src/bin/sh/exec.c:748-769 | takes out exactly the functions |
| CommandTable.CmdTable.ChangePath | src/bin/sh/exec.c:689-702 | clears the table for a new PATH and remembers where its %builtin is |
| CommandTable.CmdTable.DefineFunction | src/bin/sh/exec.c:859-893 | the table and the functions after a definition |
| CommandTable.CmdTable.UnsetFunction | src/bin/sh/exec.c:898-911 | takes out the entry of a function and no other; the status tells whether there was one |
| CommandTable.CmdTable.HashCmd | src/bin/sh/exec.c:336-383 | `hash name` forgets the entry and looks the name up again; it fails exactly if the search does |
| CommandTable.CmdTable.ChangeDirectory | src/bin/sh/cd.c:227-245 | a cd on the hash table is the step Cd of the cache |
| CommandTable.CmdTable.AssignPath | src/bin/sh/exec.c:689-702 | an assignment to PATH on the hash table is the step SetPath of the cache |
| CommandTable.CmdTable.DeleteFunctions | src/bin/sh/exec.c:748-769 | losing all functions on the hash table is the step DeleteFuncs of the cache |
| CommandTable.CmdTable.HashReset | src/bin/sh/exec.c:349-353 | `hash -r` on the hash table is the step HashClear of the cache |
| CommandTable.SpliceNext | src/bin/sh/exec.c:720-738 | unlinking while walking a chain leaves the entries of the part walked that are to be kept, and the rest of the chain |
| CommandTable.KeepChain | src/bin/sh/exec.c:720-738 | a spliced chain is the chain of the table without the entries |
| ControlStack.EvalIsTheMachine | src/bin/sh/eval.c:195-404 | a program ends in the machine with an explicit control stack, with a history and status, if and only if it does so in the structured semantics |
| ControlStack.Simulates | src/bin/sh/eval.c:195-404 | the machine runs every tree as the structured semantics says, whatever stack lies below it |
| ControlStack.TimeoutRuns | src/bin/sh/eval.c:298-374 | when the fuel of the semantics is used up, the machine has more steps than that to make: fuel hides no result |
| ControlStack.EndsOnce | src/bin/sh/eval.c:195-404 | the machine cannot end in two ways |
| ControlStack.ReturnValueKept | src/bin/sh/eval.c:1050-1068 | `return n` gives its caller n, for every n, if and only if it is not in the test of a loop nor under `!` within its function |
| ControlStack.ReturnInTestIsLost | src/bin/sh/eval.c:298-332 | the case that fails: f() { while return 3; do :; done; } ends with 0 |
| StructuredFacts.SignalInBounds | src/bin/sh/eval.c:1029-1043 | a pending break or continue has 1 <= n <= the number of loops around it, a return is pending inside a function only, and none is left outside |
| StructuredFacts.FuelDoesNotMatter | src/bin/sh/eval.c:195-290 | with more fuel a tree ends in the same way |
| TreeLaws.NotNegates | src/bin/sh/eval.c:274-277 | for every tree, `! a` does what a does, and its status is 0 or 1, and 0 if and only if a ends with a failure |
| TreeLaws.DeMorgan | src/bin/sh/eval.c:216-234 | the laws of De Morgan hold if and only if the second part, if it is run, ends in the same way whatever it finds in $? (it starts with another status on the two sides) |
| TreeLaws.DeMorganUnseen | src/bin/sh/eval.c:216-234 | where nothing depends on $?, the laws of De Morgan hold for all trees: the same is run, with the same status and jump |
| TreeLaws.DeMorganFails | src/bin/sh/eval.c:216-234 | the case that fails: a second part that ends with $? |
| TreeLaws.StatusUnseen | src/bin/sh/eval.c:195-290 | where nothing depends on $?, what a tree does and the status that it ends with do not depend on the status that it starts with |
| TreeLaws.ListsOfCommands | src/bin/sh/eval.c:211-258 | of simple commands, which part of ;, &&, oror and if is run, and the status |
| TreeLaws.LoopsOfCommands | src/bin/sh/eval.c:298-332 | while and until run test and body in turn until the test fails, or succeeds, and end with the status of the last body, or 0 |
| TreeLaws.ForLoopsOfCommands | src/bin/sh/eval.c:336-374 | for runs its body once for each word, with the variable set to it |
| TreeLaws.SelectsFirst | src/bin/sh/eval.c:378-404 | a case command takes the clause of the first pattern that matches; those before it were tried in order and did not match |
| FlagEval.Shell.EvalTree | src/bin/sh/eval.c:195-290 | the flag-driven evaluator runs a tree with the events, status and pending jump of the structured semantics, and restores loopnest and funcnest; a pending break or continue has 1 <= skipcount <= loopnest |
| FlagEval.Shell.SkipInLoop | src/bin/sh/eval.c:309-320 | the check in a loop uses up one level of a break or continue, and goes on just when the semantics does |
| FlagEval.Shell.RunLoop | src/bin/sh/eval.c:298-332 | while and until loops |
| FlagEval.Shell.RunFor | src/bin/sh/eval.c:336-374 | for loops |
| FlagEval.Shell.RunCase | src/bin/sh/eval.c:378-404 | case commands, whose patterns are tried from left to right |
| FlagEval.Shell.EvalCommand | src/bin/sh/eval.c:825-872 | simple commands, break, continue, return and function calls |
| FlagEval.Shell.RunBreak | src/bin/sh/eval.c:1029-1043 | breakcmd caps the count at the number of loops and asks for that jump |
| FlagEval.Shell.CmdLoop | src/bin/sh/main.c:237-281 | at the top level no flag is left over by a command but that of a `return` outside functions, which ends the file |
| VariableNames.LessIsStrictTotalOrder | src/bin/csh/set.c:497-523 | first-character difference, then Strcmp: a strict total order on names, zero for equal names only |
| VariableNames.Strcmp | src/bin/csh/str.c:305-323 | s_strcmp: the difference at the first place where the names differ |
| VariableNames.LessIsDictionary | src/bin/csh/set.c:497-523 | the tree is in the order of a dictionary, but that the empty name comes behind those that start with a negative character |
| VariableNames.StrcmpIsDictionary | src/bin/csh/str.c:305-323 | negative if and only if the first name is a proper beginning of the second, or has the smaller character at the first difference |
| VariableTree.RLeft | src/bin/csh/set.c:666-688 | the macro rleft: order, links and parent links after a rotation |
| VariableTree.RRight | src/bin/csh/set.c:666-688 | the macro rright |
| VariableTree.FixNode | src/bin/csh/set.c:700-790 | one round of balance: the subtree is linked, in order and balanced again, with its height told by the new v_bal |
| VariableTree.UpOne | src/bin/csh/set.c:700-790 | a round leaves the rest of the tree balanced, but for a change of one in the height below the parent |
| VariableTree.Balance | src/bin/csh/set.c:700-790 | after an insertion or deletion the loop ends with an AVL tree: every v_bal is the difference of the heights and in -1..1, all parent links and the header link agree, and the order is that of before |
| VariableTree.PlugBalanced | src/bin/csh/set.c:700-790 | a balanced subtree of the old height in a balanced context is a balanced tree |
| VariableTable.VarTable.Setq | src/bin/csh/set.c:497-523 | the table becomes the map with the name set to the value; the AVL invariant holds |
| VariableTable.VarTable.Unsetv1 | src/bin/csh/set.c:569-610 | exactly the variable of the entry goes, whether it has no child, one or two |
| VariableTable.RemoveWithPredecessor | src/bin/csh/set.c:569-610 | an entry with two children gets the name and value of its predecessor, which is taken out in its stead |
| VariableTable.VarTable.Adrof1 | src/bin/csh/set.c:442-458 | finds an entry if and only if the variable is set, with the last value; in no more steps than the height |
| VariableTable.VarTable.SearchIsShort | src/bin/csh/set.c:442-458 | a tree of height h holds exactly the variables, and those are at least Fib(h + 2) - 1, which bounds the steps |
| VariableTable.BalancedIsShallow | src/bin/csh/set.c:700-790 | the same for every balanced tree |
| VariableTable.Madrof | src/bin/csh/set.c:427-441 | the first entry in order that a pattern matches, or null if there is none |
| VariableTable.IsFirstMatch | src/bin/csh/set.c:427-441 | the first match of a list is an entry that matches, and none before it does; and without one no entry matches |
| VariableTable.VarTable.Unset1 | src/bin/csh/set.c:542-557 | ends, with exactly the variables that match none of the patterns |
| VariableTable.VarTable.Plist | src/bin/csh/set.c:795-830 | the stackless walk prints every variable once, in increasing order, with its value, and stops at the header |
| VariableTable.Climb | src/bin/csh/set.c:795-830 | the loop that goes up while it comes from the right leads to the next entry in order, or to the header |
| ModeCommands.Getmode | src/bin/sh/setmode.c:92-157 | getmode computes the mode that its command list means |
| ModeCommands.CompressMode | src/bin/sh/setmode.c:422-470 | the list packed in place means what it meant, for every old mode; it is the packed list of the specification, and what lies behind it is not changed |
| ModeCommands.PackMeans | src/bin/sh/setmode.c:422-470 | packing a list keeps its meaning, whatever the modes |
| ModeCommands.PackTwice | src/bin/sh/setmode.c:422-470 | packing twice is packing once |
| ModeCommands.PackIsPacked | src/bin/sh/setmode.c:422-470 | a run becomes at most one -, one + and one X, in that order, with disjoint bits |
| ModeCommands.FixedIfPacked | src/bin/sh/setmode.c:422-470 | a list is left alone if and only if it is packed |
| ModeCommands.PackIsCanonical | src/bin/sh/setmode.c:422-470 | runs of +, - and X mean the same if and only if they are packed into the same commands |
| ModeCommands.PackIsShortest | src/bin/sh/setmode.c:422-470 | no run with the same meaning is shorter than the packed one |
| ModeCommands.PackIsNoLonger | src/bin/sh/setmode.c:422-470 | a packed run is no longer than the run |
| ModeCommands.PackStep | src/bin/sh/setmode.c:422-470 | one round over a run, in place: the write index stays at or below the read index, what is written is the packed run, and what is not yet read is as it was |
| ModeCommands.SumRun | src/bin/sh/setmode.c:436-451 | the loop over a run adds up its set, clear and X bits |
| ModeCommands.CmdBuffer.AddCmd | src/bin/sh/setmode.c:353-398 | the commands put down for one operation do what chmod says of it (=, +, -, X and the copies u, g, o) |
| ModeBits.PermissionBits | src/bin/sh/setmode.c:353-398 | what =, +, - and X do to each bit of a mode: who and the mask, directories and executable files |
| ModeBits.CopiedBits | src/bin/sh/setmode.c:353-398 | what copying u, g or o does to each bit: the same permission of the class copied, for the classes named |
| ModeCommands.CmdBuffer.Grow | src/bin/sh/setmode.c:162-173 | growth keeps what is there and leaves room for two commands and the terminator |
| ModeCommands.CmdBuffer.Finish | src/bin/sh/setmode.c:341-350 | the terminated, optimised list means what the operations together mean |
| Redirections.Shell.Redirect | src/bin/sh/redir.c:109-172 | redirections take effect from left to right on descriptors 0 to 9; it is told exactly when one fails; with REDIR_PUSH the frame pushed restores the table if the descriptors redirected were open on entry, and a descriptor has leaked if not |
| RedirectionMeaning.RedirectAll | src/bin/sh/redir.c:109-172 | a list of redirections succeeds if and only if there are tables that it leads through one by one, and the last of them is what is left |
| RedirectionMeaning.EffectDoes | src/bin/sh/redir.c:134-253 | one redirection: the descriptor gets the file, or what the one copied has, or is closed for -; no other descriptor changes |
| RedirectionMeaning.OneTable | src/bin/sh/redir.c:134-253 | there is only one table that a redirection can lead to |
| RedirectionMeaning.LeadsIsDone | src/bin/sh/redir.c:109-172 | a list that leads through tables in this way is done, with that outcome |
| Redirections.Shell.Popredir | src/bin/sh/redir.c:304-324 | puts back what the top frame saved, and closes the copies |
| Redirections.Shell.RunAtTop | src/bin/sh/redir.c:330-337 | after a command with nested redirections, failing ones too, the whole table is as before if and only if every descriptor that was redirected under REDIR_PUSH was open |
| Redirections.Shell.RunCmd | src/bin/sh/eval.c:231-235 | what a nested command leaves of the table and of the stack of frames |
| Redirections.Shell.Save | src/bin/sh/redir.c:139-160 | a descriptor that is open is copied to a free one from 10 on and closed; a closed one is not saved |
| Redirections.Shell.OpenRedirect | src/bin/sh/redir.c:176-253 | opening a file or copying a descriptor, on a closed descriptor |
| Redirections.Shell.CopyFd | src/bin/sh/redir.c:378-393 | copyfd copies to exactly the descriptor wanted, which is the lowest free one from there on |
| Redirections.UnwoundOneMore | src/bin/sh/redir.c:304-324 | in a stack of frames that are popped one after the other, each is good for the table it is popped from, and popping one more is putting back what that frame saved |
| Redirections.OpenAtEntry | src/bin/sh/redir.c:109-172 | while nothing has leaked, a descriptor that is not saved is open just when it was open on entry |
| Redirections.SettledAtTop | src/bin/sh/redir.c:304-324 | with all frames undone, the table is the old one just when nothing has leaked |
| Redirections.LeaksIfClosed | src/bin/sh/redir.c:139-160 | the case that fails: of `: fd>file` something is left, as RunAtTop says, if and only if fd was closed, in every table |
| Redirections.RunOneRedirection | src/bin/sh/redir.c:330-337 | after `: fd>file` the whole table is as before if and only if fd was open; if it was closed, a new descriptor from 10 on is left open |
| Patterns.Patmatch | src/bin/sh/expand.c:1333-1346 | pmatch accepts only strings of the pattern's language; and all of them, under the exact condition of AcceptsIsExact |
| Patterns.Pmatch | src/bin/sh/expand.c:1348-1467 | the matcher with its cursors computes the relation Accepts, for patterns with quoted and unquoted parts, closed and unclosed brackets |
| Patterns.AcceptsIsLang | src/bin/sh/expand.c:1348-1467 | what pmatch accepts is in the language of section 2.13 of the POSIX Shell Command Language |
| Patterns.AcceptsIsExact | src/bin/sh/expand.c:1348-1467 | it accepts the language, for all strings, if and only if every backslash after a star stands before a backslash, or some element matches no character |
| Patterns.NoShorter | src/bin/sh/expand.c:1378-1398 | a string that is accepted is at least as long as the pattern has elements other than stars, and if it is no longer, every backslash after a star stands before a backslash |
| Patterns.StarBackslashFails | src/bin/sh/expand.c:1378-1398 | the case that fails: the text *\a is a pattern that the string a is in the language of, and that pmatch does not accept it for |
| Patterns.SkipAhead | src/bin/sh/expand.c:1382-1392 | skipping to the next literal after a star never changes the answer |
| Patterns.StarStar | src/bin/sh/expand.c:1378-1381 | a star after a star changes nothing |
| Patterns.ScanEndsMembers | src/bin/sh/expand.c:1406-1419 | the bracket found by the look ahead is the one at which the members end |
| Patterns.FindClose | src/bin/sh/expand.c:1406-1419 | tells whether a bracket expression is closed |
| Patterns.MatchMembers | src/bin/sh/expand.c:1420-1453 | tells whether a character is in a bracket expression, and where that ends |
| PatternTexts.WrittenIsRead | src/bin/sh/expand.c:1348-1467 | the text written for a list of characters, escapes, wildcards and bracket expressions with singles and ranges, inverted or not, is read as that list |
| PatternTexts.AcceptsWritten | src/bin/sh/expand.c:1348-1467 | of that text pmatch accepts just the strings that the list stands for: between brackets a character that is listed or lies in a range, or with ! one that does not |
| PatternTexts.QuotedIsRead | src/bin/sh/expand.c:1360-1361 | the quote marks around a part of a pattern are not read |
| Quoting.CopyValue | src/bin/sh/expand.c:666-678 | a value is copied with an escape before each special character |
| Quoting.CopiedAsItIs | src/bin/sh/mksyntax.c:235-244 | a value is copied as it is if and only if it has none of the marks of the shell and, in double quotes, none of !*?[=~:/-] |
| Quoting.Rmescapes | src/bin/sh/expand.c:1475-1497 | rmescapes takes the escapes and quote marks away, in place, and changes nothing outside the string |
| Quoting.EscapedRoundTrip | src/bin/sh/expand.c:1475-1497 | taking the escapes away gives back every value |
| Quoting.EscapedIsLiteral | src/bin/sh/mksyntax.c:235-244 | in double quotes every character of a value without a backslash stands for itself in a pattern |
| Quoting.QuotedStandsForItself | src/bin/sh/mksyntax.c:235-244 | a double-quoted value, as a pattern, stands for itself alone, and is accepted by pmatch for itself alone, if and only if it has no backslash |
| Quoting.BackslashIsNotItself | src/bin/sh/mksyntax.c:235-244 | a value with a backslash does not even match itself |
| Trims.Trim | src/bin/sh/expand.c:490-610 | #, ##, % and %% leave in the buffer the value without its shortest or longest matching prefix or suffix, and the whole value when none matches; under the exact condition of AcceptsIsExact, matching is being in the language; nothing outside is changed |
| Trims.TrimmedIsOptimal | src/bin/sh/expand.c:490-610 | where pmatch accepts the language, what a trim leaves is what POSIX asks for: the value without the shortest or longest part in the language |
| Trims.FindLeft | src/bin/sh/expand.c:536-546 | the shortest prefix, with the buffer restored after each try |
| Trims.FindLeftMax | src/bin/sh/expand.c:548-565 | the longest prefix |
| Trims.FindRight | src/bin/sh/expand.c:567-581 | the shortest suffix, never cutting between an escape and its character |
| Trims.FindRightMax | src/bin/sh/expand.c:583-591 | the longest suffix |
| Trims.MoveDown | src/bin/sh/expand.c:596-602 | what is kept is moved to the start of the value |
| Trims.BestCut | src/bin/sh/expand.c:490-610 | the best place among those in the string is the best of the value without escapes |
| MergeSort.Msort | src/bin/sh/expand.c:1285-1325 | a list of the same nodes, acyclic, sorted by strcmp and stable; only links are changed |
| ByteStrings.StrcmpIsDictionary | src/bin/sh/expand.c:1301-1310 | the order of the sort is that of a dictionary, by unsigned bytes |
| MergeSort.Merge | src/bin/sh/expand.c:1301-1324 | the loop merges two sorted lists into one, nodes of equal text in their old order |
| MergeSort.Expsort | src/bin/sh/expand.c:1271-1282 | counts the list and sorts it |
| MergeSort.TakeSecond | src/bin/sh/expand.c:1301-1324 | taking from the second list overtakes no node with the same text |
| MergeSort.StableTwice | src/bin/sh/expand.c:1285-1325 | sorting both halves and merging them is stable as a whole |
| FieldSplitting.Ifsbreakup | src/bin/sh/expand.c:949-1035 | the word falls into fields, each of them a C string in the buffer; separators lie between them, with no more than one hard one; the last, when it is empty, is kept under the condition stated |
| FieldSplitting.BreakRegion | src/bin/sh/expand.c:972-1018 | the search of one region, which leaves neither the region nor the string |
| FieldSplitting.SkipDelims | src/bin/sh/expand.c:994-1013 | skips white space and at most one other separator |
| FieldSplitting.TextIsConserved | src/bin/sh/expand.c:949-1035 | the fields end to end are the word without its separators: no byte is lost, doubled or moved |
| FieldSplitting.OneFieldPerHard | src/bin/sh/expand.c:949-1035 | there are no more hard separators than fields ended, and as many if nothing is white space |
| FieldSplitting.Decision | src/bin/sh/expand.c:1020-1027 | the test at the end keeps the last field just when the condition Emitted holds |
| FieldKinds.KindsSay | src/bin/sh/expand.c:949-1018 | what each byte of a word is, from the regions and IFS: text outside of all regions; in a quoted region a separator only for a NUL; else for a byte of IFS too, hard if it is no white space |
| FieldKinds.BreakQuoted | src/bin/sh/expand.c:949-1035 | a word without NULs of which at most quoted parts are searched is one field, the whole of it |
| Glob.GlobName | src/bin/csh/_glob.c:402-462 | a pattern compiled onto itself and matched against a name: the answer is yes exactly if the pattern, as it was written, stands for the name and an initial dot is matched by a dot |
| Glob.Glob0 | src/bin/csh/_glob.c:402-462 | the compiled pattern is that of the pattern read, no longer than it, and never written ahead of what is read, so that the buffers may be one; the array may end right behind the terminator, so nothing past it is read; the flag tells whether anything in it is not literal |
| Glob.CompileSet | src/bin/csh/_glob.c:432-441 | the loop over a set reads up to its closing bracket, and writes its members and ranges |
| Glob.CompileBracket | src/bin/csh/_glob.c:418-444 | a bracket starts a set if and only if it is closed behind its first member |
| Glob.Match | src/bin/csh/_glob.c:684-729 | match accepts exactly the names that the compiled items stand for |
| Glob.MatchSet | src/bin/csh/_glob.c:706-721 | tells whether a character is in a set |
| Glob.MatchesIsLanguage | src/bin/csh/_glob.c:684-729 | matching from left to right is cutting the name into one part for each item |
| GlobTexts.WrittenIsRead | src/bin/csh/_glob.c:402-462 | the text written for a list of letters, wildcards and sets with singles and ranges is read as that list |
| GlobTexts.PatternStandsFor | src/bin/csh/_glob.c:402-462 | that text, and what it is compiled to, stand for just the names that the list stands for |
| Glob.StarsCollapse | src/bin/csh/_glob.c:449-456 | the names are the same with adjacent stars made one |
| Glob.CompiledKeepsLanguage | src/bin/csh/_glob.c:402-462 | the compiled pattern stands for what the pattern stands for |
| Braces.GlobExpand | src/bin/csh/glob.c:260-309 | the array ends up holding the recursive expansions of its words, one after the other, in order; if that meets an error, the character that is missing is told |
| Braces.Globbrace | src/bin/csh/glob.c:125-212 | the words with each alternative of the first group in its place, sets in brackets passed over; or the character that is missing |
| Braces.OneRound | src/bin/csh/glob.c:260-309 | one round of the worklist keeps the total expansion, or tells its error, and makes the work left less |
| Braces.AlternativesAreSmaller | src/bin/csh/glob.c:125-212 | every alternative has fewer braces, so that the worklist ends |
| Braces.Replace | src/bin/csh/glob.c:285-305 | the words after the one rewritten move up, within the grown array |
| Braces.ExpandText | src/bin/csh/glob.c:125-212 | the recursive expansion of a word is the product of its groups; sets in brackets, which may hold commas and closing braces, are left as they are |
| Braces.ExpandIsChoice | src/bin/csh/glob.c:125-212 | every word without brackets and with its braces closed has such a structure, so that this holds of all of them |
| Braces.ExpandsIfClosed | src/bin/csh/glob.c:142-168 | a word without brackets is expanded if and only if no brace is open at its end; with one open the code reads what it has not written, and with more the brace is told to be missing |
| Braces.ListIsToldBy | src/bin/csh/glob.c:260-309 | of words without brackets, what becomes of the list is told by the number of braces open at the end of the first word that has any |
| Jobs.JobTable.Palloc | src/bin/csh/proc.c:437-501 | a new process leads a new job, with an index not in use, or joins the job being started at the end of its ring; the current and previous job are set if there was none |
| Jobs.JobTable.Pchild | src/bin/csh/proc.c:108-196 | the status of a child: the flags of every process afterwards, and what becomes of its job and of the current and previous job |
| JobFlags.WaitTells | src/bin/csh/proc.c:108-141 | what wait has said of a process is the one state that its flags give afterwards, and no other flag changes but the mark of being reported |
| JobFlags.SettlingTells | src/bin/csh/proc.c:155-192 | each flag of a process after its job has stopped or ended |
| Jobs.JobTable.Pflush | src/bin/csh/proc.c:376-405 | exactly the job of the process leaves the table, with its marks; a second flush does nothing |
| Jobs.JobTable.Pclrcurr | src/bin/csh/proc.c:410-426 | the job is neither current nor previous afterwards; other jobs keep their marks, or move up |
| Jobs.JobTable.Pgetcurr | src/bin/csh/proc.c:1124-1140 | the newest job that is neither current nor pp, a stopped one if there is one |
| Jobs.JobTable.Pstart | src/bin/csh/proc.c:1025-1055 | exactly the flags of the processes of the job change; in the background the job loses its marks |
| JobFlags.StartTells | src/bin/csh/proc.c:1025-1055 | a process that has not ended runs afterwards, in the foreground or not as is asked for; one that has ended does not |
| Jobs.JobTable.Reap | src/bin/csh/proc.c:224-246 | exactly the flushed processes are unlinked, the others stay in order |
| Jobs.JobTable.NewIndex | src/bin/csh/proc.c:437-501 | the index of a new job: the next one, or from BIGINDEX on the first that is free |
| Jobs.WithNewJob | src/bin/csh/proc.c:437-501 | rings, indices, leaders and the largest index after a new job |
| Jobs.WithJoined | src/bin/csh/proc.c:437-501 | the same after a process joins a job |
| Jobs.LiveIsGrouped | src/bin/csh/proc.c:224-246 | no ring reaches a process that is unlinked |
| Jobs.Rotated | src/bin/csh/proc.c:108-196 | walking a ring from any of its processes meets all of them |
| Buckets.Allocator.Malloc | src/bin/csh/alloc.c:151-206 | a block that was not in use, of the smallest bucket that has room; the invariant (free lists acyclic and disjoint, blocks disjoint and tiling the memory, nmalloc counting what is in use) holds |
| Buckets.Allocator.Morecore | src/bin/csh/alloc.c:212-262 | new blocks fill the memory obtained, are all free, and move no other block |
| Buckets.Allocator.MagicTells | src/bin/csh/alloc.c:268-308 | the first byte of the overhead is MAGIC if and only if the block is in use: a link is 0 or divisible by 8, so that its low byte is never MAGIC |
| Buckets.Allocator.FreeBlock | src/bin/csh/alloc.c:268-308 | exactly the block given back is no longer in use; what is no block, or not in use, is left alone |
| Buckets.Allocator.Realloc | src/bin/csh/alloc.c:349-400 | the block returned is in use and has room; the old one is in use only if it is that block; if it is another, the bytes of the old one have been copied to it; no other block has changed |
| Buckets.CopiedBytes | src/bin/csh/alloc.c:396-397 | each byte of the copy is that of what was copied, and no other byte changes |
| Buckets.BucketFor | src/bin/csh/alloc.c:151-206 | the smallest bucket whose blocks have room |
| Buckets.RowCovers | src/bin/csh/alloc.c:212-262 | a byte is in the memory obtained if and only if it is in one of the blocks carved from it |
| Buckets.TiledAfter | src/bin/csh/alloc.c:212-262 | blocks and memory obtained cover the same bytes after more memory |
| StackBlocks.BlockStack.Stalloc | src/bin/sh/memalloc.c:134-160 | storage from the top block, or from a new one; what was in use is not disturbed; stacknxt + stacknleft stays the end of the top block (the stack stays full) |
| StackBlocks.BlockStack.Stunalloc | src/bin/sh/memalloc.c:163-173 | back down to a place in the top block |
| StackBlocks.BlockStack.SetStackMark | src/bin/sh/memalloc.c:177-184 | a mark remembers what is in use |
| StackBlocks.BlockStack.PopStackMark | src/bin/sh/memalloc.c:187-206 | what is in use is what was in use when the mark was set, byte by byte; from a full stack stacknxt + stacknleft is the end of the top block again |
| StackBlocks.BlockStack.GrowStackBlock | src/bin/sh/memalloc.c:215-241 | the free part keeps its text and grows to more than twice its size; whether realloc moves the block or not, the marks stay good if and only if no mark names a block that is moved, and the stack stays full if and only if no mark names the block that is reallocated |
| StackBlocks.MarkLost | src/bin/sh/memalloc.c:215-241 | once the block that a mark names has moved, the mark is no good |
| StackBlocks.FullReplaced | src/bin/sh/memalloc.c:215-241 | a mark reaches to the end of its block, after the top block has been reallocated, if and only if it does not name that block |
| StackBlocks.FullPopped | src/bin/sh/memalloc.c:187-206 | going back to the last mark, all other marks still reach to the ends of their blocks, and the free part to the end of the top block |
| StackBlocks.MarkThenGrow | src/bin/sh/memalloc.c:215-241 | the case that fails: a mark is set where all of the top block is free, and the block grows; the stack is good afterwards if and only if realloc leaves the block where it is, and it is not full |
| StackBlocks.BlockStack.GrabStackBlock | src/bin/sh/memalloc.c:243-252 | takes the start of the free part |
| StackBlocks.BlockStack.GrowStackStr | src/bin/sh/memalloc.c:273-289 | room after a string that fills the block: with its text kept, or written out to the here-document when that is open and the block large |
| StackBlocks.BlockStack.MakeStrSpace | src/bin/sh/memalloc.c:291-299 | room for a hundred characters, with the text kept |
| StackBlocks.BlockStack.UngrabStackStr | src/bin/sh/memalloc.c:301-309 | goes on with a string that was grabbed last |
| StackBlocks.BlockStack.StPutc | src/bin/sh/memalloc.h:72 | what has been written out, and then the text, has one character more, wherever the string then is; without a here-document it is the text; the stack stays full unless a block that a mark names is reallocated |
| StackBlocks.BlockStack.CheckStrSpace | src/bin/sh/memalloc.h:73 | room for n characters, with the text kept |
| StackBlocks.BlockStack.UStPutc | src/bin/sh/memalloc.h:74 | one character more, where there is room |
| StackBlocks.BlockStack.StackStrNul | src/bin/sh/memalloc.h:75 | a NUL after the text; the counter fits the cursor afterwards if and only if there was room |
| StackBlocks.FillAndEnd | src/bin/sh/memalloc.h:75 | the case that fails: a string fills the top block and a NUL is put after it; the text and the NUL are there, and the counter is one too small for the cursor |
| StackBlocks.BlockStack.StUnputc | src/bin/sh/memalloc.h:76 | one character less |
| StackBlocks.BlockStack.StAdjust | src/bin/sh/memalloc.h:78 | the cursor moves, and the counter with it |
| StackBlocks.BlockStack.GrabStackStr | src/bin/sh/memalloc.h:79 | the text is taken, and stays where it is |

## Left out

- CacheRuns.RunIsAccurate: PATHs name no `%func` and at most one `%` in a component, and files do not change; functions from files are read by code that is not part of this model.
- CacheRuns.SafeIsNeeded: a function is an address, which is no index of a component of PATH.
- CommandTable.CmdTable.FindCommand: what stat says of a name with a slash is an argument; printing, error messages and the counters of interrupts are left out, and chains are sequences rather than links.
- CommandTable.CmdTable.CmdLookup: the argument `add`, which appends an entry, is modelled by SetLast.
- FlagEval.Shell.EvalTree: the fuel stands for the time that a run may take; StructuredFacts.FuelDoesNotMatter and ControlStack.EvalIsTheMachine show that nothing else depends on it.
- FlagEval.Shell.EvalCommand: word expansion, execution, redirection of builtins and parameters are events of an environment that may depend on all that happened before; `eval`, `.`, subshells, pipes, background jobs, `set -e` and traps are left out.
- Redirections.Shell.Redirect: here-documents, output to memory (`REDIR_BACKQ`) and the counter `fd0_redirected` are left out; a file opens always, on the lowest free descriptor.
- Redirections.Shell.RunCmd: commands are built from simple ones, sequences and redirections.
- Patterns.Pmatch: no quote marks inside brackets that are closed; no escape or backslash at the end of a pattern or of an escaped string.
- Trims.Trim: the value and the pattern stand one behind the other in one block, which does not move while they are compared.
- Quoting.CopyValue: one block with room for the result; StackBlocks.BlockStack.StPutc is about a block that grows.
- FieldSplitting.Ifsbreakup: regions come in order, hold whole characters and hold every NUL; the list of arguments is a sequence.
- MergeSort.Msort: the text of a node is a value.
- ModeCommands.CmdBuffer.AddCmd: a mode is a set of bit numbers; the parser of symbolic modes in setmode, and its octal branch, are left out.
- VariableTable.VarTable.Unset1: the pattern match Gmatch is any predicate; what `unset` does for special variables, and freeing, are left out.
- Buckets.Allocator.Malloc: sbrk gives zeros and never fails; a size beyond the largest bucket is excluded.
- Buckets.Allocator.Realloc: the search for a block given back (findbucket), whose result the code does not use, is left out; the low byte of a link comes first in memory, and links are apart from the bytes of blocks.
- StackBlocks.BlockStack.GrowStackStr: what is written to a here-document is a string; writing never fails.
- Jobs.JobTable.Pchild: wait, signals, times, terminals and all printing; what it sends to the terminal driver is left out.
- Jobs.JobTable.Reap: the wait of `pwait` for the current job, and freeing.
- Glob.GlobName: patterns without a slash; reading directories, tilde, and the recursion over segments.
- Braces.GlobExpand: a group that ends with the word and is not closed, where the code reads a list that it has not written (`Undefined`; for words without brackets Braces.ListIsToldBy says when that is); steps 1 and 3 of globexpand, and the fixed size of the buffer of globbrace.
- Braces.ExpandText: sets in brackets hold no opening brace, since a bracket hides braces in a group but not in front of one; of other words with brackets nothing is said but what their recursive expansion is.
- PatternTexts.AcceptsWritten: between brackets, a dash, an exclamation mark and a closing bracket are written with an escape.
- GlobTexts.PatternStandsFor: between brackets, a dash, an exclamation mark and a closing bracket are written with the mark of quoted characters.
- Failure of allocation, and jumps out of errors.
- The parsers, line editing, history, printing and option tables of both shells.
