# pedant, modelled in Dafny

Pedant is a static checker for NASL, the scripting language of the Nessus
vulnerability scanner. This project models its core and proves properties
of the model:

- **The check engine** (`lib/pedant/check.rb`), in `check.dfy` (module
  `CheckEngine`) and `scheduler.dfy` (module `Scheduler`). It covers:
  - the registry of check classes and the sorted list of their friendly
    names;
  - readiness of a check against the knowledge base, and its dependencies;
  - the friendly name derived from a class name;
  - the report buffer of a check instance, the rendering of that buffer at
    a severity level, and the verdict setters;
  - the scheduler that runs pending checks in dependency order until none
    is left, none is ready, or a check halts the run.
- **The socket-leak check** (`lib/pedant/checks/socket_leak.rb`), in
  `socket_leak.dfy` (module `SocketLeak`). It walks the statements of each
  function body and of the main body of a file, tracking the variables that
  hold an open socket. A `break`, `continue`, `exit` or `audit` reached while
  handles are tracked, or the end of a file with handles left, turns the
  verdict to `warn` and reports the handles.
- **The octal-integer check** (`lib/pedant/checks/uses_octal_integers.rb`),
  in `uses_octal_integers.dfy` (module `UsesOctalIntegers`). Every integer
  literal the lexer typed as octal produces three warn lines: an
  explanation, the literal's decimal value and its context.
- **The command registry** (`lib/pedant/command.rb`), in `command.dfy`
  (module `Command`): registration, lookup by binding, the sorted list of
  bindings, and the dashed section banner.

`support.dfy` holds the shared pieces: an `Option` type and string helpers
(join, split, repeat, and an insertion sort proved sorted and a
permutation).

## How the model is built

- **Registries and check instances are classes.** The source updates them
  in place: `all << cls`, `@report << …`, `@result = …`. So
  `CheckRegistry`, `CommandRegistry` and `Check` are classes, and their
  methods carry `modifies` clauses and state the whole new state.
- **Loops are methods proved against functions.** The scheduler loop, the
  socket walk over statements, the handle listing and the octal reporting
  loops are methods with loop invariants. Each is proved equal to a pure
  function: `Schedule`, `NodeWalk`/`BlockWalk`, `FindingsText` or `Lines`.
  The lemmas then state the source's promises about those functions.
- **The socket walk separates tracking from its effects.** The walk
  threads a Ruby `Set` of names, which keeps insertion order. It is modelled
  as a duplicate-free `seq<string>`, because that order decides the order of
  names in the warning. The walk functions return the set left over and a
  list of effects on the check: a leak report (`warn` plus one line), or a
  reset of the verdict by `pass`. `Applied` says that a check instance shows
  these effects.
- **A check's run is given, not modelled.** The scheduler takes each check
  class's run as data (`Outcome`): the verdict it ends with and the
  knowledge-base keys it adds. The knowledge base is the set of its keys.
- **The halting status is a parameter.** The scheduler loop compares each
  finished check's result with `:fatal`, but `fatal` leaves `:died`. So
  `Schedule` takes the status it halts on. The source's behaviour is
  `haltOn = Fatal`, and the evidently intended one is `haltOn = Died` (see
  Findings).
- **Where code and description differ, the model follows the code.** The
  socket walk walks the false branch of an `if` starting from the names the
  true branch left, not from a union of two independent walks. An
  `if (!x)` with `x` tracked skips both branches, not only the true one.

## Model

| member | source | states |
|---|---|---|
| CheckEngine.LevelNamed | lib/pedant/check.rb:40 | a level symbol is known exactly when it is one of error, warn, info |
| CheckEngine.ReduceHasKeysAll | lib/pedant/check.rb:77-81 | the `reduce` over the required keys is true iff the start value is true and every required key is in the knowledge base |
| CheckEngine.ReadyIffRequiresPresent | lib/pedant/check.rb:77-81 | a check is ready iff every key it requires is present; a check requiring nothing is always ready |
| CheckEngine.ReadyIffTrees | lib/pedant/checks/socket_leak.rb:29-31 | a check requiring the base list plus `trees` (the socket-leak check, and the octal check at lib/pedant/checks/uses_octal_integers.rb:29-31) is ready iff the knowledge base holds `trees` |
| CheckEngine.Depends | lib/pedant/check.rb:83-89 | a registered class is a dependency iff it provides some key the check requires; never longer than the registry |
| CheckEngine.DependsAppend | lib/pedant/check.rb:83-89 | dependencies keep registration order: those of a concatenated registry are those of each part, concatenated |
| CheckEngine.DependsMayIncludeItself | lib/pedant/check.rb:83-89 | a class that provides a key it requires is among its own dependencies |
| CheckEngine.AfterLastColonsSuffix | lib/pedant/check.rb:145 | stripping the module path leaves a suffix that contains no `::`, and what was removed ends in "::" |
| CheckEngine.AfterLastColonsQualified | lib/pedant/check.rb:145 | for `P::Name` with a colon-free `Name`, the module path strips to `Name` |
| CheckEngine.SpaceCapitalsOnlyAddsSpaces | lib/pedant/check.rb:145 | spacing capitals only inserts spaces: removing them gives the name back |
| CheckEngine.SpaceCapitalsBlanksBeforeCapitals | lib/pedant/check.rb:145 | after spacing, every blank is a space followed by a capital, and the name does not end in a blank |
| CheckEngine.SpaceCapitalsCapitalsAfterSpaces | lib/pedant/check.rb:145 | after spacing, every capital is preceded by a space |
| CheckEngine.StripSpaced | lib/pedant/check.rb:145 | on a spaced name, `strip` removes at most the one leading space |
| CheckEngine.FriendlyNameBase | lib/pedant/check.rb:143-146 | the class name without its module path and its leading `Check` has no blanks when the class name has none |
| CheckEngine.FriendlyNameLetters | lib/pedant/check.rb:143-146 | the friendly name, spaces removed, is the class name without its module path and its leading `Check` |
| CheckEngine.FriendlyNameShape | lib/pedant/check.rb:143-146 | the friendly name neither starts nor ends with a blank, every capital after the first character follows a space, and every blank is one space directly before a capital |
| CheckEngine.FriendlyNameOfSocketLeak | lib/pedant/check.rb:143-146 | `Pedant::CheckSocketLeak` is listed as "Socket Leak" |
| CheckEngine.CheckRegistry.constructor | lib/pedant/check.rb:61-63 | the registry starts empty |
| CheckEngine.CheckRegistry.Inherited | lib/pedant/check.rb:65-67 | a new subclass is appended and nothing else changes |
| CheckEngine.CheckRegistry.List | lib/pedant/check.rb:57-59 | the list is sorted and holds exactly the friendly names of the registered classes, duplicates included |
| CheckEngine.SelectedAppend | lib/pedant/check.rb:134 | filtering the buffer by level keeps report order: the lines of a concatenation are those of each part, concatenated |
| CheckEngine.SelectedExtremes | lib/pedant/check.rb:134 | at index 2 or above every line is rendered; below 0 none is |
| CheckEngine.BodyLines | lib/pedant/check.rb:134-135 | the rendered body splits at newlines back into the selected lines plus a final empty piece |
| CheckEngine.Check.constructor | lib/pedant/check.rb:46-48 | a new instance has the verdict `void` and an empty buffer |
| CheckEngine.Check.Report | lib/pedant/check.rb:120-128 | a line at a known level is appended; an unknown level fails (the source raises) and leaves the buffer unchanged |
| CheckEngine.Check.Render | lib/pedant/check.rb:130-140 | the render fails iff the level is an unknown symbol and the buffer is non-empty; otherwise it is the status header and friendly name followed by the lines at or below the level |
| CheckEngine.Check.Fail | lib/pedant/check.rb:148-150 | the verdict becomes `fail` |
| CheckEngine.Check.Fatal | lib/pedant/check.rb:152-155 | an error line is appended and the verdict becomes `died` |
| CheckEngine.Check.Pass | lib/pedant/check.rb:157-159 | the verdict becomes `pass` |
| CheckEngine.Check.Skip | lib/pedant/check.rb:161-163 | the verdict becomes `skip` |
| CheckEngine.Check.Warn | lib/pedant/check.rb:165-167 | the verdict becomes `warn` |
| CheckEngine.RenderAtWarnExample | lib/pedant/check.rb:134-135 | at `warn`, error and warn lines are rendered in order and info lines are dropped |
| Scheduler.SelectReady | lib/pedant/check.rb:97 | a pending check is selected iff it is ready against the current knowledge base (order and duplicates are stated by `SelectReadyAppend`) |
| Scheduler.Delete | lib/pedant/check.rb:104 | `delete` removes every copy of the class; the other classes stay (order and counts are stated by `DeleteAppend`) |
| Scheduler.SelectReadyAppend | lib/pedant/check.rb:97 | `select` keeps the pending list's order and duplicates: the selection of a concatenation is the selections of its parts, and one check is kept iff it is ready |
| Scheduler.DeleteAppend | lib/pedant/check.rb:104 | `delete` keeps the other classes in order, each as often as before: deleting from a concatenation deletes from each part, and one class is dropped iff it is the deleted one |
| Scheduler.RunReady | lib/pedant/check.rb:101-116 | the loop over the ready checks computes exactly the batch function `RunBatch` |
| Scheduler.RunChecksInDependencyOrder | lib/pedant/check.rb:91-118 | the scheduling loop yields exactly the checks, pending list and knowledge base of the function `Schedule` |
| Scheduler.RunBatchRunsInOrder | lib/pedant/check.rb:101-106 | a batch runs a prefix of the ready list, in order, each with its own verdict; it runs all of them unless it halted |
| Scheduler.RunBatchStopsAt | lib/pedant/check.rb:111-115 | in a batch only the last finished check can have the halting status, and it has it iff the batch halted |
| Scheduler.RunBatchAddsKeys | lib/pedant/check.rb:106 | after a batch the knowledge base is the old one plus the keys the finished checks added |
| Scheduler.RunBatchPending | lib/pedant/check.rb:104 | after a batch the pending list is the old one without the classes that ran |
| Scheduler.ReadyMonotone | lib/pedant/check.rb:77-81 | a check that is ready stays ready when the knowledge base grows |
| Scheduler.ScheduleAddsKeys | lib/pedant/check.rb:91-118 | the final knowledge base is the initial one plus the keys of every check that ran |
| Scheduler.ScheduleRunsOnlyReadyChecks | lib/pedant/check.rb:95-106 | every check that runs was pending and was ready against the initial knowledge base plus the keys of the checks run before it |
| Scheduler.ScheduleStopsAtDeadlock | lib/pedant/check.rb:95-98 | unless halted, no check left pending is ready; a pending check is left iff it did not run |
| Scheduler.ScheduleHaltsAtHaltingStatus | lib/pedant/check.rb:111-115 | only the last check run can have the halting status, and it has it iff the schedule halted |
| Scheduler.NothingReadyAmongNotReady | lib/pedant/check.rb:97-98 | once the ready checks are gone and they added nothing, nothing left is ready, so the next round breaks |
| Scheduler.RunBatchRunsAll | lib/pedant/check.rb:101-116 | when no ready check halts or adds keys, a batch runs exactly the ready checks and leaves exactly the unready ones |
| Scheduler.ScheduleAsWrittenRunsEveryReadyCheck | lib/pedant/check.rb:91-118 | when no check halts or adds keys, the schedule runs exactly the initially ready checks, in order, and then stops |
| Scheduler.DiedCheckDoesNotHaltAsWritten | lib/pedant/check.rb:112-115 | as written, a check that calls `fatal` does not stop the checks after it |
| Scheduler.DiedCheckHaltsWhenComparedWithDied | lib/pedant/check.rb:111-115 | halting on `died`, a check that calls `fatal` is the last to run |
| Scheduler.DiedCheckHaltsExample | lib/pedant/check.rb:152-155 | halting on `died`, the check after one that called `fatal` stays pending |
| SocketLeak.Add | lib/pedant/checks/socket_leak.rb:79 | adding to the tracked set: a name already there changes nothing, a new name goes last; no duplicates arise |
| SocketLeak.Remove | lib/pedant/checks/socket_leak.rb:104 | removing from the tracked set: members are the old ones except the name (the order is stated by `RemoveAppend`) |
| SocketLeak.RemoveAppend | lib/pedant/checks/socket_leak.rb:104 | `found - [x]` keeps the order of the other names: removing from a concatenation removes from each part, and one name is dropped iff it is `x` |
| SocketLeak.Merge | lib/pedant/checks/socket_leak.rb:172-178 | merging: members are those of either set, without duplicates (the order is stated by `MergeOrder`) |
| SocketLeak.MergeOrder | lib/pedant/checks/socket_leak.rb:172-177 | `merge` keeps the names already found first, in their order, then appends the new names of the merged set in its order |
| SocketLeak.Display | lib/pedant/checks/socket_leak.rb:51-53 | a named handle is shown as its name, the anonymous one as a non-empty marker |
| SocketLeak.Verdict | lib/pedant/checks/socket_leak.rb:43-58 | after the effects, the verdict is `warn` iff the last effect was a leak report and `pass` iff it was a reset |
| SocketLeak.ListHandles | lib/pedant/checks/socket_leak.rb:46-55 | the loop builds the shown handles joined by ", " |
| SocketLeak.ReportFindings | lib/pedant/checks/socket_leak.rb:43-58 | the check shows the effects of reporting the set: nothing when it is empty, else `warn` and one line naming the handles |
| SocketLeak.NodeWalk | lib/pedant/checks/socket_leak.rb:69-153 | walking a statement keeps the set free of duplicates, only adds names it opens, only drops names it closes, and reports only tracked or opened names |
| SocketLeak.BranchWalk | lib/pedant/checks/socket_leak.rb:121-130 | the same for a branch of an `if` |
| SocketLeak.BlockWalk | lib/pedant/checks/socket_leak.rb:161-166 | the same for a list of statements |
| SocketLeak.LocalWalkOpened | lib/pedant/checks/socket_leak.rb:82-99 | a local declaration tracks exactly the old names plus those it binds to a new socket |
| SocketLeak.BodiesWalk | lib/pedant/checks/socket_leak.rb:171-174 | what the function bodies leave is duplicate-free and opened in them; every report names an opened handle |
| SocketLeak.FileWalk | lib/pedant/checks/socket_leak.rb:170-179 | the same for a whole file |
| SocketLeak.NodeParser | lib/pedant/checks/socket_leak.rb:69-153 | `node_parser` returns the set `NodeWalk` computes and applies its effects to the check |
| SocketLeak.LocalParser | lib/pedant/checks/socket_leak.rb:82-99 | the loop over a local declaration's entries computes `LocalWalk` |
| SocketLeak.BranchParser | lib/pedant/checks/socket_leak.rb:121-130 | the dispatch on a branch returns the set `BranchWalk` computes and applies its effects |
| SocketLeak.BlockParser | lib/pedant/checks/socket_leak.rb:161-166 | `block_parser` returns the set `BlockWalk` computes and applies its effects |
| SocketLeak.CheckFile | lib/pedant/checks/socket_leak.rb:170-179 | checking a file applies the effects of `FileWalk` |
| SocketLeak.Run | lib/pedant/checks/socket_leak.rb:181-187 | the run passes first, then shows the effects of every file in order |
| SocketLeak.SimpleStatementEffect | lib/pedant/checks/socket_leak.rb:70-109 | outside `if` and blocks, a statement leaves the tracked names plus those it opens minus those it closes; it reports on exit statements and resets on `session_init` |
| SocketLeak.BlockWalkAppend | lib/pedant/checks/socket_leak.rb:161-166 | walking two statement lists in turn is walking their concatenation |
| SocketLeak.BodiesWalkFound | lib/pedant/checks/socket_leak.rb:171-174 | a handle is left by the function bodies iff some body leaves it |
| SocketLeak.FileReportsLeftovers | lib/pedant/checks/socket_leak.rb:170-179 | a file leaves the handles left by its functions or main body; when there are any, the last effect reports exactly them |
| SocketLeak.RunEventsNoLeaks | lib/pedant/checks/socket_leak.rb:181-187 | files that open no socket produce no leak report |
| SocketLeak.NoOpenCallNoWarning | lib/pedant/checks/socket_leak.rb:181-187 | files that open no socket leave the verdict `pass` and add no line |
| SocketLeak.RunVerdictIsPassOrWarn | lib/pedant/checks/socket_leak.rb:181-187 | the run ends in `pass` or `warn`; on `warn` the last line names the handles of the last report |
| SocketLeak.OpenThenCloseTracksNothing | lib/pedant/checks/socket_leak.rb:133-146 | a socket opened into a variable and closed through it is no longer tracked |
| SocketLeak.ExitWithOpenSocketReports | lib/pedant/checks/socket_leak.rb:106-109 | `exit` with an open socket reports it, with the fixed message text |
| SocketLeak.AnonymousSocketShown | lib/pedant/checks/socket_leak.rb:51-53 | an unassigned handle is shown as `<unassigned>`, at its place in the list |
| SocketLeak.GlobalSocketUntracked | lib/pedant/checks/socket_leak.rb:74-79 | a socket assigned to `g_sock` is not tracked |
| SocketLeak.NegatedGuardSkipsBothBranches | lib/pedant/checks/socket_leak.rb:110-118 | `if (!soc)` with `soc` tracked walks neither branch |
| SocketLeak.BranchesWalkedOneAfterTheOther | lib/pedant/checks/socket_leak.rb:121-130 | a close in the true branch of an `if` also counts on the path through the false branch |
| SocketLeak.ConditionalBreakReports | lib/pedant/checks/socket_leak.rb:106-130 | a `break` inside an `if` reports the open socket |
| SocketLeak.CloseThenSessionInit | lib/pedant/checks/socket_leak.rb:137-149 | a close drops the handle, and `session_init` resets the verdict |
| SocketLeak.SessionInitClearsWarn | lib/pedant/checks/socket_leak.rb:147-149 | a later `session_init` turns an earlier `warn` back to `pass`, but the warn line stays |
| UsesOctalIntegers.DigitsValueOfDigits | lib/pedant/checks/uses_octal_integers.rb:37 | the decimal digits of a natural number read back to that number |
| UsesOctalIntegers.DecimalRoundTrip | lib/pedant/checks/uses_octal_integers.rb:37 | the decimal rendering of any integer, sign included, parses back to it |
| UsesOctalIntegers.Octals | lib/pedant/checks/uses_octal_integers.rb:34 | an integer node is selected iff its first token is an octal literal |
| UsesOctalIntegers.NonOctalIgnored | lib/pedant/checks/uses_octal_integers.rb:34 | a decimal or hex literal adds nothing to the selection |
| UsesOctalIntegers.OctalKept | lib/pedant/checks/uses_octal_integers.rb:34 | an octal literal is appended to the selection, in tree order |
| UsesOctalIntegers.Warnings | lib/pedant/checks/uses_octal_integers.rb:35-38 | one group of three warn lines per selected literal, in order |
| UsesOctalIntegers.LinesLength | lib/pedant/checks/uses_octal_integers.rb:35-38 | the report gets exactly three lines per octal literal |
| UsesOctalIntegers.LinesAt | lib/pedant/checks/uses_octal_integers.rb:35-38 | lines 3k to 3k+2 are the explanation, value and context of the k-th octal literal |
| UsesOctalIntegers.ReportOctal | lib/pedant/checks/uses_octal_integers.rb:35-38 | one literal turns the verdict to `warn` and appends its three lines |
| UsesOctalIntegers.CheckTree | lib/pedant/checks/uses_octal_integers.rb:33-40 | a file's octal literals are reported in order; the verdict becomes `warn` iff there is one, and is otherwise unchanged |
| UsesOctalIntegers.Run | lib/pedant/checks/uses_octal_integers.rb:42-48 | the run ends in `pass` iff no file has an octal literal, else `warn`, and appends the lines of every file's octal literals in order |
| UsesOctalIntegers.LinesAppend | lib/pedant/checks/uses_octal_integers.rb:47 | the lines of two files in turn are the lines of their literals together |
| UsesOctalIntegers.AllOctalsMembers | lib/pedant/checks/uses_octal_integers.rb:42-48 | a literal is reported by the run iff it is octal and in some file's tree |
| UsesOctalIntegers.RunVerdict | lib/pedant/checks/uses_octal_integers.rb:42-48 | nothing is reported iff no tree holds an octal literal; three lines per reported literal |
| UsesOctalIntegers.ValueLineExample | lib/pedant/checks/uses_octal_integers.rb:37 | a literal whose value is 511 gets the line "This integer will have decimal value '511'." |
| UsesOctalIntegers.OctalExample | lib/pedant/checks/uses_octal_integers.rb:33-40 | `0777` next to a decimal `777` yields exactly the three lines for 511 |
| Command.Bindings | lib/pedant/command.rb:42 | the bindings of the registered commands, one per class, in order |
| Command.CommandRegistry.constructor | lib/pedant/command.rb:33-35 | the registry starts empty |
| Command.CommandRegistry.Inherited | lib/pedant/command.rb:37-39 | a new command class is appended and nothing else changes |
| Command.CommandRegistry.List | lib/pedant/command.rb:41-43 | the list is sorted and holds exactly the bindings of the registered commands |
| Command.ListIsTheSortedBindings | lib/pedant/command.rb:41-43 | any sorted arrangement of the bindings is the list, so the list is determined by the bindings |
| Command.ListAfterInherited | lib/pedant/command.rb:37-43 | registering a command adds its binding to the list |
| Command.CommandRegistry.Find | lib/pedant/command.rb:45-51 | nothing is found iff no registered command has the binding; otherwise the first registered command with it is returned |
| Command.Banner | lib/pedant/command.rb:53-66 | the banner fails iff the width is less than the bracketed title (the repeat count would be negative); otherwise it is exactly the width long |
| Command.DefaultBanner | lib/pedant/command.rb:53 | at the default width of 80, a title fits iff it has at most 76 characters |
| Command.BannerLayout | lib/pedant/command.rb:60-65 | floor(leftover/2) dashes, then the bracketed title, then ceil(leftover/2) dashes |
| Command.BannerRoundTrip | lib/pedant/command.rb:53-66 | stripping the dashes and brackets from a banner gives back the title, whatever it holds |
| Command.BannerExample | lib/pedant/command.rb:58-65 | an odd leftover puts the extra dash on the right: `--[ ab ]---` at width 11 |

## Left out

- `Check.initialize!` and `Command.initialize!` are left out. They load every file of a directory, which is file-system I/O.
- `Command.run` and `Command.usage` are left out. They parse options, print and exit the process.
- The colours of the status tags are left out. The tags are modelled as plain text.
- The test-mode branch of the check constructor is left out. That branch runs the check's dependencies through the scheduler before the check runs.
- A check's `run` is left out of the scheduler. The scheduler takes each check class's run as given: its verdict and the knowledge-base keys it adds.
- The scheduler's `yield` to a block is modelled as the list of finished checks, in order.
- The NASL parser is not part of this model.
  - A file reaches the socket-leak check as its statements. `tree.all(:Function)` becomes a pre-order collection of the function bodies.
  - A file reaches the octal check as its integer nodes in tree order. Each node carries the first token's type, the value and the context the parser gives it.
- SocketLeak.NodeWalk: a `close` call without arguments raises in the source, because it reads the first argument of an empty list. The model leaves the tracked set unchanged.
- Statements the walk ignores (loops, nested function definitions inside a body) are modelled as opaque `Other` and `Function` statements. The walk does not descend into them, and neither does the source.
- Command.Banner: the width is an integer. The source converts it to a float, so non-integer widths and widths beyond 2^53 are not modelled.
- CheckEngine.FriendlyNameShape, FriendlyNameLetters and FriendlyNameBase assume a class name without blanks. Ruby constant names never contain blanks.

## Findings

| source | as written | input that shows it | evidently intended | confidence | as-written member | corrected member |
|---|---|---|---|---|---|---|
| lib/pedant/check.rb:112-115 | the scheduler stops after a check whose result is `:fatal`; but `fatal` (lib/pedant/check.rb:152-155) sets the result to `:died` and nothing sets `:fatal`, so the early stop never happens | two ready checks, the first ending with `fatal` (`CheckA`, verdict `died`) and the second `CheckB`: both run | compare the result with `:died`, so that no check runs after a fatal error | not executed | Scheduler.DiedCheckDoesNotHaltAsWritten | Scheduler.DiedCheckHaltsWhenComparedWithDied |
