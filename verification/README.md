# Verified models of the agent hooks and tools

This project models the parts of the repository whose behaviour is hard to see from the code, and proves what each part
is for. Every module is plain Dafny; `dafny verify dfyconfig.toml` checks the whole of it.

* **Reboot recovery** (`scripts/claude-recover.py`).
  `SnapshotNames` and `Listings` are snapshot names, the listing of one boot's directory, the collision suffix and the
  write-if-changed rule. `SnapshotStore` is the store of all boots, the choice of the snapshot to restore, and
  rotation. `SnapshotCommands` is the state directory as a class with the methods of the snapshot command. `Runs` is
  the state machine over boots: time passing, snapshots, restores that end with or without a marker, reboots.
  `RestorePlan` decides mounts and sessions; `RestoreTrace` is the machine a restore runs on, with the trace of what
  happens; `RestoreSteps` and `Restore` are the class `Restorer` with its five phases, its deadline, its cleanup budget
  and the retries of the mounts phase. `CommandLine` is what a snapshot keeps of a command line.
* **Exact binomial bound** (`scripts/check-live-run-evidence.py`). `Binomial` is the distribution function and its
  laws, `StartCondition` proves that the bisection starts on the right side for every count, `UpperBound` holds the
  bisection and the rule of three.
* **Shell-structure check** (`scripts/check-exception-set-enumeration.py`). `ShellScanner` is the quote scanner,
  writing over an array with a stack of frames; `ShellGrammar` is the language it accepts, as trees. `ShellFlags` is the
  node read behind a `--deselect`, against the argument the shell passes. `ShellGuards` is the static check that a
  comparison guards a deselecting run, on tokens that keep blanked text apart from white space; `ShellLists` is how a list of commands runs, after
  section 2.9.3 of the POSIX.1-2017 Shell Command Language, and what an accepted comparison does in every such run;
  `GuardRules` says which comparisons are accepted, with positions and tokens alone, and what `!` does to one;
  `GuardProofs` and `GuardGaps` are the two halves of when it proves its node red, and `GuardExamples` holds commands
  for which it does not. `DeselectSites` is the check over all commands of a plan.
* **Effort accounting** (`scripts/hook-engine-start.py`): `Effort`.
* **Percentiles and calibration flags** (`scripts/budget-calibration.py`): `Calibration`.
* **Heading paths** (`scripts/crutch-inventory.py`): `Headings`.
* **Path containment** (`scripts/hook-guard-destructive-rm.py`, `scripts/claude-recover.py`): `Paths`.

`Options` and `Multisets` hold the type and the lemma that several modules share.

Methods carry the loops and the updates of the source and are proved equal to specification functions or predicates;
the lemmas say what those mean over all inputs, all runs or all executions.

## Where the code and its promises differ

* Rotation can drop the snapshot that a restore would use, when three newer previous boots recorded no sessions
  (`Runs.RotationCanLoseThePick`); the exact condition is `SnapshotStore.RotationKeepsSelectionIff`.
* Names stay in write order for 51 snapshots a second, one more than rotation keeps; the 52nd reuses the first name of
  the second and is deleted by its own rotation (`Listings.OverflowReusesName`). The directory always holds the last 50
  writes exactly when no second sees more than 51 (`Listings.ReplayKeepsNewestIff`).
* The rule of three gives a bound above 1 for one or two trials (`UpperBound.RuleOfThreeIsRateIff`); from three trials
  on it covers the 95% level.
* An accepted comparison is taken to prove that its node failed. It does so in every execution exactly if
  `GuardProofs.ProvesNode` holds of the command (`GuardGaps.ProvesNodeIff`): no `||` opens the comparison and no `&&` the
  invocation, the two and the save of the status each stand alone in their elements, nothing stands between the
  invocation and the save, `&` does not end the list of the save, and nothing that may run after it saves to the same
  variable in the same shell. Accepted commands for which it fails: `! pytest n; rc=$?; ...`
  (`GuardExamples.NegatedRunSlips`), `rc=1; pytest n; rc=$? & ...` (`GuardExamples.BackgroundSaveSlips`),
  `false && pytest n; rc=$?; ...` (`GuardExamples.SkippedRunSlips`).
* The mask turns quoted and substituted text into spaces, which the check takes for white space and the shell for words.
  So it accepts `rc=1; pytest n; "env" rc=$?; ...` (`GuardExamples.QuotedSaveSlips`) and `"false" pytest n; rc=$?; ...`
  (`GuardExamples.QuotedRunSlips`), and it reads `n` in `--deselect "m" n` where the shell passes `m`
  (`GuardExamples.QuotedNodeSlips`). Whatever the blanked text is, the node read is the one passed exactly if only
  blanks or `=` precede it and the shell's word ends where it does (`ShellFlags.ReadIsPassedIff`).
* The check looks at the first `--deselect` of a command only. A later run is guarded in every execution exactly if `&&`
  alone stands between and no `||` opens the comparison (`ShellLists.RunGuardedIff`); a clean plan can hold one that is
  not (`GuardExamples.SecondRunSlips`, and with a quoted command on a line of its own `GuardExamples.QuotedLineSlips`).
* Masking a masked command again can change it (`ShellGrammar.MaskingTwiceIff`).
* Essential mounts sort before the others only if the list of essential mounts repeats no line
  (`RestorePlan.EssentialFirstIff`).
* A mount that a hook brought up and that is gone at the last look is still reported as done
  (`RestoreSteps.DoneMountCanBeGone`), which takes a look that misses it after one that saw it
  (`RestoreTrace.BroughtUpStays`); sessions below it are nevertheless decided on that last look.
* The marker that ends recovery on a boot does not wait for sessions skipped for lack of memory, nor for any mount if the
  deadline comes before the mounts phase and no session is left to open (`Restore.LateRunIsMarked`). A marked run
  leaves no mount missing exactly if it reached the mounts phase or the last decision wanted no mount
  (`RestoreSteps.MarkedRunMountsIff`).
* A clock that goes back books the same seconds of effort twice (`Effort.SteppedClockCountsTwice`,
  `Effort.GapsAreElapsedIff`).

## Model

| member | source | states |
|---|---|---|
| `SnapshotNames.FileNameOrder` | scripts/claude-recover.py:1197-1202 | For stamps of one width and suffixes up to 99, comparing file names as strings is comparing (time, suffix), with `~` after `.`. |
| `SnapshotNames.ThreeDigitSuffixSortsEarly` | scripts/claude-recover.py:1201 | A suffix of three digits sorts before 99. |
| `Listings.ChooseSuffix` | scripts/claude-recover.py:1199-1202 | The collision loop finds the least unused suffix of the second. |
| `Listings.FreeSuffixHasTwoDigits` | scripts/claude-recover.py:1199-1202 | In a directory of at most 50 files the suffix found has at most two digits. |
| `Listings.ReplayKeepsNewest` | scripts/claude-recover.py:467-470 | After any history in time order in which no second sees more than 51 writes, the directory holds exactly the last 50 writes, under the names they were given. |
| `Listings.ReplayKeepsNewestIff` | scripts/claude-recover.py:467-470 | Over all histories in time order, the directory holds the last 50 writes at every moment exactly when no second sees more than 51 writes. |
| `Listings.NamesIncreaseIffSpaced` | scripts/claude-recover.py:1197-1205 | Names increase in write order exactly when no second sees more than 51 writes. |
| `Listings.OverflowReusesName` | scripts/claude-recover.py:1199-1202 | The 52nd write of a second gets the name of its first one, not newer than the 51st, and is rotated away at once: the directory stays as it was. |
| `Listings.LastIsNewest` | scripts/claude-recover.py:1187-1193 | The last file in name order is the one written last. |
| `Listings.NoRepeatedWrite` | scripts/claude-recover.py:1188-1195 | An unforced write never has the content of the write before it. |
| `Listings.LastFileIsLastCommand` | scripts/claude-recover.py:1186-1205 | After any nonempty series of commands in time order, with at most 51 writes a second, the last file holds what the last command saw, written by it or before. |
| `SnapshotStore.SelectedUnique` | scripts/claude-recover.py:438-457 | The rules for the choice determine it. |
| `SnapshotStore.RotationIdempotent` | scripts/claude-recover.py:467-488 | Rotating again changes nothing. |
| `SnapshotStore.RotationKeepsSelectionIff` | scripts/claude-recover.py:438-488 | Rotation keeps the choice for the current boot exactly when the chosen boot is among the three newest previous ones. |
| `SnapshotStore.RotationKeepsSessionlessSelection` | scripts/claude-recover.py:438-488 | It always does when no candidate bears sessions. |
| `SnapshotStore.RotationKeepsAnyBootSelection` | scripts/claude-recover.py:438-488 | It always keeps the choice over all boots. |
| `SnapshotStore.RotationBoundsStore` | scripts/claude-recover.py:467-488 | At most 50 + 2 * 3 snapshots remain. |
| `SnapshotCommands.StateDirectory.SelectSnapshot` | scripts/claude-recover.py:438-457 | Collecting, sorting by name and scanning backwards finds the newest session-bearing candidate, else the newest. |
| `SnapshotCommands.StateDirectory.Rotate` | scripts/claude-recover.py:467-488 | The directories become exactly what rotation leaves: 50 of this boot, and of each of the three newest other boots the last file and the newest session-bearing one. |
| `SnapshotCommands.StateDirectory.RestoreIsPending` | scripts/claude-recover.py:1147-1163 | True under a held lock, or without marker inside the window with a session-bearing choice; never for a boot with its marker, past the window, with unknown boot time or without such a choice, unless the lock is held. |
| `SnapshotCommands.StateDirectory.TakeSnapshot` | scripts/claude-recover.py:1166-1208 | Unless a restore is pending or the sessions cannot be read, unforced content that the last file already holds changes nothing, and any other is written under a new name of the current second and the store rotated; nothing else is touched, and the store stays valid with distinct names. |
| `SnapshotCommands.OwnDirectoryRecords` | scripts/claude-recover.py:1197-1205 | A write followed by rotation is, for this boot's directory, one step of the write history. |
| `SnapshotCommands.CommandExtendsHistory` | scripts/claude-recover.py:1186-1205 | A command that is not held back turns the directory of one history of commands into that of the history with it added. |
| `Runs.GoodStep` | scripts/claude-recover.py:1147-1208 | Every step keeps the store valid, its names distinct, and other boots' snapshots older than this boot. |
| `Runs.RunExtends` | scripts/claude-recover.py:1147-1208 | Any step enabled after a run extends it: asking for good worlds excludes no run. |
| `Runs.PreCrashSnapshotSurvives` | scripts/claude-recover.py:1135-1208 | Over any number of interrupted boots, guarded snapshot steps never change the store and the pre-crash snapshot stays the choice. |
| `Runs.SelectionStableWithinBoot` | scripts/claude-recover.py:438-488 | Within one boot the choice never changes, whatever is written, if its boot starts out recent. |
| `Runs.RebootSelection` | scripts/claude-recover.py:438-457 | After a reboot the choice is the same or a newer session-bearing snapshot of the boot that ended. |
| `Runs.ChoiceNeverRegresses` | scripts/claude-recover.py:438-488 | Over any run the session-bearing choice is never lost or replaced by an older one, if its boot is among those rotation keeps wherever a step changes the store. |
| `Runs.RotationCanLoseThePick` | scripts/claude-recover.py:475-479 | A store in which rotation loses the only session-bearing snapshot. |
| `RestorePlan.DecideMounts` | scripts/claude-recover.py:651-666 | One entry per recorded mount: skipped as mounted exactly if it is, skipped for disk space exactly if it is not mounted, not essential and the level is hard, else planned; in the order of rank and name. |
| `RestorePlan.EssentialFirstIff` | scripts/claude-recover.py:664-665 | Every essential target ranks before every other one exactly when the list repeats no line. |
| `RestorePlan.OrderOfMounts` | scripts/claude-recover.py:664-665 | Without repeated lines the output lists the essential mounts first, in the order of their lines, then the others by name. |
| `RestorePlan.DecideSessions` | scripts/claude-recover.py:681-707 | A session is opened exactly when it is not alive, its transcript exists and every recorded mount holding its directory is usable; with the right command, prompt and status. |
| `RestorePlan.OnlyBusyGetsPrompt` | scripts/claude-recover.py:668-678 | An opened session resumes itself in its own directory and window, with the prompt to go on exactly if it was busy and that mode is set. |
| `RestoreTrace.WindowIsSafe` | scripts/claude-recover.py:1024-1033 | Every opened window comes right after a check that found its session not alive and memory sufficient, with tmux there. The decision behind it came in the mounts phase right after looks at mounts, sessions and transcripts: all mounts holding its directory were seen mounted, its session not alive, its transcript there; no later look at the mounts came before the window. It runs exactly the session's command. |
| `RestoreTrace.FreshRestsOnLook` | scripts/claude-recover.py:994-1002 | A decision nobody has looked since rests on exactly what the last look at the mounts saw. |
| `RestoreTrace.BroughtUpStays` | scripts/claude-recover.py:994-1005 | A mount that an attempt brought up is mounted at the last look, unless some look missed it after another had seen it. |
| `RestoreTrace.DecisionIsGauged` | scripts/claude-recover.py:934-959 | Every decision uses the disk level measured last before it, and no hook or core action of a disk phase ran in between. |
| `RestoreSteps.DoneMountCanBeGone` | scripts/claude-recover.py:1002-1005 | A trace from the first plan through the first disk phase and one attempt, in which a mount brought up by the attempt is gone at the last look and reported as done. |
| `RestoreSteps.Decide` | scripts/claude-recover.py:710-714 | Deciding mounts, then the usable set, then sessions gives the plan of one view of the machine. |
| `RestoreSteps.DiskMenu` | scripts/claude-recover.py:629-643 | A level below fine calls for two actions of the core before the mounts phase and two that wait for the user after it, a fine one for none. |
| `RestoreSteps.RunsAdded` | scripts/claude-recover.py:896-927 | A phase adds to the runs of its own hooks exactly what it appends, and nothing to those of other phases. |
| `RestoreSteps.RoundsCount` | scripts/claude-recover.py:990-998 | The mounts phase runs every hook exactly once in each of its attempts. |
| `RestoreSteps.TurnTold` | scripts/claude-recover.py:1024-1036 | One turn of the sessions loop keeps every status in step with the windows tried. |
| `RestoreSteps.MarkedRunIsComplete` | scripts/claude-recover.py:1370-1374 | A run that marks the boot has opened every window it was to open, except where memory was seen to be low. A mount is up or left out for disk space exactly unless it was to be mounted and is reported as skipped, and none is if the mounts phase began or the run was not late. |
| `RestoreSteps.MarkedRunMountsIff` | scripts/claude-recover.py:1370-1374 | In a marked run every mount is up or left out for disk space exactly if the mounts phase began or the last decision wanted no mount. |
| `Restore.Restorer.constructor` | scripts/claude-recover.py:855-869 | The first plan follows from looks at the mounts, the sessions, the disk and the transcripts, in a simulated reboot from the disk and the transcripts alone; the deadline is never later than 45 minutes after the start. |
| `Restore.Restorer.RunHooks` | scripts/claude-recover.py:896-927 | Every hook gets one result, the one its process returned, and is started exactly if time is left; none outlives its cap or the deadline, and disk phases book their time. |
| `Restore.Restorer.RunCoreAction` | scripts/claude-recover.py:961-980 | A core action is run exactly if its program is installed and time is left, and is done exactly if it returned 0; it ends before the deadline and within the cleanup budget. |
| `Restore.Restorer.PhaseDisk` | scripts/claude-recover.py:934-959 | A real disk phase ends its cleanup by measuring the disk, and that is the level from then on; the first one then decides again, the second changes no decision. Actions of the phase all get a status, confirm actions are never run, every hook has its turn. |
| `Restore.Restorer.PhaseMounts` | scripts/claude-recover.py:982-1009 | One attempt, and when unattended up to three more, each exactly when hooks failed and time is left, all hooks once in each. The phase ends with a decision taken on a last look at mounts, sessions and transcripts, and no look since; a mount is reported done exactly if one attempt planned it, ran the hooks and then saw it mounted, else failed exactly if it should be mounted and is not. |
| `Restore.Restorer.PhaseSessions` | scripts/claude-recover.py:1011-1041 | Windows follow the settled decision and a positive check for tmux, in order, one per session; an entry is done or failed exactly as its window was, and every other skip has a reason that was observed. |
| `Restore.Restorer.Run` | scripts/claude-recover.py:1043-1056 | Over the whole run: every decision follows the looks and the measurement it rests on, every real disk phase measures after its cleanup and the final level is the last one measured, windows are safe and in order, cleanup stays within its cap, no process ends after the deadline and no phase is entered once it is over, phases run in order with every hook run once in each, or up to four times in an unattended mounts phase, recorded exits are those returned, core actions are done exactly if they returned 0, statuses tell what happened, skipped mounts have a reason that was observed, a rehearsal only runs hooks and changes no decision, a real run leaves nothing planned. |
| `Restore.Recover` | scripts/claude-recover.py:1322-1353 | Looking at the machine and building the plan meets what the run demands, so all of this holds of every restore; one that marks the boot leaves no mount missing exactly if it reached the mounts phase or wanted none. |
| `Restore.LateRunIsMarked` | scripts/claude-recover.py:1368-1374 | A real unattended restore without sessions whose time is over at the start is marked as restored whatever mounts are missing: a mount is up exactly if the first look saw it. |
| `CommandLine.StripPrompt` | scripts/claude-recover.py:277-307 | The loop computes the stripped command line. |
| `CommandLine.StripSelects` | scripts/claude-recover.py:277-307 | Exactly the executable's name, the flags and the values governed by a flag worth keeping survive, in order. |
| `CommandLine.StripIsIdempotent` | scripts/claude-recover.py:277-307 | Stripping a stripped command line changes nothing. |
| `CommandLine.KeptValueIsGoverned` | scripts/claude-recover.py:86-93 | In the result every element that is not a flag is governed by a flag in the kept set. |
| `CommandLine.PairIsKeptIff` | scripts/claude-recover.py:292-299 | Of a flag written with `=` the value stays exactly if the flag is in the kept set. |
| `CommandLine.NoOtherValueSurvives` | scripts/claude-recover.py:292-299 | No value written with `=` behind any other flag is left in the result. |
| `CommandLine.FirstIsLastComponent` | scripts/claude-recover.py:282-284 | The first element is the last component of the executable's path. |
| `Binomial.ChooseIsFactorialQuotient` | scripts/check-live-run-evidence.py:81 | Pascal's rule computes the binomial coefficient. |
| `Binomial.CdfStep` | scripts/check-live-run-evidence.py:80-81 | The distribution function conditions on one more trial. |
| `Binomial.CdfTotal` | scripts/check-live-run-evidence.py:80-81 | Over all counts it is 1. |
| `Binomial.CdfIsProbability` | scripts/check-live-run-evidence.py:80-81 | It lies between 0 and 1. |
| `Binomial.CdfNonIncreasing` | scripts/check-live-run-evidence.py:87-89 | It never grows with the rate, for every count and number of trials. |
| `StartCondition.CdfAboveExpectation` | scripts/check-live-run-evidence.py:80-81 | Any quartic below the step function bounds the distribution function by its expectation. |
| `StartCondition.ExpectationByMoments` | scripts/check-live-run-evidence.py:80-81 | That expectation is given by the central moments of the binomial law. |
| `StartCondition.MomentBounds` | scripts/check-live-run-evidence.py:80-81 | Its second moment is n p (1 - p) and its fourth is bounded by the second. |
| `StartCondition.CdfAtObservedRate` | scripts/check-live-run-evidence.py:95-98 | At the observed rate at least 5% of the law lies at or below the count, for every 0 < k < n: the bisection starts on the right side. |
| `UpperBound.AtMostBySeries` | scripts/check-live-run-evidence.py:71-77 | Waiting times: the chance of few events before n misses is a power times a partial negative-binomial series. |
| `UpperBound.CoefficientDominates` | scripts/check-live-run-evidence.py:71-77 | At rate 3/n each term of that series is at least 3^j / j!. |
| `UpperBound.RuleOfThreeCovers` | scripts/check-live-run-evidence.py:71-77 | For every n >= 3 the chance of no event at rate 3/n is below 5%. |
| `UpperBound.RuleOfThreeExcludes` | scripts/check-live-run-evidence.py:91-94 | Every rate from the rule of three up to 1 is excluded at the 95% level. |
| `UpperBound.RuleOfThreeIsRateIff` | scripts/check-live-run-evidence.py:91-94 | The rule of three is at most 1 exactly from three trials on. |
| `UpperBound.BracketsExclude` | scripts/check-live-run-evidence.py:96-101 | The bracket of the bisection separates all excluded rates from all admitted ones. |
| `UpperBound.Bisect` | scripts/check-live-run-evidence.py:95-102 | 200 halvings keep the bracket and shrink it to (1 - start) / 2^200. |
| `UpperBound.ExactUpperBound` | scripts/check-live-run-evidence.py:84-102 | The result lies in [k/n, 1] and within half that width of the exact crossing; every rate above is excluded, every rate below admitted. Without events it is the rule of three, a rate exactly from three trials on. |
| `ShellScanner.MaskQuoted` | scripts/check-exception-set-enumeration.py:103-194 | The scanner over an array computes the mask, or the frame left open. |
| `ShellGrammar.MaskOfCommand` | scripts/check-exception-set-enumeration.py:103-194 | Every well-formed command tree is scanned to its mask: its ordinary top-level characters, all else spaces. |
| `ShellGrammar.CommandOfMask` | scripts/check-exception-set-enumeration.py:103-194 | Whatever is scanned without error is such a tree. |
| `ShellGrammar.UnterminatedIffNoCommand` | scripts/check-exception-set-enumeration.py:192-193 | The scanner raises exactly on text that is no command tree. |
| `ShellGrammar.MaskShape` | scripts/check-exception-set-enumeration.py:104-106 | The mask has the length of the command, differs from it only by spaces and holds no quote, backquote or `$(`. |
| `ShellGrammar.MaskingTwiceIff` | scripts/check-exception-set-enumeration.py:146-153 | Masking again changes nothing exactly when no `#` of the mask stands at a boundary. |
| `ShellGrammar.MaskingTwiceCanDiffer` | scripts/check-exception-set-enumeration.py:146-153 | `''#` shows that it can. |
| `ShellGuards.CapturedNodes` | scripts/check-exception-set-enumeration.py:286-288 | The last-write-wins dictionary gives, per variable, the last capture before the first deselection. |
| `ShellGuards.GuardedNodes` | scripts/check-exception-set-enumeration.py:279-301 | The set is that of the nodes of all accepted comparisons; which those are says `GuardRules.AcceptsIff`. |
| `ShellGuards.CapturesPrecede` | scripts/check-exception-set-enumeration.py:268-300 | Every capture lies before every accepted comparison, so the dictionary gives the nearest one. |
| `GuardRules.AcceptsIff` | scripts/check-exception-set-enumeration.py:251-301 | A comparison is accepted exactly if it compares with 1, an earlier invocation saves its status to its variable, `&&` follows it and is the only operator up to the first `--deselect`, and no `!` opens its conjunct. |
| `GuardRules.GuardOfIs` | scripts/check-exception-set-enumeration.py:286-295 | Its node is that of the last such invocation. |
| `GuardRules.AcceptedIsNotInverted` | scripts/check-exception-set-enumeration.py:260-265 | No accepted comparison is inverted by `!` when the command runs. |
| `GuardRules.InvertedLetsThrough` | scripts/check-exception-set-enumeration.py:260-265 | An inverted one would let the run behind `&&` happen exactly if the saved status is not 1. |
| `ShellLists.FailedGuardBlocks` | scripts/check-exception-set-enumeration.py:251-301 | If an accepted comparison runs and fails, the first deselecting run is not executed, whatever the commands do. |
| `ShellLists.SkippedGuardBlocks` | scripts/check-exception-set-enumeration.py:268-276 | A comparison skipped other than by `\|\|` blocks it too. |
| `ShellLists.GuardHoldsIff` | scripts/check-exception-set-enumeration.py:251-301 | In every execution the first deselecting run implies a comparison that succeeded, exactly when no `\|\|` opens the conjunct. |
| `ShellLists.RunGuardedIff` | scripts/check-exception-set-enumeration.py:268-276 | The same for any later run, exactly when also `&&` alone stands between it and the comparison. |
| `GuardProofs.ProvenNodeIsRed` | scripts/check-exception-set-enumeration.py:20-31 | If the command meets the condition `ProvesNode`, the deselecting run implies, in every execution, that the node was run and exited with 1. |
| `GuardGaps.GreenNodeSlips` | scripts/check-exception-set-enumeration.py:286-300 | Whenever the condition fails, an accepted comparison lets the deselecting run happen in some execution in which the node passes. |
| `GuardGaps.ProvesNodeIff` | scripts/check-exception-set-enumeration.py:20-31 | Over all executions the deselecting run implies a node that ran and exited with 1, exactly if the condition holds. |
| `GuardExamples.NegatedRunSlips` | scripts/check-exception-set-enumeration.py:260-265 | An accepted command whose invocation is negated, and an execution that deselects the passing node. |
| `GuardExamples.BackgroundSaveSlips` | scripts/check-exception-set-enumeration.py:286-300 | The same where `&` sends the save of the status to a subshell. |
| `GuardExamples.SkippedRunSlips` | scripts/check-exception-set-enumeration.py:286-300 | The same where the invocation itself is skipped. |
| `GuardExamples.QuotedSaveSlips` | scripts/check-exception-set-enumeration.py:286-288 | The same where a quoted command takes the save as its argument. |
| `GuardExamples.QuotedRunSlips` | scripts/check-exception-set-enumeration.py:286-288 | The same where a quoted command takes the invocation as its arguments. |
| `GuardExamples.PlainGuardProves` | scripts/check-exception-set-enumeration.py:20-31 | The plain spelling of a guard at the start of a command, whatever follows it, does prove its node. |
| `GuardExamples.NegatedComparisonRefused` | scripts/check-exception-set-enumeration.py:296 | The same command with a `!` before the comparison has no accepted comparison, and a plan with it is not clean. |
| `GuardExamples.SecondRunSlips` | scripts/check-exception-set-enumeration.py:283-284 | A clean plan whose second run deselects the node also when the comparison fails. |
| `GuardExamples.QuotedLineSlips` | scripts/check-exception-set-enumeration.py:268-276 | The same where a line that holds only a quoted command ends the list before the second run. |
| `GuardExamples.QuotedNodeSlips` | scripts/check-exception-set-enumeration.py:82 | A clean plan whose command deselects a node without any comparison: it is quoted. |
| `ShellFlags.ReadIsPassedIff` | scripts/check-exception-set-enumeration.py:82 | Whatever the blanked text is, the node read behind a flag is the one the shell passes, exactly if only blanks or `=` precede it and it is a whole word of the shell. |
| `DeselectSites.NoViolationIffClean` | scripts/check-exception-set-enumeration.py:304-355 | No violation exactly when every command that deselects can be scanned, every occurrence names a node, and all name one set of nodes, each of which has an accepted comparison, with no comparison for any other node. |
| `DeselectSites.CleanPlanIsGuarded` | scripts/check-exception-set-enumeration.py:304-355 | In a plan without violations every node read behind a `--deselect` has an accepted comparison in that command which, run and failing, blocks its first deselecting run and every one joined by `&&` alone, and which, if it proves its node, leaves no execution that deselects unless the node exited with 1; where it is read directly, it is the node the shell passes. |
| `DeselectSites.CleanPlanMissesNothing` | scripts/check-exception-set-enumeration.py:204-215 | In a plan without violations every command that mentions the flag could be scanned, and every flag of every command is read and guarded. |
| `DeselectSites.NoFlagsNoViolation` | scripts/check-exception-set-enumeration.py:204-215 | Commands without the flag never cause a violation. |
| `DeselectSites.StructuralViolations` | scripts/check-exception-set-enumeration.py:304-355 | Collecting the sites, reading each command and the three loops report exactly the violations, so the empty list means clean. |
| `Effort.CoveredSplits` | scripts/hook-engine-start.py:103-117 | Covered time adds up over adjacent gaps. |
| `Effort.NothingCovered` | scripts/hook-engine-start.py:103-117 | Nothing of a gap is covered if no run meets its inside. |
| `Effort.OneRunCovers` | scripts/hook-engine-start.py:103-117 | All of it is if one run contains it. |
| `Effort.CoveredMeasuresUnion` | scripts/hook-engine-start.py:103-117 | Covered time has all three properties. |
| `Effort.CoveredIsUnionLength` | scripts/hook-engine-start.py:103-117 | And no other way of measuring does: covered time is the length of the union of the runs. |
| `Effort.RunAdded` | scripts/hook-engine-start.py:103-117 | One more run adds its part of the gap less what was covered there already. |
| `Effort.CoveredInAnyOrder` | scripts/hook-engine-start.py:103-117 | The order of the runs does not matter. |
| `Effort.CoveredWithout` | scripts/hook-engine-start.py:120-135 | Taking a run away never covers more, so a noted loss is never negative. |
| `Effort.SessionState.StampPrompt` | scripts/hook-engine-start.py:138-190 | A prompt stamps the time, counts itself and books the gap; what was booked plus the noted loss is what would be booked without the live run. |
| `Effort.GapsConserved` | scripts/hook-engine-start.py:174-189 | Over any history, booked minutes and covered seconds never exceed the gaps, and fill them exactly when the cap never cuts one. |
| `Effort.NoRunsBookTheGaps` | scripts/hook-engine-start.py:174-189 | Without child runs a history books exactly the sum of its gaps, each cut at the cap, without those that end while blocked. |
| `Effort.OneGap` | scripts/hook-engine-start.py:176-180 | One gap books at most the cap and never more than its uncovered time, exactly that time unless the cap cuts it, and then the cap. |
| `Effort.GapsAreElapsedIff` | scripts/hook-engine-start.py:166-176 | The gaps, with the time before prompts that arrive while blocked, add up to the elapsed time exactly when the clock never goes back. |
| `Effort.NoSecondCountsTwice` | scripts/hook-engine-start.py:103-109 | With such a clock, booked time and child-run time together never exceed the elapsed time. |
| `Effort.SteppedClockCountsTwice` | scripts/hook-engine-start.py:166-176 | A clock that goes back books the same seconds twice. |
| `Calibration.PercentileIsMonotone` | scripts/budget-calibration.py:92-105 | A greater percentage never gives a smaller percentile, across all segments. |
| `Calibration.PercentileInAnyOrder` | scripts/budget-calibration.py:97 | Percentile and median depend only on the multiset of values. |
| `Calibration.PercentileAtRank` | scripts/budget-calibration.py:100-104 | At a whole rank the percentile is the order statistic. |
| `Calibration.PercentileBetweenRanks` | scripts/budget-calibration.py:100-105 | Between two ranks the percentile moves straight from one order statistic to the next. |
| `Calibration.PercentileBounds` | scripts/budget-calibration.py:92-105 | Every percentile lies between the least and the greatest value, which are the 0th and the 100th. |
| `Calibration.FiftiethIsMedian` | scripts/budget-calibration.py:108-113 | The 50th percentile is the median that the statistics use. |
| `Calibration.PercentileCounts` | scripts/budget-calibration.py:92-105 | Enough values above v push the percentile above v, and a percentile above v needs almost as many. |
| `Calibration.CalibrationFlags` | scripts/budget-calibration.py:158-179 | A group is flagged for a raise exactly if it has enough costs and a configured tier and its 90th percentile exceeds the tier, and for lowering exactly if the percentile does not and its median is below 0.3 of the tier. |
| `Calibration.FlaggedIff` | scripts/budget-calibration.py:158-179 | The same over all groups, and no group is flagged both ways. |
| `Calibration.FlagPositions` | scripts/budget-calibration.py:161-179 | The flags come in the order of the groups, one for every group that deserves one. |
| `Calibration.HighMedianIsRaised` | scripts/budget-calibration.py:165-179 | A group whose median exceeds its tier is always flagged for a raise. |
| `Headings.StatementUnits` | scripts/crutch-inventory.py:605-636 | Every fragment outside fences comes with exactly the headings above it, outside fences, that no later heading of the same or a smaller level has closed. |
| `Headings.UnitsIff` | scripts/crutch-inventory.py:613-636 | A unit stands for one fragment of one line outside fences, and every such fragment has one. |
| `Headings.PathTitles` | scripts/crutch-inventory.py:621-632 | Its path is made of the titles of exactly the headings open before that line, in their order. |
| `Headings.InFenceIsOdd` | scripts/crutch-inventory.py:616-620 | A line is inside a fence exactly after an odd number of fences. |
| `Headings.PathAfter` | scripts/crutch-inventory.py:621-627 | Keeping the smaller levels and pushing is how that set of open headings changes by one line. |
| `Headings.PathDeepens` | scripts/crutch-inventory.py:625-626 | Levels strictly grow along every heading path. |
| `Headings.BelowIsPrefix` | scripts/crutch-inventory.py:625 | So a heading only ever cuts the end of the path. |
| `Headings.UnclosedFenceHides` | scripts/crutch-inventory.py:616-620 | A fence that is never closed hides all statements and headings after it. |
| `Paths.InsideIff` | scripts/claude-recover.py:646-648 | Prefix containment of path strings is containment of their components. |
| `Paths.UnderIff` | scripts/claude-recover.py:646-648 | The same for the test on mounts, for every normalised path and root including `/`. |
| `Paths.IsProtected` | scripts/hook-guard-destructive-rm.py:74-88 | The two loops decide the protection predicate. |
| `Paths.PassesIff` | scripts/hook-guard-destructive-rm.py:43-88 | A normalised target passes exactly when its subtree holds neither `/`, HOME nor a protected tree and it lies in no protected tree. |

## Left out

- Calendar time: a snapshot's time stamp is a string of one width per second, ordered like the seconds; negative clock readings and time zones are not modelled.
- Content hashes are equality of content, and a file is read back as it was written or not at all.
- Boot directories without any snapshot file: they sort before all others in rotation and hold nothing to choose.
- Runs: the clock never goes back and a reboot takes at least a second, so snapshot names are distinct across boots.
- Restore: no time passes between computing a limit and starting the process, and a process returns within its limit; observations and pauses take any time. Negative pause settings are not modelled.
- Restore: what hooks print, the log, the plan file and the measured numbers behind the disk level.
- Restore: the locking and the choice of the snapshot file around a restore, and reading malformed snapshot entries.
- RestoreTrace.WindowIsSafe: the transcript is looked up once per decision for all sessions, not one by one.
- Command lines: characters that are white space are listed by code point; path names follow POSIX.
- Floating point: the bounds, percentiles and effort sums are over real numbers.
- Shell commands: the regular expressions are token positions; comments, here-documents, process substitution and nested parentheses in `$(...)` are read as the scanner reads them.
- ShellLists.ShellAt: a command is a flat list of pipelines; `if`, loops, `case`, braces, subshells and functions, and what changes the shell itself such as `set -e` or `exit`, are not modelled. An element does anything to its exit status and to the variables; a background list runs in its place, in a shell of its own.
- ShellFlags.Passed: parameter, pathname and brace expansion and redirections between a flag and its argument; a `--deselect` that is quoted or comes out of an expansion is no site for the check and none here.
- GuardGaps.ProvesNodeIff: the executions meant are those in which a node run alone in its element leaves its exit status and behind `!` the opposite, the guard's own save and comparison do just that where they stand alone, and no element assigns the variable unless a save to it stands there.
- DeselectSites.StructuralViolations: the labels of sites are distinct and the order of sites and messages is not modelled.
- Effort: the code that finds and closes child runs is not part of this model; covered time is the length of the union of the runs within the gap. Failing helpers are the case of no runs.
- Calibration: grouping rows, sorting groups by name and rendering the report.
- Headings: the line patterns, list markers and sentence splitting; a line is already a fence, a heading or text.
- Paths: expansion of `~` and variables and the normalising step itself; symbolic links and a double leading slash.
- The inventory of code sites, the plan-delivery gate, the judges and the report tools: short case splits or text matching.
