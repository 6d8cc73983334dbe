# MintLite history generator — Dafny model

`auto_dev.py` builds a synthetic git history. It takes four phases, each a
date window with an ordered list of content-changing actions. Every action
gets a jittered timestamp inside its window and an author chosen
round-robin from a pool of accounts. The action's changes are committed
only if the staged tree differs from HEAD. At the end, every account must
have more than 13 real commits, or the run aborts before publishing.

This project models that orchestration as pure Dafny functions plus one
driver method:

- `Schedule` covers `dates_between`. Times are integer minutes and a day
  boundary is `day * 1440`. The random draws are an input: one
  `Jitter(hour, minute, backoff)` per slot. The result is `Sorting.Sort`
  applied to the clamped slots.
- `Repository` is the store behind `commit_all`. It has a working tree and
  a HEAD tree (`map<Path, string>`), the commits made so far, and the
  configured author. The mutators `write_file`, `append_file` and the
  `.gitignore` rewrite are tree updates. The rewrite stores what reading
  the file in text mode yields (`ReadText`: `\r\n` and a lone `\r` become
  `\n`).
- `Accounts` holds the pool-size check, round-robin selection, the order of
  the counter dictionary and the strict threshold check.
- `Driver` is `main`. It flattens the phases into one schedule, defines
  `Step` (one loop iteration) and `Replay` (the loop as a recursive
  function), and the methods `Orchestrate` (the loop), `Finish` (the loop
  and the threshold check) and `Run` (the whole pipeline up to the
  threshold check). The methods' results are tied to `Replay`.
- `Tally` proves what the counters imply, plus facts about the source's own
  four windows. `Scenarios` replays the loop over a two-account pool: runs of
  actions that each write a new file, and a repeated write.

Three behaviours of the code shape the contracts:

- A clamped timestamp is the window's end minus one to six hours. It is
  after the window's start only when the window is at least one day long:
  on a zero-length window it falls before the start
  (`Schedule.ZeroLengthWindowBacksOffEverySlot`). The lower bound in
  `DatesBetween` is therefore conditional on `endDay >= startDay + 1`.
- The counters are a dictionary keyed by username. Accounts that share a
  username share one counter. The threshold check walks the usernames in
  order of first occurrence (`Accounts.Dedup`), not the pool.
- `ensure_initial_gitignore` runs before the pool-size check. So a rejected
  pool still leaves `.gitignore` created, and `Driver.Run` says so.

## Model

| member | source | states |
|---|---|---|
| Schedule.DatesBetween | auto_dev.py:67-86 | no dates when count <= 0, otherwise exactly count; ascending; a permutation of the clamped slots; all at or before the end; all strictly after the start when the window is at least a day long |
| Schedule.StepDays | auto_dev.py:73 | the spacing is at least one day, and is the floor of window days over count when that is at least one |
| Schedule.Clamp | auto_dev.py:80-81 | a slot at or before the end is kept unchanged; a later one becomes 1 to 6 hours before the end |
| Schedule.Generate | auto_dev.py:74-83 | the i-th generated slot is the i-th draw's time on day current + i * step, clamped |
| Schedule.UnsortedBounds | auto_dev.py:75-81 | every generated slot is at or before the end, and after the start once the window is at least one day |
| Schedule.EveryDateIsKeptOrBackedOff | auto_dev.py:79-82 | every returned date is an unclamped slot kept unchanged or the end backed off by that slot's 1-6 hour draw |
| Schedule.DatesBetweenIsTheSortedSlots | auto_dev.py:84-85 | the result is the one ascending arrangement of the clamped slots |
| Schedule.NoClampKeepsGeneratedOrder | auto_dev.py:75-85 | when no slot passes the end, the slots already ascend and the sort leaves them in generation order |
| Schedule.ZeroLengthWindowBacksOffEverySlot | auto_dev.py:67-86 | on a zero-length window every date is the window's day backed off by one to six hours, so every date precedes the start |
| Schedule.ZeroLengthWindowPrecedesStart | auto_dev.py:79-81 | one example: a single slot drawn at 09:00 with a six-hour backoff on a zero-length window yields 18:00 of the previous day |
| Sorting.Sort | auto_dev.py:85 | the result is ascending and a permutation of the input |
| Sorting.SortedPermutationUnique | auto_dev.py:85 | two ascending sequences with the same elements are equal, so the sorted dates are determined |
| Repository.ReadText | auto_dev.py:234 | the text read back holds no `\r`, is never longer, and is the file's text itself when that holds no `\r` |
| Repository.ReadTextTranslatesNewlines | auto_dev.py:234 | reading equals the two-stage newline translation: every `\r` followed by `\n` is dropped, then every remaining `\r` becomes `\n` |
| Repository.ReadTextUnchangedIff | auto_dev.py:234 | reading gives back the stored text exactly when it holds no `\r`; reading twice changes nothing more |
| Repository.Apply | auto_dev.py:52-60 | a write sets the file, an append adds to the old or empty text, a rewrite stores the file's text as read back and fails on a missing file; the rewrite changes the tree exactly when the file holds a `\r`; no other path changes |
| Repository.CommitAll | auto_dev.py:39-49 | a commit happens exactly when the staged tree differs from HEAD; a skip leaves HEAD and the log unchanged; a commit appends one record with the message, the author, the staged tree and equal author and committer dates |
| Repository.CommitAllKeepsConsistent | auto_dev.py:40-48 | HEAD stays the newest commit's snapshot, and every commit keeps equal author and committer dates |
| Repository.CommitAllIdempotent | auto_dev.py:44-47 | committing again with nothing changed is skipped and leaves HEAD and the log unchanged |
| Repository.RewriteIsSkipped | auto_dev.py:233-234 | once the tree matches HEAD, rewriting an existing .gitignore with its own text succeeds and commits exactly when the file holds a `\r` |
| Repository.RepeatedWriteCommitsOnce | auto_dev.py:39-54 | the same overwrite applied twice, committing after each, gives at most one commit |
| Repository.EnsureGitignore | auto_dev.py:89-97 | .gitignore exists afterwards; an existing one and every other file are left unchanged |
| Accounts.CheckPool | auto_dev.py:29-30 | the pool is accepted exactly when it has at least two accounts, and then unchanged |
| Accounts.SelectionsExact | auto_dev.py:504-506 | after k actions, position i has been chosen k / n times, plus one if i < k mod n |
| Accounts.RotationIsFair | auto_dev.py:504-506 | every pool position is chosen floor(k/n) or ceil(k/n) times |
| Accounts.Dedup | auto_dev.py:495 | the counter keys: each username once, nothing else |
| Accounts.DedupKeepsFirstOccurrenceOrder | auto_dev.py:495 | a new username is placed after all earlier ones |
| Accounts.DedupIgnoresRepeat | auto_dev.py:495 | a username seen before leaves the key order unchanged |
| Accounts.DedupOfDistinct | auto_dev.py:495 | when all usernames differ, the keys are the usernames in pool order |
| Accounts.DedupFollowsFirstOccurrence | auto_dev.py:495 | of any two keys, the earlier one first occurs earlier in the pool |
| Accounts.FirstViolation | auto_dev.py:513-516 | passes if and only if every count is strictly above the threshold; otherwise reports the first failing username in order, with its count |
| Accounts.CountAtThresholdFails | auto_dev.py:515 | a count equal to the threshold is a violation |
| Driver.PhaseSchedule | auto_dev.py:489-508 | one entry per action of the phase, in order, the c-th carrying the c-th date computed for the phase's window |
| Driver.PhaseScheduleInWindow | auto_dev.py:489-492 | a phase keeps its actions in order; each date is at or before the window's end and after its start when the window is at least a day long; the dates ascend |
| Driver.RunSchedule | auto_dev.py:499-501 | the flattened schedule has one entry per action of every phase |
| Driver.RunScheduleIndex | auto_dev.py:499-508 | action c of phase p sits after all earlier phases' actions and carries dates[c] of its phase |
| Driver.Step | auto_dev.py:501-511 | one iteration: the mutator runs; the author is pool[index mod n]; the index advances even on a skip; the author's counter rises by one exactly when a commit was made; other counters are unchanged |
| Driver.StepTracks | auto_dev.py:503-511 | one iteration keeps the loop invariant: the index counts actions, attribution is round-robin, counters equal commits per username |
| Driver.Initial | auto_dev.py:495-496 | the loop starts with the author index at 0, no events, the repository unchanged, and a counter of 0 for each username of the pool and no other key |
| Driver.Prepared | auto_dev.py:473 | before the loop, only the working tree changes, by `ensure_initial_gitignore`; HEAD, the log and the configured author are kept |
| Driver.Replay | auto_dev.py:499-511 | running the loop body over a list of actions keeps the set of counter keys |
| Driver.StepRepo | auto_dev.py:501-511 | one iteration appends a commit exactly when its event is committed, carrying that event's message, author and date, and keeps HEAD the newest snapshot |
| Driver.Orchestrate | auto_dev.py:495-511 | the returned state is the replay of the actions it processed, from zeroed counters; it processed every action and equals the replay of the whole schedule, or it stopped at the action whose mutator fails, where the whole replay fails with that path; the loop invariant holds |
| Driver.Finish | auto_dev.py:495-516 | the report is the replay of the whole schedule, or, when a mutator fails, the replay of the actions before it, which keeps every commit made so far, with the next action's mutator failing on the reported path; action k goes to pool[k mod n] at its scheduled time; counters equal commits per username; the log grows by one commit per committed event, with its message, author and date; success means every username has more than 13 commits; otherwise the reported violation is the first in counter order |
| Driver.Run | auto_dev.py:471-516 | a pool under two accounts aborts before any action, with `.gitignore` already created; a larger pool gets the report of `Finish` over the flattened schedule and the prepared repository |
| Tally.CommitsAtMostAttributed | auto_dev.py:504-511 | no username has more commits than actions attributed to it |
| Tally.AttributionIsRotation | auto_dev.py:504-506 | with distinct usernames, the actions attributed to a pool position equal its round-robin selections |
| Tally.CountersSumToCommits | auto_dev.py:509-511 | the counters of the distinct usernames sum to the number of commits |
| Tally.PassingRunNeedsCommits | auto_dev.py:509-516 | a passing run made at least 14 times the number of distinct usernames in commits, and no more commits than actions |
| Tally.SourcePlanAllowsAtMostSixUsers | auto_dev.py:477-487 | the four phases define 85 actions, so a passing run has at most six distinct usernames |
| Tally.SourceWindowsNeverClamp | auto_dev.py:482-492 | in the four source windows no slot passes the end, so dates come out in generation order |
| Scenarios.FreshWriteCommits | auto_dev.py:502-511 | writing a file HEAD lacks always commits, under the next account in rotation, whose counter rises by one |
| Scenarios.FreshWritesAllCommit | auto_dev.py:499-511 | over any list of actions that each write a new file, every action commits once and the authors follow the rotation from the current index |
| Scenarios.FreshWritesFromStart | auto_dev.py:495-511 | replaying an even number of such actions from the initial state commits every one, alternating A, B, A, B, with both counters at half the actions |
| Scenarios.RunOfFreshWrites | auto_dev.py:495-516 | a reported run over an even number of such actions processes them all, each committed under the alternating author, with both counters at half the actions |
| Scenarios.RunOfFreshWritesPasses | auto_dev.py:513-516 | that run passes exactly when half the actions exceeds the threshold |
| Scenarios.RepeatedContentIsSkipped | auto_dev.py:499-516 | a repeated write is skipped: one commit by A, B's counter stays 0, and B is reported even at threshold 0 |

## Left out

- Git and subprocess plumbing (`run`, `git config`, `git add`, `git diff --cached`, `git commit`). These are modelled only through the tree/HEAD interface of `Repository`. A failing git command, which aborts the real run, is not modelled.
- Which files git ignores: the working-tree map stands for the tracked content, and `.gitignore` patterns are not interpreted.
- Directory creation in `write_file` and `append_file`. Trees map file paths only.
- Repository.Apply — does not model the errors the source can raise in its mutators: a UTF-8 decode error when `.gitignore` is read back (trees hold decoded text), and the errors of `mkdir` and `write_text` when a path clashes with a directory or a file. Writing also assumes `\n` line endings on output; on Windows text mode would write `os.linesep`.
- CSV reading in `read_accounts`. The pool arrives as a sequence; only the size check is modelled.
- `os.environ` and date formatting with `strftime`/`strptime`. Dates are integer minutes passed explicitly; commit dates are stored as numbers.
- The `random` module and its seed. Draws are inputs. In the source the backoff is drawn only for a clamped slot, and `add_example` also draws; per-slot triples cover every possible draw sequence.
- The phase templates and mutator bodies (file text). Actions are abstract `WriteFile`/`AppendFile`/`RewriteFile` updates, and the default `.gitignore` text is a parameter.
- Publishing: the primary-account lookup, the token-bearing remote URL, `git remote`, the `master` branch pointer and both pushes. These are credential handling and network I/O. The model stops at the threshold check; `Run` returns no abort exactly when publishing would start.
