# go-git status and tracking classifiers in Dafny

A model of the pure decision logic in `git.go` of a small Go façade over the
git command line. The process calls themselves are not modelled. Each
operation receives what git printed: the captured text and an optional
error (the `Git` function type, from argument list to captured output), or
an exit code (the `Do` function type). From that it derives:

- `GetStatus`: the adds that `git status --porcelain` lines make to the
  status record (module `Status`);
- `RemoteStatus`: how the local branch stands against a remote branch,
  `=`, `-1`, `+1` or `-1+1` (module `Remote`);
- `Commit`: the gate that decides whether `git commit` runs and which error
  comes back (module `CommitGate`);
- `Branches`, `RemoteBranches`, `BranchExist`, `RemoteBranchExist`: line
  listings and an exact-match scan (module `BranchList`).

Because `Git` is a function of the argument list, the model assumes the
repository does not change during one operation: a command issued twice with
the same arguments returns the same result. When `remote` is `@{0}`, for
example, `RemoteStatus` runs `rev-parse @{0}` twice (git.go:148, 153), and both
runs return the same output.

The shared pieces are Go's `strings.Split`/`strings.Join` for a one-character
separator (module `Lines`) and the captured-output types (modules `Exec` and
`Wrappers`).

The two status patterns `^([ADM])  (.*)$` and `^ ([?ADM]) (.*)$` are written
as position checks. In Go's regexp syntax `.` does not match a newline, so a
matched path never contains one. The status record is kept as the ordered
sequence of `(kind, path)` pairs handed to `add`. The record's own `init`,
`add` and `CountTracked` are defined outside `git.go` and are not part of this
model. For the same reason, `Commit` takes the tracked count as an input.

Two points of the code that the model keeps as they are:
- `RemoteStatus` compares the captured outputs exactly as returned, with no trimming (git.go:164-172).
- A not-ready match is passed to `Ready.add` (git.go:49); see Findings.

## Model

| member | source | states |
|---|---|---|
| Lines.Split | git.go:42 | `strings.Split` yields at least one field, no field contains the separator, and the fields joined by the separator give back the input |
| Lines.SplitJoin | git.go:42 | splitting undoes joining: any non-empty list of newline-free fields joined by newlines splits back to exactly that list, so the split fields are the only ones with the property |
| Lines.SplitTrailingSep | git.go:42 | a trailing newline adds exactly one final empty field and leaves the others unchanged |
| Status.ChangeOf | git.go:32-33 | the letter classes `[ADM]` and `[?ADM]`: a character names a change kind exactly when it is that kind's letter |
| Status.ReadyMatch | git.go:32 | the ready pattern `^([ADM])  (.*)$` as position checks; a match `(X, path)` has `X` in A/D/M, a path without a newline, and the line is exactly `X`, two spaces, `path` |
| Status.NotReadyMatch | git.go:33 | the not-ready pattern `^ ([?ADM]) (.*)$` as position checks; a match `(Y, path)` has a path without a newline, and the line is exactly a space, `Y`, a space, `path` |
| Status.ReadyMatchExactly | git.go:32 | the ready pattern matches a line with result `(X, path)` exactly when the line is `X`, two spaces, then `path`, with `X` in A/D/M and no newline in `path`; the path may be empty or contain spaces |
| Status.NotReadyMatchExactly | git.go:33 | the not-ready pattern matches with result `(Y, path)` exactly when the line is a space, `Y`, a space, then `path`, with `Y` in ?/A/D/M and no newline in `path` |
| Status.LineAdds | git.go:44-51 | although both patterns are tried on every line, a line makes at most one add, because the patterns disagree on the first character |
| Status.LineAddsExactly | git.go:45-50 | a line adds an entry exactly when the line is that entry's ready line or its not-ready line; any other line, such as `""` or `MM x`, adds nothing |
| Status.ReadyLineAdds | git.go:45-46 | a ready line `X  path` makes exactly the one add `(X, path)` |
| Status.NotReadyLineAdds | git.go:48-49 | a not-ready line ` Y path` also makes exactly one add `(Y, path)`, and it goes to the same Ready record |
| Status.UnmatchedLinesAddNothing | git.go:32-33 | the empty field, two-letter codes such as `MM x` and `?? x`, and a line too short for a path add nothing |
| Status.Collect | git.go:44-51 | the loop over the split lines, gathering each line's adds in order; every gathered entry was added by some line |
| Status.CollectAppend | git.go:44-51 | adds happen in line order: the adds for two consecutive runs of lines are the first run's adds followed by the second's |
| Status.CollectMember | git.go:44-51 | an entry is added exactly when some line adds it |
| Status.CollectAtMostOnePerLine | git.go:44-51 | the output never makes more adds than it has lines |
| Status.CollectMergesRecords | git.go:45-50 | line by line, the as-written adds are, as a multiset, the intended Ready adds plus the intended NotReady adds |
| Status.GetStatus | git.go:24-53 | the snapshot keeps the status command's error; an error or an empty output parses nothing; NotReady receives nothing from parsing; there are at most as many adds as output lines |
| Status.GetStatusIntended | git.go:24-53 | the corrected classifier keeps the error, and both of its records are empty after an error or an empty output |
| Status.ReadyHoldsRenderedEntries | git.go:42-51 | for a successful non-empty output, an entry is in Ready exactly when some output line is its ready line or its not-ready line |
| Status.TrailingNewlineIgnored | git.go:42-51 | adding a newline to a non-empty output changes neither snapshot, because the final empty field adds nothing |
| Status.AsWrittenRoundTrip | git.go:37-51 | parsing a newline-terminated report of well-formed ready and not-ready lines puts every line's entry in Ready, in report order, and leaves NotReady empty |
| Status.IntendedRoundTrip | git.go:45-50 | in the corrected classifier, parsing the same report returns the ready lines' entries to Ready and the not-ready lines' entries to NotReady, each in report order |
| Status.AsWrittenMergesIntended | git.go:45-50 | for any command result, the errors agree and the as-written Ready holds the union of the corrected Ready and NotReady as a multiset |
| Status.ExampleAsWritten | git.go:48-49 | for `M  src/main.go`, ` ? notes.txt`, `A  README.md`, Ready receives all three entries, including `(?, notes.txt)`, and NotReady receives none |
| Status.ExampleIntended | git.go:45-50 | for the same report, the corrected Ready is `M src/main.go`, `A README.md` and the corrected NotReady is `? notes.txt` |
| Remote.Display | git.go:165-173 | the string returned for each outcome is non-empty and reads back as that outcome |
| Remote.DisplayExact | git.go:164-173 | each of `=`, `-1`, `+1`, `-1+1` names exactly one outcome, and none of them is the empty string returned on failure |
| Remote.Compare | git.go:164-173 | the result is `=` exactly when local equals remote, whatever the base; `-1` exactly when they differ and local equals the base; `+1` exactly when they differ and remote equals the base; otherwise `-1+1`. The order of the second and third tests does not matter |
| Remote.CompareSwap | git.go:167-172 | swapping local and remote exchanges `-1` and `+1` and leaves `=` and `-1+1` unchanged |
| Remote.RemoteStatus | git.go:146-174 | the lookups issued are a non-empty prefix of local, remote, merge-base; every lookup before the last succeeded; the returned error is the last lookup's error; the status is `""` exactly when there is an error; on success all three were issued and the status is the display string of the comparison |
| Remote.FailureShortCircuits | git.go:148-162 | once a lookup fails, later lookups are not issued and their results do not affect the outcome, which is `""` with that error |
| BranchList.ListingOf | git.go:99-105 | an error or an empty output gives no names and keeps the error; otherwise the listing holds at least one name, none contains a newline, and they join back to the output |
| BranchList.ListingUnique | git.go:104 | the names listed from a successful non-empty output are the only newline-free fields that join back to it |
| BranchList.Branches | git.go:99-105 | the listing of `git branch` keeps its error; an error or empty output lists nothing; otherwise the listing holds at least one name, none contains a newline, and they join back to the output |
| BranchList.RemoteBranches | git.go:109-115 | the same for `git branch -r` |
| BranchList.Scan | git.go:137-141 | the scan finds the name exactly when some line equals it |
| BranchList.BranchExist | git.go:133-144 | returns true exactly when `git branch` succeeded with non-empty output and one of its split lines equals the name; a failure returns false and that error |
| BranchList.RemoteBranchExist | git.go:120-131 | the same for `git branch -r` |
| BranchList.TrailingNewlineListsEmptyName | git.go:99-105 | lines are compared whole: a newline-terminated listing always ends in an empty line, so the empty name is always "found" |
| CommitGate.Commit | git.go:70-82 | with a tracked count of 0, no commit runs and an error comes back exactly when `errorIfEmpty` is set; otherwise the commit runs once and fails exactly when its exit code is above 0. The "nothing to commit" error is returned only when no commit ran, and the "unable to commit" error only when the commit ran and failed |
| CommitGate.MessagesDistinct | git.go:74-79 | the two error texts differ, so each names one error |
| CommitGate.StatusErrorDiscarded | git.go:71-72 | the error of the preceding `git status` does not change the outcome; with a count of 0 it comes back, at most, as "nothing to commit" and never as a commit failure |
| CommitGate.EmptyIgnoresCommand | git.go:72-77 | with nothing tracked, the outcome does not depend on the commit command at all |
| CommitGate.TrackedIgnoresStrictness | git.go:78-81 | with something tracked, the outcome does not depend on `errorIfEmpty` |

## Left out

- `Do`, `Get`, `GetWithStatusCode` (git.go:17-21, 56-67): process execution and coloured logging. Their results are the `Git` and `Do` function parameters, so a repository that changes between two identical commands of one operation is not modelled.
- `Push`, `Add` (git.go:85-97): build an argument list, run it, and map the exit code. There is no decision logic to model.
- `EnsureRepoExist` (git.go:239-250): a filesystem check plus `git init`.
- `RemoteUrl`, `EnsureRemoteIs` (git.go:193-225): `RemoteUrl` indexes the submatch slice without a nil check, so any line that does not match panics. It also compares the whole-line match with the name and returns the name group, not the URL. That leaves no coherent contract to state.
- `RemoteExist` (git.go:176-191): outside the modelled branch lookups, which are the listings and scans of git.go:99-144. Unlike `Branches`, it has no empty-output guard, so an empty `git remote` output splits to `[""]` and the empty name is always found.
- `GetCurrentBranch` (git.go:229-236): it only maps exit status 128 to `"master"`.
- CommitGate.Commit: takes the tracked count as an input, because `CountTracked` is not in `git.go`. It therefore cannot show what a failed `git status` turns into: `Commit` discards the status error at git.go:71 and reads only `s.Ready.CountTracked()` at git.go:72. The model shows only that the error is ignored (`CommitGate.StatusErrorDiscarded`), not which count the unfilled record reports.
- The status record's `init`, `add` and `CountTracked`: their bodies are not in `git.go`. The record is modelled as the sequence of adds it receives, and `CommitGate.Commit` takes the tracked count as an input.
- Go's regexp engine: replaced by position checks. The model works on `char` sequences, so invalid UTF-8 in the output is not modelled.
- Exit codes, as returned by `Do`, are unbounded integers. Only the `> 0` test on them is modelled.

## Findings

| source | as written | input that shows it | evidently intended | confidence | as-written member | corrected member |
|---|---|---|---|---|---|---|
| git.go:48-49 | a match of the not-ready pattern is passed to `gs.Ready.add`, so `NotReady` is never filled and untracked files are listed as ready under `?` | status output `M  src/main.go\n ? notes.txt\nA  README.md\n`: Ready gets `(M, src/main.go)`, `(?, notes.txt)`, `(A, README.md)` and NotReady gets nothing | `gs.NotReady.add(m[1], m[2])`, so that NotReady holds `(?, notes.txt)` | high; not executed | Status.ExampleAsWritten | Status.IntendedRoundTrip |
