# Autograder for lab 5-7-back-end-fundamentals, modelled in Dafny

`grade.cjs` grades one student repository. It looks for the required file
`5-7-back-end-fundamentals/backend/server.js` and decides whether that file is
empty once comments and white space are removed. It then times the submission.
To do so it walks `git log` newest-first and picks the latest *student-work*
commit, meaning a commit that:

- is not a bot or workflow commit, and
- does not touch only grader or workflow files, and
- has a finite timestamp.

As written, the script's `git log` commands always fail, because their format
reaches the shell unquoted (see "## Findings"). So in practice no submission
is marked late. The model describes the scan as intended and proves the
as-written outcome separately.

From there it derives:

- lateness against the deadline (2025-11-03 23:59 in Riyadh);
- the status code: 0 on time, 1 late, 2 missing or empty;
- the submission marks: 20, 10 or 0;
- the two 40-mark tasks;
- the total, clamped at 100.

It also derives the student id from environment variables and the repository name.

The model covers that decision logic. Each module below is one part of the script:

| module | file | models |
|---|---|---|
| `Text` | text.dfy | the JavaScript string operations the script uses: `trim`, `\s`, `split`/`join` on one character, `toLowerCase`, `includes`, and `length` counted in UTF-16 code units |
| `Classifier` | classifier.dfy | `BOT_SIGNALS` and `looksLikeBotCommit`, on the lower-cased "author email subject" text |
| `PathFilter` | pathfilter.dfy | `IGNORED_FILE_PREFIXES`, `IGNORED_FILES_EXACT`, `isIgnoredPath` and the "some changed file is student work" test |
| `Git` | git.dfy | git's outputs as values, log-line parsing, `getChangedFilesForCommit`'s post-processing, `getHeadCommitInfo` |
| `Commits` | commits.dfy | the three per-line tests of the scan, and what the scan has reached and inspected |
| `Provenance` | provenance.dfy | `getLatestStudentWorkCommitInfo`: a loop method proved equal to a first-match function |
| `Lateness` | lateness.dfy | `DUE_EPOCH_MS` and `wasSubmittedLate` |
| `Submission` | submission.dfy | `compactWs` and `isEmptyCode`, with comment stripping as a parameter |
| `Scoring` | scoring.dfy | status, submission marks, the task loop with its `earnedTasks` accumulator, and the clamped total |
| `StudentId` | studentid.dfy | `getStudentId` as a `||` chain over the environment values |
| `Grader` | grader.dfy | the top-level run (lines 322-387) as one method, including the rule deciding when the optional sandbox run happens |

Git output is given as a value: `Output(text)`, or `Failed(error)` when
`execSync` throws. The changed files of a commit are a function from sha to
such an output. JavaScript's `Number(...)`, when finite, and
`new Date(ms).toISOString()` are given as functions in a `JsRuntime` value.
The model does spell out the RangeError `toISOString` throws beyond ±8.64e15 ms.

Three details of the code that the model follows:

- `repoFull.split("/")[1]` is the *second* `/`-separated part of the repository
  name, not everything after the first `/`.
- `getHeadCommitInfo` destructures the split line. A HEAD line without a
  timestamp field therefore has an unknown time (`Number(undefined)` is NaN).
  The scan instead reads such a field as `""`, which `Number` turns into 0.
- HEAD's ISO text is "unknown" when its time is 0, because 0 is falsy.

## Model

| member | source | states |
|---|---|---|
| Text.Trim | grade.cjs:161 | `trim` leaves a text with no white space at either end |
| Text.TrimIsSlice | grade.cjs:161 | `trim` removes only white space, from the two ends, and keeps the middle unchanged |
| Text.SplitPartsLackSeparator | grade.cjs:177 | no part produced by `split(d)` contains `d` |
| Text.JoinSplit | grade.cjs:182 | joining the parts of `split(d)` with `d` gives back the original string |
| Text.SplitJoin | grade.cjs:182 | splitting a `join(d)` of `d`-free parts gives back the parts |
| Text.SplitHasTwo | grade.cjs:58 | a string that contains the separator splits into at least two parts, so `split("/")[1]` exists |
| Text.LastOfSplit | grade.cjs:61 | the last part of a split is what follows the last separator |
| Text.ToLowerIdempotent | grade.cjs:184 | lower-casing twice is the same as lower-casing once |
| Text.IncludesIffOccurs | grade.cjs:101 | `hay.includes(needle)` holds exactly when `needle` is a contiguous substring of `hay` |
| Classifier.SomeSignalInIff | grade.cjs:101 | trying the signals in order finds one exactly when some signal of the list occurs in the text |
| Classifier.LooksLikeBotCommitIff | grade.cjs:100-102 | `looksLikeBotCommit(hay)` holds exactly when one of the ten `BOT_SIGNALS` is a substring of `hay` |
| Classifier.HaystackOfLowered | grade.cjs:184 | lower-casing "author email subject" gives the lower-cased fields joined by spaces |
| Classifier.SignalInFieldFlags | grade.cjs:184-185 | a signal in any one field, in any letter case, flags the commit |
| Classifier.ClassificationIgnoresCase | grade.cjs:184 | lower-casing the fields first does not change the verdict |
| Classifier.GraderNamedAuthorIsFlagged | grade.cjs:82 | an author whose name ends in "-GRADER" is flagged whatever the e-mail and subject (the heuristic's false positive) |
| Classifier.BotAccountIsFlagged | grade.cjs:74 | every author name ending in "[bot]" is flagged |
| PathFilter.StartsWithAnyIff | grade.cjs:107 | `prefixes.some(pre => p.startsWith(pre))` holds exactly when some listed prefix starts `p` |
| PathFilter.IsIgnoredPathIff | grade.cjs:104-108 | a path is ignored exactly when it is empty, is one of the five exact names, or starts with one of the three directory prefixes |
| PathFilter.HasStudentWorkChangeIff | grade.cjs:190 | `changed.some(f => !isIgnoredPath(f))` holds exactly when some changed file is not ignored |
| PathFilter.InfraOnlyIsExcluded | grade.cjs:189-191 | a non-empty change list of ignored files only rejects the commit |
| PathFilter.OtherFirstCharIsStudentWork | grade.cjs:86-98 | a non-empty path whose first character is none of '.', 'a', 'g', 'n', 'p' is never ignored |
| PathFilter.LabDirectoryIsStudentWork | grade.cjs:49-53 | every path under the lab directory, the required `server.js` included, is student work |
| PathFilter.PrefixIsWholeDirectory | grade.cjs:86-90 | "artifacts/grade.csv" is ignored but the look-alike "artifacts-notes.md" is not |
| Git.ParsedFieldsLackSeparator | grade.cjs:177-181 | sha, timestamp, author and e-mail parsed from a line never contain `\|` |
| Git.ParseFormatRoundTrip | grade.cjs:177-182 | parsing a `%H\|%ct\|%an\|%ae\|%s` line gives back its fields, even when the subject contains `\|` |
| Git.LineWithoutSeparators | grade.cjs:177-182 | a line without `\|` is all sha, and every other field reads as "" |
| Git.NonEmptyKeeps | grade.cjs:121 | `.filter(Boolean)` keeps exactly the non-empty entries, and keeps a list with no empty entry unchanged |
| Git.TrimAllAt | grade.cjs:120 | `.map(s => s.trim())` trims each entry in place |
| Git.ChangedFilesAreTrimmed | grade.cjs:110-125 | every reported changed file is non-empty and trimmed; a failed command or blank output reports none |
| Git.ChangedFilesRoundTrip | grade.cjs:110-125 | for git's listing (each path on its own line) the parse gives back exactly the listed paths |
| Git.OrUnknown | grade.cjs:142 | `x \|\| "unknown"` is never empty and keeps a non-empty `x` |
| Git.HeadCommitInfo | grade.cjs:127-152 | HEAD info exists only for non-empty output; its sha, author and e-mail are never empty; its time is always a valid time value |
| Git.HeadAgreesWithParse | grade.cjs:127-152 | HEAD's sha, author and e-mail (or "unknown"), subject and time are those of the parsed line, the time being `Number(ct) * 1000` when a timestamp field exists and is finite; non-empty output gives a head exactly when that time is absent, zero or in range |
| Git.HeadOfFormattedLine | grade.cjs:127-152 | for the `%H\|%ct\|%an\|%ae\|%s` line of a commit, HEAD reports that commit's fields and `ct` seconds as milliseconds |
| Git.HeadWithoutTimestamp | grade.cjs:137-139 | a HEAD line holding only a sha has an unknown (null) time and "unknown" author, e-mail and ISO text |
| Provenance.FirstStudentWork | grade.cjs:176-207 | the position the scan stops at is a log line that passes all three tests |
| Provenance.FirstStudentWorkIsFirst | grade.cjs:176-207 | every line before that position fails a test; when there is no such position, every line fails |
| Provenance.FirstStudentWorkIsReached | grade.cjs:176-207 | once all lines before `i` have failed, the scan stops at `i` if that line qualifies, or finds nothing if `i` is past the end |
| Provenance.Selected | grade.cjs:194-206 | an accepted line gives the "student work" note exactly when `seconds * 1000` is a valid time, and then reports that time and the line's sha, author, e-mail (or "unknown") and subject; otherwise the RangeError failure note |
| Provenance.LatestStudentWorkCommit | grade.cjs:154-231 | every report names a sha, an author and an e-mail, with a valid time if any; the "no commits" note appears exactly when the log is empty |
| Provenance.GetLatestStudentWorkCommitInfo | grade.cjs:154-231 | the loop returns the first-match result, and asks git for the changed files of exactly the reached lines that are not bot commits |
| Provenance.SelectedIsNewestStudentWork | grade.cjs:176-206 | a "student work" report describes the newest line that passes the three tests, with `epochMs = seconds * 1000` |
| Provenance.FallbackExactlyWhenNothingQualifies | grade.cjs:209-219 | for a non-empty log, the HEAD fallback happens exactly when no line passes the tests |
| Provenance.FallbackCarriesHead | grade.cjs:209-219 | the fallback carries HEAD's fields, or the "unknown" sentinel when HEAD cannot be read |
| Provenance.EmptyOrFailedLogIgnoresHead | grade.cjs:163-173 | empty log output gives the null-time sentinel without consulting HEAD; a failed `git log` gives the failure note |
| Provenance.EmptyChangeSetNeverExcludes | grade.cjs:188-192 | a reached non-bot line with no changed files and a finite time is the one reported, or the RangeError failure note when its time is out of range |
| Provenance.EmptyFieldsAreNotBot | grade.cjs:184-185 | a line with empty author, e-mail and subject is not a bot commit |
| Provenance.BareShaLineHasTimeZero | grade.cjs:179-197 | when a reached line holding only a sha is chosen, and `Number("")` is 0, the reported time is 0 |
| Lateness.DueIsRiyadhDeadline | grade.cjs:45-46 | `DUE_EPOCH_MS` is the instant 2025-11-03T23:59:00+03:00, computed from the calendar |
| Lateness.WasSubmittedLate | grade.cjs:233-236 | a null time is never late; otherwise the submission is late exactly when its time is after the deadline (a time of 0 is on time) |
| Lateness.DeadlineIsInclusive | grade.cjs:235 | a commit exactly at the deadline is on time, and one millisecond later it is late |
| Lateness.LatenessIsMonotone | grade.cjs:235 | lateness never switches back off as the commit time moves later |
| Submission.CollapseWsIsCollapsed | grade.cjs:253 | after `replace(/\s+/g, " ")` the only white space left is single plain spaces |
| Submission.CollapseWsKeepsText | grade.cjs:253 | collapsing white space keeps every other character, in order |
| Submission.TrimKeepsText | grade.cjs:253 | trimming keeps every character that is not white space, in order |
| Submission.CompactWsIsCompact | grade.cjs:252-254 | the result of `compactWs` has no white space except single plain spaces |
| Submission.CompactWsKeepsText | grade.cjs:252-254 | `compactWs` removes or replaces only white space |
| Submission.CompactWsIdempotent | grade.cjs:252-254 | applying `compactWs` twice gives the same as once |
| Submission.CompactWsJoinsWords | grade.cjs:252-254 | `compactWs` gives exactly the maximal runs of non-white-space characters, in order, joined by single spaces |
| Submission.InteriorRunIsOneSpace | grade.cjs:252-254 | two words separated by any non-empty white-space run compact to the words with one space between them |
| Text.Utf16LengthOfBmp | grade.cjs:257 | `length` counts one unit per character of the Basic Multilingual Plane |
| Text.Utf16LengthOfAstral | grade.cjs:257 | `length` counts two units per character above U+FFFF |
| Submission.AstralTextIsNotEmpty | grade.cjs:255-258 | five characters above U+FFFF are ten UTF-16 units, so such code is not empty |
| Submission.EnoughTextIsNotEmpty | grade.cjs:255-258 | code with at least ten visible characters after comment stripping is not empty |
| Submission.BlankIsEmpty | grade.cjs:255-258 | code that is only white space after comment stripping compacts to "" and is empty |
| Scoring.Code | grade.cjs:17-20 | a status code is 0, 1 or 2 |
| Scoring.StatusOf | grade.cjs:340-342 | the status is 2 exactly when the file is missing or empty; it is 1 exactly when a present, non-empty submission is late |
| Scoring.SubmissionMarks | grade.cjs:344 | submission marks are at most 20, and 0 exactly for status 2 |
| Scoring.MarksFallAsStatusWorsens | grade.cjs:344 | a higher status code never earns more submission marks |
| Scoring.ResultOf | grade.cjs:377-385 | each task result keeps the task's id, name and maximum, earns no more than the maximum, and has one requirement line that is ticked exactly when there is a submission |
| Scoring.ScoreTasks | grade.cjs:375-385 | under status 2 every task earns 0, otherwise each task earns its full marks; the accumulator equals the sum of the earned marks |
| Scoring.TotalEarned | grade.cjs:387 | the total is at most 100, and is either the sum or 100 |
| Scoring.LabTotals | grade.cjs:364-387 | the two tasks are worth 80 in all, and the totals are 100 on time, 90 late and 0 without a submission |
| Scoring.LabTotalByStatus | grade.cjs:340-387 | the total is always 0, 90 or 100; it is 0 exactly for status 2 and 100 exactly for status 0 |
| StudentId.GetStudentId | grade.cjs:56-70 | the student id is never empty, and a set `STUDENT_USERNAME` always wins |
| StudentId.StudentIdIsFirstNonEmpty | grade.cjs:56-70 | the id is the first non-empty value of: `STUDENT_USERNAME`, the repository name's last `-` part, `GITHUB_ACTOR`, the repository name, "student" |
| StudentId.RepoNameOfOwnerAndName | grade.cjs:58 | the repository name of "org/name" is `name` |
| StudentId.IdFromRepositorySuffix | grade.cjs:58-62 | without `STUDENT_USERNAME`, "org/prefix-user" gives `user` |
| StudentId.ClassroomRepositoryExample | grade.cjs:56-70 | "Web-Engineering-KFUPM/5-7-back-end-fundamentals-zeyd92" gives "zeyd92" |
| Grader.Grade | grade.cjs:322-387 | one run: lateness counts only for a present, non-empty file; the status, marks, tasks, earned task marks (0 or 80) and total follow from it; the total is 0 exactly when the file is missing or empty and 90 exactly when late; the dynamic run happens only for a non-empty file that compiles |
| Grader.EmptyHistoryIsNeverLate | grade.cjs:233-234 | an empty or unreadable history gives no commit time, so the submission is never late |
| Grader.GradeWithUnquotedFormat | grade.cjs:127-231 | with both `git log` commands failing, as the unquoted format makes them, the run reports the failure sentinel, no HEAD, never a late status, and a total of 0 or 100 |
| Grader.LateStudentWorkIsLate | grade.cjs:154-236 | when the log is read, as intended, and the selected commit's time is after the deadline, the submission is late |
| Grader.MissingTimestampIsNeverLate | grade.cjs:233-234 | a chosen commit without a timestamp field has time 0, so the submission is never late |

## Left out

- Running git: `execSync`, its `-n 800` limit and its stdio options are not modelled. Each command's output, or the error it throws, is an input. An `Output(text)` log models the command as intended, with its format quoted; as written the command always fails (see "## Findings").
- `Number(...)` on timestamps is an abstract function to `Option<int>`, so fractional seconds are not modelled. `Number("")` being 0 is a hypothesis of the lemmas that need it.
- `Date.parse(DUE_ISO)` is replaced by the constant `DueEpochMs`. `Lateness.DueIsRiyadhDeadline` checks the constant against the calendar.
- The ISO text of `new Date(ms).toISOString()` is abstract. Only its RangeError beyond ±8.64e15 ms is modelled.
- `toLowerCase` is modelled on ASCII letters only. Non-ASCII upper-case letters in an author, e-mail or subject are not lower-cased.
- `stripJsComments` is a parameter of `Submission.IsEmptyCode`: its regular expressions are not modelled.
- `canCompileInVm` and `runInSandbox` are not modelled: they depend on Node's `vm` engine, JavaScript parsing and an 800 ms timeout. The compile check is a parameter of `Grader.Grade`, and the sandbox's logs and runtime error are left out. Neither affects any mark.
- File-system access is not modelled: `existsSync`, `statSync`, `readTextSafe` and the `mkdirSync` calls. The server file is an input: absent, or its text. A read failure, which the script turns into "", is folded into that input.
- Building the report is not modelled: the Markdown summary, the feedback README, the CSV file, `formatReqs`, the step summary and the run's `new Date()` time.
- `process.env` lookups are parameters. An unset variable and an empty one behave the same under `||`, and both are "".
- `includes("/")` and `includes("-")` on a one-character string are modelled as membership of that character.
- Scoring.Code: states only that a code is at most 2. The mapping to 0, 1 and 2 is its definition.

## Findings

| source | as written | input that shows it | evidently intended | confidence | as-written member | corrected member |
|---|---|---|---|---|---|---|
| grade.cjs:129, grade.cjs:157 | `execSync("git log ... --format=%H\|%ct\|%an\|%ae\|%s ...")` passes the format to `/bin/sh` unquoted, so every `\|` is a pipe and the last stage `%s` is not a command: both calls throw, HEAD is `null` and the scan returns the "git inspection failed" sentinel with no time | any repository, e.g. one whose only commit is a student commit after the deadline: the submission is graded on time (total 100) | the format quoted, so that git prints one `%H\|%ct\|%an\|%ae\|%s` line per commit and a commit after the deadline makes the submission late (total 90) | high; not executed | Grader.GradeWithUnquotedFormat | Grader.LateStudentWorkIsLate |

