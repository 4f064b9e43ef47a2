# gvt version store in Dafny

`gvt` is a small local version-control tool. Its `.gvt` directory holds:

- a global version counter, HEAD;
- one log entry per version (`versions/<N>.txt`);
- one full snapshot directory per version (`files/<N>/`);
- the tracked index (`index.txt`, one name per line).

This project models the store behind the command line, the class `Gvt.VersionControl`. It covers init, add, commit, detach, checkout, history and version, and the private steps they share.

The disk is a value, `Gvt.Disk`. It holds the repository when `.gvt` exists and the working directory as a map from file name to content. Each operation is a pure function from a disk to `Ok(result)` or `Err(error)`. A refused operation writes nothing.

Modules:

- `Wrappers`: `Option` and `Result`.
- `Text`: the Java string primitives the store relies on.
  - `Integer.parseInt` is `ParseInt`; `Integer.toString` is `DecimalString`.
  - `String.trim` is `Trim`.
  - The first line from `Files.readAllLines(..).get(0)` is `FirstLine`.
  - `String.replace` is `RemoveAll`.
- `Index`: the index text.
  - `String.split("\n")` is `Split`, with Java's handling of a text without separator and of trailing empty pieces.
  - Tracking, appending and removing names.
  - A list of names serialised one per line.
- `Gvt`: the repository, its validity invariant and the operations. `History` is the loop of `history`, proved equal to the functional `HistoryOf`.
- `GvtProperties`: lemmas that relate operations to each other and to the invariant.
- `Scenario`: one session written out state by state. It runs init, add, commit, checkout of version 1, detach, and the refusals that follow.

Behaviour the model keeps from the code:

- Check order:
  - add checks the index before the file;
  - commit checks the file before the index;
  - detach checks the index before the file.
- `isFileAlreadyTracked` splits the index with Java's `split("\n")`. An index with no line feed, including the empty one, splits to itself. So the name `""` counts as tracked in a fresh repository (`Index.TrackedIffListed`).
- detach removes every occurrence of `name + "\n"` from the index text, not whole lines. With `ba.txt` and `a.txt` tracked, detaching `a.txt` leaves the index `"b"` (`Index.SuffixClashCorruptsIndex`, `GvtProperties.DetachSuffixClash`). When no tracked name ends with the detached one, detach removes exactly that record (`Index.RemoveNameSerialize`).
- add and commit store `msg + "\n"` as the log entry when a message is given. Otherwise they store a default text with no line feed. The message replaces the default text; it is not appended to it.
- `copyPreviousVersionFiles` copies directory HEAD over directory HEAD+1 and keeps the files HEAD+1 already holds. On a valid repository HEAD+1 does not exist yet, so the result is a plain copy (`Gvt.CopyPrevious`).

Behaviour of the code a user may not expect:

- `history -last n` does not clamp the lowest version at 0. For HEAD + 1 < n it reads `versions/-1.txt` and fails (`GvtProperties.HistoryBeyondFirstVersion`).
- The lowest version is computed in `int` arithmetic, so a very negative count wraps around. `history -last -2147483648` also reaches `versions/-1.txt` and fails (`GvtProperties.HistoryLimitWraps`).
- Numbers are read with `Integer.parseInt`, so a number outside the `int` range is refused. `version 99999999999` is an invalid version (`GvtProperties.VersionBeyondInt`), and `history -last 99999999999` fails with a malformed number.
- history shows the trimmed first line of each entry. An empty entry has no first line and is an error.
- commit reports a missing file before an untracked name.
- checkout parses the text and then looks up the directory `files/<text>`. So `01` and `+1` are refused even though they parse to 1 (`GvtProperties.CheckoutAcceptsExactly`, `GvtProperties.CheckoutRejectsLeadingZero`).
- version shows the trimmed log entry, not the raw text. A version that parses but has no log entry fails because its log file is missing (`MissingLogEntry`); only a text that does not parse is an invalid version.
- `new File("")` never exists (`Gvt.FileExists`), so no command ever stores the empty name, but the error it gets depends on the check order (`GvtProperties.EmptyNameRefused`). commit of `""` always reports a missing file. On an index written one name per line, add of `""` reports the name as already tracked when nothing is listed, and otherwise a missing file; detach of `""` reports a missing file when nothing is listed, and otherwise an untracked name.
- A successful add does not always leave the name tracked. After the suffix-clash detach above, the index is `"b"`; add of `c` is accepted but writes `"bc\n"`, so `c` is untracked although the new snapshot stores it, and a second add of `c` is accepted and creates another version (`GvtProperties.AddAfterClash`). `GvtProperties.AddTracksName` holds only while the index is written one name per line and matches snapshot HEAD.
- A detached name is not guaranteed to stay untracked until it is added again. From an empty index: add `bc`, detach `bc`, add `ba.txt`, add `a.txt`, detach `a.txt` (the index becomes `"b"`), add `c`. The index now reads `"bc\n"`, so commit of `bc` is accepted although no command added it since its detach (`Index.DetachedNameTrackedAgain`, `GvtProperties.DetachedNameCommittableAgain`).

## Model

| member | source | states |
|---|---|---|
| Gvt.Init | src/main/java/uj/wmii/pwj/gvt/Gvt.java:27-32 | refused exactly when `.gvt` exists; otherwise the repository is valid with HEAD 0, an empty index, an empty snapshot 0 and the log entry "GVT initialized." |
| Gvt.CopyPrevious | src/main/java/uj/wmii/pwj/gvt/Gvt.java:242-264 | every file of snapshot HEAD appears in the new directory with the same content; on a valid repository the new directory is exactly snapshot HEAD |
| Gvt.NextVersion | src/main/java/uj/wmii/pwj/gvt/Gvt.java:234-240 | HEAD goes up by one, the new version gets the given snapshot, index and log entry, and every older snapshot and log entry is kept |
| Gvt.FileExists | src/main/java/uj/wmii/pwj/gvt/Gvt.java:219-224 | the empty name never exists; any other name exists exactly when the working directory holds it |
| Gvt.LogMessage | src/main/java/uj/wmii/pwj/gvt/Gvt.java:279-290 | the log entry of add (and of commit, 295-305) is the default text when no message is given, and otherwise the whole message followed by one line feed; it is never empty (what version and history show of it: `GvtProperties.LogEntryShowsMessage`) |
| Gvt.DetachMessage | src/main/java/uj/wmii/pwj/gvt/Gvt.java:167-174 | the log entry written by detach is never empty (what version shows of it is stated by `GvtProperties.VersionAfterDetach`) |
| Gvt.Add | src/main/java/uj/wmii/pwj/gvt/Gvt.java:33-48 | NotInitialized, then AlreadyTracked, then FileNotFound; succeeds exactly otherwise; the new snapshot is the copy with the working file stored, the name is appended to the index, and the log entry is the message or the default text |
| Gvt.Commit | src/main/java/uj/wmii/pwj/gvt/Gvt.java:49-63 | NotInitialized, then FileNotFound, then NotTracked; succeeds exactly otherwise; the stored copy is replaced by the working copy and the index is unchanged |
| Gvt.Detach | src/main/java/uj/wmii/pwj/gvt/Gvt.java:65-78 | NotInitialized, then NotTracked, then FileNotFound; succeeds exactly otherwise; the file is dropped from the new snapshot, `name + "\n"` is cut out of the index, and the log entry is the fixed detach text |
| Gvt.Checkout | src/main/java/uj/wmii/pwj/gvt/Gvt.java:81-110 | every refusal on a repository is InvalidVersion; on success the text parses to a non-negative version with a snapshot, every file of that snapshot is written over the working directory, other working files stay, and the repository is unchanged |
| Gvt.HistoryLines | src/main/java/uj/wmii/pwj/gvt/Gvt.java:123-127 | succeeds exactly when every log entry from `hi` down to `lo` is readable; then it has one line per version and line k belongs to version `hi - k` |
| Gvt.HistoryLinesFirstError | src/main/java/uj/wmii/pwj/gvt/Gvt.java:123-127 | the first unreadable entry from the top decides the error |
| Gvt.LogLine | src/main/java/uj/wmii/pwj/gvt/Gvt.java:124-125 | reading `versions/<i>.txt` succeeds exactly when the entry exists and is non-empty, and then carries version i and the whole entry; a missing entry (every negative i included) and an empty one are told apart (the loop over these: `Gvt.HistoryLines`, `Gvt.HistoryLinesFirstError`) |
| Gvt.HistoryLine.Summary | src/main/java/uj/wmii/pwj/gvt/Gvt.java:125 | what a history line shows of its entry has no line break, starts and ends with a non-blank character and is its own trim (the summary is the trimmed first line: `GvtProperties.HistoryListsAllVersions`) |
| Gvt.FormatLine | src/main/java/uj/wmii/pwj/gvt/Gvt.java:126 | a printed history line is non-empty and holds no line feed, so the history text can be split back into its lines (`GvtProperties.HistoryTextLines`) |
| Gvt.HistoryText | src/main/java/uj/wmii/pwj/gvt/Gvt.java:126-128 | the text is empty exactly when no line is listed, otherwise ends with a line feed, and holds exactly one line feed per listed line (it splits back into the formatted lines in order: `GvtProperties.HistoryTextLines`) |
| Gvt.LowestVersion | src/main/java/uj/wmii/pwj/gvt/Gvt.java:116-122 | 0 without a limit; otherwise fails exactly when the limit does not parse as an `int`; the result is an `int` congruent to HEAD + 1 - n modulo 2^32, and equal to it when that value fits in an `int` |
| Gvt.HistoryOf | src/main/java/uj/wmii/pwj/gvt/Gvt.java:111-122 | NotInitialized without a repository; an unparsable limit escapes as a malformed number |
| Gvt.History | src/main/java/uj/wmii/pwj/gvt/Gvt.java:111-130 | the loop from HEAD downwards returns the same lines or the same error as the recursive definition `HistoryOf` |
| Gvt.Version | src/main/java/uj/wmii/pwj/gvt/Gvt.java:131-151 | an unparsable text is InvalidVersion; a text that parses is answered exactly when it names a non-negative version with a log entry; on success the number is HEAD (no text) or the parsed text and the answer is that entry trimmed; without a text a valid repository always answers |
| Text.Wrap32 | src/main/java/uj/wmii/pwj/gvt/Gvt.java:121 | the result is an `int` congruent to the exact value modulo 2^32, and is the exact value when that fits |
| Text.ParseInt | src/main/java/uj/wmii/pwj/gvt/Gvt.java:86 | a parsed value always fits in an `int`, and a signed run of digits whose value fits is accepted (the read-back of every decimal form is `Text.ParseDecimalString`) |
| Text.DecimalString | src/main/java/uj/wmii/pwj/gvt/Gvt.java:126 | the decimal form is non-empty and all digits, starts with '0' only for zero, and has no leading zero otherwise |
| Text.ParseDecimalString | src/main/java/uj/wmii/pwj/gvt/Gvt.java:86 | `Integer.parseInt` reads back the decimal form of every number up to 2^31 - 1 and refuses every larger one |
| Text.DecimalStringInjective | src/main/java/uj/wmii/pwj/gvt/Gvt.java:91-92 | different versions have different directory names |
| Text.CanonicalIsDecimalString | src/main/java/uj/wmii/pwj/gvt/Gvt.java:91-92 | a digit string with no leading zero (or "0") is the decimal form of its value |
| Text.Trim | src/main/java/uj/wmii/pwj/gvt/Gvt.java:145 | the result is no longer than the text and, unless empty, starts and ends with a character above ' ' |
| Text.TrimRemovesOnlyBlanks | src/main/java/uj/wmii/pwj/gvt/Gvt.java:145 | the result is a slice of the text, and every character cut away before or after it is at most ' ' |
| Text.TrimOfTrimmed | src/main/java/uj/wmii/pwj/gvt/Gvt.java:145 | a text that starts and ends with characters above ' ' is its own trim; with the contract of Trim, trimming twice is trimming once |
| Text.TrimKeepsOut | src/main/java/uj/wmii/pwj/gvt/Gvt.java:125 | trimming adds no character, so a line without line feed stays without one |
| Text.TrimIgnoresTrailingBlank | src/main/java/uj/wmii/pwj/gvt/Gvt.java:145 | a trailing control character or space, such as the line feed after a message, does not change the trimmed text |
| Text.FirstLine | src/main/java/uj/wmii/pwj/gvt/Gvt.java:125 | the first line is a prefix without line breaks, ended by the end of the text or a line break |
| Text.FirstLineOfTerminated | src/main/java/uj/wmii/pwj/gvt/Gvt.java:125 | the first line of `s + "\n"` is `s` when `s` has no line break |
| Text.RemoveAll | src/main/java/uj/wmii/pwj/gvt/Gvt.java:163 | the replacement never lengthens the text and leaves a text shorter than the target as it is |
| Index.IsTracked | src/main/java/uj/wmii/pwj/gvt/Gvt.java:226-232 | a tracked name never holds a line feed, and an index without line feed tracks only itself (on a serialised index, tracked means listed: `Index.TrackedIffListed`) |
| Index.AppendName | src/main/java/uj/wmii/pwj/gvt/Gvt.java:310-318 | the old index text is kept as a prefix, followed by exactly the name and then a line feed (on a serialised index this serialises the longer list: `Index.AppendSerialize`) |
| Index.RemoveName | src/main/java/uj/wmii/pwj/gvt/Gvt.java:160-165 | the index never grows, and an index without line feed is left alone (record-wise removal without a suffix clash: `Index.RemoveNameSerialize`) |
| Index.RemoveAllWithout | src/main/java/uj/wmii/pwj/gvt/Gvt.java:163 | a text lacking a character of the target holds no occurrence and is returned unchanged |
| Index.Pieces | src/main/java/uj/wmii/pwj/gvt/Gvt.java:229 | cutting at every line feed gives at least one piece, and no piece holds a line feed |
| Index.JoinPieces | src/main/java/uj/wmii/pwj/gvt/Gvt.java:229 | joining the pieces with line feeds gives back the text |
| Index.DropTrailingEmpty | src/main/java/uj/wmii/pwj/gvt/Gvt.java:229 | drops only empty pieces, only at the end, and keeps a non-empty last piece |
| Index.PiecesOfSerialize | src/main/java/uj/wmii/pwj/gvt/Gvt.java:229 | an index written one name per line splits back into those names and one empty tail |
| Index.Split | src/main/java/uj/wmii/pwj/gvt/Gvt.java:229 | `split("\n")`: a text without line feed comes back whole, no record holds a line feed, and a split text does not end with an empty record (membership of names: `Index.SplitMembership`, `Index.TrackedIffListed`) |
| Index.SplitMembership | src/main/java/uj/wmii/pwj/gvt/Gvt.java:229-231 | a non-empty name is among the split lines exactly when it is among the pieces |
| Index.TrackedIffListed | src/main/java/uj/wmii/pwj/gvt/Gvt.java:226-232 | on a serialised index a non-empty name is tracked exactly when it is listed; the empty name is tracked exactly when nothing is listed |
| Index.AppendSerialize | src/main/java/uj/wmii/pwj/gvt/Gvt.java:310-318 | appending `name + "\n"` to a serialised index serialises the list with the name at the end |
| Index.RemoveSkipsRecord | src/main/java/uj/wmii/pwj/gvt/Gvt.java:163 | a record that neither is the name nor ends with it survives the replacement |
| Index.RemoveDropsRecord | src/main/java/uj/wmii/pwj/gvt/Gvt.java:163 | the record that is the name is cut out whole |
| Index.RemoveNameSerialize | src/main/java/uj/wmii/pwj/gvt/Gvt.java:160-165 | when no tracked name ends with the removed one, the replacement is record-wise removal from the list |
| Index.SuffixClashCorruptsIndex | src/main/java/uj/wmii/pwj/gvt/Gvt.java:163 | removing `a.txt` from `ba.txt`, `a.txt` leaves `"b"`, which tracks `b` and not `ba.txt` |
| Index.DetachedNameTrackedAgain | src/main/java/uj/wmii/pwj/gvt/Gvt.java:160-165 | from an empty index, add `bc`, detach `bc`, add `ba.txt` and `a.txt`, detach `a.txt` and add `c` leave the index tracking `bc` again |
| GvtProperties.AddCreatesVersion | src/main/java/uj/wmii/pwj/gvt/Gvt.java:41-45 | on a valid repository the new snapshot is snapshot HEAD with the working file stored, older versions are kept, and the repository stays valid |
| GvtProperties.CommitCreatesVersion | src/main/java/uj/wmii/pwj/gvt/Gvt.java:56-61 | as for add, and the index is unchanged |
| GvtProperties.DetachCreatesVersion | src/main/java/uj/wmii/pwj/gvt/Gvt.java:72-76 | the new snapshot is snapshot HEAD without the file, older versions are kept, and the repository stays valid |
| GvtProperties.StepKeepsValid | src/main/java/uj/wmii/pwj/gvt/Gvt.java:27-110 | every command, an edit of the working directory included, keeps a valid disk valid; a refused one changes nothing; a repository is never lost and its versions are never rewritten |
| GvtProperties.RunKeepsValid | src/main/java/uj/wmii/pwj/gvt/Gvt.java:27-110 | the same over any sequence of commands, edits of the working directory included |
| GvtProperties.InitIndexMatchesHead | src/main/java/uj/wmii/pwj/gvt/Gvt.java:201-209 | after init the index lists nothing and snapshot 0 holds nothing |
| GvtProperties.AddTracksName | src/main/java/uj/wmii/pwj/gvt/Gvt.java:36-44 | on a serialised index whose names match snapshot HEAD, add of a name without line feed appends it to the listed names, and the newest snapshot holds exactly the listed files |
| GvtProperties.AddAfterClash | src/main/java/uj/wmii/pwj/gvt/Gvt.java:36-44 | on the index `"b"` a suffix clash leaves, add of `c` is accepted, leaves `c` untracked while the new snapshot stores it, and a second add of `c` is accepted again |
| GvtProperties.CommitKeepsIndex | src/main/java/uj/wmii/pwj/gvt/Gvt.java:52-61 | a committed name is listed, and the list and the file set of the newest snapshot stay as they were |
| GvtProperties.DetachUntracksName | src/main/java/uj/wmii/pwj/gvt/Gvt.java:67-75 | without a suffix clash, detach removes the name from the list and the file from the newest snapshot, and the name is no longer tracked |
| GvtProperties.DetachThenCommitRefused | src/main/java/uj/wmii/pwj/gvt/Gvt.java:52-54 | after such a detach, commit of the same file is refused as untracked |
| GvtProperties.DetachedNameCommittableAgain | src/main/java/uj/wmii/pwj/gvt/Gvt.java:36-71 | on a repository with an empty index, the commands add `bc`, detach `bc`, add `ba.txt`, add `a.txt`, detach `a.txt`, add `c`: commit of `bc` is refused right after its detach and accepted after the last add, with no add of `bc` in between |
| GvtProperties.EmptyNameRefused | src/main/java/uj/wmii/pwj/gvt/Gvt.java:36-71 | on a serialised index, commit of `""` is a missing file; add of `""` is already tracked when nothing is listed and a missing file otherwise; detach of `""` is a missing file when nothing is listed and untracked otherwise |
| GvtProperties.DetachSuffixClash | src/main/java/uj/wmii/pwj/gvt/Gvt.java:160-165 | with `ba.txt` and `a.txt` tracked, detaching `a.txt` leaves `ba.txt` untracked although its file stays in the new snapshot |
| GvtProperties.CheckoutAcceptsExactly | src/main/java/uj/wmii/pwj/gvt/Gvt.java:84-94 | checkout accepts a text exactly when it is the decimal form of a version that has a snapshot and fits in an `int` |
| GvtProperties.CheckoutRejectsLeadingZero | src/main/java/uj/wmii/pwj/gvt/Gvt.java:84-94 | a version number with a leading zero parses to the version (when it fits in an `int`) but is always refused |
| GvtProperties.LeadingZeroValue | src/main/java/uj/wmii/pwj/gvt/Gvt.java:86 | a leading zero does not change the parsed value |
| GvtProperties.CheckoutRestoresAdded | src/main/java/uj/wmii/pwj/gvt/Gvt.java:96-109 | after any further commands, edits of the working directory included, checkout of the version add created restores the file as it was added |
| GvtProperties.RunSnoc | src/main/java/uj/wmii/pwj/gvt/Gvt.java:27-110 | running one more command is one more step |
| GvtProperties.EditCommitCheckout | src/main/java/uj/wmii/pwj/gvt/Gvt.java:49-110 | add, an edit of the working directory, commit, then checkout of the add's version: the file has its added content again |
| GvtProperties.ValidLogReadable | src/main/java/uj/wmii/pwj/gvt/Gvt.java:123-125 | on a valid repository every log entry from 0 to HEAD can be read |
| GvtProperties.HistoryListsAllVersions | src/main/java/uj/wmii/pwj/gvt/Gvt.java:117-127 | without a limit history lists HEAD + 1 lines, for HEAD down to 0, in strictly descending order, each the trimmed first line of its entry |
| GvtProperties.HistoryLastN | src/main/java/uj/wmii/pwj/gvt/Gvt.java:120-127 | with a limit n up to HEAD + 1, history lists exactly n lines from HEAD down, line k showing the trimmed first line of version HEAD - k's log entry |
| GvtProperties.HistoryLinesShowEntries | src/main/java/uj/wmii/pwj/gvt/Gvt.java:123-125 | line k of an accepted history is version `hi - k` and carries that version's log entry, shown as its trimmed first line |
| GvtProperties.HistoryLinesExact | src/main/java/uj/wmii/pwj/gvt/Gvt.java:123-127 | when every entry from `lo` to `hi` is readable the history has exactly `hi - lo + 1` lines, line k being version `hi - k` shown as the trimmed first line of its entry |
| GvtProperties.HistoryBeyondFirstVersion | src/main/java/uj/wmii/pwj/gvt/Gvt.java:121-125 | with a limit above HEAD + 1, history fails on the missing entry of version -1 while the limit fits in an `int`, and as a malformed number beyond that |
| GvtProperties.HistoryLimitWraps | src/main/java/uj/wmii/pwj/gvt/Gvt.java:121-125 | a negative limit whose subtraction overflows wraps the lowest version to a negative one, and history fails on the missing entry of version -1 |
| GvtProperties.MostNegativeCount | src/main/java/uj/wmii/pwj/gvt/Gvt.java:121 | `-2147483648` parses to the least `int`, a limit for which the subtraction overflows |
| GvtProperties.HistoryTextLines | src/main/java/uj/wmii/pwj/gvt/Gvt.java:126-128 | the returned text splits into exactly the formatted lines, in order |
| GvtProperties.LogEntryShowsMessage | src/main/java/uj/wmii/pwj/gvt/Gvt.java:276-306 | a given message replaces the default text, and trimming removes the line feed written after it |
| GvtProperties.VersionOfEveryVersion | src/main/java/uj/wmii/pwj/gvt/Gvt.java:139-147 | `version N` answers every version N of a valid repository that fits in an `int`, with its trimmed log entry |
| GvtProperties.VersionBeyondInt | src/main/java/uj/wmii/pwj/gvt/Gvt.java:138-142 | a version number beyond the `int` range is an invalid version |
| GvtProperties.VersionAfterAdd | src/main/java/uj/wmii/pwj/gvt/Gvt.java:131-147 | after add, version reports the new HEAD with the trimmed message or default text |
| GvtProperties.VersionAfterDetach | src/main/java/uj/wmii/pwj/gvt/Gvt.java:167-174 | after detach, version reports the new HEAD with the detach text naming the file |
| Scenario.InitStep | src/main/java/uj/wmii/pwj/gvt/Gvt.java:201-209 | init of a directory holding a.txt gives HEAD 0, an empty index and snapshot, and the init log entry |
| Scenario.AddStep | src/main/java/uj/wmii/pwj/gvt/Gvt.java:33-48 | adding a.txt gives HEAD 1, index "a.txt\n", snapshot 1 with a.txt and the default added text |
| Scenario.CommitStep | src/main/java/uj/wmii/pwj/gvt/Gvt.java:49-63 | committing the edited a.txt with a message gives HEAD 2, snapshot 2 with the new content, snapshot 1 unchanged, and the log entry "update\n" |
| Scenario.CheckoutStep | src/main/java/uj/wmii/pwj/gvt/Gvt.java:81-110 | checkout of 1 brings back the first content of a.txt and leaves the repository alone |
| Scenario.DetachStep | src/main/java/uj/wmii/pwj/gvt/Gvt.java:65-78 | detaching a.txt gives HEAD 3, an empty index, an empty snapshot 3 and the detach text |
| Scenario.RefusalsAfterDetach | src/main/java/uj/wmii/pwj/gvt/Gvt.java:49-94 | afterwards commit of a.txt is refused as untracked, add of a missing file as not found, and checkout of 4 as invalid |

## Left out

- The command-line layer (`main`, `mainInternal`, argument parsing, exit codes, printed messages, `handleSuccessfulExit`, Gvt.java:319-326 and 334-499). It only dispatches into the store.
- `System.out.println` output and the `ExitHandler` call in `version`. The model returns the number and the text instead of printing "Version: N\n...".
- I/O failures (`IOException` in the middle of an operation) and the partial states they leave. The model treats every write of one operation as one step.
- The text format of HEAD. HEAD is a natural number, which is what `Integer.parseInt(..trim())` reads back from the digits the store writes.
- `.gvt` existing as a plain file rather than a directory, sub-directories in snapshot directories, and file names holding path separators: the disk is a flat map from name to content.
- Gvt.NextVersion: does not model the 32-bit wrap-around of `currentVersion + 1`, because HEAD would need more than 2^31 operations to reach it.
- Text.ParseInt: accepts only ASCII digits. Java's `Integer.parseInt` also accepts other Unicode decimal digits (such as Arabic-Indic ones), so such a text is refused here but read by Java.
- GvtProperties.CheckoutRestoresAdded: requires HEAD < 2^31 - 1 before the add, because HEAD + 1 must fit in an `int`, and the model does not follow the wrap-around of HEAD beyond 2^31 - 1 (see Gvt.NextVersion).
- GvtProperties.EditCommitCheckout: requires HEAD < 2^31 - 1 before the add, for the same reason.
- GvtProperties.HistoryLastN: requires HEAD < 2^31 - 1, so that every count up to HEAD + 1 parses as an `int`.
- GvtProperties.HistoryLimitWraps: requires HEAD < 2^31 - 1, so that the wrapped lowest version is negative.
- Gvt.HistoryOf: its own contract states only the error cases. The lines it returns are described by `Gvt.HistoryLines`, `GvtProperties.HistoryListsAllVersions` and `GvtProperties.HistoryLastN`.
- Gvt.History: returns the lines, not the concatenated string. The string is `Gvt.HistoryText`, related to the lines by `GvtProperties.HistoryTextLines`.
- Text.RemoveAll: its contract bounds the length only. What it does to an index is stated by `Index.RemoveNameSerialize` and `Index.SuffixClashCorruptsIndex`.
