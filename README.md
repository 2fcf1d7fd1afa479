# WSLCloner core, modelled in Dafny

WSLCloner is a small desktop tool for the Windows Subsystem for Linux. It
lists the registered distributions and clones, exports, imports or deletes
them by running `wsl.exe`. This project models the logic under the user
interface, all of it in `main.py`:

- **The inventory reader.** `list_distros` decodes the output of
  `wsl --list --all`, first as UTF-16LE and then as UTF-8. It splits the
  output into lines and skips the header up to the first separator line
  made of dashes. Without a separator it skips only the first line. Each
  remaining line is cleaned of whitespace, of the `*` default marker and of
  a trailing `(Default)`. Docker Desktop's two internal distributions are
  dropped, and the rest are kept in order (module `DistroList`, file
  `distro_list.dfy`).
- **The running-state lookup.** `is_distro_running` matches each row of
  `wsl -l -v` after the header against
  `\s*(\*?)\s*(.+?)\s{2,}(\w+)\s+(\d+)`. The first row whose name equals
  the query decides, and the answer is false when no row does (module
  `DistroState`, file `distro_state.dfy`). The regular expression is
  modelled as the match Python's backtracking engine reports, and three
  lemmas (`MatchSpanFound`, `TailIsRegexMatch` and `MatchSpanOptimal`)
  connect it to a declarative statement of the pattern. The module
  `StateBytes` (`state_bytes.dfy`) models how the lookup decodes the bytes.
- **The lifecycle operations.** `clone_distro` does the following in order:
  - it asks whether the source is running and, if so, stops it;
  - in a `try` block, it exports the source to `%TEMP%\<name>.tar`, creates
    `C:\WSL\<new name>` and imports the archive there;
  - in the `finally` block, it removes the archive and restarts the source
    if it was running.

  `export_distro`, `import_distro` and `delete_distro` each run one command
  (module `Lifecycle`, file `lifecycle.dfy`).

The host is a `Lifecycle.Host` object. Its fields are the registered and
running distributions, the files, the directories, and a trace of every
action taken on the host. Each `wsl` call is a `Command` value. The caller
supplies its exit code, standing in for the outside world (a
`CloneOracle` during a clone), along with the text of the verbose listing.
Each method is proved against a specification function: `Clone`,
`CloneBody`, `Finally`, `Outcome`, `ParseListing` or `IsRunningIn`. The
properties the source promises are lemmas about those functions.

Supporting modules:
- `PyText` (`text.dfy`): Python's `str.strip`, `str.split` and `str.lower`
  on strings, with Python's full set of whitespace characters.
- `Seqs` (`seqs.dfy`): an order-preserving filter-map and a first-index
  search.
- `Wrappers` (`wrappers.dfy`): `Option` and `Result`.

## Model

| member | source | states |
|---|---|---|
| DistroList.ListDistros | main.py:200-249 | fails exactly when both UTF-16LE and UTF-8 decoding fail; otherwise the result is the parse of the UTF-16LE text, or of the UTF-8 text when UTF-16LE fails |
| DistroList.Decode | main.py:204-209 | the UTF-16LE reading wins; the UTF-8 reading is used only when UTF-16LE fails; an error only when both fail |
| DistroList.ListDistrosFromText | main.py:213-245 | the separator-flag loop and the fallback loop compute exactly `ParseListing`: the entries after the first separator line, or after the first line when there is none |
| DistroList.EntriesAfterSeparator | main.py:217-233 | the first loop finds a separator exactly when the listing has one, and then returns the entries of the lines after the first separator (a later separator line is a candidate like any other); with no separator it returns nothing |
| DistroList.ScanLines | main.py:218-233 | the separator-flag loop itself: after each line, the flag, the separator's position and the names collected are those of `Scan`, whose lemmas `ScanSeparator`, `ScanEntries` and `ScanAll` tie it to the first separator and to the entries after it |
| DistroList.ScanLine | main.py:219-233 | one pass of that loop: before the separator, the stripped line is tested against the pattern; after it, the line's entry is appended; the result is `Scan` one line further |
| DistroList.EntriesAfterFirst | main.py:236-245 | the fallback loop returns the entries of every line after the first, and nothing for an empty listing |
| DistroList.AppendEntry | main.py:226-233 | one candidate line adds its cleaned name at the end when it is non-blank and not a Docker name, and adds nothing otherwise |
| DistroList.IsSeparatorLine | main.py:219-221 | a line is a separator when its stripped form is a dash followed by dashes and whitespace only; `HeaderLines` shows `NAME` is not one and `----` is |
| DistroList.CleanName | main.py:226 | `strip()`, `strip('*')`, `strip()` in that order; `CleanNameShape` and `MarkedName` state what it keeps |
| DistroList.RemoveDefaultSuffix | main.py:229 | the `re.sub` of a trailing `(Default)` and the whitespace before it; `RemoveDefaultSuffixShape` characterises the result |
| DistroList.Entry | main.py:226-233 | what one candidate line contributes: nothing when it is blank after cleaning or its name lower-cases to a Docker name, otherwise the cleaned name without the tag; `EntryNotDocker`, `EntriesAreKeptLines` and the example lemmas state its properties |
| DistroList.ParseLines | main.py:217-245 | the parse of the split listing: the entries of the lines after the first separator line, or of the lines after the first when there is none; `SeparatorHidesHeader`, `NoSeparatorSkipsFirst`, `ScanAll` and `ExampleListing` state its properties |
| DistroList.ParseListing | main.py:213-245 | the parse of the decoded text: `ParseLines` of its lines split at `\n`; `ListDistrosFromText` is proved to compute it |
| DistroList.SeparatorHidesHeader | main.py:217-223 | with a separator after a separator-free header, the header and the separator contribute nothing, and the result is the entries of the lines after it |
| DistroList.NoSeparatorSkipsFirst | main.py:236-237 | with no separator line, the first line never contributes and every later line is a candidate |
| DistroList.EntriesAreKeptLines | main.py:218-245 | one entry per kept line, in ascending line order; a line is kept exactly when it is non-blank after cleaning and not a Docker name |
| DistroList.EntriesMembership | main.py:226-233 | a distribution is listed if and only if some candidate line yields it |
| DistroList.EntriesAppend | main.py:218-233 | the parse of concatenated line runs is the concatenation of their parses (order kept, each line handled on its own) |
| DistroList.NoDockerEntries | main.py:231-232 | no listed name lower-cases to `docker-desktop` or `docker-desktop-data` |
| DistroList.EntryNotDocker | main.py:231-233 | an entry produced from a line never lower-cases to either Docker name |
| DistroList.CleanNameShape | main.py:226 | cleaning keeps one contiguous stretch of the line; everything cut from either side is whitespace or `*`; the kept name neither starts nor ends with whitespace |
| DistroList.RemoveDefaultSuffixShape | main.py:229 | a name ending in `(Default)` loses the tag and the whole whitespace run before it (the leftmost match of `\s*\(Default\)$`), leaving a prefix that does not end in whitespace; any other name is unchanged |
| DistroList.EntryOfStripped | main.py:219 | stripping a line before cleaning it, as the first loop does, changes nothing |
| DistroList.MarkedName | main.py:226 | a line made of the default marker `*`, one space and a name that neither starts nor ends with whitespace or `*` cleans to exactly that name |
| DistroList.DefaultMarkedLine | main.py:226-233 | the line `* Ubuntu (Default)` yields the entry `Ubuntu` |
| DistroList.ExampleListing | main.py:200-249 | a header, a separator, then `* Ubuntu (Default)`, `Debian`, `docker-desktop` and `docker-desktop-data` parse to `[Ubuntu, Debian]`, in that order |
| DistroList.HeaderLines | main.py:221 | `NAME` is not a separator line and `----` is one |
| DistroList.PlainLine | main.py:226-229 | a name made only of letters and dashes, not ending in `(Default)`, is kept as it is |
| DistroList.DockerLine | main.py:231-232 | the line `docker-desktop` yields nothing |
| DistroList.DockerDataLine | main.py:231-232 | the line `docker-desktop-data` yields nothing |
| DistroState.IsDistroRunning | main.py:252-267 | the loop that returns at the first matching row computes exactly `IsRunningIn`: the first row after the header whose stripped name equals the query decides, by its lower-cased state |
| DistroState.RowReport | main.py:261-266 | one pass of the loop: the row reports a state exactly as `RowState` says, which is the stripped state group when the pattern matches and the stripped name group equals the query |
| DistroState.MatchRow | main.py:261 | `re.match` reduced to the name and state groups, at the span `MatchSpan` finds; `MatchSpanFound`, `TailIsRegexMatch`, `MatchSpanOptimal` and `MatchedAt` relate it to the pattern |
| DistroState.RowState | main.py:261-265 | the state one row reports for the query: the stripped state group when the pattern matches and the stripped name group equals the query, otherwise none; `RowReport` and `ExampleRowState` state its properties |
| DistroState.RunningInRows | main.py:257-267 | the answer on split rows: the first row after the header that reports a state for the query decides, by that state lower-cased, and the answer is false when none does; `RunningIffFirstReportRuns`, `NoReportNotRunning` and `HeaderNeverInspected` state its properties |
| DistroState.IsRunningIn | main.py:255-267 | the answer on the listing text: `RunningInRows` of its lines; `IsDistroRunning` is proved to compute it |
| DistroState.RunningIffFirstReportRuns | main.py:257-267 | true if and only if some row after the header reports `running` in any case for the name, and no earlier row after the header reports anything for it |
| DistroState.NoReportNotRunning | main.py:267 | when no row after the header names the distribution, the answer is false; the lookup has no error path |
| DistroState.HeaderNeverInspected | main.py:255-257 | the first line never affects the answer, even when it looks like a row naming the distribution |
| DistroState.MatchSpanFound | main.py:261 | the span the row matcher finds ends where the tail of the pattern matches and starts no later than the prefix allows |
| DistroState.TailIsRegexMatch | main.py:261 | a name start the prefix allows, followed by a tail match, is a match of the whole pattern: optional prefix, a name with no newline, two or more whitespace characters, a word state, whitespace and digits |
| DistroState.MatchSpanOptimal | main.py:261 | any row that matches the pattern is found, with the latest name start the prefix allows and, for that start, the shortest name; the state group is then determined |
| DistroState.MatchedAt | main.py:261-264 | a row that matches with the name starting at the end of its prefix, with no whitespace inside the name, yields that name and state |
| DistroState.PrefixEndAfterMarker | main.py:261 | after `* ` the name group starts at the third character |
| DistroState.ExampleRowMatch | main.py:258-261 | the row `* Ubuntu    Running    2` matches with name `Ubuntu` and state `Running` |
| DistroState.ExampleRowState | main.py:261-265 | that row reports state `Running` for `Ubuntu` |
| DistroState.ExampleRunning | main.py:252-267 | after any header, the row `* Ubuntu    Running    2` makes `Ubuntu` running |
| DistroState.RunningLowered | main.py:266 | `Running` lower-cases to `running` |
| StateBytes.MisreadNeverRunning | main.py:253-267 | read as UTF-8, the UTF-16LE bytes of any ASCII listing never report any distribution running |
| StateBytes.RunningAsWritten | main.py:253-267 | the lookup as written on the listing's bytes: read as UTF-8 by a text-mode pipe, newlines translated, then `IsRunningIn`; `MisreadNeverRunning` states that it is false for every ASCII listing written as UTF-16LE |
| StateBytes.TranslateNewlines | main.py:253 | the text-mode pipe's newline translation leaves no `\r`, never lengthens the text, and leaves text without `\r` unchanged |
| StateBytes.TranslateNulSeparated | main.py:253 | on text whose NULs separate the other characters, the translation turns each `\r` into `\n` in place and keeps the NULs where they were |
| StateBytes.MisreadHasNoAdjacentSpace | main.py:253 | the UTF-8 reading of UTF-16LE ASCII text is valid, and after the newline translation it has no two adjacent whitespace characters |
| StateBytes.NoAdjacentSpaceNoMatch | main.py:261 | a row without two adjacent whitespace characters never matches the row pattern |
| StateBytes.SplitNoAdjacentSpace | main.py:255 | splitting keeps every piece free of adjacent whitespace |
| StateBytes.DecodeEncodeUtf16Le | main.py:206 | decoding the UTF-16LE bytes of ASCII text as UTF-16LE gives the text back |
| StateBytes.DecodedReadsListing | main.py:252-255 | read as UTF-16LE, the lookup gives the answer it gives on the listing text itself |
| Lifecycle.JoinPath | main.py:270 | the joined path is the directory and the leaf, with a backslash between them exactly when the directory is non-empty, does not already end with `\` or `/`, and is not a bare drive such as `C:` |
| Lifecycle.TempArchive | main.py:270 | the archive path: `<name>.tar` joined onto the TEMP directory by `JoinPath`, whose contract fixes its shape; `CloneRemovesArchive` and `ImportsOnceReached` state where it is used |
| Lifecycle.InstallLocation | main.py:279 | the install directory: the new name joined onto `C:\WSL` by `JoinPath`; `ImportsOnceReached`, `BodyFrame` and `CloneKeepsFailedImport` state where it is used |
| Lifecycle.Apply | main.py:269-297 | what each `wsl` command does when it exits with 0: `-l -v` changes nothing, `--terminate` stops the name, `--export` creates the archive, `--import` registers the name, `--unregister` removes and stops it, `-d <name> -e exit` starts it; `DeleteRemoves`, `DeleteUndoesImport` and `Host.Execute` state its properties |
| Lifecycle.Outcome | main.py:274 | the host after a command: its effect on exit 0; on failure unchanged, except for what a failed export or import left behind (`FailedCommandOutcome`) |
| Lifecycle.CommandStatus | main.py:274 | `check=True`: a non-zero exit code raises a failure carrying the command and the code (`FailedCommandOutcome`, `DeleteRemoves`) |
| Lifecycle.Host.Execute | main.py:274 | `subprocess.run(..., check=True)`: the host takes the command's effect on exit 0, is unchanged on failure (except for what a failed export or import left behind), and the status raises exactly on a non-zero exit code |
| Lifecycle.Host.MakeDirectories | main.py:280 | on success the install directory exists; on failure nothing changes and the `os.makedirs` error is raised |
| Lifecycle.Host.RemoveIfExists | main.py:284-285 | afterwards the file is gone; a removal is recorded only when the file existed |
| Lifecycle.Host.IsDistroRunning | main.py:252-267 | issues `wsl -l -v`, changes nothing else, and answers `IsRunningIn` on the listing |
| Lifecycle.Host.ExportDistro | main.py:290-291 | one `wsl --export name path`; the archive exists exactly after exit 0 (or as a partial file after a failure); a non-zero exit is raised |
| Lifecycle.Host.ImportDistro | main.py:293-294 | one `wsl --import name location path`; the name is registered after exit 0, or after a failure that left it partly created; a non-zero exit is raised |
| Lifecycle.Host.DeleteDistro | main.py:296-297 | one `wsl --unregister name`; the new state and status are those of `Outcome` and `CommandStatus` |
| Lifecycle.Host.CloneDistro | main.py:269-288 | the host, the trace and the status after the clone are exactly those of `Clone`, where the running state `Clone` uses is the lookup's answer on the listing whenever TEMP is set |
| Lifecycle.Host.CloneWithTemp | main.py:270-288 | with the archive path joined, the clone issues `wsl -l -v` and then does what `CloneChecked` says for the lookup's answer |
| Lifecycle.Host.CopyChecked | main.py:272-288 | after the state check: optional terminate, then the `try` and `finally` blocks, as `CloneChecked` |
| Lifecycle.Host.TryBlock | main.py:275-281 | export, mkdir and import, stopping at the first failure, as `CloneBody` |
| Lifecycle.Host.FinallyBlock | main.py:282-288 | removes the archive if present, restarts the source if it was running, and a failing restart replaces the body's status, as `Finally` |
| Lifecycle.CloneBody | main.py:275-281 | the `try` block as a function of the host: export, mkdir, import, ending at the first failure; `BodyActions` states its actions |
| Lifecycle.Finally | main.py:282-288 | the `finally` block as a function of the host: remove the archive if present, restart a source that was running, a failing restart raising instead; `FinallyActions` states its actions |
| Lifecycle.CloneChecked | main.py:272-288 | the clone after the state check: terminate when running, where a failure escapes before the `try`, then `CloneBody` and `Finally` |
| Lifecycle.Clone | main.py:269-288 | the whole clone as a function of the host, TEMP and the lookup's answer; the `Clone…` lemmas below state what it promises |
| Lifecycle.FailedCommandOutcome | main.py:290-297 | a failed command raises with the command and its exit code; it leaves the host as it was, except that a failed export may leave its partial archive and a failed import its partly created, registered distribution, neither rolled back |
| Lifecycle.DeleteRemoves | main.py:296-297 | delete succeeds if and only if the exit code is 0, and then the name is neither registered nor running |
| Lifecycle.DeleteUndoesImport | main.py:293-297 | importing a new name and then deleting it leaves the registrations as they were |
| Lifecycle.CloneTempUnset | main.py:270 | with TEMP unset, the clone raises before any command runs, and the host is unchanged |
| Lifecycle.CloneTerminatesIffRunning | main.py:271-277 | the state check comes first; `--terminate` is issued if and only if the source was reported running, and then right after the check |
| Lifecycle.CloneExportsAfterTerminate | main.py:271-279 | the export is issued at most once, right after the state check and the `--terminate` when there is one |
| Lifecycle.CloneTerminateFailure | main.py:272-275 | a failing terminate raises before the `try` block: no export, no clean-up, no restart, host unchanged |
| Lifecycle.CloneImportsAfterExportAndMkdir | main.py:276-281 | the import is issued if and only if the export and the mkdir succeeded, and it comes right after them |
| Lifecycle.ImportsOnceReached | main.py:275-281 | once the `try` block is reached, any import comes right after the export and the mkdir, and one is issued if and only if both succeeded |
| Lifecycle.CloneRemovesArchive | main.py:282-285 | once the `try` block is reached, no file is left at the temp archive path whatever happened, and no other file changes |
| Lifecycle.CloneRestartsIffRunning | main.py:286-288 | once the `try` block is reached, the restart is issued if and only if the source was running, as the last action |
| Lifecycle.CloneRestartsSource | main.py:286-288 | once the `try` block is reached, a successful restart leaves the source running |
| Lifecycle.CloneReraises | main.py:275-288 | a failure in the `try` block is raised again after the clean-up, unless the restart fails, in which case its failure is raised instead |
| Lifecycle.CloneKeepsFailedImport | main.py:281-288 | a failed import is not rolled back: the clone raises, the install directory stays, and the new name is registered afterwards exactly when it was before or the import left it partly created |
| Lifecycle.CloneSucceeds | main.py:269-288 | the clone succeeds if and only if TEMP is set and every step succeeds; then the new name is registered, its directory exists, no archive is left, and a source that was running is running again |
| Lifecycle.CloneFrame | main.py:269-288 | a clone changes nothing but the new registration, the source's running state, the archive file and the install directory |
| Lifecycle.BodyFrame | main.py:275-281 | the `try` block changes only the new name's registration, the archive and the install directory, and never what is running |
| Lifecycle.FinallyFrame | main.py:282-288 | the `finally` block removes the archive and may start the source; registrations and directories stay as they were |
| PyText.StripByShape | main.py:226 | `strip` keeps one slice of the string; everything it removes on either side is a dropped character, and the kept ends are not |
| PyText.StripIdempotent | main.py:219-226 | stripping twice is stripping once |
| PyText.StripByUnique | main.py:226 | a string made of dropped characters, then a middle with kept ends, then dropped characters strips to that middle |
| PyText.JoinSplit | main.py:213 | splitting loses nothing: joining the pieces on the separator gives the text back |
| PyText.SplitJoin | main.py:213 | pieces without the separator come back unchanged when their join is split |
| PyText.LowerChars | main.py:231 | lower-casing keeps the length and works character by character |
| PyText.LowerKeeps | main.py:231 | a string with no upper-case letters is unchanged by lower-casing |

## Left out

- The ttkbootstrap user interface, its dialogs and its worker threads (main.py:10-198) are not part of this model. Neither is `main`.
- Process launching is left out. Each `wsl` call is a `Command` value. Its exit code, whether a failed export leaves a partial archive, whether a failed import leaves the distribution partly created, and the text `wsl -l -v` prints are inputs chosen by the caller. A `wsl` that cannot be started, and a call that hangs, are not modelled.
- DistroList.ListDistros: the decoders are not modelled. The caller gives the result of each decoding, or `None` when it raises `UnicodeDecodeError`. Because the decoded text is stripped before it is split, the model strips it too.
- The `print` calls are not modelled.
- `\w` and `\d` are modelled as ASCII word characters and ASCII digits. Python's `str` patterns also accept other Unicode letters and digits there.
- PyText.Lower maps only ASCII capitals and the Kelvin sign. Every other character is left as it is. This is exact for the only use in the source: comparing against the ASCII words `docker-desktop`, `docker-desktop-data` and `running`. No other character lower-cases to an ASCII letter.
- Lifecycle.JoinPath models `os.path.join` only for a relative leaf. A leaf that is rooted or starts with a drive letter, which would make `os.path.join` drop the directory, is not modelled.
- The removal of the archive in the `finally` block is assumed to succeed. A failure of `os.remove` is not modelled.
- `os.makedirs` is modelled as creating just the install directory, with success or failure given by the caller. The parent directories it also creates are not recorded.
- The verbose listing passed to `Lifecycle.Host.CloneDistro` is an input. It is not derived from the host's `running` set, so the model does not check whether the two agree.
- `wsl -d name -e exit` is modelled as leaving the distribution running when it exits with 0.
- Lifecycle.Outcome: a partly created distribution left by a failed import is modelled as the name being registered. Its files under the install directory are not modelled. Every other failed command is assumed to leave the host unchanged.
- StateBytes.RunningDecoded: the corrected reading decodes the bytes as `list_distros` does, with `bytes.decode`, so it does not translate newlines.
- The undecodable case of `is_distro_running` is left out. `subprocess.run(..., encoding='utf-8')` would raise `UnicodeDecodeError` there. The model takes the listing as text, and `StateBytes` covers ASCII listings only.
- Concurrent clones of the same source share the same archive path. Concurrency is not modelled.

## Findings

| source | as written | input that shows it | evidently intended | confidence | as-written member | corrected member |
|---|---|---|---|---|---|---|
| main.py:253 | `is_distro_running` decodes the output of `wsl -l -v` as UTF-8, while `list_distros` decodes the same tool's output as UTF-16LE (main.py:206). Read as UTF-8, UTF-16LE text has a NUL after every character. NUL is not whitespace, so no row contains the two adjacent whitespace characters that `\s{2,}` requires, and no row matches. | the UTF-16LE bytes of a header line followed by `* Ubuntu    Running    2`: read as UTF-8, no row matches and `is_distro_running("Ubuntu")` is False, so a clone neither stops nor restarts a running source | decode the verbose listing as UTF-16LE, as `list_distros` does, so the row `* Ubuntu    Running    2` reports `Ubuntu` running | medium: this holds when `wsl.exe` writes UTF-16LE, which is its behaviour unless the `WSL_UTF8` variable is set; not executed | StateBytes.MisreadNeverRunning | StateBytes.DecodedReadsListing |

The rest of the model uses the corrected reading. `DistroState.IsDistroRunning`
and `Lifecycle.Host.CloneDistro` take the listing as text that has already
been decoded correctly. `StateBytes.DecodedReadsListing` proves that the
UTF-16LE reading of the tool's bytes yields exactly that text's answer.
`DistroState.ExampleRunning` then shows that the documented row is reported
as running.
