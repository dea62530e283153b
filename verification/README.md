# pwnagotchi auto-update core, modelled in Dafny

This project models two parts of pwnagotchi:

- **`pwnagotchi/utils.py`**: the pure helpers and the `StatusFile` class.
  - The helpers are `secs_to_hhmmss`, `deep_merge` and the parsing half of `iface_channels`.
  - `StatusFile` is the small file that remembers when something last happened.
- **The `auto-update` plugin.** It does four things:
  - it becomes ready when its `interval` option is set;
  - on every internet-available event, unless the last check is recent, it asks GitHub for the latest release of bettercap, pwngrid and pwnagotchi itself;
  - it either announces the updates it found or downloads, verifies and installs each one;
  - it records the check time and reboots when something was installed.

The model is functional. Python values are a small `PyValue` datatype. Every point where the code can raise is an explicit `Result`.

The outside world is always an input:

- the clock, read twice: once in the throttle test and once, after the checks and installs, in `STATUS.update()`;
- the file system;
- the decoded GitHub release documents;
- the version order;
- the output of `bettercap -version`, `pwngrid -version`, `sha256sum` and `which`;
- the checksum files.

What the code does to the world comes back as a trace of effects:

- display updates;
- shell commands;
- directory removal and creation;
- the status-file write;
- the reboot.

Modules:

| module | file | models |
|---|---|---|
| `Wrappers` | wrappers.dfy | `Option` and `Result` |
| `Text` | text.dfy | the Python string operations the code relies on: `strip`, `split`, `split()`, `replace`, `lower`, `startswith`, `in`, `int`, `%d`, `%02d`, and the newline translation of text-mode reads |
| `Python` | python.dfy | dynamic values, exceptions, indexing, truthiness |
| `Utils` | utils.dfy | `secs_to_hhmmss`, `deep_merge`, `iface_channels` |
| `StatusFiles` | status.dfy | `StatusFile`: constructor, `newer_then_*`, `data_field_or`, `update` |
| `Versions` | versions.dfy | a concrete release order (dotted naturals) for `parse_version` comparisons |
| `AutoUpdate` | autoupdate.dfy | `on_loaded`, `check`, `verify`, `install` |
| `UpdateCycle` | cycle.dfy | `on_internet_available` |

Where the plugin's code may surprise a reader, the model follows the code:

- **Tag.** `check` removes every `v` from the tag, not only a leading one.
- **Checksum.** `verify` takes the text between the first and the second `=` of the checksum file.
- **Errors.** An exception in any `check` or `install` aborts the whole `try` block of the event handler. It does not just skip that one program. The remaining programs are not checked or installed. `STATUS.update()` is not reached, so the check time is not recorded.
- **Install result.** `install` reports success whatever the exit codes of its shell commands are.
- **Reboot.** In the code, the display restore comes after the call to `pwnagotchi.reboot()`. That function is not part of this model, so the trace simply continues after the `Reboot` effect.
- **Announcement.** The text ends with `!`, for example `2 new updates available!`.
- **Status write.** `STATUS.update()` sets the timestamp and the data before it opens the file. If opening fails, the check time is still recorded in memory, so later runs of the same process are throttled. The exception is caught by the handler's `except`, so there is no reboot, even after successful installs.
- **Newlines.** The `StatusFile` constructor reads the file in text mode. A `\r\n` or a lone `\r` comes back as `\n`, so raw text containing a carriage return does not survive a write and a reload.

## Model

| member | source | states |
|---|---|---|
| Utils.SecsToHhmmss | pwnagotchi/utils.py:99-102 | the clock has three `:`-separated fields; minutes and seconds are exactly two digits, each below 60; hours are at least two characters, and all digits when the input is not negative |
| Utils.HhmmssRoundTrip | pwnagotchi/utils.py:99-102 | reading the printed `H:MM:SS` clock back gives exactly the number of seconds it was printed from, for every integer, negative ones included (floor `divmod`) |
| Utils.DeepMerge | pwnagotchi/utils.py:89-96 | when both arguments are dictionaries, the merged keys are the union of both key sets; a non-dictionary value of `to_merge` is kept; a key only `to_merge` has is kept; a key only the defaults have gets the default value; a key both have gets the merge of the two values, so two dictionaries are merged recursively; any other pair of arguments returns `to_merge` unchanged |
| Utils.DeepMergeSelf | pwnagotchi/utils.py:89-96 | merging a value with itself gives the value back |
| Utils.DeepMergeIdempotent | pwnagotchi/utils.py:89-96 | applying the same defaults a second time changes nothing |
| Utils.DeepMergeKeeps | pwnagotchi/utils.py:89-96 | defaults never override a setting at any depth: every non-dictionary value at a key path of `to_merge` is in the result unchanged, and every dictionary there keeps at least its keys |
| Utils.DeepMergeCovers | pwnagotchi/utils.py:89-96 | after merging, every key path of the defaults is present in the result, down to where one side stops being a dictionary |
| Utils.ChannelLineHasNumberField | pwnagotchi/utils.py:114-116 | a stripped line starting with `Channel ` always has a second whitespace-separated field, so `line.split()[1]` cannot raise IndexError |
| Utils.IfaceChannels | pwnagotchi/utils.py:110-117 | the call succeeds exactly when every channel line's field is an integer; the result is then those integers in input order, one per channel line; otherwise the error is ValueError |
| Utils.ParseChannelLines | pwnagotchi/utils.py:113-117 | the loop over the lines: it completes exactly when every channel field is an integer, and the list then holds those integers in line order; otherwise ValueError |
| Utils.ParseLine | pwnagotchi/utils.py:113-116 | one loop step: a channel line appends the integer of its field or raises ValueError; any other line leaves the list unchanged |
| Utils.ContributionUnparsable | pwnagotchi/utils.py:113-116 | a single channel line whose field is not an integer makes the whole output unparsable |
| Text.UniversalNewlines | pwnagotchi/utils.py:241-245 | the text a text-mode read returns: no carriage return is left, nothing grows, and text without a carriage return is unchanged |
| Text.CrLfReadsAsNewline | pwnagotchi/utils.py:241-245 | for every text, the first `\r\n` is read as one `\n`, the text before it as it is, and the rest is read on its own |
| Text.LoneCrReadsAsNewline | pwnagotchi/utils.py:241-245 | for every text, a first `\r` not followed by `\n` is read as `\n`, the text before it as it is, and the rest is read on its own |
| StatusFiles.Load | pwnagotchi/utils.py:233-245 | a missing file gives no timestamp and `None` data; an existing one gives its modification time; its data is the text as a text-mode read returns it (`\r\n` and `\r` become `\n`), or, for the `json` format, the document decoded from that text, and a decoding error propagates |
| StatusFiles.Since | pwnagotchi/utils.py:252-259 | `now - updated` as a `timedelta` in normal form: seconds within a day, microseconds within a second, and the parts recompose to the elapsed time |
| StatusFiles.SinceUnique | pwnagotchi/utils.py:252-259 | that normal form is unique: any days/seconds/microseconds triple that recomposes to the elapsed time, with parts in range, is the one `Since` gives |
| StatusFiles.NewerThenMinutes | pwnagotchi/utils.py:252-253 | false without a timestamp, whatever the threshold; otherwise a non-number threshold raises TypeError; true only when the within-day seconds are below 60 × minutes |
| StatusFiles.MinutesWithinADay | pwnagotchi/utils.py:252-253 | within one day after the timestamp, the minute window means what it says: newer than `m` minutes exactly when less than `m` minutes have elapsed |
| StatusFiles.NewerThenHours | pwnagotchi/utils.py:255-256 | the same with 3600 × hours |
| StatusFiles.NewerThenDays | pwnagotchi/utils.py:258-259 | the same with the whole days (floored) below `days` |
| StatusFiles.NeverNewerWithoutTimestamp | pwnagotchi/utils.py:252-259 | without a timestamp all three windows answer False, even for a threshold that is not a number |
| StatusFiles.WindowsIgnoreWholeDays | pwnagotchi/utils.py:252-256 | moving `now` by whole days never changes the minute or hour answer, because `.seconds` drops the days |
| StatusFiles.HoursWithinADay | pwnagotchi/utils.py:255-256 | within one day after the timestamp, the hour window means what it says: elapsed time below `h` hours |
| StatusFiles.HourWindowWrapsAfterADay | pwnagotchi/utils.py:255-256 | a timestamp one day and one second old is still newer than one hour |
| StatusFiles.DaysWindowExact | pwnagotchi/utils.py:258-259 | the day window is exact in both directions of time: newer than `n` days exactly when less than `n` days have elapsed |
| StatusFiles.DataFieldOr | pwnagotchi/utils.py:247-250 | `None` data gives the default; dictionary data gives the field or the default; string data containing the name, and list data holding it, raise TypeError when indexed with a string; so does numeric data; otherwise the default |
| StatusFiles.Update | pwnagotchi/utils.py:261-272 | the timestamp becomes `now` and the data is replaced even when the write raises; when opening the file raises, that error propagates and nothing is written; otherwise the file receives the timestamp text for `None` data, the encoded document for JSON, the string for raw text; any other data on a raw file raises TypeError after the file is truncated |
| StatusFiles.JustUpdatedIsNewer | pwnagotchi/utils.py:252-263 | right after `update`, every window of positive length reports the file as newer and no window of length zero or less does |
| StatusFiles.UpdateThenField | pwnagotchi/utils.py:247-263 | a field written by `update` with a dictionary is what `data_field_or` then returns |
| StatusFiles.UpdateThenLoad | pwnagotchi/utils.py:233-272 | writing data with `update` and constructing the object again from the file restores the timestamp; JSON data comes back unchanged, given that decoding inverts encoding and the encoded text has no carriage return; raw text comes back with its line endings translated to `\n` |
| StatusFiles.RawTextRoundTrip | pwnagotchi/utils.py:233-272 | raw text without a carriage return comes back exactly |
| StatusFiles.CarriageReturnReloadsAsNewline | pwnagotchi/utils.py:241-272 | raw text `a\rb` written by `update` reloads as `a\nb` |
| StatusFiles.UpdateNoneReloadsTimestamp | pwnagotchi/utils.py:233-266 | after `update()` without data, reloading a raw file gives the timestamp text, as a text-mode read returns it, as the data |
| Versions.SegmentsSpec | pwnagotchi/plugins/default/auto-update.py:51-52 | a dotted version parses exactly when every segment is a non-empty run of digits, and then segment by segment to their values |
| Versions.NewerIrreflexive | pwnagotchi/plugins/default/auto-update.py:51-53 | no version is newer than itself |
| Versions.NewerStrictOrder | pwnagotchi/plugins/default/auto-update.py:51-53 | the order is asymmetric and transitive |
| Versions.NewerTotal | pwnagotchi/plugins/default/auto-update.py:51-53 | two dotted versions that denote different releases are ordered one way or the other |
| Versions.TrailingZeroSameRelease | pwnagotchi/plugins/default/auto-update.py:51-53 | appending `.0` names the same release: neither is newer than the other |
| AutoUpdate.OnLoaded | pwnagotchi/plugins/default/auto-update.py:26-31 | READY becomes true when `interval` is present and not None, and keeps its value otherwise |
| AutoUpdate.Tag | pwnagotchi/plugins/default/auto-update.py:47-48 | the tag is read exactly when the release is a dictionary whose `tag_name` is a string |
| AutoUpdate.SelectAsset | pwnagotchi/plugins/default/auto-update.py:58-63 | a URL the asset loop returns is a compatible `.zip`; the loop finds none exactly when every asset has a readable, incompatible URL |
| AutoUpdate.FirstDecisiveAsset | pwnagotchi/plugins/default/auto-update.py:58-63 | the first asset the loop does not pass over decides: its read error is raised, or its compatible URL is chosen; if there is no such asset, no URL |
| AutoUpdate.AssetsUrl | pwnagotchi/plugins/default/auto-update.py:58-59 | iterating a list runs the asset loop; an empty string or dictionary yields nothing; a non-empty one raises TypeError at the string index; None, booleans and integers are not iterable |
| AutoUpdate.Check | pwnagotchi/plugins/default/auto-update.py:35-65 | request and tag errors propagate; `available` is the tag with every `v` removed; with a readable tag, a non-native repository always returns normally, and a remote that is not newer returns normally with no URL; a URL is offered only when the remote is newer; a non-native URL is the tag's archive; a native URL is a compatible asset |
| AutoUpdate.DownloadUrl | pwnagotchi/plugins/default/auto-update.py:53-63 | a non-native release is downloaded from the tag's archive; for a native one, a missing `assets` key raises KeyError, and otherwise the URL is what the loop over `latest['assets']` finds |
| AutoUpdate.CheckNativeUsesAssets | pwnagotchi/plugins/default/auto-update.py:53-63 | for a newer native release, a missing `assets` key makes `check` raise KeyError; otherwise `check` returns exactly what the loop over `latest['assets']` finds, or raises what it raises |
| AutoUpdate.CheckNativeNonListAssets | pwnagotchi/plugins/default/auto-update.py:53-63 | for a newer native release whose `assets` is not a list, `check` offers no update when it is an empty string or dictionary and raises TypeError otherwise |
| AutoUpdate.SameReleaseNoUpdate | pwnagotchi/plugins/default/auto-update.py:48-53 | under the dotted-version order, a release tagged `v<installed version>` offers no update |
| AutoUpdate.CheckKeepsTagInArchiveUrl | pwnagotchi/plugins/default/auto-update.py:48-55 | for a tag `v<version>`, `available` is the version without `v`, but the archive URL names the tag with its `v` |
| AutoUpdate.ExpectedDigest | pwnagotchi/plugins/default/auto-update.py:124-125 | the expected digest exists exactly when the checksum text contains `=`; otherwise IndexError |
| AutoUpdate.ExpectedDigestField | pwnagotchi/plugins/default/auto-update.py:124-125 | for checksum text `head=digest` or `head=digest=rest` with no `=` in `head` or `digest`, the expected digest is `digest` stripped and lower-cased: the text between the first and second `=` |
| AutoUpdate.ActualDigestField | pwnagotchi/plugins/default/auto-update.py:127 | for `sha256sum` output `digest` or `digest rest` with no space in `digest`, the actual digest is `digest` stripped and lower-cased: the first space-separated piece |
| AutoUpdate.Verify | pwnagotchi/plugins/default/auto-update.py:104-133 | without a checksum file, native updates are refused and other ones accepted; with one, only the first file listed matters: it raises IndexError exactly when that file has no `=`, and otherwise the result is whether the actual digest equals the expected one |
| AutoUpdate.VerifyComparesDigests | pwnagotchi/plugins/default/auto-update.py:120-131 | for a checksum file `label = digest` and a `sha256sum` line `digest  path`, the result is whether the two digests agree, ignoring case |
| AutoUpdate.Preparation | pwnagotchi/plugins/default/auto-update.py:68-111 | directory preparation, download, extraction and the verifying notice never stop, move or start a service, never run the installer, never write the status and never reboot |
| AutoUpdate.Placement | pwnagotchi/plugins/default/auto-update.py:156-171 | putting an update in place consists only of shell commands |
| AutoUpdate.Install | pwnagotchi/plugins/default/auto-update.py:136-173 | a repository without a name segment raises IndexError before any effect; a staging directory that survives removal raises FileExistsError; otherwise a checksum file without `=` raises IndexError, a failed verification returns False, and a verified update returns True unless a native program is missing from the path, which returns False; only a True result issued installing commands; it never writes the status or reboots |
| AutoUpdate.InstallSteps | pwnagotchi/plugins/default/auto-update.py:141-173 | after preparation, a verification error propagates, a failed verification returns False, a native program missing from the path returns False, and the result is True exactly when verification passed and a native program was found; the preparation effects come first |
| AutoUpdate.InstallDownloadsTarget | pwnagotchi/plugins/default/auto-update.py:77-90 | once the directory is in place, the archive is fetched from the candidate's URL to `<name>_<available>.zip` under `/tmp/updates/<name>` |
| AutoUpdate.InstallSucceedsByPlacement | pwnagotchi/plugins/default/auto-update.py:156-171 | a successful native install ends with stop, move over the `which` path, start; a non-native one ends with the installer run in the unpacked source, or in `<source>-<available>` when that is missing |
| UpdateCycle.CheckingFace | pwnagotchi/plugins/default/auto-update.py:196-202 | as written, the face choice raises TypeError; corrected, it shows one of the two looking faces, as drawn |
| UpdateCycle.UpdatesMessage | pwnagotchi/plugins/default/auto-update.py:229 | as written, the announcement raises TypeError exactly for a single update; corrected, it never raises |
| UpdateCycle.UpdatesMessageCount | pwnagotchi/plugins/default/auto-update.py:229 | the announcement's first word reads back as the number of updates, and it says `updates` exactly when there is more than one |
| UpdateCycle.LocalVersions | pwnagotchi/plugins/default/auto-update.py:205-210 | the probe raises IndexError exactly when `bettercap -version` has no second word; the native versions carry no `v`; the pwngrid version is the whole `pwngrid -version` output with every `v` removed; the package version is used as it is |
| UpdateCycle.LocalVersionsOfOutput | pwnagotchi/plugins/default/auto-update.py:205-210 | when `bettercap -version` prints a name, a version and more, separated by spaces, the bettercap version is that second word with every `v` removed |
| UpdateCycle.Collect | pwnagotchi/plugins/default/auto-update.py:212-218 | the check loop succeeds exactly when every check succeeds, and yields at most one candidate per program |
| UpdateCycle.CandidateOrigins | pwnagotchi/plugins/default/auto-update.py:212-218 | the candidates are exactly the programs whose check found a URL, in program order, each with its service name |
| UpdateCycle.Tally | pwnagotchi/plugins/default/auto-update.py:224-227 | the install loop succeeds exactly when no install raises; the count is then the number of installs that returned True, so at most the number of candidates, and the effects are those of every install in order; it never writes the status or reboots |
| UpdateCycle.TallyCountsSuccesses | pwnagotchi/plugins/default/auto-update.py:224-227 | when every install returns True, every candidate is counted |
| UpdateCycle.TallyStopsAtFirstFailure | pwnagotchi/plugins/default/auto-update.py:224-227 | the first install that raises ends the loop with its exception, after the effects of the installs up to and including it |
| UpdateCycle.Closing | pwnagotchi/plugins/default/auto-update.py:234-244 | the closing steps start with the status write and contain the reboot exactly when something was installed |
| UpdateCycle.Deliver | pwnagotchi/plugins/default/auto-update.py:220-231 | with no candidates the block completes with nothing found or installed and the previous display kept; with candidates, a missing `install` option raises KeyError, the option on installs every candidate, and the option off installs nothing and keeps the announcement and motivated face for the restore, raising exactly when the announcement does; no effect writes the status or reboots |
| UpdateCycle.InstallEvery | pwnagotchi/plugins/default/auto-update.py:223-227 | every candidate is installed in turn; the block completes exactly when no install raises, and then `installed` is the number of installs that returned True and the effects are those of the installs, in order |
| UpdateCycle.TryBlock | pwnagotchi/plugins/default/auto-update.py:195-232 | as written it raises at the face choice before any effect; the block up to `STATUS.update()` never writes the status or reboots; a completed one starts with the checking display and found at most three programs, having installed at most what it found; with the install option on, it keeps the previous status and face for the restore |
| UpdateCycle.Restore | pwnagotchi/plugins/default/auto-update.py:249-255 | the display update after the `try` block shows the previous status and face, with `''` for a missing status and the awake face for a missing face |
| UpdateCycle.Attempt | pwnagotchi/plugins/default/auto-update.py:195-255 | a run completes exactly when the `try` block does and the status file can be opened; it then keeps the block's counts, reboots exactly when something was installed, and leaves the status stamped with the time `STATUS.update()` read; an exception in the block is caught with the status untouched and the previous display restored; a failure to open the status file is caught after the stamp; no aborted run writes the status or reboots |
| UpdateCycle.Conclude | pwnagotchi/plugins/default/auto-update.py:234-255 | once the `try` block has run, an exception it raised is caught with the status untouched and the previous display restored after its effects; otherwise the run completes exactly when the status file opens, keeping the block's counts and rebooting exactly when something was installed; after a completed block the status is stamped whether or not the file opens |
| UpdateCycle.RecordAndRestore | pwnagotchi/plugins/default/auto-update.py:234-255 | after a completed block, a failure to open the status file aborts with the status stamped and only the restore added; otherwise the status write, the reboot if something was installed, and the restore follow the block's work |
| UpdateCycle.Cycle | pwnagotchi/plugins/default/auto-update.py:176-255 | a missing `ui.faces` raises out of the handler; a handler that is not ready does nothing; when ready, a missing `interval` option or one that `newer_then_hours` cannot use raises its error out of the handler; a run happens exactly when ready and not throttled |
| UpdateCycle.AsWrittenNeverCompletes | pwnagotchi/plugins/default/auto-update.py:195-255 | as written, no run ever completes: past the throttle it raises at the face choice, only restores the display, and leaves the status file as it was |
| UpdateCycle.TryBlockDelivers | pwnagotchi/plugins/default/auto-update.py:195-220 | corrected, once the local versions and every check succeed, the block shows the checking face and goes on with the candidates found |
| UpdateCycle.NoUpdatesCompletes | pwnagotchi/plugins/default/auto-update.py:195-255 | corrected, a run that finds no update completes: it shows the checking face, writes the status, does not reboot, restores the display, and stamps the status with the time `STATUS.update()` read |
| UpdateCycle.DeliverCountsTrueInstalls | pwnagotchi/plugins/default/auto-update.py:220-227 | with the install option on, a completed block counts exactly the candidates whose `install` returned True |
| UpdateCycle.InstalledCountsTrueInstalls | pwnagotchi/plugins/default/auto-update.py:220-236 | with the install option on, a completed run's `installed` is the number of candidates whose `install` returned True |
| UpdateCycle.RebootIffSomeInstallReturnedTrue | pwnagotchi/plugins/default/auto-update.py:223-244 | with the install option on, a completed run reboots exactly when some candidate's `install` returned True |
| UpdateCycle.EveryInstallReboots | pwnagotchi/plugins/default/auto-update.py:223-244 | with the install option on, when every `install` returns True and the status file can be opened, the run completes, counts every candidate and reboots |
| UpdateCycle.StatusWriteFailureSkipsReboot | pwnagotchi/plugins/default/auto-update.py:234-255 | when the status file cannot be opened, the run is aborted without a status write or a reboot, even after installs; past `STATUS.update()` the open error is what is caught and the check time is recorded |
| UpdateCycle.EmptyDisplayRestoredWithDefaults | pwnagotchi/plugins/default/auto-update.py:195-255 | when the display had no status and no face, a run that reaches the `try` block ends showing `''` and the awake face, after an exception in the block or with the install option on |
| UpdateCycle.SingleUpdateRaisesAsWritten | pwnagotchi/plugins/default/auto-update.py:223-230 | with the face fixed but the format as written, finding exactly one update with the install option off aborts the run |
| UpdateCycle.SingleUpdateAnnounced | pwnagotchi/plugins/default/auto-update.py:223-255 | corrected, the same run completes: the status is written, nothing installed, no reboot, and the display shows the announcement with the motivated face |
| UpdateCycle.CompletedRunShape | pwnagotchi/plugins/default/auto-update.py:195-255 | a completed run's effects are its work (no status write or reboot), then the status write, then the reboot announcement and reboot if something was installed, then the restore |
| UpdateCycle.AnnounceInsteadOfInstall | pwnagotchi/plugins/default/auto-update.py:223-255 | with the install option off, a completed run that found updates installs nothing, does not reboot, and ends by showing the announcement with the motivated face |
| UpdateCycle.RecordedCheckThrottlesNext | pwnagotchi/plugins/default/auto-update.py:184-234 | a run that reaches `STATUS.update()` records the check time, whether or not the file could be written, so a run from the state it leaves, at the time `STATUS.update()` read, does nothing when the interval is a positive integer |
| UpdateCycle.CooldownCountsFromStamp | pwnagotchi/plugins/default/auto-update.py:184-234 | the next cool-down counts from the time `STATUS.update()` read, not from the start of the run: within a day of it, a later run is throttled exactly when fewer than `interval` hours have passed since then |

## Left out

- `iface_channels` running `iwlist`: the command output is the input, and the parsing is what is modelled.
- The rest of pwnagotchi/utils.py:
  - logging set-up, `total_unique_handshakes` and the LED helpers;
  - the pcap extraction helpers and the reader-writer lock.
  These are outside the auto-update core.
- pwnagotchi/plugins/default/gpsdaemon.py is not part of this model.
- Floating-point values: thresholds and versions are integers and strings.
  - `newer_then_*` with a float threshold is not modelled.
  - `seconds / 60 < minutes` is modelled as the integer comparison `seconds < 60 * minutes`, which it equals for integer thresholds.
- `deep_merge` and `update` mutate in place. The model returns the new value, so aliasing between configuration dictionaries is not modelled.
- Dictionary iteration order: `for asset in <dict>` only matters through emptiness, since the first key is a string and indexing it with a string raises.
- JSON encoding and decoding, `str(datetime)`, SHA-256, the GitHub request and the release document are inputs (functions or values). Their internals are not modelled. The text-mode newline translation of reads is modelled; writes on Linux translate nothing.
- A status write that fails after the file is open, for example on a full disk, is not modelled. Only a failure to open the file is an input.
- PEP 440 ordering: the plugin takes the order as a parameter. `Versions` gives a dotted-natural instance only. Pre-releases, epochs, local versions and the error newer `packaging` raises on invalid versions are not modelled.
- `Text.Lower` and `Text.IsDigit` cover ASCII only. Python's `lower()` and `int()` also handle other Unicode letters and digits.
- `faces.load_from_config`: only the two lookups `config['ui']['faces']` are modelled, not what loading the faces does.
- Logging, the display's rendering, and how `display.update(force=True)` redraws are not modelled. Only the status and face handed to it appear in the trace.
- `pwnagotchi.reboot()` itself is an effect.
- Exit codes of `os.system`, and the outcome of the commands beyond what `install` inspects (`which` output and path existence), are not modelled.
- StatusFiles.NewerThenMinutes: states the true direction only (`true` implies within the window). MinutesWithinADay and WindowsIgnoreWholeDays give the exact meaning.
- StatusFiles.NewerThenHours: the same; HoursWithinADay and WindowsIgnoreWholeDays give the exact meaning.
- AutoUpdate.ExpectedDigest: reads the checksum file without the text-mode newline translation. The verdict is the same either way. A `\r` at either end of the digest is whitespace that `strip()` removes. A `\r` inside it, or the `\n` it would become, makes the digest differ from `sha256sum`'s hexadecimal output.
- UpdateCycle.Collect: states success and the count bound only; CandidateOrigins gives which candidates, in what order.

## Findings

| source | as written | input that shows it | evidently intended | confidence | as-written member | corrected member |
|---|---|---|---|---|---|---|
| pwnagotchi/plugins/default/auto-update.py:200 | `random.choice(faces.LOOK_L, faces.LOOK_R)` passes two arguments; `choice` takes one sequence, so it raises TypeError | any run that is ready and not throttled (for example `interval` 1, last check two hours ago) | `random.choice([faces.LOOK_L, faces.LOOK_R])`, showing one of the two faces while checking; the run then goes on to check, record the time and possibly install | high; not executed | UpdateCycle.AsWrittenNeverCompletes | UpdateCycle.CheckingFace |
| pwnagotchi/plugins/default/auto-update.py:229 | `'%d new update%c available!' % (n, '')` for a single update; `%c` needs one character, so it raises TypeError | exactly one program has a newer release and `install` is off | `%s`, giving `1 new update available!` | high; not executed | UpdateCycle.SingleUpdateRaisesAsWritten | UpdateCycle.SingleUpdateAnnounced |
