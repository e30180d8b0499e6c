# Device storage survey and folder-size ranking, in Dafny

This project models the inspection logic of an ADB (Android Debug Bridge)
helper script, `adb_utils.py`, and proves properties of that model. The
script asks a USB-attached Android device for three kinds of information
and turns the shell's text output into structured results:

- **Device properties.** It reads `[key]: [value]` lines from the output of
  `getprop` (module `Getprop`).
- **Storage survey.** It takes one record per storage volume and looks up
  each volume's capacity in the first line of `df -k` that describes it. The
  three spellings of the primary internal volume (`/storage/emulated/0`,
  `/storage/emulated`, `/sdcard`) are treated as one (module
  `StorageSurvey`).
- **Largest-item ranking.** It lists a directory with `ls -aF`, sizes each
  entry with `du -sh`, and converts sizes such as `1.5G` into bytes. It then
  stable-sorts the items from largest to smallest and keeps the first
  `count` (module `Ranker`).

Beyond these three, the project also models:

- the consolidation of the storage records under display names, where
  "Internal Storage" prefers `/storage/emulated/0` (module `Consolidation`);
- the readiness test on the output of `adb devices` (module `AdbStatus`).

Every shell command is a parameter holding its outcome and its output,
`Shell.CommandResult(success, stdout)`:

- The `df -k` and `ls -aF` results are single values.
- The `du -sh` results are a map from item path to result. An item path
  that is missing from the map is treated like a failed `du`.
- The output of `getprop` is an `Option<string>`, which is `None` when the
  command failed.

The Python string operations that the code relies on are modelled in
`PyText`: `strip`, `split()`, `split(sep)`, `splitlines`, `in`,
`startswith`/`endswith`, `replace`, `int()` and `float()`. Each has its
own contracts.

Sizes and capacities are exact reals, not binary floating point. A Python
dict is modelled in one of two ways. Where only membership and values
matter, it is a `map`. Where insertion order is observable (the
consolidated storage table), it is a sequence of key/value pairs with
unique keys.

Where the repository's prose specification and the code disagree, the model
follows the code, with one exception: the listing filter of
adb_utils.py:181, which lets the dot links "./" and "../" through although
its own comment says it excludes them (see Findings). The whole ranking
(`Ranker.Candidates`, `Ranker.Sized`, `Ranker.Ranked` and the methods
`ListCandidates` and `GetTopLargeItems`) uses the corrected filter; the
filter as written is `Ranker.IsListedAsWritten`. The specification says that an exact mount-point match
takes precedence over an internal-alias match. The code makes one pass over
the `df` lines and takes the first line that matches either way. So an alias
line that comes first wins over a later exact line, and
`StorageSurvey.AliasBeforeExactWins` proves this on a two-line report.

## Model

| member | source | states |
|---|---|---|
| Getprop.IsPropLine | adb_utils.py:68 | The line test: starts with '[', contains "]: [", ends with ']'; its meaning is given by PropLineParts and RenderedPropLine |
| Getprop.PropValue | adb_utils.py:70-72 | The text between the first "]: [" and the closing ']'; PropLineParts shows key and value rebuild the line |
| Getprop.SeparatorInside | adb_utils.py:68-72 | On a line the parser accepts, the first "]: [" starts after the opening '[' and ends before the closing ']', so the key and value slices are well defined |
| Getprop.PropKey | adb_utils.py:70-71 | The key is cut at the first separator, so it never contains "]: [" |
| Getprop.PropLineParts | adb_utils.py:68-72 | Every accepted line is exactly `[` key `]: [` value `]` rebuilt from the key and value the parser extracts |
| Getprop.RenderedPropLine | adb_utils.py:68-72 | A property printed as `[key]: [value]` (key without ']') is accepted and parses back to that key and value |
| Getprop.LaterLineWins | adb_utils.py:73-74 | When a key occurs on several lines, the last one wins |
| Getprop.ParseProps | adb_utils.py:66-76 | The parsing loop: a key is in the result exactly when it is a desired key with an accepted line (value: the last one read) or was in the initial dict (value unchanged) |
| Getprop.GetDeviceInfo | adb_utils.py:48-77 | The result has exactly the four device keys; each holds the last value read for it, or "N/A" when getprop failed or gave no line for it |
| Getprop.GetAdditionalProps | adb_utils.py:329-346 | No dict when getprop failed or printed nothing; otherwise exactly the additional keys that some accepted line supplies, each with its last value |
| StorageSurvey.DfLines | adb_utils.py:97-100 | The stripped df output split at '\n', or no lines when df failed; GetStorageDetails states the failed case |
| StorageSurvey.IsInternalAlias | adb_utils.py:125-135 | The three spellings of the primary internal volume; AliasResolves and AliasBeforeExactWins give its effect |
| StorageSurvey.MountMatches | adb_utils.py:137 | Same string, or both internal aliases; MountMatchesEquivalence shows it is an equivalence |
| StorageSurvey.ParseDfLine | adb_utils.py:119-141 | A line's row from its words; DfLineOfTokens, SdcardLineParses, MatchedLine and SkippedLine give its meaning |
| StorageSurvey.RowOfParts | adb_utils.py:120-141 | Six or more words, mount point the last, words 1-3 as integers; MatchedLine and SkippedLine state both outcomes |
| StorageSurvey.ToCapacity | adb_utils.py:143-150 | The four capacity figures of a row; CapacityFigures states them |
| StorageSurvey.MountMatchesEquivalence | adb_utils.py:125-137 | Matching a df mount point to a volume path is reflexive, symmetric and transitive |
| StorageSurvey.DfLineOfTokens | adb_utils.py:119-141 | A df line of at least six tokens, with tokens 1-3 written as integers, parses to the row with its last token as mount point and those three sizes |
| StorageSurvey.CapacityFigures | adb_utils.py:143-150 | Each gigabyte figure is the kilobyte count over 1024²; the used percentage is used/total·100 when the total is positive and 0 (no division) otherwise, and lies in 0..100 for a consistent row |
| StorageSurvey.FirstCapacityIsFirst | adb_utils.py:137-152 | The first row that matches and parses decides the capacity; later rows are not looked at |
| StorageSurvey.FirstCapacityNone | adb_utils.py:153-158 | "N/A" results exactly when no row matches the path and parses |
| StorageSurvey.FirstCapacityFound | adb_utils.py:137-152 | A capacity that was found comes from a matching row before which no row supplies one |
| StorageSurvey.AliasResolves | adb_utils.py:125-137 | An internal-alias path always finds a capacity when some parsed row is mounted at any internal alias |
| StorageSurvey.AliasBeforeExactWins | adb_utils.py:117-152 | One pass, first match: for "/storage/emulated/0", any parsed "/sdcard" line placed first beats a later exact "/storage/emulated/0" line |
| StorageSurvey.SdcardLineParses | adb_utils.py:117-136 | A line "fs 100 40 55 40% /sdcard" parses to mount "/sdcard" with 100, 40 and 55 kilobytes |
| StorageSurvey.MatchedLine | adb_utils.py:119-150 | A line of six or more words whose last word matches the path and whose words 1-3 read as integers supplies the capacity of exactly that row |
| StorageSurvey.SkippedLine | adb_utils.py:119-155 | A line with fewer than six words, another mount point, or a size that is not an integer supplies nothing |
| StorageSurvey.LineCapacity | adb_utils.py:117-155 | The loop body, with the source's branch order (length test, mount test, then the three `int` conversions), gives the capacity of the line's parsed row when it matches the path, and none otherwise |
| StorageSurvey.SkipRow | adb_utils.py:153-155 | Skipping a line that supplies no capacity does not change the outcome of the search |
| StorageSurvey.FindCapacity | adb_utils.py:115-158 | The inner loop's capacity is that of the first df line that matches the path and parses, or none |
| StorageSurvey.GetStorageDetails | adb_utils.py:88-161 | One record per volume, in order, with its name and path copied and the resolved capacity; every capacity is "N/A" when df failed |
| Ranker.PosixJoin | adb_utils.py:182 | `os.path.join` on POSIX paths; PosixJoinShape states its two cases |
| Ranker.ItemPath | adb_utils.py:182 | The joined path with '\\' replaced by '/'; ItemPathOfName and ParentLinkPath give its meaning |
| Ranker.IsListedAsWritten | adb_utils.py:181 | The filter as written: non-empty and not "." or ".."; DotLinksSlipThrough shows it keeps "./" and "../" |
| Ranker.IsListed | adb_utils.py:181 | The corrected filter, which also excludes "./" and "../"; CandidatesMembers and EmptyDirectoryRanksNothing give its effect |
| Ranker.PosixJoinShape | adb_utils.py:182 | `os.path.join`: an absolute name replaces the path; otherwise the result starts with the path and ends with the name |
| Ranker.ItemPathOfName | adb_utils.py:182 | A relative name joined onto a path without a trailing '/' gives path + "/" + name |
| Ranker.DotLinksSlipThrough | adb_utils.py:179-181 | A listing line "./" or "../" passes the filter as written even though it is a dot link (see Findings) |
| Ranker.ParentLinkPath | adb_utils.py:181-182 | The "../" entry of "/sdcard" becomes the item "/sdcard/../" |
| Ranker.CandidatesAppend | adb_utils.py:179-184 | Candidates are gathered line by line, so the listing's order is kept |
| Ranker.KeptMeaning | adb_utils.py:180-184 | A listing line contributes a path exactly when its stripped name passes the filter, and then it contributes the joined path |
| Ranker.CandidatesSnoc | adb_utils.py:179-184 | One more listing line appends exactly what that line contributes |
| Ranker.CandidatesSound | adb_utils.py:179-184 | Every candidate is contributed by some listing line |
| Ranker.CandidatesComplete | adb_utils.py:179-184 | Whatever a listing line contributes is a candidate |
| Ranker.CandidatesMembers | adb_utils.py:179-184 | A path is a candidate if and only if it is the joined path of a non-empty, non-dot-link stripped listing line |
| Ranker.Scaled | adb_utils.py:205-214 | The unit dispatch; UnitSteps and UnitsOrdered give its meaning |
| Ranker.UnitSteps | adb_utils.py:205-212 | Each unit is 1024 of the next smaller one (G to M to K to B), and "B" and no letter both count bytes |
| Ranker.UnitsOrdered | adb_utils.py:205-212 | For a positive number, G gives more bytes than M, M more than K, K more than B, and B more than 0 |
| Ranker.HasUnit | adb_utils.py:202-203 | Whether the size ends in a letter; SizeWithUnit and SizeWithoutUnit state both cases |
| Ranker.SizeUnit | adb_utils.py:203 | The trailing letter, upper-cased; UnitCaseInsensitive gives its meaning |
| Ranker.SizeBytes | adb_utils.py:200-218 | The bytes of a `du -h` size, or none when the number does not parse; SizeWithUnit, SizeWithoutUnit, LoneLetterDropped and the literal lemmas give its meaning |
| Ranker.SizeOfNumber | adb_utils.py:202-214 | A size whose number part reads as `v` is `v` scaled by its unit |
| Ranker.SizeWithUnit | adb_utils.py:202-214 | A number followed by a letter is the number's value times the letter's (upper-cased) unit; an unreadable number drops the item |
| Ranker.SizeWithoutUnit | adb_utils.py:202-212 | A size without a trailing letter is a plain count of bytes |
| Ranker.UnitCaseInsensitive | adb_utils.py:203 | Lower- and upper-case unit letters give the same size |
| Ranker.UnknownUnitIsZero | adb_utils.py:213-214 | A letter other than G, M, K or B gives 0 bytes (the item is kept, not dropped) |
| Ranker.LoneLetterDropped | adb_utils.py:202-218 | A size that is only a letter has no number, so the item is dropped |
| Ranker.DecimalSize | adb_utils.py:202-214 | "digits.digits" plus a letter is the decimal value times the unit |
| Ranker.WholeSize | adb_utils.py:202-212 | Plain digits are that many bytes |
| Ranker.WholeSizeWithUnit | adb_utils.py:202-214 | Digits plus a letter are that whole number times the unit |
| Ranker.SizeOfGigabytes | adb_utils.py:205-206 | "1.5G" is 1610612736 bytes |
| Ranker.SizeOfKilobytes | adb_utils.py:209-210 | "512K" is 524288 bytes |
| Ranker.SizeOfBytes | adb_utils.py:211-212 | "10" is 10 bytes |
| Ranker.DuOutputFields | adb_utils.py:196-199 | The du output `<size>\t<path>\n`, stripped and split at tabs, gives exactly its two fields |
| Ranker.DuLine | adb_utils.py:194-216 | An item whose du prints `<size>\t<path>\n` is recorded with that size string, its bytes, and its own path |
| Ranker.DuEntry | adb_utils.py:193-218 | The sized item a du result gives, if any; DuLine states the usual output, SizedItemsOrigin and SizedItemsComplete tie it to the du loop |
| Ranker.SizedItemsComplete | adb_utils.py:193-216 | Every item path whose du output gives a size contributes that sized item |
| Ranker.SizedItemsOrigin | adb_utils.py:193-216 | Every sized item comes from one of the candidate paths, carrying what that path's du result says |
| Ranker.InsertDesc | adb_utils.py:224 | Insertion adds exactly the one item (a permutation step) |
| Ranker.SortDesc | adb_utils.py:224 | The sort is a permutation of its input |
| Ranker.SortDescSorted | adb_utils.py:224 | The sorted items run from largest to smallest |
| Ranker.SortDescStable | adb_utils.py:224 | The sort is stable: the items of each size keep their original order |
| Ranker.KeyFilterMember | adb_utils.py:224 | The items of one size are exactly the input's items of that size |
| Ranker.StableSortUnique | adb_utils.py:224 | Two sorted orderings that keep each size's order are the same ordering |
| Ranker.StableSortIsSortDesc | adb_utils.py:224 | The sort's result is sorted and stable, and it is the only ordering that is both, as Python's stable `sort(reverse=True)` promises |
| Ranker.Take | adb_utils.py:227 | `s[:count]` is a prefix of `s` of length min(count, \|s\|), with Python's meaning for a negative count |
| Ranker.TopOfSorted | adb_utils.py:224-227 | The kept prefix is sorted; together with the dropped rest it is a permutation of the items; no dropped item is larger than a kept one |
| Ranker.RankedProperties | adb_utils.py:163-227 | The ranking has `count` items (all of them when fewer were sized), largest first, and no dropped item beats a kept one |
| Ranker.DroppedNotLarger | adb_utils.py:190-227 | Every candidate whose du output gives a size is either ranked or no larger than every ranked item |
| Ranker.RankedOrigin | adb_utils.py:172-216 | Each ranked item comes from a listing that succeeded, is a candidate path, and carries its own du result |
| Ranker.NothingListed | adb_utils.py:174-188 | A failed listing, or one in which no line passes the filter, ranks nothing |
| Ranker.EmptyDirectoryRanksNothing | adb_utils.py:172-188 | An empty directory, which `ls -aF` prints as "./\n../\n", ranks nothing (with the corrected filter) |
| Ranker.ListCandidates | adb_utils.py:178-184 | The listing loop yields exactly the candidates, in order (with the corrected filter) |
| Ranker.SizeCandidates | adb_utils.py:190-218 | The du loop yields exactly the sized items of the candidates, in order |
| Ranker.Displays | adb_utils.py:227 | One string per kept item, in order, each the item's display text |
| Ranker.GetTopLargeItems | adb_utils.py:163-227 | The result is `<size as printed> <item path>` for each ranked item, in the ranked order |
| Consolidation.Keys | adb_utils.py:372-385 | One key per table entry, in order |
| Consolidation.Put | adb_utils.py:377-385 | Assigning to a dict grows it by one exactly when the key is new |
| Consolidation.PutLookup | adb_utils.py:377-385 | After `d[k] = v`, `k` gives `v` and every other key what it gave before |
| Consolidation.PutKeys | adb_utils.py:377-385 | `d[k] = v` keeps existing keys in place and appends a new key at the end |
| Consolidation.PutUnique | adb_utils.py:377-385 | Assignment never duplicates a key |
| Consolidation.KeyFor | adb_utils.py:376-385 | A store is filed under "Internal Storage" or under its own name; under "Internal Storage" exactly when it is at "/storage/emulated/0", or at "/storage/emulated" with no "/storage/emulated/0" before it, or is itself named "Internal Storage" |
| Consolidation.ConsolidatedUnique | adb_utils.py:372-385 | The consolidated table never repeats a key |
| Consolidation.ConsolidatedLookup | adb_utils.py:372-385 | Each key holds the last store filed under it, and only filed keys appear |
| Consolidation.LastAssignedAt | adb_utils.py:372-385 | The store at `i` is the value under its key when no later store is filed under that key |
| Consolidation.InternalPrefersEmulatedZero | adb_utils.py:376-381 | A "/storage/emulated/0" store stays "Internal Storage" even if "/storage/emulated" follows (unless a later store is at that path or has that name) |
| Consolidation.InternalFallsBackToEmulated | adb_utils.py:379-381 | Without any "/storage/emulated/0", the last "/storage/emulated" store becomes "Internal Storage" |
| Consolidation.ConsolidatedSnoc | adb_utils.py:374-385 | Filing one more store is one more dict assignment, under the key that store gets |
| Consolidation.SeenZeroSnoc | adb_utils.py:375-377 | The flag is set after a store exactly when it was set before or that store is at "/storage/emulated/0" |
| Consolidation.Consolidate | adb_utils.py:372-385 | The loop with its `internal_storage_0_found` flag builds the consolidated table, which has unique keys |
| Consolidation.EmulatedThenZero | adb_utils.py:376-381 | "/storage/emulated" then "/storage/emulated/0": one "Internal Storage" entry, holding the latter |
| Consolidation.ZeroThenEmulated | adb_utils.py:376-385 | "/storage/emulated/0" then "/storage/emulated": "Internal Storage" holds the former, the latter is filed under its own name |
| AdbStatus.DeviceLines | adb_utils.py:241 | The stripped output split at '\n'; TwoLines and HeaderOnlyNotReady give its meaning |
| AdbStatus.Blocked | adb_utils.py:242 | A line mentioning "offline" or "unauthorized"; BlockedLineNotReady gives its effect |
| AdbStatus.CheckAdbStatus | adb_utils.py:230-259 | Ready only if the command succeeded, its output has the header, and the stripped output has more than one line |
| AdbStatus.HeaderOnlyNotReady | adb_utils.py:241-242 | Output whose stripped text has no line break (the header alone) is never ready |
| AdbStatus.BlockedLineNotReady | adb_utils.py:242 | Any line after the first that mentions "offline" or "unauthorized" makes it not ready |
| AdbStatus.TwoLines | adb_utils.py:241 | A two-line newline-terminated output strips and splits back into those two lines |
| AdbStatus.OneDeviceReady | adb_utils.py:240-244 | The header followed by one device line mentioning neither word is ready |
| PyText.LStrip | adb_utils.py:180 | `lstrip` leaves a suffix of the text that is empty or starts with non-space |
| PyText.LStripDropsSpace | adb_utils.py:180 | What `lstrip` drops is whitespace only |
| PyText.RStrip | adb_utils.py:180 | `rstrip` leaves the prefix before the trailing whitespace, which ends in non-space |
| PyText.Strip | adb_utils.py:180 | `strip` gives a text that neither starts nor ends with whitespace |
| PyText.StripUnchanged | adb_utils.py:180 | A text that starts and ends in non-space is its own strip |
| PyText.StripAllSpace | adb_utils.py:180 | A text of whitespace only strips to nothing |
| PyText.StripTrailing | adb_utils.py:196 | Stripping a text plus trailing whitespace gives back the text |
| PyText.TokenLenNoSpace | adb_utils.py:119 | The word `split()` cuts off the front of a text holds no whitespace |
| PyText.SplitWsTokens | adb_utils.py:119 | `split()` yields only non-empty whitespace-free words |
| PyText.SplitWsJoin | adb_utils.py:119 | `split()` of words joined by single spaces gives the words back |
| PyText.IndexOf | adb_utils.py:197 | The first occurrence of a character, or the length when there is none |
| PyText.Split | adb_utils.py:197 | `split(sep)` yields at least one piece and no piece contains the separator |
| PyText.SplitTwo | adb_utils.py:197-198 | Two separator-free pieces joined by the separator split into exactly those two |
| PyText.JoinSplit | adb_utils.py:197 | Joining the pieces of a split with the separator gives the text back |
| PyText.SplitPieces | adb_utils.py:197-198 | A split has more than one piece exactly when the separator occurs |
| PyText.SplitLines | adb_utils.py:179 | `splitlines` yields lines without line breaks |
| PyText.SplitLinesTerminated | adb_utils.py:179 | `splitlines` of newline-terminated lines gives those lines back |
| PyText.PrefixContained | adb_utils.py:240 | A text that begins with `h` contains `h` |
| PyText.FindSub | adb_utils.py:68-70 | `find` gives the first occurrence of a pattern, or none when it occurs nowhere |
| PyText.NatToString | adb_utils.py:139-141 | `str(n)` of a natural is a non-empty run of digits |
| PyText.DigitsValueOfNatToString | adb_utils.py:139-141 | The digits of `str(n)` read back as `n` |
| PyText.ParseInt | adb_utils.py:139-141 | `int()` accepts exactly an optionally signed, non-empty run of digits inside optional whitespace |
| PyText.IntRoundTrip | adb_utils.py:139-141 | `int(str(n)) == n` |
| PyText.FracValue | adb_utils.py:202 | The digits after a decimal point weigh less than one |
| PyText.PointValue | adb_utils.py:202 | A decimal literal's value lies between its whole part and the next integer |
| PyText.ParseFloat | adb_utils.py:202 | `float()` of a blank text fails |
| PyText.FloatOfIntLiteral | adb_utils.py:202 | Every literal `int()` accepts, `float()` accepts with the same value |
| PyText.DecimalLiteral | adb_utils.py:202 | `float("d.d")` is the whole part plus the fraction |
| PyText.DigitsLiteral | adb_utils.py:202 | `float` of a run of digits is that whole number |
| PyText.Upper | adb_utils.py:203 | Letters, and only letters, come out as capitals; any other character is unchanged; a capital comes only from itself or its lower-case letter |
| PyText.UpperIdempotent | adb_utils.py:203 | Upper-casing twice is upper-casing once |
| PyText.ReplaceChar | adb_utils.py:182 | `replace` keeps the length and changes nothing when the character does not occur |
| PyText.ReplaceCharAt | adb_utils.py:182 | Each character of the result is the original, or the replacement where the original was the replaced one |

## Left out

- Command execution (`run_adb_command`, `subprocess.run`, `get_adb_shell_prop_output`): every command's outcome and output are parameters, and its standard error is not modelled because nothing in the core branches on its content.
- `get_device_storages` (in `adb_Browse.py`) is not part of this model: its (name, path) list is an input to the storage survey.
- All console output: the coloured prints, the printing of the additional properties in their fixed order (adb_utils.py:348-362), the storage table, and the device-status messages of adb_utils.py:292-312, which only print.
- `kill_and_restart_adb_server`, `enter_adb_shell` and the menu in `main.py`: interactive I/O with no logic to model.
- Number formatting: capacities are kept as exact figures rather than formatted with `:.2f` into "GB" and "%" strings; a record with `capacity == None` stands for the four "N/A" strings.
- Floating point: sizes and capacities are exact reals, so rounding in `float` arithmetic is not modelled.
- `float()` and `int()` accept only plain literals here: Python's exponent, `inf`/`nan` and underscore forms, and non-ASCII digits, are not modelled (du and df do not print them); `isalpha`/`upper` are restricted to ASCII.
- `os.path.join` is modelled with POSIX rules only (the device's paths are POSIX); Windows drive handling is not modelled.
- The `except ValueError` around `split(']: [', 1)` (adb_utils.py:75-76) cannot fire after the `in` test, so the model has no such branch; likewise the `IndexError` handler at adb_utils.py:153 cannot fire given the six-token test.
- The SD Card / External Storage branch of the consolidation (adb_utils.py:382-383) files the store exactly as the catch-all branch does; the method keeps both branches, the reference function has one.
- AdbStatus.CheckAdbStatus: any line after the header that mentions neither word counts as a device, so for example a "no permissions" line makes the test succeed; the model states the test as written.
- Ranker.ListCandidates: it models the corrected filter, not line 181 as written; the as-written filter is `Ranker.IsListedAsWritten`, see Findings.
- Ranker.GetTopLargeItems: it ranks the corrected candidate list, so it never returns the "<path>/./" and "<path>/../" items that the code as written sizes and can return; `Ranker.Candidates`, `Ranker.Sized`, `Ranker.Ranked`, `Ranker.RankedProperties`, `Ranker.RankedOrigin` and `Ranker.NothingListed` are all stated for that list.

## Findings

| source | as written | input that shows it | evidently intended | confidence | as-written member | corrected member |
|---|---|---|---|---|---|---|
| adb_utils.py:181 | The listing is made with `ls -aF`, which prints the dot links as "./" and "../"; the filter only excludes "." and "..", so both links are kept and sized (the parent directory "/sdcard/../" then competes with the entries of "/sdcard") | `ls -aF` output "./\n../\nAndroid/\n" for path "/sdcard" | The comment on the line says the current and parent directory links are excluded; "./" and "../" must be excluded too | medium, not executed | Ranker.DotLinksSlipThrough | Ranker.CandidatesMembers |
