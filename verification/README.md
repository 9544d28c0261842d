# REPS department downloader — download capture, rename and batch bookkeeping

The downloader drives the Colombian health-service registry (REPS) web
site. For every department in a drop-down it clicks "export to Excel" and
then has to find the file the browser wrote. The browser gives no
completion callback, so the downloader watches the download folder itself.

This project models the parts of that program that hold its logic:

- **Watcher** (`watcher.dfy`) models `wait_for_download_and_rename`.
  - It snapshots the folder's names on entry, with a missing folder giving the empty snapshot.
  - It polls the folder once per tick, at most `timeout` times.
  - In each poll it scans the names that are new since the snapshot, in an unspecified order.
  - It takes the first new name that ends in `.xls` or `.xlsx` (case-insensitively) and does not start with `~`.
  - It then deletes any existing `<department><extension>` and renames the download onto that name.
  - Every failure returns `false`: nothing found in time, an unreadable folder, or an `OSError` from the delete or the rename.
  - The folder is a `Directory` object whose `files` map `Remove` and `Rename` change in place.
  - What each poll's listing shows comes from the environment, as a function from poll number to listing.
- **Catalog** (`catalog.dfy`) models two filters:
  - the drop-down filter of `get_departamentos_list`, which drops options with a missing or blank `value` and strips the displayed name;
  - the case-insensitive requested-name filter of `download_specific_departamentos`.
- **Batch** (`batch.dfy`) models `download_all_departamentos` and `download_specific_departamentos`.
  - Each run is a trace of events: one attempt per department, the three-second pauses, and the final `driver.quit()`.
  - "Download all" also keeps success and failure counters.
  - The aborts are modelled: setup failure, navigation failure, an empty catalog and (in the specific run) no matching department.
- **Menu** (`menu.dfy`) models `main`.
  - It strips the option.
  - It splits the department line at commas and strips each name.
  - It tests confirmation answers against `s`, `si`, `sí`, `y`, `yes` after `strip().lower()`.
- **Text** (`text.dfy`) holds the Python string operations these rely on.
  - `lower()` covers ASCII and Latin-1.
  - `strip()` uses Python's whitespace set.
  - `split(',')` and `os.path.splitext` are also here.
  - The lemmas give their meaning: `Join(Split(s)) == s`, where the extension starts, and what `strip` removes.

## Model

| member | source | states |
|---|---|---|
| Watcher.Snapshot | reps_download.py:166 | the names listed at entry, empty when the folder does not exist; what it means is stated by the `NoDownload` and `FirstHit` clauses of `Watcher.WaitForDownloadAndRename`, which measure "new" against it |
| Watcher.SpreadsheetName | reps_download.py:179 | the lower-cased name ends in `.xls` or `.xlsx`; its meaning is stated by `Watcher.QualifyingExtension` and `Watcher.PartialDownloadNeverSpreadsheet` |
| Watcher.Qualifies | reps_download.py:179-181 | the three-clause test a new name must pass; its meaning is stated by `Watcher.QualifiesWithoutPartialCheck` and used in `Watcher.PickNew` |
| Watcher.PickNew | reps_download.py:178-183 | the scan of the new names returns a name that is new and qualifies; it returns none only if no new name qualifies, whatever the visiting order |
| Watcher.PartialDownloadNeverSpreadsheet | reps_download.py:179-181 | a name ending in `.crdownload` never passes the `.xls`/`.xlsx` test |
| Watcher.QualifiesWithoutPartialCheck | reps_download.py:179-181 | the qualifying test is equivalent to "spreadsheet extension and no leading `~`"; the `.crdownload` clause never decides anything |
| Watcher.PollForDownload | reps_download.py:166-188 | at most `timeout` polls are made, and a missing folder lets polling continue. On a hit, the poll returned is the first to show a new qualifying name, and all earlier polls showed none. With no hit, all `timeout` polls were quiet. An unreadable listing stops polling at that poll |
| Watcher.TargetName | reps_download.py:192-194 | the new name is the department name followed by the extension of the downloaded file |
| Watcher.QualifyingExtension | reps_download.py:179-194 | for a qualifying download the extension is its own trailing `.xls`/`.xlsx` in original case; it is empty only for names like `.xls` whose leading part is all dots |
| Watcher.Extension | reps_download.py:193 | `os.path.splitext(name)[1]`; its meaning is stated by `Text.SplitExt` and, for qualifying downloads, by `Watcher.QualifyingExtension` |
| Watcher.ExportXlsxTarget | reps_download.py:192-194 | `export.XLSX` downloaded for Antioquia becomes `Antioquia.XLSX` |
| Watcher.MoveOnto | reps_download.py:198-210 | delete-then-rename succeeds iff the source exists and differs from the target, the rename is allowed, and the delete is allowed when needed. On success the target holds the download's bytes, the source name is gone, and every other file is untouched. On failure the folder is unchanged, or has lost only the old target |
| Watcher.SelfNamedDownloadLost | reps_download.py:198-210 | a download that already has its target name is deleted by the clean-up step, and the call then fails |
| Watcher.RemoveStep | reps_download.py:201 | the effect of `os.remove` on the folder's contents; its meaning is stated by `Watcher.Directory.Remove` and `Watcher.MoveOnto` |
| Watcher.RenameStep | reps_download.py:204 | the effect of `os.rename` on the folder's contents; its meaning is stated by `Watcher.Directory.Rename` and `Watcher.MoveOnto` |
| Watcher.Directory.Remove | reps_download.py:200-201 | `os.remove` removes exactly that name, and fails without change when it is absent or the OS refuses |
| Watcher.Directory.Rename | reps_download.py:204 | `os.rename` moves the bytes to the new name; it fails without change when the source is missing or another file holds the destination |
| Watcher.MoveDownload | reps_download.py:197-210 | the in-place delete-then-rename on the folder leaves exactly the state `MoveOnto` describes and reports its success |
| Watcher.WaitForDownloadAndRename | reps_download.py:156-217 | returns true exactly when a rename happened. It returns false, with the folder untouched, when the entry listing fails, when a poll listing fails before any qualifying arrival, or when nothing qualifying appears within `timeout` polls, and only then. Otherwise the file renamed, or tried, is the first qualifying arrival, its target is `<department><extension>`, and the folder ends as `MoveOnto` says |
| Catalog.Listed | reps_download.py:89 | the option filter; its meaning is stated by `Catalog.ListedIff` |
| Catalog.RegionOf | reps_download.py:90-93 | the department built from a kept option; its meaning is stated by `Catalog.CatalogWellFormed` |
| Catalog.CatalogOf | reps_download.py:88-93 | the department list the drop-down yields; its meaning is stated by `Catalog.CatalogSource`, `Catalog.CatalogComplete` and `Catalog.GetRegions` |
| Catalog.ListedIff | reps_download.py:89 | an option is kept iff its `value` is present, non-empty and not blank after `strip()` |
| Catalog.GetRegions | reps_download.py:77-100 | the department list is one entry per kept option, in drop-down order, holding the raw value as code and the stripped text as name; a missing drop-down gives the empty list |
| Catalog.CatalogSource | reps_download.py:88-93 | every department in the list comes from a kept option |
| Catalog.CatalogComplete | reps_download.py:88-93 | every kept option gives a department in the list |
| Catalog.CatalogWellFormed | reps_download.py:89-92 | every department code is non-blank and every name is already stripped |
| Catalog.Requested | reps_download.py:409 | the requested-name test; its meaning is stated by `Catalog.RequestedIff` |
| Catalog.SelectRequested | reps_download.py:407-410 | the departments to download; its meaning is stated by `Catalog.SelectRequestedSubsequence`, `Catalog.SelectRequestedMembers` and `Catalog.SelectRequestedEmpty` |
| Catalog.RequestedIff | reps_download.py:409 | a department is requested iff some requested name equals its name after lower-casing both |
| Catalog.SelectRequestedSubsequence | reps_download.py:407-410 | the departments to download keep catalog order: they are a subsequence of the catalog |
| Catalog.SelectRequestedMembers | reps_download.py:407-410 | a department is selected iff it is in the catalog and requested |
| Catalog.SelectRequestedEmpty | reps_download.py:407-414 | the selection is empty (and the run aborts) iff no catalog department was requested |
| Batch.CountOk | reps_download.py:366-369 | the success counter never exceeds the number of attempts |
| Batch.DownloadAll | reps_download.py:336-382 | states when the run aborts at setup, at navigation or for an empty catalog; an aborted run makes no attempts. A completed run attempts every catalog department once, in order, pausing between consecutive attempts but not after the last. Its counters add up to the number of departments, and the success counter equals the number of successful attempts. `driver.quit()` is the last event exactly when a driver was created |
| Batch.DownloadSpecific | reps_download.py:384-426 | states when the run aborts at setup, at navigation, for an empty catalog, or because no department matches. A completed run attempts exactly the selected departments in catalog order, with a pause after each one, the last included. `driver.quit()` ends the run exactly when a driver was created |
| Menu.Confirms | reps_download.py:447-449 | the confirmation test; its meaning is stated by `Menu.ConfirmsPadded`, `Menu.ConfirmsShape` and `Menu.ConfirmsExamples` |
| Menu.ConfirmsPadded | reps_download.py:447-449 | surrounding whitespace never changes whether an answer confirms |
| Menu.ConfirmsShape | reps_download.py:447-449 | a confirming answer, once stripped, has one to three characters and begins with `s`, `S`, `y` or `Y` |
| Menu.ConfirmsExamples | reps_download.py:447-449 | `SÍ` and `yes` confirm; `no` and the empty answer do not |
| Menu.ParseNames | reps_download.py:460 | the list of stripped comma-separated names; its meaning is stated by `Menu.ParseNamesClean`, `Menu.ParseNamesOneName`, `Text.JoinSplit` and `Text.SplitJoin` |
| Menu.ParseNamesClean | reps_download.py:460 | every parsed department name is free of commas and surrounding whitespace |
| Menu.ParseNamesOneName | reps_download.py:460 | a line without commas gives one name, the stripped line |
| Menu.MainChoice | reps_download.py:442-475 | "download all" runs iff the stripped option is `1` and the answer confirms. "Download specific" runs iff it is `2`, the names line is not blank and the answer confirms, and it uses the parsed names. A blank names line gives "no departments entered"; a refusal cancels. `3` exits; anything else is an invalid option |
| Text.Lower | reps_download.py:179 | `str.lower()` on ASCII and Latin-1 capitals, used again at lines 409 and 447; its meaning is stated by `Text.LowerIdempotent`, `Text.LowerSuffix` and `Text.LowerDot`, and by `Menu.ConfirmsExamples` on concrete answers |
| Text.LowerIdempotent | reps_download.py:409 | lowering an already lowered string changes nothing: no small letter `lower()` produces is itself a capital |
| Text.Strip | reps_download.py:89 | `str.strip()`, used again at lines 92, 442, 447, 457 and 460; its meaning is stated by `Text.StripSpec`, `Text.StripPadded`, `Text.StripBlank` and `Text.StripIdempotent` |
| Text.StripSpec | reps_download.py:89-92 | `strip()` returns a slice of its input with only whitespace cut away on both sides, and no whitespace at either end |
| Text.StripPadded | reps_download.py:447 | adding whitespace around a string does not change its stripped form |
| Text.StripBlank | reps_download.py:89 | a string strips to empty iff it is all whitespace |
| Text.StripIdempotent | reps_download.py:457-460 | stripping twice is stripping once |
| Text.Split | reps_download.py:460 | `split(',')` yields at least one piece, and no piece contains the separator |
| Text.JoinSplit | reps_download.py:460 | joining the pieces of `split(',')` with commas gives back the line |
| Text.SplitJoin | reps_download.py:460 | splitting a comma-join of comma-free pieces gives back the pieces |
| Text.LastIndexOf | reps_download.py:193 | the last occurrence of a character is found, with none after it; none is found iff it does not occur |
| Text.SplitExt | reps_download.py:193 | `splitext` splits a name into root and extension that concatenate back. The extension is empty, or starts with the name's last dot and contains no other dot. A non-empty extension follows a root that is not all dots |

## Left out

- The Selenium parts are not modelled: starting and configuring Chrome (`setup_driver`), navigation, and clicks and waits on the site (lines 48-76, 102-154 and 279-334). Whether each succeeded is a parameter: `Setup`, `navigated`, the drop-down contents and the per-department `attempt` results.
- `download_departamento_data`'s link to the watcher is not modelled. Its boolean result is the `attempt` oracle. The watcher is modelled and proved separately.
- The block after line 217 is not modelled. It follows a `return` in every branch of `wait_for_download_and_rename` and can never run.
- Logging, `print` and `input` are not modelled. The menu's input lines are parameters of `MainChoice`.
- `verify_driver_path`, `setup_download_directory` (creating the folder), `ejemplo_uso_directo` and `MinSaludDownloaderMultiWindow` (lines 36-46 and 483-561) are not modelled. They lie outside the download protocol.
- Wall-clock time and `time.sleep` are not modelled. Time is a poll counter: poll `k`, counting from 0, is taken to start before `timeout` seconds have passed whenever `k < timeout`.
- PollForDownload: does not model listings that take a noticeable part of a second. With those, fewer than `timeout` polls fit in the wall-clock budget; the model always allows `timeout`.
- WaitForDownloadAndRename: the folder at rename time is not derived from the listings. It is whatever the `Directory` holds, because other programs may change the folder between the last poll and the rename.
- The file system is case-sensitive in the model. On the default Windows path a target differing from the download only in case is the same file; the model treats it as a different one.
- Department names containing path separators are not modelled. `os.path.join` would place such a target outside the folder; the model treats every target as a plain name in the folder.
- `os.rename` follows the Windows rule: it fails when another file holds the destination. POSIX would replace that file. The delete step runs first, so this only matters when another program recreates the target in between.
- `lower()` is modelled for ASCII and Latin-1 capitals only. Other Unicode case mappings are not modelled, including those that change a string's length.
- `self.driver` is taken to be unset when each batch run starts. A driver left over from an earlier run of the same object is not modelled.
- Exceptions inside the batch loops are not modelled. `download_departamento_data` and the list and navigation helpers catch everything themselves, so only `setup_driver` can raise, and it is modelled by `Setup`.
