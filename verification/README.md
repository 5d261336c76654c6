# Arome download and merge, modelled in Dafny

`gribber/arome.py` downloads AROME weather-model forecasts from Météo-France. `getAromeFile`
does four things:

- It checks the requested maximum time range against the catalog of seven six-hour ranges.
- It names and creates an empty merged GRIB2 file.
- It downloads every range from `00H06H` up to and including the requested one, concurrently.
- It appends each downloaded part to the merged file as soon as that download finishes, then
  removes the part's file.

This project models that core as pure functions over immutable values.

| module (file) | what it models |
|---|---|
| `Outcomes` (`outcomes.dfy`) | `Option`, `Result`, the Python exceptions the core raises (`ValueError`, `KeyError`, `FileNotFoundError`, `OSError`), and how a call ended |
| `Strings` (`strings.dfy`) | Python's `str.replace` (`ReplaceAll`), including the empty-pattern case; removing a character (`RemoveChar`) as its independent reference; `", ".join` |
| `TimeRanges` (`time_ranges.dfy`) | the range catalog, `list.index`, the validation that raises `ValueError`, the prefix loop that collects the required ranges, and the target range `"00H" + max[3:]` |
| `Parameters` (`parameters.dfy`) | the default parameter map, the per-run copy, and the per-download copy updated with the access parameters |
| `FileNames` (`file_names.dfy`) | `_createAromeFileName`: the `KeyError` for the first missing key, and the path `home\Downloads\MeteoFrance\<model>_<reftime>_<grid>_<package>_<time>.grib2` |
| `Files` (`files.dfy`) | the file system as a map from path to bytes: `open(..., 'wb')`, `_concatenateFile`, and `os.remove` |
| `Merge` (`merge.dfy`) | the completion loop, both as written and corrected (see Findings) |
| `Arome` (`arome.dfy`) | `getAromeFile` end to end, and the properties of a whole run |

## Modelling choices

- **Inputs the code reads from the environment are parameters.**
  - The home directory (`expanduser("~")`) is `home`.
  - The bytes the provider sends for each range are `payload: string -> Bytes`.
- **The order downloads finish in is a parameter.** `as_completed` may yield the futures in any
  order. That order is `completed: seq<string>`, and a run only promises
  `multiset(completed) == multiset(RequiredRanges(max))` (`Arome.IsCompletionOrder`). Every
  property about a run holds for every such order.
- **Each download is folded into its completion step.** Part names are pairwise distinct
  (`Arome.PartNamesDistinct`). They differ from the merged file except at `00H06H`
  (`Arome.PartNamedLikeTarget`). So the `urlretrieve` write for a part is modelled as
  happening just before that part is appended.
- **Merge order is completion order.** The loop appends each part as `as_completed` yields it,
  and nothing buffers or reorders the parts. `Arome.CompletionOrderDecidesLayout` shows that a
  later range that finishes first comes first in the merged file.
- **Appending a file to itself depends on its size.** `_concatenateFile` opens the same file
  for appending and for reading, and `copyfileobj` reads, then writes. The write buffer `open`
  gives the file is 8192 bytes (`Files.WriteBuffer`, `io.DEFAULT_BUFFER_SIZE`, used where the
  platform reports no block size, as on Windows).
  - Content within the buffer stays in the buffer until the file is closed. The copy then
    ends with one extra copy of the original bytes.
  - Larger content goes straight to the disk. The next read finds the bytes just written, so
    the copy never reaches the end of the file and goes on until a write fails with `OSError`.

## Model

| member | source | states |
|---|---|---|
| TimeRanges.IndexOf | gribber/arome.py:51 | `list.index` finds a value exactly when it is in the list; the position it returns holds the value, and no earlier position does |
| TimeRanges.InvalidRangeMessage | gribber/arome.py:53-54 | the `ValueError` message quotes the received value and every authorized range |
| TimeRanges.ValidateTimeRange | gribber/arome.py:50-54 | accepts exactly the catalog ranges; any other value gives a `ValueError` whose message contains the received value and every authorized range |
| TimeRanges.TakeThrough | gribber/arome.py:71-74 | the loop collects the list up to and including the first occurrence of the value, or the whole list when the value is absent |
| TimeRanges.RequiredRanges | gribber/arome.py:68-74 | for a catalog range, the required ranges are the catalog prefix that ends with that range (index + 1 entries); the list never repeats a range |
| TimeRanges.CatalogTokenShape | gribber/arome.py:34 | every catalog range is six characters of the form `ddHddH` (digits at positions 0, 1, 3 and 4, the first one at most `3`), without `_` or `.` |
| TimeRanges.OnlyFirstRangeStartsAtZero | gribber/arome.py:34 | `00H06H` is the only catalog range that starts with `00H` |
| TimeRanges.TargetTimeRange | gribber/arome.py:61 | the target range is `00H` followed by the requested range's end; it equals the requested range, or is a catalog range at all, exactly when the request is `00H06H` |
| Parameters.RunParameters | gribber/arome.py:56-59 | the run's copy has the default keys, `time` set to the requested range, `referencetime` set to `<day>T00:00:00Z`, and every other default unchanged |
| Parameters.DownloadParameters | gribber/arome.py:95-100 | a download's copy sets `time` to its range, adds the two access parameters, and keeps every other entry |
| Parameters.DownloadsDifferOnlyInTime | gribber/arome.py:76-77 | the copies for two downloads of one run have the same keys and agree everywhere except `time` |
| FileNames.CreateFileName | gribber/arome.py:129-142 | a name exactly when all five name keys are present; otherwise a `KeyError` for the first missing key in evaluation order; the name is the home, the folder, the `_`-separated fields, the range and `.grib2` |
| FileNames.ReferenceTimeInName | gribber/arome.py:135 | a day without `:` or `Z` appears in the name as `<day>T000000` |
| FileNames.RunFileName | gribber/arome.py:132-140 | for a day without `:` or `Z` (every ISO date), a run's file is `home\Downloads\MeteoFrance\AROME_<day>T000000_0025_SP1_<range>.grib2`, the documented format |
| FileNames.NamesDifferByTime | gribber/arome.py:134-137 | two maps that agree on model, reference time, grid and package give the same name exactly when their time ranges are equal |
| Strings.ReplaceAll | gribber/arome.py:62 | the definition of `str.replace` (left to right, without overlap, with Python's rule for an empty pattern); it has no contract of its own, and the `Strings` rows below state its properties |
| Strings.ReplaceCharByNothing | gribber/arome.py:135-136 | `s.replace(c, '')` removes every `c` and keeps every other character in order |
| Strings.RemovedCharIsGone | gribber/arome.py:135-136 | after the removal the character no longer occurs |
| Strings.ReplaceAllBySelf | gribber/arome.py:62 | replacing a pattern by itself changes nothing |
| Strings.ReplaceAllAbsent | gribber/arome.py:62 | replacing a pattern that does not occur changes nothing |
| Strings.ReplaceAllSplit | gribber/arome.py:62 | for a non-empty pattern, when the first piece is empty or ends in a character the pattern does not contain, replacing in the concatenation of two pieces replaces in each piece separately (the run's name before the range ends in `_`) |
| Strings.Join | gribber/arome.py:54 | the definition of `sep.join`; it has no contract of its own, and `Strings.JoinContainsEach` states its property |
| Strings.JoinContainsEach | gribber/arome.py:54 | the joined list of ranges contains every range |
| Files.CreateEmpty | gribber/arome.py:63-64 | the file exists afterwards and is empty; no other file changes |
| Files.ConcatenateFile | gribber/arome.py:144-148 | the destination exists afterwards and no other file changes. The call fails with `FileNotFoundError` exactly when the source is missing and is not the destination. It fails with `OSError` exactly when a file larger than the write buffer is appended to itself, and the file then still starts with its old bytes. Otherwise the destination holds its old bytes followed by the source's bytes |
| Files.RemoveFile | gribber/arome.py:83 | the file is gone; `FileNotFoundError` exactly when it did not exist; no other file changes |
| Merge.CompletePartAsWritten | gribber/arome.py:80-83 | one loop pass, which raises `OSError` exactly when the part is the merged file and does not fit the write buffer; the merged file then remains and starts with the part's bytes. Otherwise the part's file is gone afterwards, and if it is not the merged file its bytes are appended to the merged file. No other file changes |
| Merge.CompletePart | gribber/arome.py:80-83 | the corrected pass: a part whose file is the merged file stays as downloaded; any other part is appended and its file removed |
| Merge.MergeAllAsWritten | gribber/arome.py:80-83 | the loop as written ends normally exactly when no part runs away, and otherwise raises `OSError` for the merged file; it never adds or changes a file other than the merged file |
| Merge.MergeAll | gribber/arome.py:80-83 | the corrected loop never adds or changes a file other than the merged file |
| Merge.MergeAppendsEveryPart | gribber/arome.py:80-83 | when the merged file exists, and a part named like it can only be the sole part over an empty merged file (`SafeToMerge`, which `Arome.PartsOfRunAreSafeToMerge` establishes for every run), the loop leaves the merged file holding its old bytes followed by every part's bytes in completion order; it removes every part file except the merged file and touches nothing else |
| Merge.AsWrittenAgreesWithoutSelfNamedPart | gribber/arome.py:80-83 | while no part file is the merged file, the loop as written ends normally and leaves the same file system as the corrected loop |
| Arome.GetAromeFile | gribber/arome.py:44-83 | a range outside the catalog raises the validation `ValueError` before any file is touched; otherwise the run completes and the merged file exists |
| Arome.GetAromeFileAsWritten | gribber/arome.py:44-83 | the run as written: the same validation and error; for a catalog range it ends normally or raises `OSError` for the merged file |
| Arome.PartFileName | gribber/arome.py:76 | the definition of a part's path: the run's map copied, updated for the part's range and named as at lines 99-108; it has no contract of its own, and `Arome.RunNames` and `Arome.PartNamesDistinct` state its properties |
| Arome.CompletedParts | gribber/arome.py:76-81 | the definition of the finished downloads in completion order: each is the range's part path (`Arome.PartFileName`, written by the download at lines 108-111) with the bytes the provider sent (`payload`); it has no contract of its own, and `Arome.MergedFileHoldsEveryPartOnce` and `Arome.PartsOfRunAreSafeToMerge` state its properties |
| Arome.TargetFileName | gribber/arome.py:61-62 | the definition of the merged file's path, the run's name with `.replace`; it has no contract of its own, and `Arome.TargetNameShape`, `Arome.TargetNameReplacesTimeField` and `Arome.PartNamedLikeTarget` state its properties |
| Arome.RunNames | gribber/arome.py:56-62 | the run's file name and every part's file name share one prefix, which ends in `_` and is followed by the range and `.grib2` |
| Arome.TargetNameShape | gribber/arome.py:61-62 | the merged file's path is the run prefix, with the requested range replaced wherever it occurs, followed by the target range and `.grib2` |
| Arome.TargetNameReplacesTimeField | gribber/arome.py:61-62 | when the prefix does not contain the requested range, the merged file is named like a run for the target range |
| Arome.PartNamesDistinct | gribber/arome.py:76 | two parts of a run share a path exactly when they are for the same range |
| Arome.PartNamedLikeTarget | gribber/arome.py:61-62 | a part's file is the merged file exactly when both the part and the request are `00H06H` |
| Arome.PartsOfRunAreSafeToMerge | gribber/arome.py:61-77 | in a run, a part whose file is the merged file can only be the sole part |
| Arome.MergedFileHoldsEveryPartOnce | gribber/arome.py:63-83 | each required range finishes exactly once; the merged file holds the parts' bytes in completion order, and its size is the sum of the required payloads whatever the order; the part files are removed and no other file changes |
| Arome.PayloadSizeOfPermutation | gribber/arome.py:80-82 | the total size does not depend on the order the ranges finish in |
| Arome.CompletionOrderDecidesLayout | gribber/arome.py:80-82 | when `07H12H` finishes before `00H06H`, its bytes come first in the merged file |
| Arome.DefaultRangeMergeFails | gribber/arome.py:44-83 | with the default range `00H06H`, the run as written either ends normally with no merged file (part within the write buffer) or raises `OSError` with a merged file that only starts with the part's bytes (larger part); the corrected run leaves exactly the downloaded bytes there |
| Arome.SelfNamedPartIsLost | gribber/arome.py:80-83 | when the sole part's file is the merged file, the loop as written deletes the merged file when the part fits the write buffer, and raises `OSError` otherwise; the corrected loop keeps the part's bytes |
| Arome.AsWrittenRaisesOnlyAtDefault | gribber/arome.py:44-83 | the run as written raises exactly when the range is `00H06H` and its part does not fit the write buffer |
| Arome.AsWrittenAgreesBeyondFirstRange | gribber/arome.py:61-83 | for every requested range other than `00H06H`, the run as written and the corrected run leave the same file system |

## Left out

- The network request (`urlencode`, the URL, `urlretrieve`): the bytes of each range are the `payload` parameter.
- The thread pool and `as_completed`: the order downloads finish in is the `completed` parameter. It is constrained only to be a permutation of the required ranges.
- A download that fails (`future.result()` raising): the model assumes every download succeeds.
- `expanduser("~")`: the home directory is the `home` parameter.
- Whether the download folder exists: a missing folder (where `open` would fail) is not modelled.
- Logging, the timing with `datetime.now()`, and `_downloadProgressHook`: they have no effect on the files.
- `_grib2ToGrib1` does nothing. The `__main__` block only sets up logging around one call.
- Files.ConcatenateFile: when a file larger than the write buffer is appended to itself, the model raises `OSError` and leaves the file's bytes as they were. The source grows the file with repeated copies until the disk refuses a write, and how far it gets depends on the disk. So the contract promises only that the file still starts with its old bytes.
- Files.WriteBuffer: the buffer size is the 8192 bytes `open` uses where the platform reports no block size. On a platform that reports one, Python uses that instead, and the boundary between the two self-append outcomes moves with it.
- Merge.CompletePartAsWritten: a runaway self-append is modelled as raising at once; its contract gives only the prefix of the merged file, as for `Files.ConcatenateFile`.
- Arome.TargetNameReplacesTimeField: `.replace` runs over the whole path, so a home directory that contains the range text is rewritten as well. The lemma therefore requires the prefix not to contain the range. `Arome.TargetNameShape` states the general case.

## Findings

| source | as written | input that shows it | evidently intended | confidence | as-written member | corrected member |
|---|---|---|---|---|---|---|
| gribber/arome.py:61-83 | with `maxTimeRange == "00H06H"` the target name equals the only part's name, so the part is downloaded onto the merged file and appended to itself. A part within the 8192-byte write buffer is copied once and then removed by `os.remove`, so no merged file remains. A larger part, which every real GRIB2 segment is, is copied over and over until a write fails, and `getAromeFile` raises `OSError` with an oversized merged file left behind | `getAromeFile(day)` with the default `maxTimeRange='00H06H'` | the merged file holds the downloaded `00H06H` bytes and the call returns normally | not executed | Arome.DefaultRangeMergeFails | Arome.GetAromeFile |
