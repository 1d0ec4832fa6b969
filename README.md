# tar2bids test-data builder — Dafny model

This project models the core of `create_tar2bids_test_data.py`. The script
takes a DICOM archive, keeps only the first n images (by InstanceNumber) of
every series directory, anonymizes every remaining file, and hands the result
to `dicom2tar`. The model covers the parts of `CreateTestData` that decide
what ends up in the test data:

- **Series truncation** (`_keep_first_n_images_each_series`). A directory with
  more than n files is read into `[file, int(InstanceNumber)]` pairs. The pairs
  are sorted stably by InstanceNumber, and every file after position n is
  removed. A directory with at most n files is not touched. When one
  InstanceNumber cannot be read, the exception aborts the whole pass.
- **Record anonymization** (`_anonymize`):
  - StudyInstanceUID and SeriesInstanceUID are remapped through two
    lookup-or-insert tables, `StudyInstanceUID_dict` and
    `SeriesInstanceUID_dict`, which are filled with fresh values from
    `generate_uid`.
  - A fixed list of guarded overwrites is applied (`if 'X' in ds: ds.X = …`).
  - The output file name is either the input basename or the zero-padded
    InstanceNumber. `_walk_anonymize` never passes `rename`, so in the
    program every file keeps its basename. The model's walk does the same.
- **The walk** (`_walk_anonymize`). Each file is written to the directory
  obtained by replacing the source root with the output root in its path and
  taking the directory part. A file that cannot be read is logged and skipped.
- **The command-line checks** of `__main__`, including the rule that the
  study description must contain `^`.

Modules:

| module | file | contents |
|---|---|---|
| `Wrappers` | wrappers.dfy | `Option` |
| `Text` | text.dfy | decimal digits, Python's `int()` on integer strings, `str.zfill` and `str.replace` |
| `Paths` | paths.dfy | `posixpath.basename`, `dirname` and `join`; the output-directory rewrite |
| `Fields` | fields.dfy | records as `map<string,string>`, the overwrite table in source order, the policy by category, and its lemmas |
| `Series` | series.dfy | the truncation of one directory as a function, the stable sort, the truncation lemmas, and the InstanceNumber reading loop |
| `TestData` | testdata.dfy | class `CreateTestData`: the tree it truncates in place, the two UID tables, the `generate_uid` counter, and the walk |
| `Cli` | cli.dfy | the checks `__main__` makes before running, as written and as intended |

How the model represents the source:

- A DICOM record is a map from attribute keyword to its value as text.
- `pydicom.dcmread` is replaced by the record a file holds. A file that is not
  DICOM holds `None`.
- `generate_uid` is a counter: the c-th UID is `"2.25." + decimal(c)`. The
  model relies only on these values being pairwise distinct.
- The tree is a sequence of directories in `os.walk` order. Each directory is
  a path and a sequence of files with distinct names, since a directory cannot
  hold two entries with the same name. The model states this as
  `TestData.TreeNamesDistinct`: `run` and the truncation pass require it of
  the extracted tree and keep it. `os.remove` removes a file from that
  sequence.

## Model

| member | source | states |
|---|---|---|
| `Text.ParseInt` | create_tar2bids_test_data.py:110 | `int()` on the InstanceNumber text: an optional sign and decimal digits give a number, anything else fails; `Text.ParseDecimal` states that it reads back every number it is given in decimal |
| `Text.ParseDecimal` | create_tar2bids_test_data.py:110 | `int()` reads back the decimal text of any number, with or without a minus sign |
| `Text.DecimalRoundTrip` | create_tar2bids_test_data.py:156-157 | the digits written for a counter value read back as that value, so generated UIDs can be told apart |
| `Text.ZFill` | create_tar2bids_test_data.py:319 | `str.zfill`: the result is as long as the width, or the input when that is longer; `Text.ZFillKeepsValue` states that the value is kept |
| `Text.ZFillKeepsValue` | create_tar2bids_test_data.py:319 | `zfill` of an integer string parses to the same integer |
| `Text.ReplaceAll` | create_tar2bids_test_data.py:132-133 | `str.replace`, every non-overlapping occurrence from the left; `Text.ReplaceAbsent` and `Text.ReplaceLeading` state what it does with the walk's paths |
| `Text.ReplaceAbsent` | create_tar2bids_test_data.py:132-133 | `str.replace` with a non-empty pattern that does not occur returns the string unchanged |
| `Text.ReplaceLeading` | create_tar2bids_test_data.py:132-133 | replacing a pattern at the head of a string puts the replacement there and goes on with the rest |
| `Paths.Basename` | create_tar2bids_test_data.py:321 | the basename is the slash-free tail after the last `/`, and the path is the prefix plus that tail |
| `Paths.Dirname` | create_tar2bids_test_data.py:132-133 | the directory part is a prefix of the path |
| `Paths.Join` | create_tar2bids_test_data.py:128 | `os.path.join`: an absolute second part replaces the first; `Paths.JoinSplit` states that `dirname` and `basename` undo it |
| `Paths.JoinSplit` | create_tar2bids_test_data.py:323 | joining a directory and a plain file name, then splitting, gives back both |
| `Paths.OutputDir` | create_tar2bids_test_data.py:132-133 | the output directory of a file: the roots swapped by `str.replace`, then `dirname`; `Paths.OutputDirMirrors` states where that lands |
| `Paths.OutputDirMirrors` | create_tar2bids_test_data.py:132-133 | a file below the source root is written to the directory mirroring its own below the output root |
| `Fields.AnonymizeFields` | create_tar2bids_test_data.py:169-316 | the whole list of guarded overwrites keeps the attribute set; `Fields.AnonymizeFieldsSpec` and `Fields.AnonymizedValues` state the values |
| `Fields.Overwrite` | create_tar2bids_test_data.py:169-316 | the guarded overwrites never add or drop an attribute |
| `Fields.OverwriteFollowsPolicy` | create_tar2bids_test_data.py:169-316 | after the overwrites, a listed attribute present holds its rule's value and every other attribute keeps its value |
| `Fields.TableMatchesPolicy` | create_tar2bids_test_data.py:169-316 | the source-order list of overwrites and the policy by category govern exactly the same keywords, with the same rule for each |
| `Fields.AnonymizeFieldsSpec` | create_tar2bids_test_data.py:169-316 | the rewrite keeps the attribute set, and each present attribute gets the value the policy prescribes |
| `Fields.AnonymizedValues` | create_tar2bids_test_data.py:169-316 | PatientName and StudyDescription get the caller's values, StudyID `'1'`, the five dates `'18000101'`, age, size and weight `'88'`, and the rest `'anon'` |
| `Fields.PreservedAttributes` | create_tar2bids_test_data.py:276-284 | ProtocolName, SeriesDescription, both UIDs and InstanceNumber pass through the rewrite unchanged |
| `Fields.AnonymizeFieldsIdempotent` | create_tar2bids_test_data.py:169-316 | rewriting a rewritten record with the same arguments changes nothing |
| `Series.InstanceNumber` | create_tar2bids_test_data.py:107-110 | `int(ds.InstanceNumber)` of one file: none when the file cannot be read, lacks the attribute or holds no integer; `Series.Rank` states the pair list built from it |
| `Series.Rank` | create_tar2bids_test_data.py:104-110 | the pair list exists exactly when every file has an integer InstanceNumber, and then holds each file's pair in listing order |
| `Series.ReadInstanceNumbers` | create_tar2bids_test_data.py:104-110 | the reading loop produces exactly that pair list, or fails exactly when some file has no integer InstanceNumber |
| `Series.InsertPos` | create_tar2bids_test_data.py:113-114 | the insertion point lies after every smaller InstanceNumber and before the first one that is not smaller |
| `Series.Insert` | create_tar2bids_test_data.py:113-114 | inserting into a sorted list keeps it sorted and adds exactly the one entry |
| `Series.SortByInstance` | create_tar2bids_test_data.py:113-114 | the sort yields an ascending permutation of the pairs |
| `Series.SortIsStable` | create_tar2bids_test_data.py:113-114 | of two pairs with equal InstanceNumber, the earlier-listed one stays first, as with Python's stable `sorted` |
| `Series.Without` | create_tar2bids_test_data.py:117-118 | after the removals, a file is left exactly when it was there and its name was not removed |
| `Series.TruncateSeries` | create_tar2bids_test_data.py:101-118 | a directory with at most n files is left as it is; truncation fails exactly when the directory is over-full and some InstanceNumber cannot be read; nothing is added |
| `Series.KeptIffHead` | create_tar2bids_test_data.py:113-118 | in an over-full directory, a file stays exactly when its pair is among the first n of the sorted list, and is removed exactly when it comes after position n |
| `Series.KeepsExactlyN` | create_tar2bids_test_data.py:101-118 | an over-full directory is left with exactly n files |
| `Series.KeptNamesAreHeadNames` | create_tar2bids_test_data.py:113-118 | the names left are exactly the names of the first n sorted pairs |
| `Series.KeptPrecedeRemoved` | create_tar2bids_test_data.py:113-118 | no kept file has a larger InstanceNumber than a removed one |
| `Series.TiesKeepListingOrder` | create_tar2bids_test_data.py:113-118 | among files with equal InstanceNumber, a kept file implies that every earlier-listed one is kept |
| `Series.Truncated` | create_tar2bids_test_data.py:101-118 | truncation keeps the directory's path and never adds files |
| `Series.WithoutKeepsNamesDistinct` | create_tar2bids_test_data.py:117-118 | removing files keeps the names in a directory distinct |
| `Series.TruncatedKeepsNamesDistinct` | create_tar2bids_test_data.py:101-118 | a truncated directory still holds distinct names |
| `Series.TruncatedSize` | create_tar2bids_test_data.py:101-118 | a truncated directory holds n files, or all of its files when it had no more than n |
| `TestData.UidInjective` | create_tar2bids_test_data.py:156-157 | the UID generator never hands out the same UID twice |
| `TestData.UidFresh` | create_tar2bids_test_data.py:156-157 | the next UID is none of those handed out before |
| `TestData.InsertKeepsWellIssued` | create_tar2bids_test_data.py:155-158 | entering a new original with the next UID keeps a table injective, keeps its values among the handed-out UIDs, and overwrites no entry |
| `TestData.ApplyUids` | create_tar2bids_test_data.py:151-167 | the UID replacement keeps the attribute set; `TestData.ApplyUidsSpec` states the values |
| `TestData.ApplyUidsSpec` | create_tar2bids_test_data.py:151-167 | the UID replacement adds no attribute, swaps each UID present for its table entry, and leaves every other attribute alone |
| `TestData.ApplyUidsStable` | create_tar2bids_test_data.py:153-154 | once a record's originals have entries, growing tables give the same replacements |
| `TestData.SameUidIffSameReplacement` | create_tar2bids_test_data.py:151-167 | through injective tables, two anonymized records share a StudyInstanceUID (or SeriesInstanceUID) exactly when their originals did |
| `TestData.OutputFileName` | create_tar2bids_test_data.py:318-321 | the name of the saved file; `TestData.RenamedFileName` and `TestData.SavedUnderOutputDir` state it for each value of `rename` |
| `TestData.RenamedFileName` | create_tar2bids_test_data.py:318-319 | a renamed file is the InstanceNumber padded to at least four characters, with the same value, followed by `.dcm`; an InstanceNumber already four characters long is used as it is |
| `TestData.SavedUnderOutputDir` | create_tar2bids_test_data.py:320-323 | a file that is not renamed is saved directly in the output directory under its own basename |
| `TestData.WalkedAsLater` | create_tar2bids_test_data.py:129-140 | a file saved earlier in the walk would be saved identically through the final tables |
| `TestData.WalkKeepsUidsConsistent` | create_tar2bids_test_data.py:129-167 | across one walk, two saved records share a replacement UID exactly when their original UIDs are equal |
| `TestData.CreateTestData.constructor` | create_tar2bids_test_data.py:51-69 | the object starts with the given tree and arguments and with two empty UID tables |
| `TestData.CreateTestData.GenerateUid` | create_tar2bids_test_data.py:156-157 | each call hands out the next UID of the counter |
| `TestData.CreateTestData.LookupOrInsert` | create_tar2bids_test_data.py:152-158 | a known original gets its recorded replacement and the table is unchanged; a new one gets a UID not handed out before, and only that entry is added |
| `TestData.CreateTestData.RemapStudyUid` | create_tar2bids_test_data.py:151-158 | the StudyInstanceUID present is replaced through its table, which only grows and stays injective |
| `TestData.CreateTestData.RemapSeriesUid` | create_tar2bids_test_data.py:160-167 | the SeriesInstanceUID present is replaced through its own table, independently of the study table |
| `TestData.CreateTestData.RemapUids` | create_tar2bids_test_data.py:151-167 | both UIDs are replaced through the grown tables, and the record's originals now have entries |
| `TestData.CreateTestData.Anonymize` | create_tar2bids_test_data.py:142-323 | the saved file is the UID-remapped, rewritten record, saved under the output directory with the chosen name; the tables only grow |
| `TestData.CreateTestData.WalkVisit` | create_tar2bids_test_data.py:128-140 | one file of the walk: an unreadable file is skipped with the tables unchanged; a readable one is saved as `_anonymize` would save it, and the tables gain exactly its UIDs |
| `TestData.CreateTestData.WalkAnonymize` | create_tar2bids_test_data.py:123-140 | every readable file of the tree is saved as `_anonymize` would save it through the final tables, and every unreadable one is skipped; the tables gain exactly the UIDs of the readable files |
| `TestData.CreateTestData.RemoveFile` | create_tar2bids_test_data.py:118 | `os.remove` takes exactly that one file out of its directory |
| `TestData.CreateTestData.RemoveAll` | create_tar2bids_test_data.py:117-118 | the removal loop takes out exactly the named files |
| `TestData.CreateTestData.KeepFirstNInDir` | create_tar2bids_test_data.py:101-118 | one directory is replaced by its truncation, or is left untouched when an InstanceNumber cannot be read |
| `TestData.CreateTestData.KeepFirstNImagesEachSeries` | create_tar2bids_test_data.py:91-118 | every directory is truncated; on a failure, the directories before the failing one are truncated and it and all later ones are untouched; names stay distinct in every directory |
| `TestData.CreateTestData.Run` | create_tar2bids_test_data.py:71-77 | run truncates and then anonymizes the truncated tree, or stops without anonymizing when truncation fails; after a run, each directory holds n files, or all of its files when it had no more than n |
| `Cli.PreflightAsWritten` | create_tar2bids_test_data.py:349-358 | the checks as written never create the output directory |
| `Cli.AsWrittenCrashesOnNewOutputDir` | create_tar2bids_test_data.py:353-354 | as written, a valid invocation with a missing output directory ends in NameError, where the intended checks would run |
| `Cli.Preflight` | create_tar2bids_test_data.py:349-358 | the program runs exactly when the tar file exists and the study description contains `^`; it exits for a missing tar and for a missing `^`; it creates a missing output directory |
| `Cli.PreflightAgreesWhenOutputDirExists` | create_tar2bids_test_data.py:349-358 | when the output directory already exists, the checks as written and as intended agree |
| `Cli.DefaultStudyDescriptionValid` | create_tar2bids_test_data.py:344-345 | the default study description `PI^project` passes the `^` check |

## Left out

- Tar extraction (`_extract_tar`), the `dicom2tar` subprocess and `_get_stdout_stderr_returncode` are external I/O. They are not modelled.
- `pydicom.dcmread` and `save_as` are a foreign library, and so is DICOM binary encoding, including pixel data. A record is an abstract map from keyword to text, and saving always succeeds.
- `os.makedirs` in the walk, temporary-directory cleanup in `__exit__`, `argparse`, `print` and `logging` are left out. Everything they do is I/O.
- The format of `generate_uid` output is left out. Only its freshness is modelled, by a counter.
- `Text.ParseInt`: accepts an optional sign followed by ASCII digits. Python's `int()` also accepts surrounding whitespace, underscores between digits and non-ASCII digits. `str(ds.InstanceNumber)` is taken to be the record's text.
- `TestData.CreateTestData.WalkAnonymize`: the only per-file failure modelled is an unreadable file. A failing `makedirs` (create_tar2bids_test_data.py:134-135) happens before `_anonymize` is called, so it skips the file with the tables untouched, just like an unreadable file. A failing `save_as` (:323) is caught and logged too, but only after the UID tables have grown. That case is not modelled.
- `Series.TruncateSeries`: when an InstanceNumber cannot be read, the model follows the code, and the whole truncation pass aborts. Another choice would be to keep such a file and go on. The code has no such handling.
- `Paths.Dirname`: its own contract says only that the result is a prefix of the path. What it returns for the paths the walk builds is stated by `Paths.JoinSplit` and `Paths.OutputDirMirrors`.
- `Paths.OutputDirMirrors`: holds only when the source root does not occur again inside the relative path. `str.replace` rewrites every occurrence, and `Text.ReplaceAll` models that too, so such a path is written elsewhere.
- Truncation reads records only to obtain InstanceNumber. Reading with `stop_before_pixels` is not distinguished from a full read.

## Findings

| source | as written | input that shows it | evidently intended | confidence | as-written member | corrected member |
|---|---|---|---|---|---|---|
| create_tar2bids_test_data.py:353-354 | `os.makedirs(output_dir)` names `output_dir`, which `__main__` never defines, so NameError is raised | an existing tar file, an output directory that does not exist yet, and `-s PI^project` | `os.makedirs(args.output_dir)`: create the directory and go on to the `^` check | not executed; the name is visibly undefined in that scope | `Cli.PreflightAsWritten` | `Cli.Preflight` |
