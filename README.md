# BIDS sidecar editing scripts, modelled in Dafny

The repository is a set of small Python scripts that rewrite the JSON
sidecars of a BIDS neuroimaging dataset. This project models four of them
and proves what they do:

- **edit_json.py** (module `EditJson`) rewrites chosen fields in the
  sidecars of one category and contrast, in every subject directory it
  visits. Each `--edit FIELD VAL` value is coerced: to `int` if possible,
  else to `float`, else left as text. The edits are then written over the
  fields in the order given.
- **edit_bold_json.py** (module `EditBoldJson`) computes the interleaved
  slice timing of a 44-slice acquisition with TR = 2.45 s. For every
  subject directory it reads `rest-<i>.json` for runs 1 to 6, sets
  `SliceTiming`, and writes `rest-<i>-corrected.json`.
- **edit_json_side_cars.py** (module `EditJsonSideCars`) computes the
  same slice timing. Its loop never uses the directory entry it iterates
  over, so every pass reads and writes the same six files in the top
  directory.
- **pet_json.py** (module `PetJson`) assembles PET sidecars. For each of
  27 subjects and runs 1 to 4, it loads the sidecar and overwrites it
  with a table of fixed entries. It then adds fields taken from the first
  DICOM file of the run, and collects the acquisition time of every DICOM
  file.

Shared modules:

- `Store` is the directory tree as a value. `op.join`, `op.isdir`,
  `os.listdir`, `json.load` of an opened file and `json.dump` to a file
  opened for writing become functions over that tree. Each fails exactly
  where the script would raise. The error kinds follow Python's for a
  missing path, a path directly below a regular file, and a directory
  opened as a file. The exceptions to this are listed under "Left out".
- `Json` holds the JSON values. `Numerals` models `str(n)`,
  `format(n, '02')` and `int(text)`. `Text` models `startswith`,
  `endswith`, `split` and `os.path.splitext`.
- `SliceTiming` holds the interleave arithmetic. `RestRuns` holds the
  per-directory correction of runs 1 to 6 that the two slice-timing
  scripts share.

The scripts mutate a dictionary and the file system step by step, so each
of their loops is a `method` with a loop. That method is proved against a
function or a predicate that states the intended outcome. Its properties
are proved as lemmas.

Where the code does something other than its evident purpose, the model
follows the code:

- edit_json.py visits the entries that do *not* start with `sub-`.
- edit_json_side_cars.py ignores its loop variable.
- pet_json.py names sidecars by the subject's position, not its number.

## Model

| member | source | states |
|---|---|---|
| Numerals.ParseInt | edit_json.py:34 | `int(text)`: an optional sign and ASCII digits give their value, any other text is refused |
| Numerals.ParseUnsigned | edit_json.py:34 | a digit string reads as its decimal value |
| Numerals.ParseNegative | edit_json.py:34 | a minus sign before a digit string reads as the negated value |
| Numerals.ParseShowInt | edit_json.py:33-35 | `int(str(n)) == n` for every integer n |
| Numerals.ParsePad2 | pet_json.py:119 | `format(i, '02')` reads back as i; below 100 it has exactly two digits |
| Numerals.Pad2Injective | pet_json.py:119 | different subject positions give different zero-padded names |
| Numerals.ShowNatInjective | edit_bold_json.py:32-34 | `str` is injective on naturals |
| Text.Split | pet_json.py:138 | `split('/')`: every slash cuts, empty parts included, so there is always at least one part |
| Text.SplitParts | pet_json.py:138 | `split('/')` yields one part more than there are slashes, and no part contains a slash |
| Text.JoinSplit | pet_json.py:138 | joining the parts of `split('/')` with `/` restores the text |
| Text.SplitJoin | pet_json.py:138 | splitting a `/`-join of slash-free parts gives those parts back |
| Text.LastIndexOf | edit_json.py:26 | the index of the last occurrence of a character, or none when it does not occur |
| Text.SplitExt | edit_json.py:26 | `op.splitext`: the extension runs from the last dot, unless only dots precede it |
| Text.SplitExtRejoins | edit_json.py:26 | the two halves of `op.splitext` concatenate back to the file name |
| Store.Missing | edit_json.py:25 | a path that does not exist is `ENOTDIR` exactly when its parent is a regular file, else `ENOENT` |
| Store.ListDirBelowFile | edit_json.py:25 | listing a name below a regular file raises `NotADirectoryError` |
| Store.Children | edit_json.py:25 | a name is listed under a directory exactly when the joined path exists |
| Store.ListDir | edit_bold_json.py:27 | `os.listdir` succeeds exactly on a directory and lists exactly its entries |
| Store.Load | edit_bold_json.py:35-36 | loading succeeds exactly on a file holding JSON, and yields the object that file holds |
| Store.Dump | edit_bold_json.py:38-39 | opening for writing succeeds exactly when the parent is a directory and the path is not a directory |
| Store.DumpThenLoad | edit_json.py:41-42 | what was dumped is what a later load reads; the tree gains only that path and nothing else changes |
| EditJson.ParseFloat | edit_json.py:37 | `float(text)`: a sign applied to an unsigned decimal, `inf`, `infinity` or `nan` literal; any other text is refused |
| EditJson.Coerce | edit_json.py:33-39 | the value stored for an edit: the integer if `int()` accepts the text, else the float if `float()` does, else the text itself |
| EditJson.IntLiteralIsFloatLiteral | edit_json.py:33-39 | every text `int()` accepts is a `float()` literal of the same value, so trying int first loses nothing |
| EditJson.CoerceKeepsTextIff | edit_json.py:33-39 | a value stays text exactly when `float()` rejects it |
| EditJson.CoerceShowInt | edit_json.py:33-35 | the text of any integer is stored as that integer |
| EditJson.CoerceIntExample | edit_json.py:34 | "3" is stored as the integer 3 |
| EditJson.CoerceFloatExample | edit_json.py:37 | "3.5" is stored as the float 3.5 |
| EditJson.CoerceTextExample | edit_json.py:38-39 | "abc" is stored as the unchanged text "abc" |
| EditJson.Overrides | edit_json.py:32-40 | the edit list writes exactly the fields it names |
| EditJson.Assigned | edit_json.py:40 | performing key assignments writes exactly the keys assigned |
| EditJson.LastAssignmentWins | edit_json.py:40 | an assignment survives unless a later one writes the same key |
| EditJson.LastEditWins | edit_json.py:32-40 | each field ends up with the coerced value of the last edit naming it |
| EditJson.AssignedStep | edit_json.py:40 | one more loop iteration overwrites exactly one more key |
| EditJson.ApplyEdits | edit_json.py:32-40 | the edit loop yields the sidecar overlaid with the overrides; keys are the old keys plus the edited fields; untouched keys keep their values |
| EditJson.EditsIdempotent | edit_json.py:32-40 | applying the same edit list twice gives what applying it once gives |
| EditJson.VisitsSubject | edit_json.py:22-23 | the entries of the dataset visited: as written, those whose name does not start with `sub-` |
| EditJson.SelectsFile | edit_json.py:26-28 | a file is edited when `splitext` gives `.json` and the base ends with the contrast |
| EditJson.SelectsFileIff | edit_json.py:26-28 | a file is selected exactly when its name ends in `.json`, is not only dots before that, and its base ends with the contrast |
| EditJson.KeptOrEditedTransitive | edit_json.py:29-42 | editing an already edited file changes nothing more |
| EditJson.EditFileStep | edit_json.py:29-42 | rewriting one selected file keeps every other entry and adds that file to the edited ones |
| EditJson.Editable | edit_json.py:24-42 | the inner loop runs to its end: the category path is a directory, and every selected name in it is a JSON file |
| EditJson.EditablePreserved | edit_json.py:29-42 | edits never change whether a directory can be listed and all its selected files loaded |
| EditJson.EditCategory | edit_json.py:24-42 | the inner loop changes only selected files of the category directory, each by the edits; it succeeds exactly when the directory exists and every selected name in it is a JSON file, and then every selected file is edited |
| EditJson.EditSubjectFrame | edit_json.py:22-42 | a pass over one subject changes only target sidecars of the dataset |
| EditJson.EditedAfterKept | edit_json.py:29-42 | a file left alone and then edited ends up edited |
| EditJson.EditedAllAt | edit_json.py:25-42 | after a complete inner loop, every selected file of the directory is edited |
| EditJson.EditSubjectKeepsEarlier | edit_json.py:22-42 | a pass over one subject leaves earlier subjects' edited sidecars as they were |
| EditJson.EditSubjectEditsOwn | edit_json.py:22-42 | a completed pass over a subject edits every target sidecar of it |
| EditJson.EditSubjectStep | edit_json.py:22-42 | a completed pass extends the edited subjects by one |
| EditJson.RunEditable | edit_json.py:22-42 | the script runs to its end: the dataset is a directory, and every visited entry's category directory is editable |
| EditJson.VisitedFileFails | edit_json.py:22-25 | a regular file not named `sub-…` in the dataset (such as `dataset_description.json`) is visited, listing below it fails with `NotADirectoryError`, and the run cannot complete |
| EditJson.EditableStep | edit_json.py:22-42 | a completed pass over a subject shows its category directory editable in the tree before the run |
| EditJson.NotEditableStep | edit_json.py:22-42 | a failed pass over a visited subject shows the run could not have completed on the tree before it |
| EditJson.EditRun | edit_json.py:18-42 | no edits: exits leaving every file alone; else only target sidecars change, each by the edits; the run completes exactly when the dataset is a directory and every visited subject's category directory lists only loadable selected files, and then every target is edited |
| SliceTiming.Range | edit_bold_json.py:19 | the slice indices 0 to n-1 |
| SliceTiming.Pairs | edit_bold_json.py:21-23 | joining two columns side by side and reading row by row doubles the length |
| SliceTiming.PairsAt | edit_bold_json.py:21-23 | row k of the joined table is element k of the left column, then of the right |
| SliceTiming.PairsMultiset | edit_bold_json.py:21-23 | reading the joined table drops and repeats nothing |
| SliceTiming.Interleave | edit_bold_json.py:19-23 | the interleave exists exactly for an even length (numpy refuses unequal halves) and keeps the length |
| SliceTiming.InterleaveAt | edit_bold_json.py:21-23 | position 2k holds element k + n/2, position 2k+1 element k |
| SliceTiming.InterleavePermutes | edit_bold_json.py:19-23 | the interleave is a permutation of its input |
| SliceTiming.InterleaveIndicesBijective | edit_bold_json.py:19-23 | on slice indices the interleave is a bijection of 0..n-1, with SlotOf as inverse |
| SliceTiming.EverySliceOnce | edit_bold_json.py:19-23 | every slice index appears exactly once |
| SliceTiming.RangeCount | edit_bold_json.py:19 | each index below n occurs once in 0..n-1, others not at all |
| SliceTiming.SliceTimes | edit_bold_json.py:17-19 | `np.arange(0, TR, TR/n)` has n entries |
| SliceTiming.SliceTimesWithinTR | edit_bold_json.py:17-19 | every slice time lies in [0, TR) |
| SliceTiming.InterleavedTimesFollowIndices | edit_bold_json.py:17-23 | each interleaved time is its slice index times TR/n |
| SliceTiming.InterleavedTimesWithinTR | edit_bold_json.py:17-23 | every interleaved time lies in [0, TR) |
| RestRuns.RestName | edit_bold_json.py:32 | the source file name `rest-<i>.json` |
| RestRuns.CorrectedName | edit_bold_json.py:33-34 | the written file name `rest-<i>-corrected.json` |
| RestRuns.WithTiming | edit_bold_json.py:37 | the sidecar with `SliceTiming` set to the timing |
| RestRuns.RunCorrectable | edit_bold_json.py:31-39 | run i goes through: its source holds JSON, and its corrected file can be opened for writing in the directory |
| RestRuns.Corrected | edit_bold_json.py:31-39 | the tree after runs 1 to i-1 are corrected, each corrected file written from its untouched source |
| RestRuns.RestNeverCorrected | edit_bold_json.py:32-34 | no corrected file name is a source file name, so no source is overwritten |
| RestRuns.CorrectedNameInjective | edit_bold_json.py:33-34 | different runs are written to different files |
| RestRuns.RestNameInjective | edit_bold_json.py:32 | different runs are read from different files |
| RestRuns.TimingJson | edit_bold_json.py:37 | the stored list has one float per slice time, in order |
| RestRuns.WithTimingChangesOnlySliceTiming | edit_bold_json.py:35-37 | the corrected sidecar differs from its source only in `SliceTiming`, which holds the timing |
| RestRuns.CorrectedKeys | edit_bold_json.py:31-39 | correcting runs adds exactly the corrected files to the tree |
| RestRuns.CorrectedElsewhere | edit_bold_json.py:31-39 | every path other than a corrected file keeps its entry |
| RestRuns.CorrectedRun | edit_bold_json.py:35-39 | each corrected file is its source with the new timing |
| RestRuns.RestIsNotCorrected | edit_bold_json.py:32-34 | a source path is never a corrected path |
| RestRuns.CorrectableAfter | edit_bold_json.py:31-39 | correcting some runs does not change whether any run can be corrected |
| RestRuns.CorrectedStep | edit_bold_json.py:31-39 | one more iteration corrects exactly one more run, from its untouched source |
| RestRuns.CorrectRuns | edit_bold_json.py:31-39 | the run loop succeeds exactly when runs 1 to 6 can all be corrected and then writes all six; on failure it stops at the first run that cannot be |
| RestRuns.CorrectedTwice | edit_json_side_cars.py:26-35 | correcting a directory a second time changes nothing further |
| RestRuns.CorrectedFixed | edit_json_side_cars.py:26-35 | re-correcting the runs of a corrected directory leaves it as it is |
| EditBoldJson.Interleaved | edit_bold_json.py:17-23 | `interleaved`: the slice start times in acquisition order; 44 entries |
| EditBoldJson.Timing | edit_bold_json.py:37 | the JSON list stored under `SliceTiming` |
| EditBoldJson.SliceOrder | edit_bold_json.py:19-23 | the acquisition order has 44 entries |
| EditBoldJson.SliceOrderAt | edit_bold_json.py:21-23 | pair k of the order is slice k + 22, then slice k |
| EditBoldJson.SliceOrderPermutes | edit_bold_json.py:19-23 | the order is a permutation of 0..43: each slice once, no two positions alike |
| EditBoldJson.InterleavedTimes | edit_bold_json.py:17-23 | each written time is its slice's index times TR/44 and lies in [0, TR); the list has 44 entries |
| EditBoldJson.SubjectUntouched | edit_bold_json.py:27-39 | a subject not yet visited looks as it did before the loop |
| EditBoldJson.SubjectFrame | edit_bold_json.py:31-39 | correcting a subject writes only its corrected files |
| EditBoldJson.SubjectKeepsOthers | edit_bold_json.py:31-39 | correcting a subject keeps the corrected files of the others |
| EditBoldJson.SubjectWritten | edit_bold_json.py:31-39 | correcting all runs of a subject writes every one of them |
| EditBoldJson.SkipStep | edit_bold_json.py:28-30 | skipping an entry that is not a directory keeps the invariant |
| EditBoldJson.CorrectStep | edit_bold_json.py:28-39 | correcting a subject directory keeps the invariant |
| EditBoldJson.FailStep | edit_bold_json.py:31-39 | a run that cannot be corrected means its subject is not correctable; only corrected files were written |
| EditBoldJson.Finish | edit_bold_json.py:27-39 | after the last entry, every subject directory is corrected and nothing else changed |
| EditBoldJson.CorrectSubject | edit_bold_json.py:28-39 | one pass of the main loop: an entry that is not a directory is skipped and the invariant advances; a subject directory whose runs cannot all be corrected stops the script, with only corrected files written |
| EditBoldJson.CorrectEntries | edit_bold_json.py:27-39 | the main loop: on success every entry is visited with the invariant kept; on failure only corrected files were written, and some subject directory is not correctable |
| EditBoldJson.Run | edit_bold_json.py:27-39 | succeeds exactly when top is a directory whose subject directories are all correctable; writes only corrected files; on success every run of every subject is written with the timing |
| EditJsonSideCars.Interleaved | edit_json_side_cars.py:18-22 | the list has 44 entries |
| EditJsonSideCars.Timing | edit_json_side_cars.py:33 | the JSON list stored under `SliceTiming` |
| EditJsonSideCars.SameTimingAsBold | edit_json_side_cars.py:14-22 | this script writes the very list edit_bold_json.py writes |
| EditJsonSideCars.InterleavedLayout | edit_json_side_cars.py:18-22 | pair k holds the times of slices k + 22 and k, all in [0, TR) |
| EditJsonSideCars.SliceOrderPermutes | edit_json_side_cars.py:18-22 | the slice indices behind the list are a permutation of 0..43, and each time follows its index |
| EditJsonSideCars.Run | edit_json_side_cars.py:26-35 | the files corrected are those in top, whatever the entry; no entry: nothing changes; else success exactly when the runs of top are correctable, then the tree is top corrected once |
| PetJson.MergeFixed | pet_json.py:126 | after `js.update(fixed_entries)` every fixed key holds its fixed value, other keys keep theirs, none is removed |
| PetJson.VoxelSize | pet_json.py:138-140 | one entry per `/`-separated part of the pixel spacing, in order, then the slice thickness |
| PetJson.HeaderFields | pet_json.py:134-140 | the header fields exist exactly when the four tags are present; the first missing tag, in lookup order, is the error |
| PetJson.FirstRecordFields | pet_json.py:133-140 | the header fields of a run are those of its first DICOM file, none without one |
| PetJson.FrameTimes | pet_json.py:128-141 | the acquisition time of each DICOM file, in order |
| PetJson.RecordFault | pet_json.py:131-141 | what stops the loop at one DICOM file: it cannot be read, or, for the first file, the first of its four header tags that is missing, or its acquisition time is missing |
| PetJson.FirstFault | pet_json.py:128-141 | none exactly when every DICOM file is readable with its tags; else the fault of the earliest failing file |
| PetJson.FirstFaultFrom | pet_json.py:128-141 | with no fault before position k, the first fault is the first from k on |
| PetJson.AssembleSidecar | pet_json.py:128-141 | the DICOM loop stops at the first fault; on success the sidecar gets the first file's fields and one frame time per file |
| PetJson.Sidecar | pet_json.py:124-140 | a run's sidecar: the loaded one, the fixed entries over it, the first file's fields over those |
| PetJson.AdministrationNotHeader | pet_json.py:22-41 | no administration entry is a header field |
| PetJson.AcquisitionNotHeader | pet_json.py:42-63 | no acquisition entry is a header field |
| PetJson.BloodNotHeader | pet_json.py:64-71 | no blood entry is a header field |
| PetJson.FixedAndHeaderDisjoint | pet_json.py:22-72 | no fixed entry is a header field |
| PetJson.UnionDisjoint | pet_json.py:22-72 | three tables disjoint from a key set have a union disjoint from it |
| PetJson.SidecarFixedEntries | pet_json.py:125-140 | every fixed entry survives the header fields with its fixed value |
| PetJson.LayerKeeps | pet_json.py:126-140 | entries the header does not name survive laying the header over them |
| PetJson.SidecarKeepsOthers | pet_json.py:124-140 | a key neither fixed nor from the header keeps its loaded value |
| PetJson.SidecarKeys | pet_json.py:124-140 | no key is removed; the fixed keys, and with a DICOM file the header keys, are added |
| PetJson.NoDicomMergeOnly | pet_json.py:129-134 | a run without `.dcm` files gets the fixed-entry merge and nothing else |
| PetJson.TimeFieldsAgree | pet_json.py:134-137 | decay-correction time, scan start and time zero all equal the first file's (0008,0031); scan date is its (0008,0022) |
| PetJson.VoxelSizeLength | pet_json.py:138-140 | `ImageVoxelSize` has one more entry than there are spacing parts, the last being the slice thickness |
| PetJson.HeaderFromFirstOnly | pet_json.py:133-140 | header fields depend on the first DICOM file only |
| PetJson.FrameTimesPerFile | pet_json.py:128-141 | one frame time per DICOM file, in order, each its (0008,0032) |
| PetJson.SubjectDir | pet_json.py:119 | `sub-` followed by the subject's position padded to two digits |
| PetJson.DicomRunDir | pet_json.py:120-127 | `<dicom_dir>/<subject number>/pet-<run>` |
| PetJson.SidecarPath | pet_json.py:119-123 | the sidecar lies in `<bids>/sub-<i>/pet` |
| PetJson.SidecarPathIndex | pet_json.py:118-123 | the subject directory names the subject's position, which reads back from it |
| PetJson.SidecarPathInjective | pet_json.py:118-123 | different subjects or runs have different sidecar paths |
| PetJson.DicomNames | pet_json.py:129-130 | exactly the listed names ending in `.dcm` are read |
| PetJson.NoRepeats | pet_json.py:129-130 | a listing holding each name of a set with no more positions than names repeats none |
| PetJson.RunSidecar | pet_json.py:119-141 | one iteration of the run loop: load the sidecar, list the DICOM directory, stop at the first faulty file, else the assembled sidecar |
| PetJson.RunSidecarReadsDicomFiles | pet_json.py:122-141 | with natsort listing each name once, an assembled sidecar comes from the loaded sidecar and the `.dcm` files of the run directory, each read exactly once and nothing else |
| PetJson.RunSidecarFrameTimes | pet_json.py:128-141 | with natsort listing each name once, there is one frame time per `.dcm` file of the run directory, and every such file was readable with an acquisition time |
| PetJson.Job | pet_json.py:118-121 | iteration j of the nested loop is run j mod 4 + 1 of the subject at position j div 4 |
| PetJson.JobsDoneAppend | pet_json.py:118-141 | appending the next job's sidecar keeps the assembled prefix correct |
| PetJson.JobOf | pet_json.py:118-121 | iteration 4i + run - 1 of the nested loop is run `run` of the subject at position i |
| PetJson.Run | pet_json.py:118-141 | on success 27 × 4 sidecars, each the sidecar of its subject and run in loop order; on failure the sidecars before the failing job, and that job's error |

## Left out

- Argument parsing, `tqdm` progress bars and `pprint`: user interface only.
- JSON text: `json.load` and `json.dump` work on the parsed object; serialisation and indentation are not modelled.
- Failure as values: an uncaught Python exception (missing file, directory instead of file, unreadable JSON) is an `Err` or `Some(error)` result that ends the run.
- Files written before a failure stay written, as in the scripts.
- Directory listing order: `os.listdir` is a set of names and the loops take them in any order. The outcome stated on success does not depend on the order.
- The `sorted` call of edit_json.py is subsumed by this on success only: when every visit succeeds, the order of visits does not change the result.
- EditJson.EditRun: the subjects are visited in any order, not in the sorted order of edit_json.py:22-23. On failure the contract states only the frame: every changed file is a target sidecar, edited by the edits. It does not state which subjects sorted before the failing one were already edited, nor which error is raised when several subjects would fail. For example, with a regular file `CHANGES` and a directory `derivatives` at the top, Python fails at `CHANGES` and writes nothing, while the model may edit `derivatives` first.
- natsort: the natural ordering of a DICOM run directory is a parameter `natOrder` from the set of names to a sequence.
- PetJson.Run: its contract holds for any ordering function. That each `.dcm` file is read exactly once is proved under `NaturalOrder` (each name listed once) in `PetJson.RunSidecarReadsDicomFiles`. The numeric-aware order natsort chooses is not modelled, so which file comes first is left to the parameter.
- PetJson.DicomNames: selects the `.dcm` names; their order is that of the `natOrder` parameter, as above.
- pydicom: reading a DICOM file is a parameter `read` from the file name to an optional tag map. `None` stands for a file pydicom cannot read.
- pet_json.py opens each DICOM file by its bare name, not joined to its run directory. The model passes that same bare name to `read`, so which file it reaches is left to the parameter.
- DICOM values: pydicom returns `DataElement` objects. The model keeps the text of each attribute. A `DataElement` has no `split` method, so as written pet_json.py:138 most likely raises `AttributeError` at the first DICOM file of a run. The model splits the attribute's text instead, as if its value had been taken.
- Floating point: Python floats are exact reals (`Finite`), plus infinities and NaN. Rounding to binary64 in `TR / num_slices` and `np.arange` is not modelled.
- EditJson.ParseFloat: the value of a literal is kept exact. `float()` rounds it to binary64: a magnitude beyond the largest double overflows to infinity (`"1e400"` gives `inf`, where the model gives a finite real), one below the smallest subnormal underflows to zero (`"1e-400"` gives `0.0`), and `"-0.0"` keeps its sign, which an exact real cannot. `EditJson.Coerce` stores the model's value.
- np.arange length: the arange is modelled as exactly `num_slices` entries. Under float rounding its length is not guaranteed to be 44.
- `int()` grammar: the model accepts an optional sign followed by ASCII digits. Python also accepts surrounding whitespace, underscores between digits and non-ASCII digits.
- Numerals.ParseShowInt: holds of unbounded integers. Since Python 3.11, `int()` and `str()` refuse integers of more than 4300 digits by default, which the model does not capture.
- Store.Missing: only a regular file as the immediate parent gives `NotADirectory`. A path further below a regular file is `FileNotFound` in the model, where Python raises `NotADirectoryError`. Entries below a regular file are not ruled out of the tree; the kind of such an entry decides the outcome.
- Store.Load: `OtherFile` stands for every file `json.load` cannot turn into an object, and loading it is `JsonDecodeError`. Python raises `UnicodeDecodeError` for a binary file such as a `.nii.gz`, and `JSONDecodeError` for text that is not JSON. A file whose top level is valid JSON but not an object loads in Python, and the script fails later, at the item assignment (edit_json.py:40, edit_bold_json.py:37) or at `js.update` (pet_json.py:126). Both failures come before the file is written, so only the error kind differs.
- Store.Join: `op.join` is `Child(parent, name)` with no normalisation. Arguments such as `""`, `"."`, `".."` or names containing `/` are not resolved. For example, an empty category makes edit_json.py list the subject directory itself, which the model does not capture.
- `float()` grammar: the model accepts sign, mantissa, exponent, `inf`, `infinity` and `nan`. Python also accepts whitespace, underscores and non-ASCII digits.
- pet_json.py:110-115: the demographics CSV and the participants table. The CSV file is opened and a reader is created, but the reader is never used. `pandas` is never imported, so the script as written raises `NameError` at line 114 before reaching the loop. The model starts at the loop.
- pet_json.py:142, `print(json.dumps(js), indent=4)`: passes `indent` to `print`, which raises `TypeError` after the first run. The model treats it as a no-op output. The commented-out write at lines 143-144 is not modelled, so `PetJson.Run` returns the assembled sidecars instead of writing them.
- pet_json.py:99-105: the `dicom_fields` table is never used.
- PetJson.AssembleSidecar: `frame_times` is collected but never stored in the sidecar. The model returns it beside the sidecar.
- pet_json.py:124-125 opens the sidecar path ending in `.nii.gz` and parses it as JSON. The model loads whatever the tree holds at that path.
- EditBoldJson.Run: on failure the contract states only that the files written are corrected files of subject directories. It does not state which runs of which subjects were written before the failure.
