# MSCC result collection — a Dafny model

This project models the result-collection core of `compute_results_mscc.py`,
the script that gathers per-subject MSCC (maximum spinal cord compression)
measures and joins them with the clinical mJOA score:

- `DICT_DISC_LABELS`, the table from an intervertebral disc label
  (`C2/C3` … `C6/C7`) to an integer compression level (3 … 7);
- `read_MSCC`, which walks the results folder in listing order. It keeps the
  files whose name contains `_mscc` and takes the subject ID as the text before
  the first `_`. It skips excluded subjects. For every other subject it looks up
  the target level from the subject's `max_compression_level` and reports one
  row of the subject's table: the first row at that level, or else the first
  row at the nearest level. The result is the four columns `subject`, `level`,
  `MSCC` and `MSCC_norm`;
- `add_mJOA_to_df`, which fills an `mJOA` column in place, subject by subject,
  from the participants table.

Modules:

- `MsccTypes` (types.dfy): rows, participant records, output rows, the four
  columns, the first-index search both lookups use, and the error kinds. The
  errors stand for the exceptions the script raises: no participant row (an
  empty list is indexed), an unknown disc label (a failed dictionary lookup),
  an empty table (`argmin` of nothing), and an mJOA assignment whose value
  list does not match the subject's result rows (pandas' length check).
- `SubjectNames` (subject_names.dfy): the `_mscc` substring test and the
  subject-ID split.
- `DiscLevels` (disc_levels.dfy): the label table.
- `LevelSelection` (level_selection.dfy): the exact-or-nearest row choice,
  with numpy's `argmin` (first minimum) as an independent reference.
- `MsccResults` (read_mscc.dfy): `read_MSCC` as a loop over the listing,
  proved equal to a recursive specification `ReadMsccSpec`, and the lemmas
  about that specification.
- `MjoaJoin` (mjoa.dfy): the results frame as a class whose `AddMjoa` method
  updates the `mJOA` column in place, plus the read-then-join sequence of
  `main`.

Reading a table from disk is the parameter `read: string -> seq<Row>`. The
directory listing is a `seq<string>` in listing order, and the exclusion
collection is a `set<string>`. MSCC, normalised MSCC and mJOA values are
`real`s that are only copied, never computed on.

Where the code and its documentation differ, the model follows the code:

- The `-exclude` help text shows file names (`sub-1000032_T1w.nii.gz`) as
  example entries. The code compares the subject ID (text before the first
  `_`) with the entries, so such an entry never excludes anything. The model
  tests membership of the subject ID, as the code does.
- `read_MSCC` lists the folder twice (lines 94 and 101) and never uses the
  filtered first list. The model assumes both listings are the same.
- The shell pipeline scripts (the manual-or-automatic segmentation and
  disc-label resolution) are not part of this model.

## Model

| member | source | states |
|---|---|---|
| `DiscLevels.DiscLevel` | compute_results_mscc.py:26-32 | A label is known exactly when it is `C<k-1>/C<k>` for some level k in 3..7, and it maps to that k; any other label has no level |
| `DiscLevels.DiscLevelOfName` | compute_results_mscc.py:26-32 | Each level 3..7 has a label, and looking that label up gives the level back |
| `MsccTypes.FirstIndex` | compute_results_mscc.py:111-117 | The first index whose element satisfies the mask: it satisfies it, no earlier one does, and None means none does |
| `SubjectNames.Contains` | compute_results_mscc.py:103 | The substring test `pat in s` is true exactly when `pat` occurs in `s` at some index |
| `SubjectNames.SubjectId` | compute_results_mscc.py:105 | The subject ID is a prefix of the file name with no `_` in it, and it is followed by a `_` unless it is the whole name |
| `SubjectNames.SubjectIdOfJoined` | compute_results_mscc.py:105 | Splitting `id + "_" + rest` gives back `id` whenever `id` has no `_` |
| `SubjectNames.MsccFileHasSeparator` | compute_results_mscc.py:103-105 | The subject ID of an `_mscc` file is always a proper prefix of its name |
| `LevelSelection.FirstIndexOf` | compute_results_mscc.py:113-117 | The first row index at a given level: that row has the level, no earlier row has it, and None means no row has it |
| `LevelSelection.ArgMin` | compute_results_mscc.py:115 | numpy `argmin` of the distances to the target: no row is nearer, and every earlier row is strictly farther |
| `LevelSelection.SelectRow` | compute_results_mscc.py:113-117 | There is no row exactly when the table is empty. The chosen row is the first nearest to the target. If some row is at the target, the chosen row is the first such row |
| `LevelSelection.SelectRowIsArgMin` | compute_results_mscc.py:113-117 | The two-step choice (exact match, else first row at the argmin's level) always equals numpy's argmin index over the whole table |
| `LevelSelection.SelectedLevelPresent` | compute_results_mscc.py:113-120 | For a non-empty table the chosen row is a row of the table, and its level is the target exactly when the target occurs in the table |
| `LevelSelection.FirstNearestUnique` | compute_results_mscc.py:115 | At most one row is the first nearest, so first-minimum tie-breaking determines the row |
| `MsccResults.FindParticipant` | compute_results_mscc.py:111 | The first participant row whose `participant_id` is the subject, or None exactly when no row has it |
| `MsccResults.TargetLevel` | compute_results_mscc.py:111-112 | Fails with a missing-participant error when the subject has no participant row. Otherwise it succeeds exactly when the first row's label is `C<k-1>/C<k>` for k in 3..7, with level k; else it fails with that label as unknown |
| `MsccResults.ProcessFile` | compute_results_mscc.py:101-107 | A listing entry contributes nothing exactly when it is not an `_mscc` file or its subject is excluded |
| `MsccResults.ProcessFileOutcome` | compute_results_mscc.py:108-122 | A kept entry fails on a missing participant or unknown label, then on an empty table. Otherwise its row is a field-by-field copy of the first row nearest the target level, under the subject's ID |
| `MsccResults.Kept` | compute_results_mscc.py:101-107 | The kept entries are exactly the listing's `_mscc` files whose subject is not excluded, and there are no more of them than entries |
| `MsccResults.ReadMsccRows` | compute_results_mscc.py:101-126 | On success there is exactly one output row per kept entry. Row i is what the i-th kept entry in listing order contributes |
| `MsccResults.ReadMsccFails` | compute_results_mscc.py:101-126 | The run fails exactly when some kept entry fails, and then with the error of the first failing kept entry in listing order |
| `MsccResults.ReadMsccRowFacts` | compute_results_mscc.py:105-122 | Every reported subject is not excluded and has a participant row. Every reported row is a copy of a row of the table of an `_mscc` file of that subject, whose name has a `_` right after the subject ID |
| `MsccResults.Columns` | compute_results_mscc.py:119-126 | The four output columns have one entry per output row, and entry i of each column is the matching field of row i |
| `MsccResults.ReadMscc` | compute_results_mscc.py:93-127 | The loop over the listing stops at the first failure with its error. Otherwise it returns the columns of the specified rows, entry i of each column coming from row i |
| `MjoaJoin.MjoaOf` | compute_results_mscc.py:178 | A subject has an mJOA exactly when it has a participant row, and it is the `mjoa` of its first row |
| `MjoaJoin.Occurrences` | compute_results_mscc.py:178 | The number of result rows the mask `subject == s` selects: at most the row count, and 0 exactly when `s` is not a subject |
| `MjoaJoin.OccurrencesOne` | compute_results_mscc.py:178 | A subject is selected once exactly when no other result row has the same subject |
| `MjoaJoin.MsccFrame.constructor` | compute_results_mscc.py:96-126 | The frame holds the given four columns and no mJOA value yet |
| `MjoaJoin.MsccFrame.AddMjoa` | compute_results_mscc.py:175-179 | `subject`, `level`, `MSCC`, `MSCC_norm` and the row count are unchanged. It succeeds exactly when every subject has a participant row and is on one result row, and then every row's mJOA is its subject's `mjoa`. Otherwise it stops at the first subject whose assignment fails and returns it, after updating the rows of the earlier subjects |
| `MjoaJoin.CollectResults` | compute_results_mscc.py:214-217 | A failed read gives its error. After a successful read the join succeeds exactly when no subject is reported twice, and then every row gets the mJOA of its subject; otherwise it fails with a mismatch on a reported subject |
| `MjoaJoin.JoinableIffDistinct` | compute_results_mscc.py:175-179 | When every reported subject has a participant row, every assignment goes through exactly when the reported subjects are distinct |
| `MjoaJoin.TwoFilesOfOneSubject` | compute_results_mscc.py:101-122 | Two `_mscc` files of one subject are read into two rows of that subject, so the subjects are not distinct and the join fails |

## Left out

- Reading CSV and TSV files (`csv2dataFrame`, `read_participants_file`), `os.listdir`, loading the exclusion YAML file, log-file setup and the `print` calls: these are file-system and library I/O. The folder content is the `read` parameter and the listing a sequence.
- `compute_spearmans` and `gen_chart_corr_mjoa_mscc`: floating-point statistics through scipy, plotting and saving a figure.
- `SmartFormatter` and `get_parser`: command-line help formatting.
- The rest of `main`: argument parsing, the missing-YAML exit, and the undefined-name failure when the YAML file does not parse.
- The MSCC, normalised MSCC and mJOA values are floats in the script. Here they are `real`s that are only copied, so NaN and floating-point behaviour are not modelled. A NaN disc label counts as an unknown label.
- `Compression Level` is modelled as an integer column. A float or NaN level is not modelled.
- The exception types are modelled as the four `Error` values: IndexError as `MissingParticipant` (line 111), KeyError as `UnknownLabel` (line 112), ValueError as `EmptyTable` (line 115) or `MjoaMismatch` (line 178). Any output printed before the failure is not modelled.
- MjoaJoin.MsccFrame.AddMjoa: models the case where each subject has at most one participant row. Line 178 assigns a list of the subject's `mjoa` values to the rows the mask selects, and pandas (1.2 and later) raises when the two lengths differ. The model reports that failure when a subject has no participant row or is on more than one result row. With several participant rows the model uses the first row's `mjoa`, and does not model the element-wise assignment pandas makes when the two counts happen to be equal. Older pandas versions that broadcast the list are not modelled.
- MjoaJoin.MjoaOf: with several participant rows for a subject it gives the first row's `mjoa`, where pandas raises, or assigns the values element-wise when their number matches the subject's result rows.
- MsccResults.ReadMscc: assumes the two directory listings (lines 94 and 101) are the same, and does not model the filtered list built at line 95, which is never used.
