# Pruning incomplete timepoints of a DICOM series

This project models the decision logic of `dcm_nii.py`. The script cleans a
4D MR acquisition before it is converted to NIfTI, and the model covers two of
its steps:

- **Grouping.** The loaded slices are grouped by timepoint. The timepoint is
  the integer `TemporalPositionIdentifier` when present. Otherwise it is the
  real `AcquisitionTime`. Otherwise it is `0`. Groups are kept in the order in
  which their timepoint first appears. This order is the insertion order of
  the Python `defaultdict`.
- **Pruning.** The slices in each timepoint are counted. The largest count is
  taken as the size of a full volume. Every timepoint with fewer slices is
  called *incomplete*, and the files of its slices are deleted. The result is
  the list of paths deleted successfully, or nothing at all when no datasets
  were loaded.

The modules follow the script:

- `Timepoints` (`timepoints.dfy`) covers `group_by_timepoint`. It has:
  - the metadata and record types;
  - the key derivation;
  - the specification `Grouping`, a dictionary written as a key order plus a
    map of groups;
  - the method `GroupByTimepoint`, which is the script's loop, proved equal
    to `Grouping`.
- `Pruning` (`pruning.dfy`) covers `find_and_remove_incomplete_timepoints`,
  which is the rest of the pruning logic. It has:
  - the slice counts, the maximum and the incomplete list;
  - the deletion loops: `RemoveFiles`, whose inner loop over one group is
    the method `RemoveGroupFiles`;
  - the whole operation, `FindAndRemoveIncompleteTimepoints`, proved equal to
    the specification `Prune`;
  - the properties of `Prune`: what is deleted, what survives, and
    idempotence;
  - a worked example with five slices.
- `Wrappers` (`wrappers.dfy`) holds `Option`. `None` stands for the bare
  `return` in the no-datasets case. It is distinct from `Some([])`, which
  means no file was removed: either no timepoint was incomplete or every
  attempted removal failed.

`os.remove` is a parameter `deleteOk: string -> bool`. It says whether
removing a given path succeeds. A failed removal is skipped, as the script's
`except OSError` branch does.

The script returns the list of removed paths in deletion order and only
prints the per-timepoint counts; the model returns the same list and gives
the counts as the specification function `Counts`. The set of incomplete
timepoints and the sets of files tried and removed do not depend on the
order in which the records were loaded (the `...IsOrderFree` lemmas); the
order of the returned list does.

## Model

| member | source | states |
|---|---|---|
| Timepoints.Truncate | dcm_nii.py:20 | `int()` of a number: rounds toward zero, so the result lies between `x` and zero and is less than one away from `x` |
| Timepoints.IntOf | dcm_nii.py:20 | `int()` of a value: an integer is kept unchanged, a real is truncated toward zero (between the value and zero, less than one away) |
| Timepoints.RealOf | dcm_nii.py:22 | `float()` of a value: an integer becomes the same number, a real is kept unchanged |
| Timepoints.DeriveKey | dcm_nii.py:19-25 | the key is the identifier when `TemporalPositionIdentifier` is present; otherwise it is the acquisition time when `AcquisitionTime` is present; otherwise it is 0 |
| Timepoints.KeysOfEqualValuesCollide | dcm_nii.py:19-26 | an identifier `n` and an acquisition time `n` give the same dictionary key; a dataset with neither field shares the key of identifier 0 |
| Timepoints.IdentifierOutranksAcquisitionTime | dcm_nii.py:19-22 | once `TemporalPositionIdentifier` is present, adding, changing or removing `AcquisitionTime` leaves the key unchanged |
| Timepoints.KeyReadsOnlyTimeAttributes | dcm_nii.py:19-25 | two datasets that agree on the presence and value of both time attributes get the same key, whatever their other attributes |
| Timepoints.GroupByTimepoint | dcm_nii.py:10-27 | the grouping loop returns exactly `Grouping(records)`: the key order and every group are those of the specification |
| Timepoints.Grouping | dcm_nii.py:16-27 | the dict that grouping builds: keys in first-appearance order, each mapped to its records in input order; what it promises is stated by `KeyOrderIsDistinctKeys`, `GroupingPartitions`, `GroupsAreNonEmpty`, `GroupKeepsInputOrder`, `GroupSizesAddUp` and `KeysInFirstAppearanceOrder` |
| Timepoints.KeyOrderIsDistinctKeys | dcm_nii.py:16-26 | the dictionary's keys have no repeats and are exactly the keys derived from some record |
| Timepoints.KeysInFirstAppearanceOrder | dcm_nii.py:16-26 | key `a` comes before key `b` in the order exactly when the first record with key `a` comes before the first record with key `b` |
| Timepoints.GroupingPartitions | dcm_nii.py:16-26 | every record is in the group of its own key, as often as it occurs in the input, and in no other group |
| Timepoints.GroupsAreNonEmpty | dcm_nii.py:16-26 | the domain of the groups map is exactly the key order; every group is non-empty (every `groups[t]` that creates a list is followed at once by `append`, dcm_nii.py:26) |
| Timepoints.GroupKeepsInputOrder | dcm_nii.py:17-26 | a group lists exactly the records with its key, at strictly increasing input positions |
| Timepoints.GroupSizesAddUp | dcm_nii.py:16-26 | the group sizes sum to the number of records: nothing is lost or duplicated |
| Pruning.SliceCountsAddUp | dcm_nii.py:52 | the counts have one entry per timepoint, equal to the size of its group, and the counts sum to the number of slices |
| Pruning.SliceCounts | dcm_nii.py:52 | `slice_counts`: one entry for every key of the groups, equal to the length of that group |
| Pruning.MaxCount | dcm_nii.py:56 | `max` over the counts is an upper bound on every count and equals some timepoint's count |
| Pruning.IncompleteTimepoints | dcm_nii.py:59 | a timepoint is listed exactly when it is a key and its count is below the maximum; the list has no repeats when the keys have none |
| Pruning.IncompleteTimepointsKeepOrder | dcm_nii.py:59 | the incomplete list is a subsequence of the key order: its entries sit at strictly increasing positions, so deletion follows insertion order |
| Pruning.IncompleteTimepointsSize | dcm_nii.py:59 | the incomplete list is no longer than the key list; it is strictly shorter when some count reaches the maximum; it is empty when every count does |
| Pruning.IncompleteIffBelowMax | dcm_nii.py:52-59 | for the loaded records, a timepoint is incomplete exactly when it is one of the timepoints and its group is smaller than the largest group |
| Pruning.SomeTimepointIsComplete | dcm_nii.py:56-59 | no group is larger than the maximum; some timepoint reaches the maximum and is not incomplete; fewer timepoints are incomplete than exist |
| Pruning.EqualCountsRemoveNothing | dcm_nii.py:56-70 | when all timepoints have the same count, that count is the maximum and nothing is deleted |
| Pruning.SingleTimepointRemovesNothing | dcm_nii.py:52-70 | a series with one timepoint has one group, no incomplete timepoint, no deletion attempt, and the result is an empty list |
| Pruning.DeletedExactly | dcm_nii.py:66-70 | a path is kept in the removed list exactly when it was attempted and its removal succeeded |
| Pruning.RemoveGroupFiles | dcm_nii.py:65-70 | the inner loop attempts the group's paths in order, after the earlier ones, and records exactly the attempts that succeed |
| Pruning.GroupOf | dcm_nii.py:65 | `groups[t]` on the defaultdict: the stored group for a present key, an empty list for a missing one; the script would also insert a missing key, which never happens because every timepoint read there is already a key (`IncompleteAreKeys`) |
| Pruning.IncompleteAreKeys | dcm_nii.py:59-65 | every incomplete timepoint is a key of the groups with a non-empty group, so the read `groups[t]` never inserts a key |
| Pruning.RemoveFiles | dcm_nii.py:63-70 | the nested loop attempts the paths of the incomplete groups, group by group, in order; it returns exactly the successful attempts in that order |
| Pruning.FindAndRemoveIncompleteTimepoints | dcm_nii.py:43-73 | the whole operation equals `Prune`; it returns `None` exactly when there are no datasets, and then attempts nothing |
| Pruning.Prune | dcm_nii.py:43-73 | what the function returns: `None` without datasets, otherwise the successful deletions among the attempted paths, in order; what it promises is stated by `RemovedExactly`, `SurvivorsAreComplete` and the idempotence and order-freedom lemmas |
| Pruning.AttemptsExactly | dcm_nii.py:59-67 | a path is attempted exactly when some record has it and that record's group is smaller than the largest group |
| Pruning.RemovedExactly | dcm_nii.py:59-70 | with datasets present, the result is a list; a path is in it exactly when it belongs to a record of an incomplete timepoint and its removal succeeded |
| Pruning.AttemptedIffIncomplete | dcm_nii.py:59-67 | when paths are distinct, a record's file is attempted exactly when its timepoint is incomplete |
| Pruning.CompleteTimepointsUntouched | dcm_nii.py:59-67 | when paths are distinct, no file of a timepoint that has the maximum count is attempted |
| Pruning.FullyRemovedIffIncomplete | dcm_nii.py:59-70 | when paths are distinct and every removal succeeds, a record's file is removed exactly when its timepoint is incomplete |
| Pruning.SurvivingGroups | dcm_nii.py:59-70 | after a fully successful pruning, an incomplete timepoint's surviving group is empty and a complete timepoint's group is unchanged |
| Pruning.SurvivorsAreComplete | dcm_nii.py:56-70 | after a fully successful pruning, a record remains exactly when it was loaded and its timepoint had the maximum count |
| Pruning.SurvivorsNonEmpty | dcm_nii.py:56-70 | after a fully successful pruning, some slices remain |
| Pruning.PruningIsIdempotent | dcm_nii.py:43-73 | after a fully successful pruning of records with distinct paths, running the pruning again on the surviving slices deletes nothing, whatever the second removals do |
| Pruning.GroupSizeIsOrderFree | dcm_nii.py:52 | any reordering of the same records gives every timepoint the same slice count |
| Pruning.TimepointsAreOrderFree | dcm_nii.py:16-26 | any reordering of the same records gives the same set of timepoints |
| Pruning.MaxSlicesIsOrderFree | dcm_nii.py:56 | any reordering of the same non-empty records gives the same maximum count |
| Pruning.IncompleteIsOrderFree | dcm_nii.py:52-59 | any reordering of the same records gives the same set of incomplete timepoints |
| Pruning.AttemptsAreOrderFree | dcm_nii.py:59-67 | any reordering of the same records tries to delete the same set of paths |
| Pruning.RemovedIsOrderFree | dcm_nii.py:43-73 | any reordering of the same records gives `None` in the same case and otherwise removes the same set of paths |
| Pruning.SurvivingCountsAreComplete | dcm_nii.py:56-70 | after a fully successful pruning, every timepoint that still has slices has exactly the maximum count |
| Pruning.PruningIsIdempotentInAnyOrder | dcm_nii.py:43-73 | after a fully successful pruning, pruning the surviving slices again, loaded in any order, deletes nothing |
| Pruning.ExampleGrouping | dcm_nii.py:16-27 | slices A, B, C at timepoint 1 and D, E at timepoint 2 give keys [1, 2] with groups [A, B, C] and [D, E] |
| Pruning.ExamplePrune | dcm_nii.py:43-73 | in that example, timepoint 2 is the only incomplete one; D and E are attempted and removed, in that order |

## Left out

- `load_dicom_series` (dcm_nii.py:29-41) is not modelled. It lists a directory, reads files with pydicom and skips unreadable ones. The model takes its output as the input sequence of `(metadata, path)` records, in directory-listing order.
- `os.remove` is the oracle `deleteOk`, which is fixed for the whole run. The model does not capture that deleting the same path a second time would fail. So when two records share a path, the model reports it removed twice.
- Shared paths are not modelled in the lemmas about which records' files are touched or survive (`AttemptedIffIncomplete`, `CompleteTimepointsUntouched`, `FullyRemovedIffIncomplete`, `SurvivingGroups`, `SurvivorsAreComplete`, `SurvivorsNonEmpty`, `SurvivingCountsAreComplete` and both idempotence lemmas). They require `PathsDistinct`, which the directory listing guarantees. Without it, a path shared by a complete record and an incomplete record would be attempted as well.
- The console messages (dcm_nii.py:46, 53, 60, 70, 72) are left out. They are output only and affect no result.
- The hard-coded directories, the unused `dicom2nifti` import and the `__main__` block (dcm_nii.py:5-8, 75-77) are configuration and entry point, not logic.
- `slice_timing.py` is not part of this model. It is not part of the pruning logic.
- Parsing of DICOM string values is left out. The `int()`/`float()` conversion of strings is modelled as already done: a field already holds an integer or a real, and `int()` of a real truncates toward zero. Malformed or empty values, on which `int()`/`float()` raise `ValueError` in the script and abort the run (nothing catches it), are not modelled.
- Timepoints.DeriveKey: acquisition times are exact reals, so the rounding of `float(ds.AcquisitionTime)` to a double is not modelled, and neither is a NaN key (which never compares equal as a dictionary key). Identifiers need no rounding: `int()` gives an exact Python integer, and Python compares integer and float keys exactly, as the model's reals do.
- Only the value of `max` is modelled, not which timepoint attains it. `max` of an empty sequence cannot happen, because the empty-datasets case returns first.
