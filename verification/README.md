# Renaming guardian-call letters after registration numbers

`student_Renaming.py` downloads a spreadsheet and a zip of PDF letters. It
reads the registration numbers in cells B2:B44 and finds the letters named
`…latter_all_<n>.pdf`. It sorts the letters by `n`, and when the two lists
have the same length it renames the i-th letter to `<i-th registration
number>.pdf` in the letter's own folder. Before renaming it asks for
confirmation. It then checks that every new name exists.

This project models the decision logic of that script. The downloads, the
spreadsheet reader, the zip extraction and the directory walk are replaced
by their results: a column of cells, and the walked file paths in walk
order. The typed answer is a parameter. The file system is a map from path
to content, and the operating-system errors `os.replace` can raise are a set
of plan positions at which it fails.

Modules, in the order the script runs:

- `Text`: Python's `str.isspace` and `str.strip()`, ASCII case folding,
  `str(int)` and `int(digits)`.
- `Options`, `Seqs`: an option type, and order-preserving filtering of
  sequences.
- `Registration`: `to_clean_str` and the list comprehension over rows
  2..44.
- `Matching`: the `.pdf` filter and the search for
  `latter_all_(\d+)\.pdf$` with `re.IGNORECASE`.
- `Sorting`: the stable sort `matched.sort(key=lambda x: x[1])`.
- `Plan`: the count check, `preview_map`, and the `yes` confirmation.
- `Renamer`: the `os.replace` loop with its `errors` counter, and the
  existence check with its `ok` counter, as a method with loop invariants.
- `Workflow`: steps 2 to 9 end to end, with the outcome the script prints.

The sorted list is in non-decreasing order of suffix, not strictly
ascending. Two letters can carry the same number, for example `_01` and
`_1`, or the same name in two folders. `list.sort` is stable, so such
letters keep the order in which the walk found them; the model follows this
(`Sorting.SortBySuffixIsStableSort`, `Sorting.EqualSuffixesKeepOrder`).

## Model

| member | source | states |
|---|---|---|
| Text.Strip | student_Renaming.py:29-30 | `str.strip()` keeps a window of the string that has only whitespace before and after it and no whitespace at either end |
| Text.StripCharacterised | student_Renaming.py:29-30 | that window is unique: any string it describes is the stripped string |
| Text.StripIdempotent | student_Renaming.py:29-30 | stripping an already stripped string changes nothing |
| Text.NatToDecimal | student_Renaming.py:24-27 | `str(n)` of a natural number is a non-empty digit string with no leading zero, and `int()` reads `n` back from it |
| Text.NatToDecimalOfDigits | student_Renaming.py:24-27 | the other half of the round trip: every canonical digit string is `str()` of its own value |
| Text.IntToDecimal | student_Renaming.py:23-27 | `str(n)` of any integer starts with a minus sign exactly when `n` is negative, followed by the digits of its magnitude with no leading zero |
| Text.RendersIntUnique | student_Renaming.py:23-27 | that description fits `str(n)` alone: no zero-padded or other string renders `n` |
| Text.IntToDecimalInjective | student_Renaming.py:23-27 | different integers render as different strings |
| Registration.CleanStr | student_Renaming.py:19-30 | a missing cell gives no string and every other cell gives one; a bool gives `True` or `False`; integers and integral floats give their decimal digits; other floats and text give their rendering with surrounding whitespace stripped |
| Registration.IntegralFloatReadsAsInt | student_Renaming.py:20-27 | an integral float such as 27900124001.0 cleans to the same string as the integer it holds, with no decimal point |
| Registration.KeptValue | student_Renaming.py:48 | the comprehension's guard keeps a cell exactly when its cleaned string exists and is non-empty |
| Registration.CleanColumn | student_Renaming.py:48 | the cleaned list is no longer than the cells and none of its entries is empty |
| Registration.CleanColumnSelects | student_Renaming.py:48 | the k-th entry is the cleaned string of the k-th kept cell; kept rows increase; every cell whose cleaned string is non-empty is kept |
| Registration.CleanColumnAppend | student_Renaming.py:48 | cleaning two runs of cells and concatenating gives the cleaned concatenation, so row order is preserved |
| Registration.RowWindow | student_Renaming.py:46-47 | `iloc[1:44]` gives cells 1..43 of the column, as many as exist, in order |
| Registration.RegistrationNumbers | student_Renaming.py:46-48 | at most 43 registration numbers, none empty |
| Matching.PdfPaths | student_Renaming.py:79-83 | the discovered files are exactly the walked files whose name ends in `.pdf` in any case |
| Matching.SuffixOf | student_Renaming.py:78 | a name that carries a number has a `.pdf` extension |
| Matching.SuffixOfSound | student_Renaming.py:78 | when the search returns a number, the name ends in `latter_all_`, digits and `.pdf` (literal parts in any case), and the number is the digits' value |
| Matching.SuffixOfComplete | student_Renaming.py:78 | conversely, every name of that shape carries the value of its digits |
| Matching.SuffixOfComposed | student_Renaming.py:78 | any prefix, then `latter_all_` in any case, digits and `.pdf` in any case, matches with the digits' value |
| Matching.SuffixIgnoresLeadingZeros | student_Renaming.py:95 | `_01` and `_1` carry the same number |
| Matching.SuffixRejects | student_Renaming.py:78 | a name ending in `latter_all_` directly followed by `.pdf`, in any case and after any prefix, carries no number |
| Matching.SuffixRejectsOtherEnding | student_Renaming.py:78 | a name that does not end in `.pdf`, such as one with text after `.pdf`, carries no number |
| Matching.MatchOf | student_Renaming.py:92-96 | one iteration appends `(p, num)` exactly when the name matches, with the number the name carries |
| Matching.MatchAllMembers | student_Renaming.py:90-96 | the matched list holds exactly the discovered files whose names match, each with its number |
| Matching.MatchAllInDiscoveryOrder | student_Renaming.py:90-96 | before sorting, the k-th matched entry is the k-th matching file, at increasing positions of the discovered list |
| Matching.MatchAllAppend | student_Renaming.py:90-96 | matching two runs of files and concatenating gives the matches of the concatenation |
| Matching.MatchAllOfPdfPaths | student_Renaming.py:81-96 | the `.pdf` filter loses no letter: matching the filtered list equals matching the whole walk |
| Sorting.Insert | student_Renaming.py:99 | inserting into a sorted list keeps it sorted, adds exactly the one entry, and places it after every entry with its suffix |
| Sorting.SortBySuffix | student_Renaming.py:99 | the sorted list is a permutation of the matched list, in non-decreasing order of suffix, with entries of equal suffix in input order |
| Sorting.SortedSameOrderUnique | student_Renaming.py:99 | two sorted lists that keep the same per-suffix order are equal |
| Sorting.SortBySuffixIsStableSort | student_Renaming.py:99 | any sorted list that keeps every suffix's entries in input order is the one the sort returns |
| Sorting.EqualSuffixesKeepOrder | student_Renaming.py:99 | letters that all carry the same number stay in the order they were found |
| Plan.TargetPath | student_Renaming.py:115 | the new path is in the old path's folder and is named the registration number followed by `.pdf` |
| Plan.Pair | student_Renaming.py:113-116 | the i-th row pairs the i-th sorted letter with the i-th registration number |
| Plan.BuildPlan | student_Renaming.py:106-116 | a plan exists exactly when the counts agree; it then has one row per letter, each renaming the i-th letter to the i-th number plus `.pdf` in the same folder |
| Plan.BuildPlanReadsBack | student_Renaming.py:113-116 | the plan's sources are the sorted letters and its target names read back to the registration numbers, in order |
| Plan.BuildPlanTargetsDistinct | student_Renaming.py:113-116 | distinct registration numbers give distinct targets |
| Plan.ConfirmedIff | student_Renaming.py:120-121 | the answer confirms exactly when it is `yes`, in any mixture of case, with only whitespace around it |
| Plan.ConfirmedExamples | student_Renaming.py:120-121 | `" Yes\n"` confirms and `"y"` does not |
| Renamer.Replace | student_Renaming.py:124-129 | `os.replace` fails, changing nothing, exactly when the source is absent or the system reports an error; otherwise it moves the content to the target, overwriting it, and removes the source; no other path changes |
| Renamer.ApplyPlan | student_Renaming.py:122-129 | the failure count never exceeds the number of rows |
| Renamer.CountPresent | student_Renaming.py:133-139 | the verified count never exceeds the number of rows, and equals it exactly when every target exists |
| Renamer.RenameAll | student_Renaming.py:122-129 | the rename loop's final file system and `errors` counter are those of applying the rows in order, with no more errors than rows |
| Renamer.CountVerified | student_Renaming.py:133-139 | the verification loop counts exactly the targets that exist, at most one per row |
| Renamer.RenameAndVerify | student_Renaming.py:122-144 | steps 8 and 9 together: `errors` and `ok` are bounded by the plan's length, and completion is announced exactly when nothing failed and every target exists |
| Renamer.ApplyPlanFrame | student_Renaming.py:123-129 | a path no row mentions keeps its presence and content |
| Renamer.ApplyPlanSucceeds | student_Renaming.py:122-139 | with all sources present, no system errors and independent rows, there are no errors and every target exists |
| Renamer.ApplyPlanMovesContent | student_Renaming.py:123-129 | when in addition the targets are distinct, each target holds the content of its own row's source |
| Renamer.DuplicateTargetLosesLetter | student_Renaming.py:123-144 | when two rows share a target, as a registration number listed twice does for two letters in the same folder, the script reports no error and all targets verified, yet one letter has been overwritten |
| Workflow.Matched | student_Renaming.py:77-99 | the sorted matched list is sorted, a permutation of the matches among the discovered files, and no longer than the walk |
| Workflow.RenameLetters | student_Renaming.py:106-147 | a count mismatch stops with no plan; otherwise the plan is built, and the files change only when the answer confirms, after which errors, verified count and completion are those of the loops |
| Workflow.PairsByNumberNotByWalkOrder | student_Renaming.py:89-116 | two letters found in descending order of number are paired by number, not by walk order: the smaller number gets the first registration number, in the letter's own folder |

## Left out

- Downloading the spreadsheet and the zip, and saving them (lines 36-41 and 55-60): network and file I/O.
- Reading the spreadsheet with pandas and openpyxl (line 45): its result is the given column of cells.
- Listing and extracting the zip, and the `os.walk` scan (lines 63-73 and 79-80): the walked files are a given sequence of (folder, name) paths in walk order.
- `str()` of a non-integral float, `float.is_integer` and `pd.isna`: floating point. A cell is already classified as missing, integral float (carried by its integer value) or other float (carried by its `str()` rendering).
- `natural_sort_key` (lines 16-17): defined but never called.
- `\d` matching non-ASCII digits, and `$` matching before a final newline: names are taken to contain ASCII digits only and no newline.
- Text.Lower: folds ASCII letters only, where Python lowers every cased character. No other character lowers to one of the letters of `yes`, `latter_all_` or `.pdf`, so every comparison the script makes comes out the same.
- Console output and `os.path.relpath`: display only.
- The exceptions `os.replace` raises: a failure is an absent source or a plan position in the given set of system errors.
- Registration numbers containing path separators: a path is a (folder, name) pair, so the folder of a joined path is the folder it was joined to.
- Creating the extraction folder (`ensure_dir`, lines 32-33): file-system I/O.
