# INbreast mass-dataset assembly, modelled in Dafny

This project models the core of the INbreast annotation pipeline. It has three parts:

- **dicom_annotation.py** turns one row of the INbreast spreadsheet into an annotation record. It cleans each cell, decides benign or malignant from the BI-RADS value and the Portuguese findings notes, and builds the composite category string (`Density2+Malignant`).
- **dicom_converter.py** builds the mass dataset. It groups the annotation records by category, keeping only the eight categories of the quota table `EXPECTED_COUNTS`. It then takes at most the quota of each category, with a seeded draw without replacement when there are more. It converts each selected case, rescaling the pixels of each image to 8 bits (`normalize_dicom`). Finally it tallies successes and failures against the quota table.
- **count.py** audits the annotation file. It counts the mass categories, compares them with the same table, lists missing and unexpected categories, and counts the density distribution.

The Dafny modules follow that structure:

| file | module | models |
|---|---|---|
| base.dfy | `Base` | `Option`, `Result`, `Min` |
| strings.dfy | `Strings` | `str.strip()` with Python's whitespace set, ASCII `lower()`, `startswith`, the substring test `in` |
| counters.dfy | `Counters` | `defaultdict(int)` / `Counter` lookup and `+= 1`, and the sum of the counts |
| quota.dfy | `Quota` | the quota table shared by dicom_converter.py and count.py, and the expected/actual table loop both scripts run |
| records.dfy | `Records` | an annotation as read back from `all_annotations.json`; each key that may be missing is an `Option` |
| dicom_annotation.dfy | `DicomAnnotation` | `clean_value`, `get_mass_type`, `create_annotation` |
| pixel_normalize.dfy | `PixelNormalize` | `normalize_dicom` |
| dicom_converter.dfy | `DicomConverter` | `load_annotations`, `select_cases`, the conversion loop and the totals of `main` |
| count_audit.dfy | `CountAudit` | the counting in `print_comparison_table` |

How the source's effects are stood in for:

- **The random draw.** `np.random.seed(42)` runs right before each `np.random.choice(available, k, replace=False)`. That draw takes the first `k` entries of a permutation of `range(len(available))`, so which positions it takes depends only on the pool size and `k`. The model therefore receives the chooser as a parameter `pick(n, k)`. The only requirement (`IsSampler`) is that, for `k < n`, it returns `k` distinct positions below `n`.
- **The conversion.** The result of converting one case is the parameter `outcomeOf`: converted, file not found, conversion failed, or an exception with its message. The file search, the DICOM reading and the PNG writing are outside the model.
- **Image information and file names.** `get_dicom_info` and the file-name conversion `str(int(float(...)))` become the parameters `imgInfo` and `fileNameOf`.
- **Pixel arithmetic.** Pixels are unbounded integers. The rescale `(p - min) * 255.0 / (max - min)` followed by `astype('uint8')` truncates a non-negative quotient, so it is floor division in exact arithmetic, and no clamp is needed because `Scale` is proved to stay within 0..255. The output type `uint8` is a newtype over 0..255, so every conversion in `NormalizeDicom` is a proof that the value fits.

## Model

| member | source | states |
|---|---|---|
| Strings.Strip | dicom_annotation.py:13 | the result is the input with its leading and trailing Python whitespace removed: a contiguous slice, everything outside it is whitespace, and a non-empty result starts and ends with a non-space |
| Strings.StripIdempotent | dicom_annotation.py:13 | stripping a stripped string changes nothing |
| Strings.ContainsIffOccurs | dicom_annotation.py:35 | the substring test holds exactly when the needle occurs at some position of the text |
| Strings.LowerKeepsOccurrence | dicom_annotation.py:20 | lower-casing a text keeps the lower-cased form of every word occurring in it |
| Counters.Increment | dicom_converter.py:116 | `+= 1` on a defaultdict: the key is added, its count rises by one, and every other count is unchanged |
| Counters.SumValuesIncrement | count.py:29 | each `+= 1` raises the sum of all counts by exactly one |
| Quota.QuotaKeysShape | dicom_converter.py:11-20 | every quota category contains '+', but not right after "Density" |
| Quota.NotQuotaKey | dicom_converter.py:11-20 | a string without '+', or with '+' right after "Density", is no quota category |
| Quota.ExpectedCountsFacts | dicom_converter.py:11-20 | the quota table has eight distinct categories, each naming a density and a mass type (a '+'), and asks for 106 cases in total |
| Quota.SumOverIsSumValues | dicom_converter.py:134-139 | when every counted key is in the table, adding up the counts row by row gives the sum of all counts |
| Quota.CompareToTable | count.py:37-46 | one row per table entry in table order, with the quota, the count (0 when absent) and their difference; the totals are the column sums; the total difference is the sum of the row differences |
| DicomAnnotation.CleanValue | dicom_annotation.py:8-15 | a missing value stays missing; text is stripped and becomes missing when nothing is left; anything else is unchanged; a cleaned text is never empty or padded |
| DicomAnnotation.CleanValueIdempotent | dicom_annotation.py:8-15 | cleaning a cleaned value changes nothing |
| DicomAnnotation.GetMassType | dicom_annotation.py:17-38 | there is a mass type exactly when the mass column is ticked "X"; a malignant type implies the notes mention neither "benigno" nor "normal" |
| DicomAnnotation.NoMassIgnoresBirads | dicom_annotation.py:22-24 | without a ticked mass the type is none, whatever the BI-RADS value |
| DicomAnnotation.NumericBirads | dicom_annotation.py:27-28 | a numeric BI-RADS gives malignant exactly when it is at least 4, unless the notes override |
| DicomAnnotation.TextBirads | dicom_annotation.py:29-30 | a textual BI-RADS gives malignant exactly when its stripped text starts with 4, 5 or 6, unless the notes override |
| DicomAnnotation.AbsentBiradsIsBenign | dicom_annotation.py:31-32 | a missing BI-RADS value, or one that is neither number nor text, gives benign |
| DicomAnnotation.FindingsMakeBenign | dicom_annotation.py:35-38 | notes mentioning "benigno" or "normal" make a ticked mass benign |
| DicomAnnotation.FindingsOverrideBirads | dicom_annotation.py:35-36 | the override holds whatever the BI-RADS value |
| DicomAnnotation.OverrideIgnoresCase | dicom_annotation.py:20 | the notes are lower-cased before the test, so "Benigno" anywhere in them makes the mass benign |
| DicomAnnotation.TruncateTowardZero | dicom_annotation.py:63 | `int()` of a float drops the fraction toward zero |
| DicomAnnotation.ParseInt | dicom_annotation.py:63 | `int()` of a stripped string accepts exactly digits, or '-' or '+' followed by digits, and gives their value with that sign; an accepted string ends in a digit, and one starting with a digit gives a non-negative value |
| DicomAnnotation.DigitsValueOfDecimal | dicom_annotation.py:63 | reading back the digits `str()` prints for a natural number gives that number |
| DicomAnnotation.ParseIntOfDecimal | dicom_annotation.py:63 | `int()` inverts `str()` on natural numbers, unsigned, with '-' and with '+' |
| DicomAnnotation.DensityValue | dicom_annotation.py:63 | `int(density) if density else None` raises exactly for text `int()` rejects or a value that is neither number nor text; it gives `None` exactly for a missing density or the number 0 |
| DicomAnnotation.DensityOfDecimal | dicom_annotation.py:63 | a density cell holding the digits of `n` reads as `n`, and so does the positive whole number `n` |
| DicomAnnotation.Category | dicom_annotation.py:50-53 | the category is "Density", then the density as `str()` prints it, then '+' and the mass type's name exactly when there is a mass type |
| DicomAnnotation.CreateAnnotation | dicom_annotation.py:40-83 | no record exactly when there is no image information; with image information it raises exactly when the file name cannot be converted or the density cannot be read, the file name first; a built record carries the converted file name, the image information, the density value, `get_mass_type`'s type, the category string built from the density and that type, the cleaned BI-RADS, laterality, view and date, the four "X" flags (mass, calcification, distortion, asymmetry) and the cleaned notes and lesion status |
| DicomAnnotation.CategoryMarksMass | dicom_annotation.py:50-53 | a category with a mass type contains '+'; one without a mass type has no '+' unless the density text brings one |
| DicomAnnotation.MassFlagAgreement | dicom_annotation.py:47-74 | in a built record, the mass flag is set exactly when there is a mass type, and exactly when the category contains '+' (given a density text without '+') |
| DicomAnnotation.PlusOnlyAsSign | dicom_annotation.py:63 | in density text `int()` accepts, a '+' can only be the leading sign |
| DicomAnnotation.NoMassCategoryOutsideQuota | dicom_annotation.py:50-53 | without a mass type, a missing density, a density text `int()` accepts, or a number printed without '+' gives a category outside the quota table |
| DicomAnnotation.QuotaCategoriesHaveMass | dicom_annotation.py:50-53 | a built record whose category is in the quota table has its mass flag set, for a missing or textual density unconditionally and for a numeric one given its printed form has no '+' |
| PixelNormalize.MatrixMin | dicom_converter.py:25 | `min()` is a lower bound of every pixel and is attained by some pixel |
| PixelNormalize.MatrixMax | dicom_converter.py:25 | `max()` is an upper bound of every pixel and is attained by some pixel |
| PixelNormalize.Scale | dicom_converter.py:26 | the rescaled value lies in 0..255; the minimum maps to 0 and the maximum to 255 |
| PixelNormalize.ScaleMonotone | dicom_converter.py:26 | the rescale never reverses the order of two pixel values |
| PixelNormalize.NormalizeDicom | dicom_converter.py:22-29 | an error exactly for an array without pixels (`min()` raises); otherwise a `uint8` matrix of the same shape |
| PixelNormalize.ConstantImageIsBlack | dicom_converter.py:27-28 | a constant image comes out all zeros |
| PixelNormalize.ExtremesMapToEnds | dicom_converter.py:25-26 | in a non-constant image the darkest pixels become 0 and the brightest 255, so the output spans 0..255 |
| PixelNormalize.NormalizeMonotone | dicom_converter.py:26 | a brighter input pixel never comes out darker |
| PixelNormalize.WrapInt16 | dicom_converter.py:26 | `int16` arithmetic wraps results into -32768..32767, agreeing with the exact result modulo 65536, and leaves values that fit unchanged |
| PixelNormalize.RescaledInt16AsWritten | dicom_converter.py:26 | the source's quotient on an `int16` array, both differences wrapped; while both differences fit it equals the exact quotient |
| PixelNormalize.AsWrittenAgreesForNarrowSpan | dicom_converter.py:26-29 | while the pixel span fits in `int16`, the source's float quotient truncates to exactly `Scale` |
| PixelNormalize.WideInt16SpanLeavesRange | dicom_converter.py:26 | an `int16` image spanning -30000..30000 makes the source's quotient negative at pixel 0, where the intended rescale gives 127 |
| DicomConverter.InCategory | dicom_converter.py:51-54 | the records of one category, as many as there are records with it |
| DicomConverter.InCategoryMembers | dicom_converter.py:51-54 | a record is kept exactly when it is in the input and carries that category |
| DicomConverter.InCategoryAppend | dicom_converter.py:50-54 | filtering by category commutes with concatenation, so input order survives within a category |
| DicomConverter.LoadAnnotations | dicom_converter.py:43-56 | a key exists exactly for each quota category that some record carries, and holds that category's records in input order |
| DicomConverter.GroupsOfFacts | dicom_converter.py:49-54 | every grouped record has its group's category, and a quota category's pool is all its records |
| DicomConverter.DrawIsSubMultiset | dicom_converter.py:70-71 | a draw without replacement takes no record more often than it occurs in the pool |
| DicomConverter.SelectFor | dicom_converter.py:63-73 | one category's share: `min(quota, available)` cases; the whole pool when it does not exceed the quota; never a record more often than available |
| DicomConverter.SelectShare | dicom_converter.py:63-73 | the three branches of the selection loop compute exactly that share |
| DicomConverter.SelectCases | dicom_converter.py:58-77 | the selection is the shares concatenated in table order |
| DicomConverter.SelectionSize | dicom_converter.py:58-77 | the selection has one share per category and never more cases than the total quota |
| DicomConverter.SelectionCategories | dicom_converter.py:62-75 | every selected case carries a category of the table |
| DicomConverter.SelectionPerCategory | dicom_converter.py:62-75 | read back per category, the selection is exactly that category's share |
| DicomConverter.SelectionFromAnnotations | dicom_converter.py:87-90 | per quota category, grouping then selecting yields that category's share of all its annotations |
| DicomConverter.FailureReason | dicom_converter.py:101-122 | a case counts as a success exactly when it has a category and its conversion returned True |
| DicomConverter.FailureReasonMessages | dicom_converter.py:101-122 | a missing 'classification' or 'category' key fails with the quoted key, the same whatever the file gives; a caught exception fails with its own message |
| DicomConverter.SelectionIsShares | dicom_converter.py:58-90 | over quota categories, selecting from the grouped pools is, entry by entry in table order, selecting from each category's annotations |
| DicomConverter.SuccessHasCase | dicom_converter.py:115-116 | a category with a success has a selected case of that category |
| DicomConverter.TallyOutcomes | dicom_converter.py:98-122 | each category's success count is the number of its converted cases; the failures list, in order, every case that was not found, failed to convert or raised, with its reason; successes plus failures equal the number of cases |
| DicomConverter.LoadAndSelect | dicom_converter.py:87-90 | the selection is the categories' shares of the annotations, concatenated in table order; per quota category it is that category's share; every selected case has a quota category; at most 106 are selected |
| DicomConverter.ConvertSelected | dicom_converter.py:79-144 | as `LoadAndSelect`; each row reports its category's quota, its number of successes and their difference; the expected total is 106 and the sum of the expected column; the converted total is the sum of the converted column; the total difference is the sum of the row differences; converted plus failed equals the number selected |
| CountAudit.CountCategories | count.py:24-29 | each category containing '+' has its number of records as count; nothing else is counted; every key has a positive count |
| CountAudit.SumCategoryCountsIsInTable | count.py:40-46 | adding up the table's category counts gives the number of records whose category is in the table |
| CountAudit.SumOverCategoryCounts | count.py:40-46 | row by row, the actual column is the number of records in each table category |
| CountAudit.CountDensities | count.py:73-76 | each density value has its number of records as count, and the counts add up to the number of records with a density key |
| CountAudit.PrintComparisonTable | count.py:5-76 | each row reports its quota, its number of records and their difference; the expected total is 106 and the sum of the expected column; the actual total is the sum of the actual column and counts the records in a table category; the total difference is the sum of the row differences; a table category is missing exactly when no record has it; an unexpected category is a counted one outside the table; missing and unexpected are disjoint; each density's count is its number of records, and the counts cover every record with a density key |

## Left out

- File and console I/O are not modelled: reading the spreadsheet and the JSON file, globbing for DICOM files, `pydicom`/PIL reading and writing, `mkdir`, `tqdm` and every `print`. The values read become inputs, and the values printed become results.
- `get_dicom_info` is not part of this model. Its result, or `None`, is the parameter `imgInfo`.
- `str(int(float(...)))` of the 'File Name' cell is the parameter `fileNameOf`. It returns `None` where the source raises.
- `np.random.choice`'s permutation algorithm is not modelled. Only the properties of a seeded draw without replacement are assumed of the chooser `pick`.
- PixelNormalize.NormalizeDicom: it computes in exact integers, not float64. Floor division agrees with the truncated float quotient while that quotient is exact. `AsWrittenAgreesForNarrowSpan` proves the agreement over real numbers, not over float64 rounding.
- DicomAnnotation.OverrideIgnoresCase: `Strings.Lower` lower-cases ASCII only. Python's `lower()` maps only two non-ASCII characters to ASCII letters: the Kelvin sign goes to `k`, and `İ` goes to `i` followed by a combining dot. Neither can complete an occurrence of "benigno" or "normal", so the override decides the same either way.
- DicomAnnotation.CreateAnnotation: it parses density text as an optional sign followed by ASCII digits. Python's `int()` also accepts underscores between digits and non-ASCII digits; those give `BadDensity` here.
- CountAudit.CountDensities keys the density histogram by the density value (`None` for JSON null) rather than by the label string `f"Density {v}"`. Distinct values give distinct labels, so the counts are the same.
- DicomAnnotation.QuotaCategoriesHaveMass: a number's printed form (`str()` of the float) is a parameter of the `Number` cell, not computed from its value. So for a numeric density the lemma requires that form to hold no '+'. Python's `str()` of a float never prints a digit followed by '+' and a mass name, which is what a quota category would need.
- A spreadsheet without a column the source indexes directly ('Bi-Rads', 'ACR', 'File Name', ...) raises `KeyError`. The row type always has every column.
- A selected record without a `filename` key raises `KeyError` before `filename` is assigned. The `except` branch then records the previous record's file name; on the first case `filename` was never bound, so the handler itself raises `UnboundLocalError` and ends `main`. The record type always has a file name, so neither path is modelled.
- `category_annotations[category]` on the defaultdict also inserts an empty list for a category without records. `Available` reads such a category as empty and does not model the insertion, which the source never observes.
- The scripts around the core are outside this model, because each works on image files or a plot through libraries:
  - clahe.py: contrast enhancement of the greyscale PNGs with OpenCV's CLAHE;
  - data_augmentation.py: the configuration of an albumentations pipeline (rotations, flips, intensity adjustments);
  - Comb_Auп_for_Orig_and_CLAHE_Images.py: rotating, padding and flipping (horizontally and vertically) the original and the contrast-enhanced images;
  - distribution.py: a bar chart of hard-coded class counts;
  - aug_counts.py: counting the files on disk in each augmented category directory with `Path.glob`.

## Findings

| source | as written | input that shows it | evidently intended | confidence | as-written member | corrected member |
|---|---|---|---|---|---|---|
| dicom_converter.py:26 | `pixel_array - pixel_array.min()` and `pixel_array.max() - pixel_array.min()` are computed in the array's own dtype; for a signed `int16` pixel array they wrap modulo 2^16 once the span exceeds 32767 | an `int16` image with pixels -30000 and 30000: the span wraps to -5536, and pixel 0 rescales to a negative value that `uint8` cannot hold | the exact rescale `(p - min) * 255 / (max - min)` into 0..255 (pixel 0 gives 127); unsigned 16-bit data, as INbreast stores it, is not affected | not executed | PixelNormalize.WideInt16SpanLeavesRange | PixelNormalize.Scale |
