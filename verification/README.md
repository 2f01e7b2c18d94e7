# Image comparison tool: a Dafny model

This project models the deterministic core of the image comparison tool, a
Python command-line tool. It compares two images, or two folders of images,
by structural similarity (SSIM).

The numerical work is delegated to OpenCV and scikit-image. Here those calls
are uninterpreted function-valued fields of a `Library` value:

- `resize`, `rgbToGray`, `ssim`, `toUint8` and `addWeighted`.
- Only the shapes they promise are assumed, through `LibraryContract`.

The filesystem is a `Disk` value with the same treatment. It has `pathExists`,
`imread`, `listdir`, `makedirs` and `imwrite`, constrained by `DiskContract`.

What the model does decide and prove:

- **utils.py**, in module `ImageUtils`:
  - format validation, with the semantics of Python's `os.path.splitext` and `str.lower`;
  - the common-size rule `(min h, min w)`;
  - the grayscale dispatch;
  - the side-by-side montage;
  - image loading, with its channel swap and its two errors;
  - saving of a diff image.
- **comparator.py**, in module `Comparator`:
  - the `compare_images` pipeline, with its error precedence and its result record;
  - the structure of the visual diff;
  - the comparator's `results` state;
  - the text of `get_summary`;
  - the continue-on-error batch loop `compare_multiple_pairs`.
- **main.py**, in module `Cli`:
  - listing a folder's image files, filtered and sorted;
  - pairing by position;
  - success, failure and average statistics;
  - diff file naming and saving;
  - the dispatch of `main`;
  - the two command flows, `compare_single_images` and `compare_batch_images`.

Supporting modules:

- `Wrappers`: `Option` and `Result`. A Python exception becomes a `Failure` carrying its message.
- `Text`: ASCII lower-casing, `rfind`, and `str(n)` for natural numbers.
- `Ordering`: Python's string order and `sorted`.
- `Paths`: `posixpath.splitext`, `join` and `dirname`.
- `Images`: shapes, images, and the two foreign-call records.

An image is `Image(shape, rows)`. Its shape is `Shape(height, width, layout)`,
where the layout is `Planar` (a 2-D array) or `Interleaved(c)` (a 3-D array
with `c` channels). The comparator object is the immutable value
`ImageComparator(results)`, and a call that would mutate it returns the new value.

## Model

| member | source | states |
|---|---|---|
| `ImageUtils.ValidateIffSupportedSuffix` | utils.py:129-131 | a path is accepted exactly when its lower-cased form ends in one of the six supported extensions, and the part of its last component before that extension is not empty or all dots |
| `ImageUtils.ValidateIgnoresCase` | utils.py:130 | validation gives the same answer for a path and its lower-cased form |
| `ImageUtils.ValidateAcceptsJpg` | utils.py:129-131 | `test.jpg` is accepted |
| `ImageUtils.ValidateAcceptsPng` | utils.py:129-131 | `test.png` is accepted |
| `ImageUtils.ValidateAcceptsUpperCase` | utils.py:130-131 | `A.PNG` is accepted |
| `ImageUtils.ValidateRejectsText` | utils.py:129-131 | `test.txt` is rejected |
| `ImageUtils.ValidateRejectsBareExtension` | utils.py:130-131 | `.png` has no extension (a leading dot does not start one), so it is rejected |
| `ImageUtils.ValidateRejectsDotInDirectory` | utils.py:130-131 | `dir.png/file` is rejected: the extension comes only from the last path component |
| `Paths.ExtIffEndsWith` | utils.py:130 | `splitext` yields a given single-dot extension exactly when the path ends with it after a name that is not all dots, in both directions |
| `Paths.ExtOfJoin` | main.py:150-151 | joining a folder to a separator-free file name does not change the name's extension |
| `Paths.Dirname` | utils.py:87 | the directory part is empty exactly when the path has no separator |
| `ImageUtils.CommonSize` | utils.py:46-51 | the target height and width are each no larger than either input's, and equal to one of them |
| `ImageUtils.CommonSizeIsGreatest` | utils.py:50-51 | every size that fits inside both inputs fits inside the target, so the target is the minimum |
| `ImageUtils.CommonSizeSymmetricAndStable` | utils.py:50-51 | the target does not depend on argument order, and is the common size when the inputs already share one |
| `ImageUtils.ResizeToCommonSize` | utils.py:46-57 | for non-empty inputs, both outputs are well formed and have the target height and width; each keeps its layout, except that a one-channel 3-D array comes back 2-D, as `cv2.resize` returns it |
| `ImageUtils.ConvertToGrayscale` | utils.py:70-72 | a 2-D input is returned unchanged; a 3- or 4-channel input gives a 2-D image of the same height and width |
| `ImageUtils.HStack` | utils.py:115 | stacking succeeds exactly when heights and layouts agree; each output row is the left row followed by the right row |
| `ImageUtils.SideBySide` | utils.py:112-116 | for non-empty inputs, the montage succeeds exactly when the resized layouts agree; it has height `min(h1,h2)` and width `2*min(w1,w2)`; its halves are the two resized images |
| `ImageUtils.SwapRedBlueInvolution` | utils.py:31 | the RGB/BGR channel swap undone by itself is the identity |
| `ImageUtils.LoadImage` | utils.py:22-32 | a missing file gives "Image file not found", an undecodable one gives "Cannot load image"; on success the image is a well-formed 3-channel array whose channel swap is what was decoded |
| `ImageUtils.ToBgr` | utils.py:89-93 | the conversion succeeds exactly for a non-empty 2-D array or a non-empty array with 3 or 4 channels, otherwise it fails with `CVT_COLOR_ERROR`, which stands for `cv2.cvtColor`'s error; a 2-D sample is repeated in three channels, and a 3-D pixel becomes its first three samples reversed (alpha dropped) |
| `ImageUtils.RgbToBgrIsSwap` | utils.py:89-91 | on three channels the save conversion `COLOR_RGB2BGR` is the same permutation as the load conversion `COLOR_BGR2RGB` |
| `ImageUtils.ToBgrOfLoaded` | utils.py:30-31 | converting a loaded image for saving gives back exactly the array decoded from its file |
| `ImageUtils.SaveDiffImage` | utils.py:86-97 | as written: saving succeeds exactly when creating the path's directory part, the BGR conversion and the write all succeed, and then returns the path; an unconvertible array fails with `CVT_COLOR_ERROR` after the directory is created. Success means that no step raised |
| `ImageUtils.SaveBareNameFails` | utils.py:87 | as written, a path without a separator can never be saved, whatever the filesystem does |
| `ImageUtils.SaveBareNameCounterexample` | utils.py:87 | `out.png` fails as written and succeeds in the corrected version when the write succeeds |
| `ImageUtils.SaveDiffImageFixed` | utils.py:86-97 | corrected: the directory is created only when the path has one; success otherwise depends on the BGR conversion and the write alone, and an unconvertible array fails with `CVT_COLOR_ERROR` |
| `ImageUtils.SaveVariantsAgree` | utils.py:87 | both versions behave identically on every path containing a separator |
| `ImageUtils.DefaultDiffPathHasDirectory` | utils.py:75 | the default diff path has a directory part and a supported extension |
| `Comparator.Overlay` | comparator.py:100-108 | the overlay has the map's height and width and three channels; channel 0 is the byte-cast of 255 times the SSIM value, and channels 1 and 2 are 0 |
| `Comparator.VisualDiff` | comparator.py:111-114 | for a 3-channel image of the map's size, the blend is well formed with that image's shape |
| `Comparator.VisualDiffIgnoresSecondImage` | comparator.py:87-114 | the visual diff does not depend on the second image |
| `Comparator.GrayPair` | comparator.py:40-44 | for non-empty inputs that convert, both grayscale images are 2-D with the common target size |
| `Comparator.Analyse` | comparator.py:39-80 | on success, the score is the SSIM score; the percentage is the score times 100; the two percentages sum to 100; identical holds exactly when the gray arrays are equal; original shapes are echoed; both resized shapes are the 3-channel target; the diff has that shape and can be converted for saving; the diff path is set exactly when saving was asked for. An SSIM error is the result's error. Once SSIM succeeds, the comparison succeeds exactly when no save was asked for or the default save succeeded, the stored diff is the visual diff of resized image 1 and the SSIM map, and a failure carries the save's error |
| `Comparator.CompareCore` | comparator.py:28-80 | errors come in source order: loading image 1, loading image 2, the format of path 1, the format of path 2; a success implies both formats are valid and carries a well-formed 3-channel diff that the save can convert |
| `Comparator.CompareImages` | comparator.py:65-85 | a failure carries "Error comparing images: " before the underlying message and leaves the stored results alone; a success stores and returns the same record |
| `Comparator.MissingFileReportedBeforeFormat` | comparator.py:30-37 | a missing first file is reported as missing even when its extension is also unsupported |
| `Comparator.SameDecodedImagesAreIdentical` | comparator.py:54 | whenever the comparison of two paths that decode to the same image succeeds, it reports them identical |
| `Comparator.GetSummary` | comparator.py:123-143 | the "no results" message is returned exactly when nothing is stored; otherwise the text ends with the saved-to line when a diff path is set, and with the resized-shape line when not (the lines in between are stated by `Comparator.SummaryShowsRecord`) |
| `Comparator.JoinLinesHasLine` | comparator.py:126-138 | every line put into the joined text occurs in it as a whole line, at the start or after a line end and followed by one |
| `Comparator.SummaryShowsRecord` | comparator.py:126-141 | for every stored record, the summary has each of these as a whole line: the heading, the identity verdict, the similarity and difference percentages, both original shapes, the common shape, and the saved-to line when a diff path is set |
| `Comparator.SavedLineIffDiffPath` | comparator.py:140-141 | the summary has a "Difference image saved to" line exactly when the record's diff path is set and non-empty |
| `Comparator.CompareMultiplePairs` | comparator.py:155-174 | one entry per pair, in order; entry `i` is the comparison of pair `i` alone, with index `i+1` and both paths, or its prefixed error; the stored results become the last successful record |
| `Comparator.EntryMatchesMeans` | comparator.py:157-172 | an entry is an error exactly when that pair's comparison fails; errors carry the prefix; successes never saved a diff |
| `Cli.ImageNameAgreesWithValidation` | main.py:146-151 | the batch extension filter agrees with `validate_image_format` on every name |
| `Cli.JoinedImageValidates` | main.py:150-151 | a listed path passes `validate_image_format` exactly when its file name passes the batch filter |
| `Cli.KeptMembers` | main.py:148-152 | a path is kept exactly when it is the folder joined to an accepted listing entry |
| `Cli.GetImageFiles` | main.py:148-153 | the result is sorted, is a permutation of the kept paths, holds exactly the joins of accepted entries, and equals the functional reference `ImageFiles` |
| `Ordering.SortedUnique` | main.py:153 | two sorted lists of the same strings are equal, so any correct `sorted` gives this list |
| `Cli.ImageFilesValidate` | main.py:146-153 | every image file of a folder that can be listed passes `validate_image_format`, so a batch pair never fails on its format |
| `Cli.MakePairs` | main.py:167-171 | there are as many pairs as the shorter list has files; pair `i` is `(images1[i], images2[i])` |
| `Cli.CountsPartition` | main.py:183-188 | the successful and the failed entries together are all the entries |
| `Cli.Stats` | main.py:183-192 | total is the number of entries, failed is total minus successful, and an average exists exactly when some entry succeeded; the average times the number of successes is the sum of the successful percentages |
| `Cli.AverageWithinBounds` | main.py:190-191 | the average lies within any bounds that hold for every successful percentage |
| `Cli.SuccessUpdatesAverage` | main.py:190-191 | an extra successful entry with percentage `x` raises the success count by one and turns an average `a` over `n` successes into `(n * a + x) / (n + 1)` |
| `Cli.ErrorLeavesAverage` | main.py:190-191 | an extra failed entry changes neither the success count nor the average |
| `Cli.DiffFileNameInjective` | main.py:197 | different pair numbers give different diff file names |
| `Cli.DiffFileNameIsImage` | main.py:197 | every diff file name is a supported image name |
| `Cli.DiffPathInjective` | main.py:197-198 | no two entries write to the same diff path |
| `Cli.BatchPathsAgree` | main.py:194-199 | once `os.makedirs(output_dir)` has succeeded, the as-written and the corrected `save_diff_image` give the same result on every batch diff path |
| `Cli.DiffTargetsMembers` | main.py:195-198 | the diff paths the loop saves to are exactly those of the successful entries |
| `Cli.DiffWrittenIffSuccess` | main.py:195-199 | entry `i` gets `diff_pair_{i+1}.png` exactly when it has no error |
| `Cli.SaveDiffs` | main.py:195-199 | no error is reported exactly when the diff of every successful entry is saved to its path without an exception. Then the paths listed are all the targets. On an error, saving stopped at the first entry whose save raised: every earlier diff was saved without an exception, the listed paths are the targets before it (a proper prefix), and the error is that save's. Every listed path was saved without an exception |
| `Cli.SaveEntry` | main.py:196-199 | one pass of the loop: without an error the entry's diff, if it has one, is saved without an exception and its path appended; with one, the entry was successful and the error is that of its save |
| `Cli.SavedWereWritten` | main.py:195-199 | a target among the first `k` entries' targets belongs to a successful entry whose diff was saved without an exception |
| `Cli.FailedSaveReported` | main.py:195-199 | when entry `k`'s save raises, the paths saved so far are a proper prefix of the targets, and `k` is the first entry whose save raised |
| `Cli.FindPairFiles` | main.py:136-205 | checks in source order: folder 1 exists, folder 2 exists, folder 1 can be listed, folder 2 can be listed (a listing error is reported after "Error: "), folder 1 has images, folder 2 has images; otherwise both sorted lists |
| `Cli.CompareBatchImages` | main.py:136-205 | aborts exactly when a folder check fails, with its message. Otherwise there is one entry per pair up to the shorter list, and entry `i` is the comparison of the `i`-th files of both folders (its index, paths, and result or prefixed error). The counts are those of the entries. A failing `os.makedirs(output_dir)` saves nothing and is the error. Otherwise saving is as `Cli.SaveDiffs` states |
| `Cli.Dispatch` | main.py:57-75 | legacy options win; then the sub-command; then two bare arguments; help otherwise, exactly when none of these applies |
| `Cli.ReportSingle` | main.py:107-113 | with the corrected save: the summary is the stored record's; a custom copy is written exactly when saving was asked for and the output path is non-empty and not the default; it fails only when that copy fails |
| `Cli.ReportSingleAsWritten` | main.py:107-113 | as written: agrees with `Cli.ReportSingle` unless a custom copy goes to a path without a separator, and then always ends in an error |
| `Cli.SingleBareOutputCounterexample` | main.py:110-113 | with `--save-diff -o out.png`, the as-written run ends in an error while the corrected one writes `out.png` when `cv2.imwrite` succeeds |
| `Cli.CompareSingleImages` | main.py:94-117 | a missing file is reported before comparing; a comparison error is reported with "Error: " before the prefixed message; a successful comparison ends as `Cli.ReportSingle` does for the comparator holding that record; with saving asked for, the summary ends with the default saved-to line |

## Left out

- The SSIM computation, `cv2.resize` interpolation, the luma weights of `cv2.cvtColor`, and the saturating blend of `cv2.addWeighted`. These are library calls and are uninterpreted here. Only the array shapes they return are assumed.
- The float-to-byte cast at comparator.py:100 is the uninterpreted `toUint8`. Its result is assumed to be a byte, with no rule for wrap-around.
- Floating point: percentages are exact reals.
- The printed form of a percentage in `get_summary` (Python's `str` of the stored float, comparator.py:130-131) is the caller-supplied `percent` function. The `:.2f` format of the batch average (main.py:192) is printed output and is not modelled.
- `Comparator.Analyse`: the stored percentages are unrounded. comparator.py:68-69 stores `round(..., 2)` of them; rounding is not modelled.
- `Cli.Stats`: the average is taken over the unrounded percentages. main.py:191 averages the values rounded to two decimals, so the two can differ in the last places.
- The printed form of the boolean and of the shapes are `BoolRepr` and `ShapeRepr`. They produce Python's `str` of a `bool` and of a 2- or 3-tuple of integers, e.g. `(300, 400, 3)`; nothing is proved about them beyond their definitions.
- File I/O, `os.path.exists`, `os.listdir`, `os.makedirs` and `cv2.imwrite` are fields of `Disk`. An exception from `os.listdir` is the `Failure` of a `Result`. An exception from `os.makedirs` or `cv2.imwrite` is an optional error message. `cv2.imwrite` reports most write failures (an unwritable directory, a permission error) by returning `False`; utils.py:96 ignores that result, and so does the model, so "saved" throughout means that no exception was raised, not that the file exists. `os.path.exists` and `cv2.imread` do not raise.
- `ImageUtils.ResizeToCommonSize`: requires both images to be non-empty. `cv2.resize` raises on an empty array, and that error is not modelled. Every image the program loads is at least 1×1.
- `ImageUtils.SideBySide`: requires non-empty images, for the same reason.
- `Comparator.GrayPair`: requires non-empty images that `convert_to_grayscale` accepts, for the same reason.
- `ImageUtils.ConvertToGrayscale`: requires a 2-D array, or a 3-D array with 3 or 4 channels. `cv2.COLOR_RGB2GRAY` raises on other channel counts, and that error is not modelled. The comparison only converts 3-channel images.
- `ImageUtils.ToBgr`: the text of OpenCV's error is the constant `CVT_COLOR_ERROR`, not OpenCV's exact wording. OpenCV raises an assertion about `!_src.empty()` for an empty array, and a longer "Invalid number of channels" message with a file and line prefix for a bad channel count; the model uses one text for both.
- `ImageUtils.HStack`: the text of NumPy's error is the constant `HSTACK_MISMATCH`, not NumPy's exact wording. `np.hstack` is reached only through `create_side_by_side_comparison`, which only the Streamlit front end calls.
- `CompareBatchImages`: the banner, the progress lines and the other `print` output are not modelled.
- Output printed before a failure is not kept in the outcome value, in either mode: a batch run that fails while saving loses its printed counts, and a single run whose custom save fails (main.py:107-113) loses its printed summary.
- `sys.exit` becomes the failure variants of `SingleOutcome` and `BatchOutcome`. A batch `saveError` is printed after "Error: " and ends the run with status 1.
- `Cli.ReportSingle` and `Cli.CompareSingleImages`: they write the custom copy with the corrected `ImageUtils.SaveDiffImageFixed`. With a custom output path that has no directory part, main.py:112 as written raises and exits with status 1. That behaviour is `Cli.ReportSingleAsWritten` (see Findings).
- argparse itself is not modelled. `Dispatch` starts from the parsed values and the raw argument vector. The fallback branch of `main` (main.py:68-72) is modelled as written, although argparse rejects two bare arguments before it is reached.
- In `compare_multiple_pairs`, the entry dict and `self.results` are the same object, so the batch keys also land in `self.results`. The model stores the record without them, because nothing reads them back from there.
- `web_app.py` (the Streamlit front end) is not part of this model. Neither is `test_comparison.py`, except as the source of the example names in the validation lemmas.
- `Text.Lower` lower-cases ASCII letters only. Python's `str.lower` also maps non-ASCII letters.

## Findings

| source | as written | input that shows it | evidently intended | confidence | as-written member | corrected member |
|---|---|---|---|---|---|---|
| utils.py:87 | `save_diff_image` always calls `os.makedirs(os.path.dirname(output_path), exist_ok=True)`. For a path with no directory part, `dirname` is `''` and `os.makedirs('')` raises `FileNotFoundError`. | `main.py single a.png b.png --save-diff -o out.png`: the summary prints, then the custom save fails and the tool exits with status 1 | create the directory only when the path names one, then write the file | not executed | `ImageUtils.SaveDiffImage` (`ImageUtils.SaveBareNameFails`, `ImageUtils.SaveBareNameCounterexample`), `Cli.ReportSingleAsWritten` (`Cli.SingleBareOutputCounterexample`) | `ImageUtils.SaveDiffImageFixed` (`ImageUtils.SaveVariantsAgree`), used by `Cli.ReportSingle` and `Cli.SaveDiffs` |

Both versions agree on every path with a separator, by `ImageUtils.SaveVariantsAgree`. That includes the default `diff_output/diff.png` and every batch diff path. The batch calls `os.makedirs(output_dir)` first, and that call already fails for an empty `output_dir`; `Cli.BatchPathsAgree` proves that after it succeeds the two saves agree on every batch diff path. So the defect shows only for a custom single-mode output path.
