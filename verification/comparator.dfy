/** `comparator.py`: the `ImageComparator` class. Its one piece of state,
    `self.results`, is an explicit value threaded through the operations. */
module Comparator {
  import opened Wrappers
  import opened Text
  import opened Images
  import opened ImageUtils

  /** Prefix `compare_images` puts on the message of every error it re-raises. */
  const ERROR_PREFIX: string := "Error comparing images: "

  /** Weight of the colour-coded overlay in the visual diff. */
  const ALPHA: real := 0.7

  /** The dictionary `compare_images` stores and returns. The two percentages
      are kept unrounded: `round(..., 2)` is not modelled. */
  datatype Comparison = Comparison(
    areIdentical: bool,
    similarityScore: real,
    similarityPercentage: real,
    differencePercentage: real,
    diffImage: Image,
    diffPath: Option<string>,
    originalShapes: (Shape, Shape),
    resizedShapes: (Shape, Shape))

  /** An `ImageComparator`: `results` is `None` while `self.results` is still
      the empty dictionary set by `__init__`. */
  datatype ImageComparator = ImageComparator(results: Option<Comparison>)

  /** `ImageComparator()`. */
  const NEW_COMPARATOR: ImageComparator := ImageComparator(None)

  /** The colour-coded array of `_create_visual_diff_image`: the SSIM map
      scaled by 255 (not inverted) and cast to `uint8` in channel 0, zeros in
      channels 1 and 2. */
  function Overlay(lib: Library, m: ScoreMap): (r: Image)
    requires LibraryContract(lib)
    requires MapWellFormed(m)
    ensures WellFormed(r)
    ensures r.shape == Shape(m.height, m.width, Interleaved(3))
    ensures forall y, x :: 0 <= y < m.height && 0 <= x < m.width ==>
      r.rows[y][x][1] == 0 && r.rows[y][x][2] == 0 && r.rows[y][x][0] == lib.toUint8(m.values[y][x] * 255.0)
  {
    Image(Shape(m.height, m.width, Interleaved(3)),
      seq(m.height, y requires 0 <= y < m.height =>
        seq(m.width, x requires 0 <= x < m.width => [lib.toUint8(m.values[y][x] * 255.0), 0, 0])))
  }

  /** `_create_visual_diff_image(image1, image2, diff_image)`: the overlay
      blended onto `image1` with weights 0.3 and 0.7. `image2` is not read. */
  function VisualDiff(lib: Library, image1: Image, image2: Image, m: ScoreMap): (r: Image)
    requires LibraryContract(lib)
    requires WellFormed(image1) && MapWellFormed(m)
    ensures image1.shape == Shape(m.height, m.width, Interleaved(3)) ==> WellFormed(r) && r.shape == image1.shape
  {
    lib.addWeighted(image1, 1.0 - ALPHA, Overlay(lib, m), ALPHA, 0.0)
  }

  /** The second image has no influence on the visual diff. */
  lemma VisualDiffIgnoresSecondImage(lib: Library, image1: Image, image2: Image, other: Image, m: ScoreMap)
    requires LibraryContract(lib)
    requires WellFormed(image1) && MapWellFormed(m)
    ensures VisualDiff(lib, image1, image2, m) == VisualDiff(lib, image1, other, m)
  {
  }

  /** The two grayscale arrays SSIM is computed on: both images resized to the
      common size, then converted. */
  function GrayPair(lib: Library, image1: Image, image2: Image): (r: (Image, Image))
    requires LibraryContract(lib)
    requires WellFormed(image1) && WellFormed(image2)
    requires NonEmpty(image1.shape) && NonEmpty(image2.shape)
    requires GrayInput(ResizedLayout(image1.shape.layout)) && GrayInput(ResizedLayout(image2.shape.layout))
    ensures WellFormed(r.0) && WellFormed(r.1) && r.0.shape == r.1.shape
    ensures r.0.shape == Shape(CommonSize(image1.shape, image2.shape).0, CommonSize(image1.shape, image2.shape).1, Planar)
  {
    var resized := ResizeToCommonSize(lib, image1, image2);
    (ConvertToGrayscale(lib, resized.0), ConvertToGrayscale(lib, resized.1))
  }

  /** The steps after loading and validation: resize, grayscale, SSIM,
      identity test, visual diff, optional save, result record. */
  function Analyse(lib: Library, disk: Disk, image1: Image, image2: Image, saveDiff: bool): (r: Result<Comparison>)
    requires LibraryContract(lib)
    requires WellFormed(image1) && WellFormed(image2)
    requires image1.shape.layout == Interleaved(3) && image2.shape.layout == Interleaved(3)
    requires NonEmpty(image1.shape) && NonEmpty(image2.shape)
    ensures r.Success? ==> lib.ssim(GrayPair(lib, image1, image2).0, GrayPair(lib, image1, image2).1).Success?
    ensures r.Success? ==>
      var c := r.value;
      var target := CommonSize(image1.shape, image2.shape);
      var gray := GrayPair(lib, image1, image2);
      && c.similarityScore == lib.ssim(gray.0, gray.1).value.0
      && c.similarityPercentage == c.similarityScore * 100.0
      && c.similarityPercentage + c.differencePercentage == 100.0
      && (c.areIdentical <==> gray.0 == gray.1)
      && c.originalShapes == (image1.shape, image2.shape)
      && c.resizedShapes.0 == c.resizedShapes.1 == Shape(target.0, target.1, Interleaved(3))
      && WellFormed(c.diffImage) && c.diffImage.shape == c.resizedShapes.0
      && (c.diffPath.None? <==> !saveDiff)
      && (saveDiff ==> c.diffPath == Some(DEFAULT_DIFF_PATH))
      && BgrConvertible(c.diffImage.shape)
    ensures var gray := GrayPair(lib, image1, image2);
      lib.ssim(gray.0, gray.1).Failure? ==> r == Failure(lib.ssim(gray.0, gray.1).error)
    ensures var gray := GrayPair(lib, image1, image2);
      var resized := ResizeToCommonSize(lib, image1, image2);
      lib.ssim(gray.0, gray.1).Success? ==>
        var visual := VisualDiff(lib, resized.0, resized.1, lib.ssim(gray.0, gray.1).value.1);
        && (r.Success? <==> (saveDiff ==> SaveDiffImage(disk, visual, DEFAULT_DIFF_PATH).Success?))
        && (r.Success? ==> r.value.diffImage == visual)
        && (r.Failure? ==> r == Failure(SaveDiffImage(disk, visual, DEFAULT_DIFF_PATH).error))
  {
    var resized := ResizeToCommonSize(lib, image1, image2);
    var gray1 := ConvertToGrayscale(lib, resized.0);
    var gray2 := ConvertToGrayscale(lib, resized.1);
    match lib.ssim(gray1, gray2)
    case Failure(e) => Failure(e)
    case Success(out) =>
      var similarityScore := out.0;
      var similarityPercentage := similarityScore * 100.0;
      var differencePercentage := 100.0 - similarityPercentage;
      ArrayEqualIsEquality(gray1, gray2);
      var areIdentical := ArrayEqual(gray1, gray2);
      var visual := VisualDiff(lib, resized.0, resized.1, out.1);
      var saved := if saveDiff then SaveDiffImage(disk, visual, DEFAULT_DIFF_PATH) else Success("");
      match saved
      case Failure(e) => Failure(e)
      case Success(path) =>
        var diffPath := if saveDiff then Some(path) else None;
        Success(Comparison(areIdentical, similarityScore, similarityPercentage, differencePercentage,
          visual, diffPath, (image1.shape, image2.shape), (resized.0.shape, resized.1.shape)))
  }

  /** The body of the `try` in `compare_images`: both images are loaded
      before either path's format is checked. */
  function CompareCore(lib: Library, disk: Disk, path1: string, path2: string, saveDiff: bool): (r: Result<Comparison>)
    requires LibraryContract(lib) && DiskContract(disk)
    ensures LoadImage(disk, path1).Failure? ==> r == Failure(LoadImage(disk, path1).error)
    ensures LoadImage(disk, path1).Success? && LoadImage(disk, path2).Failure? ==> r == Failure(LoadImage(disk, path2).error)
    ensures LoadImage(disk, path1).Success? && LoadImage(disk, path2).Success? ==>
      && (!ValidateImageFormat(path1) ==> r == Failure("Unsupported image format for: " + path1))
      && (ValidateImageFormat(path1) && !ValidateImageFormat(path2) ==> r == Failure("Unsupported image format for: " + path2))
      && (ValidateImageFormat(path1) && ValidateImageFormat(path2) ==>
            r == Analyse(lib, disk, LoadImage(disk, path1).value, LoadImage(disk, path2).value, saveDiff))
    ensures r.Success? ==> ValidateImageFormat(path1) && ValidateImageFormat(path2)
    ensures r.Success? ==> WellFormed(r.value.diffImage) && r.value.diffImage.shape.layout == Interleaved(3)
    ensures r.Success? ==> BgrConvertible(r.value.diffImage.shape)
    ensures r.Success? ==> r.value.diffPath == if saveDiff then Some(DEFAULT_DIFF_PATH) else None
  {
    match LoadImage(disk, path1)
    case Failure(e) => Failure(e)
    case Success(image1) =>
      match LoadImage(disk, path2)
      case Failure(e) => Failure(e)
      case Success(image2) =>
        if !ValidateImageFormat(path1) then Failure("Unsupported image format for: " + path1)
        else if !ValidateImageFormat(path2) then Failure("Unsupported image format for: " + path2)
        else Analyse(lib, disk, image1, image2, saveDiff)
  }

  /** `compare_images(image1_path, image2_path, save_diff)`: on success the
      record replaces `self.results` and is returned; on failure the error is
      re-raised with `ERROR_PREFIX` and `self.results` is left alone. */
  function CompareImages(c: ImageComparator, lib: Library, disk: Disk, path1: string, path2: string, saveDiff: bool)
    : (r: (Result<Comparison>, ImageComparator))
    requires LibraryContract(lib) && DiskContract(disk)
    ensures r.0.Success? <==> CompareCore(lib, disk, path1, path2, saveDiff).Success?
    ensures r.0.Success? ==> r.1.results == Some(r.0.value) && r.0 == CompareCore(lib, disk, path1, path2, saveDiff)
    ensures r.0.Failure? ==> r.1 == c && StartsWith(r.0.error, ERROR_PREFIX)
    ensures r.0.Failure? ==> r.0.error == ERROR_PREFIX + CompareCore(lib, disk, path1, path2, saveDiff).error
  {
    match CompareCore(lib, disk, path1, path2, saveDiff)
    case Failure(e) =>
      assert (ERROR_PREFIX + e)[..|ERROR_PREFIX|] == ERROR_PREFIX;
      (Failure(ERROR_PREFIX + e), c)
    case Success(res) => (Success(res), ImageComparator(Some(res)))
  }

  /** A missing first file is reported as missing even when its name also has
      an unsupported extension: loading comes before validation. */
  lemma MissingFileReportedBeforeFormat(c: ImageComparator, lib: Library, disk: Disk, path1: string, path2: string, saveDiff: bool)
    requires LibraryContract(lib) && DiskContract(disk)
    requires !disk.pathExists(path1)
    ensures CompareImages(c, lib, disk, path1, path2, saveDiff).0
         == Failure(ERROR_PREFIX + "Image file not found: " + path1)
  {
    assert ERROR_PREFIX + ("Image file not found: " + path1) == ERROR_PREFIX + "Image file not found: " + path1;
  }

  /** Two files that decode to the same array are reported identical. */
  lemma SameDecodedImagesAreIdentical(lib: Library, disk: Disk, path1: string, path2: string, saveDiff: bool)
    requires LibraryContract(lib) && DiskContract(disk)
    requires disk.imread(path1) == disk.imread(path2)
    ensures CompareCore(lib, disk, path1, path2, saveDiff).Success? ==>
      CompareCore(lib, disk, path1, path2, saveDiff).value.areIdentical
  {
    if CompareCore(lib, disk, path1, path2, saveDiff).Success? {
      assert disk.pathExists(path1) && disk.pathExists(path2);
      assert LoadImage(disk, path1) == LoadImage(disk, path2);
    }
  }

  /** What `get_summary` prints when there is nothing to summarise. */
  const NO_RESULTS_MESSAGE: string := "No comparison results available. Run compare_images() first."

  /** Start of the line `get_summary` adds when a diff image was saved. */
  const SAVED_PREFIX: string := "Difference image saved to: "

  /** `str(b)` for a Python `bool`. */
  function BoolRepr(b: bool): string
  {
    if b then "True" else "False"
  }

  /** `str(shape)` for a shape tuple, e.g. "(300, 400, 3)". */
  function ShapeRepr(s: Shape): (r: string)
    ensures |r| >= 6 && r[0] == '(' && r[|r| - 1] == ')'
  {
    "(" + NatToString(s.height) + ", " + NatToString(s.width)
      + (match s.layout case Planar => "" case Interleaved(c) => ", " + NatToString(c)) + ")"
  }

  /** Python truthiness of `results['diff_path']`. */
  predicate HasDiffPath(res: Comparison)
  {
    res.diffPath.Some? && res.diffPath.value != ""
  }

  /** The twelve lines every summary has, without their line ends. `percent`
      renders a percentage as `round(x, 2)` would print. */
  function ReportLines(res: Comparison, percent: real -> string): (lines: seq<string>)
    ensures |lines| == 12
    ensures lines[0] == ""
    ensures lines[1] == "Image Comparison Results:"
    ensures lines[3] == "Are images identical: " + BoolRepr(res.areIdentical)
    ensures lines[4] == "Similarity score: " + percent(res.similarityPercentage) + "%"
    ensures lines[5] == "Difference percentage: " + percent(res.differencePercentage) + "%"
    ensures lines[8] == "- Image 1: " + ShapeRepr(res.originalShapes.0)
    ensures lines[9] == "- Image 2: " + ShapeRepr(res.originalShapes.1)
    ensures lines[11] == "Resized to common shape: " + ShapeRepr(res.resizedShapes.0)
  {
    [
      "",
      "Image Comparison Results:",
      "========================",
      "Are images identical: " + BoolRepr(res.areIdentical),
      "Similarity score: " + percent(res.similarityPercentage) + "%",
      "Difference percentage: " + percent(res.differencePercentage) + "%",
      "",
      "Original image shapes:",
      "- Image 1: " + ShapeRepr(res.originalShapes.0),
      "- Image 2: " + ShapeRepr(res.originalShapes.1),
      "",
      "Resized to common shape: " + ShapeRepr(res.resizedShapes.0)
    ]
  }

  /** The lines of the summary text: the fixed report, then the saved-to line
      when a diff path is set. */
  function SummaryLines(res: Comparison, percent: real -> string): (lines: seq<string>)
    ensures |lines| == if HasDiffPath(res) then 13 else 12
    ensures lines[..12] == ReportLines(res, percent)
    ensures HasDiffPath(res) ==> lines[12] == SAVED_PREFIX + res.diffPath.value
  {
    var report := ReportLines(res, percent);
    if HasDiffPath(res) then report + [SAVED_PREFIX + res.diffPath.value] else report
  }

  /** Each line followed by a line end. */
  function JoinLines(lines: seq<string>): (s: string)
    ensures |lines| > 0 ==> |s| > 0 && s[|s| - 1] == '\n'
  {
    if |lines| == 0 then "" else JoinLines(lines[..|lines| - 1]) + lines[|lines| - 1] + "\n"
  }

  /** `get_summary()`. */
  function GetSummary(c: ImageComparator, percent: real -> string): (s: string)
    ensures c.results.None? <==> s == NO_RESULTS_MESSAGE
    ensures c.results.Some? && HasDiffPath(c.results.value) ==>
      EndsWith(s, SAVED_PREFIX + c.results.value.diffPath.value + "\n")
    ensures c.results.Some? && !HasDiffPath(c.results.value) ==>
      EndsWith(s, "Resized to common shape: " + ShapeRepr(c.results.value.resizedShapes.0) + "\n")
  {
    match c.results
    case None => NO_RESULTS_MESSAGE
    case Some(res) =>
      var lines := SummaryLines(res, percent);
      JoinLinesEnds(lines);
      JoinLines(lines)
  }

  /** The joined text ends with the last line and its line end; it begins
      with a line end when the first line is empty. */
  lemma JoinLinesEnds(lines: seq<string>)
    requires |lines| > 0
    ensures EndsWith(JoinLines(lines), lines[|lines| - 1] + "\n")
    ensures lines[0] == "" ==> JoinLines(lines)[0] == '\n'
  {
    var s := JoinLines(lines);
    var last := lines[|lines| - 1] + "\n";
    var init := JoinLines(lines[..|lines| - 1]);
    assert s == init + last;
    assert s[|init|..] == last;
    assert |s| - |last| == |init|;
    if lines[0] == "" {
      JoinLinesStartsWithFirst(lines);
      assert s[..1] == "\n";
      assert s[0] == s[..1][0];
    }
  }

  /** The joined text begins with the first line and its line end. */
  lemma {:induction false} JoinLinesStartsWithFirst(lines: seq<string>)
    requires |lines| > 0
    ensures |JoinLines(lines)| >= |lines[0]| + 1 && JoinLines(lines)[..|lines[0]| + 1] == lines[0] + "\n"
  {
    if |lines| > 1 {
      var init := lines[..|lines| - 1];
      JoinLinesStartsWithFirst(init);
      assert init[0] == lines[0];
      assert JoinLines(lines) == JoinLines(init) + (lines[|lines| - 1] + "\n");
    } else {
      assert JoinLines(lines) == JoinLines([]) + lines[0] + "\n";
    }
  }

  /** `line` occurs in `s` as a whole line starting at position `i`: at the
      start of the text or after a line end, and followed by a line end. */
  predicate IsLineAt(s: string, line: string, i: int)
  {
    && 0 <= i && i + |line| < |s|
    && (i == 0 || s[i - 1] == '\n')
    && s[i..i + |line| + 1] == line + "\n"
  }

  /** `line` is one of the lines of `s`. */
  ghost predicate HasLine(s: string, line: string)
  {
    exists i :: IsLineAt(s, line, i)
  }

  /** A whole line of a text stays one when more text follows. */
  lemma IsLineAtExtend(pre: string, rest: string, line: string, i: int)
    requires IsLineAt(pre, line, i)
    ensures IsLineAt(pre + rest, line, i)
  {
    var s := pre + rest;
    assert s[i..i + |line| + 1] == pre[i..i + |line| + 1];
    assert i > 0 ==> s[i - 1] == pre[i - 1];
  }

  /** A line appended after a line end (or to nothing) is a whole line. */
  lemma IsLineAtEnd(pre: string, line: string)
    requires pre == "" || pre[|pre| - 1] == '\n'
    ensures IsLineAt(pre + (line + "\n"), line, |pre|)
  {
    var s := pre + (line + "\n");
    assert s[|pre|..|pre| + |line| + 1] == line + "\n";
    assert |pre| > 0 ==> s[|pre| - 1] == pre[|pre| - 1];
  }

  /** Every line that is joined is a whole line of the joined text. */
  lemma {:induction false} JoinLinesHasLine(lines: seq<string>, k: nat)
    requires k < |lines|
    ensures HasLine(JoinLines(lines), lines[k])
  {
    var init := lines[..|lines| - 1];
    var pre := JoinLines(init);
    var last := lines[|lines| - 1];
    assert JoinLines(lines) == pre + (last + "\n");
    if k == |lines| - 1 {
      assert |init| == 0 ==> pre == "";
      IsLineAtEnd(pre, last);
    } else {
      assert init[k] == lines[k];
      JoinLinesHasLine(init, k);
      var i :| IsLineAt(pre, lines[k], i);
      IsLineAtExtend(pre, last + "\n", lines[k], i);
    }
  }

  /** The summary of a stored record shows each of its values on a line of
      its own: the identity verdict, both percentages, both original shapes,
      the common shape and, when one was saved, the diff path. */
  lemma SummaryShowsRecord(res: Comparison, percent: real -> string)
    ensures var s := GetSummary(ImageComparator(Some(res)), percent);
      && HasLine(s, "Image Comparison Results:")
      && HasLine(s, "Are images identical: " + BoolRepr(res.areIdentical))
      && HasLine(s, "Similarity score: " + percent(res.similarityPercentage) + "%")
      && HasLine(s, "Difference percentage: " + percent(res.differencePercentage) + "%")
      && HasLine(s, "- Image 1: " + ShapeRepr(res.originalShapes.0))
      && HasLine(s, "- Image 2: " + ShapeRepr(res.originalShapes.1))
      && HasLine(s, "Resized to common shape: " + ShapeRepr(res.resizedShapes.0))
      && (HasDiffPath(res) ==> HasLine(s, SAVED_PREFIX + res.diffPath.value))
  {
    ReportShowsValues(res, percent);
    ReportShowsShapes(res, percent);
    assert GetSummary(ImageComparator(Some(res)), percent) == JoinLines(SummaryLines(res, percent));
  }

  /** The joined report has the heading, the verdict and both percentages as lines. */
  lemma ReportShowsValues(res: Comparison, percent: real -> string)
    ensures var s := JoinLines(SummaryLines(res, percent));
      && HasLine(s, "Image Comparison Results:")
      && HasLine(s, "Are images identical: " + BoolRepr(res.areIdentical))
      && HasLine(s, "Similarity score: " + percent(res.similarityPercentage) + "%")
      && HasLine(s, "Difference percentage: " + percent(res.differencePercentage) + "%")
  {
    var lines := SummaryLines(res, percent);
    JoinedHasLine(lines, 1, "Image Comparison Results:");
    JoinedHasLine(lines, 3, "Are images identical: " + BoolRepr(res.areIdentical));
    JoinedHasLine(lines, 4, "Similarity score: " + percent(res.similarityPercentage) + "%");
    JoinedHasLine(lines, 5, "Difference percentage: " + percent(res.differencePercentage) + "%");
  }

  /** The joined report has the shape lines and, when set, the saved-to line. */
  lemma ReportShowsShapes(res: Comparison, percent: real -> string)
    ensures var s := JoinLines(SummaryLines(res, percent));
      && HasLine(s, "- Image 1: " + ShapeRepr(res.originalShapes.0))
      && HasLine(s, "- Image 2: " + ShapeRepr(res.originalShapes.1))
      && HasLine(s, "Resized to common shape: " + ShapeRepr(res.resizedShapes.0))
      && (HasDiffPath(res) ==> HasLine(s, SAVED_PREFIX + res.diffPath.value))
  {
    var lines := SummaryLines(res, percent);
    JoinedHasLine(lines, 8, "- Image 1: " + ShapeRepr(res.originalShapes.0));
    JoinedHasLine(lines, 9, "- Image 2: " + ShapeRepr(res.originalShapes.1));
    JoinedHasLine(lines, 11, "Resized to common shape: " + ShapeRepr(res.resizedShapes.0));
    if HasDiffPath(res) {
      JoinedHasLine(lines, 12, SAVED_PREFIX + res.diffPath.value);
    }
  }

  lemma JoinedHasLine(lines: seq<string>, k: nat, line: string)
    requires k < |lines| && lines[k] == line
    ensures HasLine(JoinLines(lines), line)
  {
    JoinLinesHasLine(lines, k);
  }

  /** No fixed line of the report starts like the "saved to" line. */
  lemma SavedLineIffDiffPath(res: Comparison, percent: real -> string)
    ensures (exists i :: 0 <= i < |SummaryLines(res, percent)| && StartsWith(SummaryLines(res, percent)[i], SAVED_PREFIX))
        <==> HasDiffPath(res)
  {
    var lines := SummaryLines(res, percent);
    if HasDiffPath(res) {
      assert lines[12][..|SAVED_PREFIX|] == SAVED_PREFIX;
      assert StartsWith(lines[12], SAVED_PREFIX);
    }
    forall i | 0 <= i < 12
      ensures !StartsWith(lines[i], SAVED_PREFIX)
    {
      if |lines[i]| >= |SAVED_PREFIX| {
        if i == 5 {
          assert lines[i][11] != SAVED_PREFIX[11];
        } else {
          assert lines[i][0] != SAVED_PREFIX[0];
        }
      }
    }
  }

  /** One entry of the list `compare_multiple_pairs` returns: the result
      record with the pair's position and paths added, or the error text. */
  datatype PairResult =
    | Compared(pairIndex: nat, image1Path: string, image2Path: string, result: Comparison)
    | Errored(pairIndex: nat, image1Path: string, image2Path: string, error: string)

  /** The comparator's `results` after a batch: the last successful record, or
      what it held before when every pair failed. */
  function LastSuccess(results: seq<PairResult>, before: Option<Comparison>): (r: Option<Comparison>)
    ensures r == before || exists i :: 0 <= i < |results| && results[i].Compared? && r == Some(results[i].result)
    ensures (forall i :: 0 <= i < |results| ==> results[i].Errored?) ==> r == before
  {
    if |results| == 0 then before
    else if results[|results| - 1].Compared? then Some(results[|results| - 1].result)
    else LastSuccess(results[..|results| - 1], before)
  }

  /** Entry `i` of the batch list is what comparing pair `i` alone yields. */
  predicate EntryMatches(lib: Library, disk: Disk, i: nat, pair: (string, string), entry: PairResult)
    requires LibraryContract(lib) && DiskContract(disk)
  {
    match CompareCore(lib, disk, pair.0, pair.1, false)
    case Success(res) => entry == Compared(i + 1, pair.0, pair.1, res)
    case Failure(e) => entry == Errored(i + 1, pair.0, pair.1, ERROR_PREFIX + e)
  }

  /** The entry the loop of `compare_multiple_pairs` appends for pair `i`. */
  function EntryOf(i: nat, pair: (string, string), outcome: Result<Comparison>): PairResult
  {
    match outcome
    case Success(res) => Compared(i + 1, pair.0, pair.1, res)
    case Failure(e) => Errored(i + 1, pair.0, pair.1, e)
  }

  /** One step of the batch loop records the comparison of that pair, and the
      comparator afterwards holds the last successful record. */
  lemma BatchStep(c: ImageComparator, before: Option<Comparison>, lib: Library, disk: Disk,
                  results: seq<PairResult>, pair: (string, string))
    requires LibraryContract(lib) && DiskContract(disk)
    requires c.results == LastSuccess(results, before)
    ensures var outcome := CompareImages(c, lib, disk, pair.0, pair.1, false);
      && EntryMatches(lib, disk, |results|, pair, EntryOf(|results|, pair, outcome.0))
      && outcome.1.results == LastSuccess(results + [EntryOf(|results|, pair, outcome.0)], before)
  {
    var outcome := CompareImages(c, lib, disk, pair.0, pair.1, false);
    var entry := EntryOf(|results|, pair, outcome.0);
    assert (results + [entry])[..|results|] == results;
  }

  /** One pass of the batch loop: compare the pair, record the entry, and
      carry the comparator forward. */
  method ComparePair(c: ImageComparator, lib: Library, disk: Disk, results: seq<PairResult>,
                     pair: (string, string), ghost before: Option<Comparison>)
    returns (entry: PairResult, after: ImageComparator)
    requires LibraryContract(lib) && DiskContract(disk)
    requires c.results == LastSuccess(results, before)
    ensures EntryMatches(lib, disk, |results|, pair, entry)
    ensures after.results == LastSuccess(results + [entry], before)
  {
    var outcome := CompareImages(c, lib, disk, pair.0, pair.1, false);
    BatchStep(c, before, lib, disk, results, pair);
    entry := EntryOf(|results|, pair, outcome.0);
    after := outcome.1;
  }

  /** `compare_multiple_pairs(image_pairs)`: one entry per pair, in order,
      each pair compared without saving a diff; an error is recorded in its
      entry and the loop moves on. */
  method CompareMultiplePairs(c: ImageComparator, lib: Library, disk: Disk, pairs: seq<(string, string)>)
    returns (results: seq<PairResult>, after: ImageComparator)
    requires LibraryContract(lib) && DiskContract(disk)
    ensures |results| == |pairs|
    ensures forall i :: 0 <= i < |pairs| ==> EntryMatches(lib, disk, i, pairs[i], results[i])
    ensures after.results == LastSuccess(results, c.results)
  {
    results := [];
    after := c;
    var i := 0;
    while i < |pairs|
      invariant 0 <= i <= |pairs|
      invariant |results| == i
      invariant forall k :: 0 <= k < i ==> EntryMatches(lib, disk, k, pairs[k], results[k])
      invariant after.results == LastSuccess(results, c.results)
    {
      var entry;
      entry, after := ComparePair(after, lib, disk, results, pairs[i], c.results);
      results := results + [entry];
      i := i + 1;
    }
  }

  /** What each entry of a batch says: its position and paths, an error
      exactly when that pair's comparison fails, the prefixed message, and no
      saved diff. */
  lemma EntryMatchesMeans(lib: Library, disk: Disk, i: nat, pair: (string, string), entry: PairResult)
    requires LibraryContract(lib) && DiskContract(disk)
    requires EntryMatches(lib, disk, i, pair, entry)
    ensures entry.pairIndex == i + 1 && entry.image1Path == pair.0 && entry.image2Path == pair.1
    ensures entry.Errored? <==> CompareCore(lib, disk, pair.0, pair.1, false).Failure?
    ensures entry.Errored? ==> StartsWith(entry.error, ERROR_PREFIX)
    ensures entry.Compared? ==> entry.result.diffPath.None? && entry.result == CompareCore(lib, disk, pair.0, pair.1, false).value
  {
    if entry.Errored? {
      var e := CompareCore(lib, disk, pair.0, pair.1, false).error;
      assert (ERROR_PREFIX + e)[..|ERROR_PREFIX|] == ERROR_PREFIX;
    }
  }
}
