/** The helpers of `utils.py`: loading and saving, the common-size resize,
    the grayscale dispatch, the side-by-side montage and format validation. */
module ImageUtils {
  import opened Wrappers
  import opened Text
  import opened Paths
  import opened Images

  /** The extensions `validate_image_format` accepts. */
  const SUPPORTED_FORMATS: set<string> := {".jpg", ".jpeg", ".png", ".bmp", ".tiff", ".tif"}

  /** Where `save_diff_image` writes when no path is given. */
  const DEFAULT_DIFF_PATH: string := "diff_output/diff.png"

  /** `validate_image_format(path)`: the extension of the lower-cased path is supported. */
  predicate ValidateImageFormat(path: string)
  {
    Ext(Lower(path)) in SUPPORTED_FORMATS
  }

  lemma SupportedFormatsArePlain()
    ensures forall e :: e in SUPPORTED_FORMATS ==> PlainExt(e)
  {
    assert PlainExt(".jpg") && PlainExt(".jpeg") && PlainExt(".png");
    assert PlainExt(".bmp") && PlainExt(".tiff") && PlainExt(".tif");
  }

  /** A path is accepted exactly when its lower-cased form ends with a
      supported extension that follows a real file name in the last component. */
  lemma ValidateIffSupportedSuffix(path: string)
    ensures ValidateImageFormat(path) <==> exists e :: e in SUPPORTED_FORMATS && EndsWithExt(Lower(path), e)
  {
    SupportedFormatsArePlain();
    var q := Lower(path);
    if ValidateImageFormat(path) {
      ExtIffEndsWith(q, Ext(q));
    }
    if exists e :: e in SUPPORTED_FORMATS && EndsWithExt(q, e) {
      var e :| e in SUPPORTED_FORMATS && EndsWithExt(q, e);
      ExtIffEndsWith(q, e);
    }
  }

  /** Validation does not depend on letter case. */
  lemma ValidateIgnoresCase(path: string)
    ensures ValidateImageFormat(path) == ValidateImageFormat(Lower(path))
  {
    LowerIdempotent(path);
  }

  /** A name made of a plain stem and a plain extension has that extension. */
  lemma ExtOfSimpleName(stem: string, e: string)
    requires |stem| >= 1 && stem[0] != '.' && '/' !in stem
    requires PlainExt(e)
    ensures Ext(stem + e) == e
  {
    var q := stem + e;
    assert q[..|q| - |e|] == stem;
    assert q[|q| - |e|..] == e;
    ExtIffEndsWith(q, e);
  }

  /** Names the repository's own tests accept. */
  lemma ValidateAcceptsJpg()
    ensures ValidateImageFormat("test.jpg")
  {
    SupportedFormatsArePlain();
    assert Lower("test.jpg") == "test" + ".jpg";
    ExtOfSimpleName("test", ".jpg");
  }

  lemma ValidateAcceptsPng()
    ensures ValidateImageFormat("test.png")
  {
    SupportedFormatsArePlain();
    assert Lower("test.png") == "test" + ".png";
    ExtOfSimpleName("test", ".png");
  }

  /** An upper-case extension is accepted. */
  lemma ValidateAcceptsUpperCase()
    ensures ValidateImageFormat("A.PNG")
  {
    SupportedFormatsArePlain();
    assert Lower("A.PNG") == "a" + ".png";
    ExtOfSimpleName("a", ".png");
  }

  /** The name the repository's own tests reject. */
  lemma ValidateRejectsText()
    ensures !ValidateImageFormat("test.txt")
  {
    assert PlainExt(".txt");
    assert Lower("test.txt") == "test" + ".txt";
    ExtOfSimpleName("test", ".txt");
  }

  /** A name that is only an extension has none. */
  lemma ValidateRejectsBareExtension()
    ensures !ValidateImageFormat(".png")
  {
    var q := ".png";
    assert Lower(q) == q;
    assert RFind(q, '/') == -1;
    assert RFind(q, '.') == 0 by { RFindUnique(q, '.', 0); }
    assert !HasNonDot(q, 0, 0);
    assert Ext(q) == "";
  }

  /** A dot in a directory name is not an extension of the file. */
  lemma ValidateRejectsDotInDirectory()
    ensures !ValidateImageFormat("dir.png/file")
  {
    var q := "dir.png/file";
    assert Lower(q) == q;
    assert RFind(q, '/') == 7 by { RFindUnique(q, '/', 7); }
    assert RFind(q, '.') == 3 by { RFindUnique(q, '.', 3); }
    assert Ext(q) == "";
  }

  /** The target `(min_height, min_width)` of `resize_images_to_common_size`. */
  function CommonSize(s1: Shape, s2: Shape): (r: (nat, nat))
    ensures r.0 <= s1.height && r.0 <= s2.height && (r.0 == s1.height || r.0 == s2.height)
    ensures r.1 <= s1.width && r.1 <= s2.width && (r.1 == s1.width || r.1 == s2.width)
  {
    (if s1.height <= s2.height then s1.height else s2.height,
     if s1.width <= s2.width then s1.width else s2.width)
  }

  /** The target is the largest size that fits in both inputs. */
  lemma CommonSizeIsGreatest(s1: Shape, s2: Shape, h: nat, w: nat)
    requires h <= s1.height && h <= s2.height && w <= s1.width && w <= s2.width
    ensures h <= CommonSize(s1, s2).0 && w <= CommonSize(s1, s2).1
  {
  }

  /** The target does not depend on argument order, and inputs that already
      share a size keep it. */
  lemma CommonSizeSymmetricAndStable(s1: Shape, s2: Shape)
    ensures CommonSize(s1, s2) == CommonSize(s2, s1)
    ensures s1.height == s2.height && s1.width == s2.width ==> CommonSize(s1, s2) == (s1.height, s1.width)
  {
  }

  /** `resize_images_to_common_size(image1, image2)`. */
  function ResizeToCommonSize(lib: Library, image1: Image, image2: Image): (r: (Image, Image))
    requires LibraryContract(lib)
    requires WellFormed(image1) && WellFormed(image2)
    requires NonEmpty(image1.shape) && NonEmpty(image2.shape)
    ensures WellFormed(r.0) && WellFormed(r.1)
    ensures r.0.shape.height == r.1.shape.height <= image1.shape.height
    ensures r.0.shape.width == r.1.shape.width <= image1.shape.width
    ensures r.0.shape.height <= image2.shape.height && r.0.shape.width <= image2.shape.width
    ensures r.0.shape.height == image1.shape.height || r.0.shape.height == image2.shape.height
    ensures r.0.shape.width == image1.shape.width || r.0.shape.width == image2.shape.width
    ensures r.0.shape.layout == ResizedLayout(image1.shape.layout) && r.1.shape.layout == ResizedLayout(image2.shape.layout)
    ensures (r.0.shape.height, r.0.shape.width) == CommonSize(image1.shape, image2.shape)
  {
    var (minHeight, minWidth) := CommonSize(image1.shape, image2.shape);
    (lib.resize(image1, minWidth, minHeight), lib.resize(image2, minWidth, minHeight))
  }

  /** The arrays `convert_to_grayscale` handles: 2-D arrays, and 3-D arrays
      `cv2.COLOR_RGB2GRAY` accepts. */
  predicate GrayInput(layout: Layout)
  {
    layout.Planar? || GrayConvertible(layout)
  }

  /** `convert_to_grayscale(image)`: only a 3-D array is converted. */
  function ConvertToGrayscale(lib: Library, image: Image): (r: Image)
    requires LibraryContract(lib)
    requires WellFormed(image) && GrayInput(image.shape.layout)
    ensures WellFormed(r) && r.shape.layout == Planar
    ensures r.shape.height == image.shape.height && r.shape.width == image.shape.width
    ensures image.shape.layout.Planar? ==> r == image
  {
    if |Dims(image.shape)| == 3 then lib.rgbToGray(image) else image
  }

  /** The message of the error `np.hstack` raises on arrays whose shapes differ
      beyond the concatenation axis (NumPy's exact wording is not modelled). */
  const HSTACK_MISMATCH: string := "all the input array dimensions except for the concatenation axis must match exactly"

  /** `np.hstack([left, right])`: each row of `left` followed by the same row of `right`. */
  function HStack(left: Image, right: Image): (r: Result<Image>)
    requires WellFormed(left) && WellFormed(right)
    ensures r.Success? <==> left.shape.height == right.shape.height && left.shape.layout == right.shape.layout
    ensures r.Success? ==>
      && WellFormed(r.value)
      && r.value.shape == Shape(left.shape.height, left.shape.width + right.shape.width, left.shape.layout)
      && forall y :: 0 <= y < left.shape.height ==>
           r.value.rows[y][..left.shape.width] == left.rows[y] && r.value.rows[y][left.shape.width..] == right.rows[y]
  {
    if Dims(left.shape)[0] != Dims(right.shape)[0] || |Dims(left.shape)| != |Dims(right.shape)|
       || Dims(left.shape)[2..] != Dims(right.shape)[2..] then
      Failure(HSTACK_MISMATCH)
    else
      assert left.shape.layout == right.shape.layout by {
        if left.shape.layout.Interleaved? {
          assert Dims(left.shape)[2..][0] == Dims(right.shape)[2..][0];
        }
      }
      var rows := seq(left.shape.height, y requires 0 <= y < left.shape.height => left.rows[y] + right.rows[y]);
      var r := Image(Shape(left.shape.height, left.shape.width + right.shape.width, left.shape.layout), rows);
      assert forall y, x :: 0 <= y < |rows| && 0 <= x < |rows[y]| ==>
        rows[y][x] == if x < left.shape.width then left.rows[y][x] else right.rows[y][x - left.shape.width];
      assert forall y :: 0 <= y < |rows| ==> rows[y][..left.shape.width] == left.rows[y];
      Success(r)
  }

  /** `create_side_by_side_comparison(image1, image2)`: both images resized to
      the common size, then placed left and right of each other. */
  function SideBySide(lib: Library, image1: Image, image2: Image): (r: Result<Image>)
    requires LibraryContract(lib)
    requires WellFormed(image1) && WellFormed(image2)
    requires NonEmpty(image1.shape) && NonEmpty(image2.shape)
    ensures r.Success? <==> ResizedLayout(image1.shape.layout) == ResizedLayout(image2.shape.layout)
    ensures r.Success? ==>
      var resized := ResizeToCommonSize(lib, image1, image2);
      var w := resized.0.shape.width;
      && WellFormed(r.value)
      && r.value.shape == Shape(resized.0.shape.height, 2 * w, ResizedLayout(image1.shape.layout))
      && forall y :: 0 <= y < r.value.shape.height ==>
           r.value.rows[y][..w] == resized.0.rows[y] && r.value.rows[y][w..] == resized.1.rows[y]
  {
    var resized := ResizeToCommonSize(lib, image1, image2);
    HStack(resized.0, resized.1)
  }

  /** Reverses the channel order of a 3-sample pixel (BGR to RGB and back). */
  function SwapPixel(p: seq<int>): (r: seq<int>)
    ensures |r| == |p|
  {
    if |p| == 3 then [p[2], p[1], p[0]] else p
  }

  /** `cv2.cvtColor(image, cv2.COLOR_BGR2RGB)`, which is the same permutation
      as `cv2.COLOR_RGB2BGR`. */
  function SwapRedBlue(image: Image): (r: Image)
    ensures r.shape == image.shape && |r.rows| == |image.rows|
    ensures forall y :: 0 <= y < |r.rows| ==> |r.rows[y]| == |image.rows[y]|
    ensures forall y, x :: 0 <= y < |r.rows| && 0 <= x < |r.rows[y]| ==> r.rows[y][x] == SwapPixel(image.rows[y][x])
  {
    Image(image.shape, seq(|image.rows|, y requires 0 <= y < |image.rows| =>
      seq(|image.rows[y]|, x requires 0 <= x < |image.rows[y]| => SwapPixel(image.rows[y][x]))))
  }

  /** Swapping the channels twice gives back the original samples. */
  lemma SwapRedBlueInvolution(image: Image)
    ensures SwapRedBlue(SwapRedBlue(image)) == image
  {
    var r := SwapRedBlue(SwapRedBlue(image));
    forall y | 0 <= y < |image.rows|
      ensures r.rows[y] == image.rows[y]
    {
      assert forall x :: 0 <= x < |image.rows[y]| ==> r.rows[y][x] == image.rows[y][x];
    }
  }

  /** Swapping channels keeps a well-formed image well-formed. */
  lemma SwapRedBlueWellFormed(image: Image)
    requires WellFormed(image)
    ensures WellFormed(SwapRedBlue(image))
  {
  }

  /** `load_image(path)`: existence check, decode, then BGR to RGB. */
  function LoadImage(disk: Disk, path: string): (r: Result<Image>)
    requires DiskContract(disk)
    ensures !disk.pathExists(path) ==> r == Failure("Image file not found: " + path)
    ensures disk.pathExists(path) && disk.imread(path).None? ==> r == Failure("Cannot load image: " + path)
    ensures r.Success? <==> disk.pathExists(path) && disk.imread(path).Some?
    ensures r.Success? ==>
      && WellFormed(r.value) && r.value.shape.layout == Interleaved(3)
      && r.value.shape.height >= 1 && r.value.shape.width >= 1
      && SwapRedBlue(r.value) == disk.imread(path).value
  {
    if !disk.pathExists(path) then Failure("Image file not found: " + path)
    else match disk.imread(path)
      case None => Failure("Cannot load image: " + path)
      case Some(bgr) =>
        SwapRedBlueWellFormed(bgr);
        SwapRedBlueInvolution(bgr);
        Success(SwapRedBlue(bgr))
  }

  /** `cv2.cvtColor(image, cv2.COLOR_GRAY2BGR)`: each sample repeated in three channels. */
  function GrayToBgr(image: Image): (r: Image)
    requires WellFormed(image) && image.shape.layout == Planar
    ensures WellFormed(r)
    ensures r.shape == Shape(image.shape.height, image.shape.width, Interleaved(3))
    ensures forall y, x, k :: 0 <= y < image.shape.height && 0 <= x < image.shape.width && 0 <= k < 3 ==>
      r.rows[y][x][k] == image.rows[y][x][0]
  {
    Image(Shape(image.shape.height, image.shape.width, Interleaved(3)),
      seq(image.shape.height, y requires 0 <= y < image.shape.height =>
        seq(image.shape.width, x requires 0 <= x < image.shape.width =>
          var v := image.rows[y][x][0]; [v, v, v])))
  }

  /** `os.makedirs(directory, exist_ok=True)`. An empty path names no directory
      at all, and Python raises `FileNotFoundError` for it. */
  function MakeDirs(disk: Disk, directory: string): (r: Option<string>)
    ensures directory == "" ==> r.Some?
  {
    if directory == "" then Some("[Errno 2] No such file or directory: ''")
    else disk.makedirs(directory)
  }

  /** Stands for the message of the `cv2.error` that `cv2.cvtColor` raises for
      an empty array or a channel count the conversion does not accept. */
  const CVT_COLOR_ERROR: string := "Invalid number of channels in input image"

  /** The arrays `save_diff_image` can convert: `COLOR_GRAY2BGR` takes a
      non-empty 2-D array, `COLOR_RGB2BGR` a non-empty one with 3 or 4 channels. */
  predicate BgrConvertible(s: Shape)
  {
    NonEmpty(s) && (s.layout == Planar || GrayConvertible(s.layout))
  }

  /** `cv2.cvtColor(image, cv2.COLOR_RGB2BGR)` on 3 or 4 channels: the first
      three samples reversed, any alpha sample dropped. */
  function RgbToBgr(image: Image): (r: Image)
    requires WellFormed(image) && GrayConvertible(image.shape.layout)
    ensures WellFormed(r)
    ensures r.shape == Shape(image.shape.height, image.shape.width, Interleaved(3))
    ensures forall y, x :: 0 <= y < image.shape.height && 0 <= x < image.shape.width ==>
      r.rows[y][x] == [image.rows[y][x][2], image.rows[y][x][1], image.rows[y][x][0]]
  {
    Image(Shape(image.shape.height, image.shape.width, Interleaved(3)),
      seq(image.shape.height, y requires 0 <= y < image.shape.height =>
        seq(image.shape.width, x requires 0 <= x < image.shape.width =>
          var p := image.rows[y][x]; [p[2], p[1], p[0]])))
  }

  /** On three channels the saving conversion is the loading swap. */
  lemma RgbToBgrIsSwap(image: Image)
    requires WellFormed(image) && image.shape.layout == Interleaved(3)
    ensures RgbToBgr(image) == SwapRedBlue(image)
  {
    var r := RgbToBgr(image);
    var s := SwapRedBlue(image);
    forall y | 0 <= y < image.shape.height
      ensures r.rows[y] == s.rows[y]
    {
      assert forall x :: 0 <= x < image.shape.width ==> r.rows[y][x] == s.rows[y][x];
    }
  }

  /** The conversion `save_diff_image` performs before `cv2.imwrite`, or the
      error `cv2.cvtColor` raises. */
  function ToBgr(image: Image): (r: Result<Image>)
    requires WellFormed(image)
    ensures r.Success? <==> BgrConvertible(image.shape)
    ensures r.Failure? ==> r.error == CVT_COLOR_ERROR
    ensures r.Success? ==>
      && WellFormed(r.value)
      && r.value.shape == Shape(image.shape.height, image.shape.width, Interleaved(3))
    ensures r.Success? && image.shape.layout == Planar ==>
      forall y, x, k :: 0 <= y < image.shape.height && 0 <= x < image.shape.width && 0 <= k < 3 ==>
        r.value.rows[y][x][k] == image.rows[y][x][0]
    ensures r.Success? && image.shape.layout.Interleaved? ==>
      forall y, x :: 0 <= y < image.shape.height && 0 <= x < image.shape.width ==>
        r.value.rows[y][x] == [image.rows[y][x][2], image.rows[y][x][1], image.rows[y][x][0]]
  {
    if !BgrConvertible(image.shape) then Failure(CVT_COLOR_ERROR)
    else if image.shape.layout == Planar then Success(GrayToBgr(image))
    else Success(RgbToBgr(image))
  }

  /** Saving a loaded image converts it back to exactly the array that was
      decoded from the file. */
  lemma ToBgrOfLoaded(disk: Disk, path: string)
    requires DiskContract(disk)
    requires LoadImage(disk, path).Success?
    ensures ToBgr(LoadImage(disk, path).value) == Success(disk.imread(path).value)
  {
    var image := LoadImage(disk, path).value;
    RgbToBgrIsSwap(image);
  }

  /** `save_diff_image(diff_image, output_path)` as written: it always creates
      the parent directory first, even when the path has none. */
  function SaveDiffImage(disk: Disk, image: Image, outputPath: string): (r: Result<string>)
    requires WellFormed(image)
    ensures r.Success? ==> r.value == outputPath
    ensures r.Success? <==>
      && MakeDirs(disk, Dirname(outputPath)).None?
      && ToBgr(image).Success?
      && disk.imwrite(outputPath, ToBgr(image).value).None?
    ensures MakeDirs(disk, Dirname(outputPath)).None? && !BgrConvertible(image.shape) ==> r == Failure(CVT_COLOR_ERROR)
  {
    match MakeDirs(disk, Dirname(outputPath))
    case Some(e) => Failure(e)
    case None =>
      match ToBgr(image)
      case Failure(e) => Failure(e)
      case Success(bgr) =>
        match disk.imwrite(outputPath, bgr)
        case Some(e) => Failure(e)
        case None => Success(outputPath)
  }

  /** `save_diff_image` as evidently intended: the parent directory is created
      only when the path names one. */
  function SaveDiffImageFixed(disk: Disk, image: Image, outputPath: string): (r: Result<string>)
    requires WellFormed(image)
    ensures r.Success? ==> r.value == outputPath
    ensures r.Success? <==>
      && ('/' in outputPath ==> disk.makedirs(Dirname(outputPath)).None?)
      && ToBgr(image).Success?
      && disk.imwrite(outputPath, ToBgr(image).value).None?
    ensures ('/' in outputPath ==> disk.makedirs(Dirname(outputPath)).None?) && !BgrConvertible(image.shape) ==>
      r == Failure(CVT_COLOR_ERROR)
  {
    var directory := Dirname(outputPath);
    var made := if directory == "" then None else MakeDirs(disk, directory);
    match made
    case Some(e) => Failure(e)
    case None =>
      match ToBgr(image)
      case Failure(e) => Failure(e)
      case Success(bgr) =>
        match disk.imwrite(outputPath, bgr)
        case Some(e) => Failure(e)
        case None => Success(outputPath)
  }

  /** The defect: a bare file name (no directory part) can never be saved,
      whatever the filesystem does. */
  lemma SaveBareNameFails(disk: Disk, image: Image, outputPath: string)
    requires WellFormed(image)
    requires '/' !in outputPath
    ensures SaveDiffImage(disk, image, outputPath).Failure?
  {
  }

  /** The concrete case: `save_diff_image(diff, "out.png")` fails, while the
      corrected version writes the file when `cv2.imwrite` succeeds. */
  lemma SaveBareNameCounterexample(disk: Disk, image: Image)
    requires WellFormed(image)
    requires ToBgr(image).Success? && disk.imwrite("out.png", ToBgr(image).value).None?
    ensures SaveDiffImage(disk, image, "out.png").Failure?
    ensures SaveDiffImageFixed(disk, image, "out.png") == Success("out.png")
  {
    assert '/' !in "out.png";
  }

  /** For every path with a directory part, in particular the default one, the
      corrected version behaves exactly as written. */
  lemma SaveVariantsAgree(disk: Disk, image: Image, outputPath: string)
    requires WellFormed(image)
    requires '/' in outputPath
    ensures SaveDiffImageFixed(disk, image, outputPath) == SaveDiffImage(disk, image, outputPath)
  {
  }

  lemma DefaultDiffPathHasDirectory()
    ensures '/' in DEFAULT_DIFF_PATH
    ensures ValidateImageFormat(DEFAULT_DIFF_PATH)
  {
    assert DEFAULT_DIFF_PATH[11] == '/';
    SupportedFormatsArePlain();
    assert Lower(DEFAULT_DIFF_PATH) == DEFAULT_DIFF_PATH;
    var q := DEFAULT_DIFF_PATH;
    assert q[..|q| - 4][12] == 'd' && '/' !in q[..|q| - 4][13..];
    ExtIffEndsWith(q, ".png");
  }
}
