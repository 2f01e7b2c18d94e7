/** The image data model (NumPy arrays of 8-bit samples) and the foreign
    calls the program makes on it. OpenCV and scikit-image are not modelled:
    each call is a function-valued field of `Library`, and the shape
    guarantees those libraries document are stated once, in `LibraryContract`.
    The filesystem is treated the same way through `Disk`. */
module Images {
  import opened Wrappers

  /** A 2-D array (one sample per pixel) or a 3-D array with `channels`
      interleaved samples per pixel. */
  datatype Layout = Planar | Interleaved(channels: nat)

  /** `ndarray.shape`, split into its parts. */
  datatype Shape = Shape(height: nat, width: nat, layout: Layout)

  /** A NumPy `uint8` image: `rows[y][x]` is the list of samples of pixel (y, x);
      a planar pixel holds exactly one sample. */
  datatype Image = Image(shape: Shape, rows: seq<seq<seq<int>>>)

  /** The per-pixel SSIM map returned with `full=True` (a float64 2-D array). */
  datatype ScoreMap = ScoreMap(height: nat, width: nat, values: seq<seq<real>>)

  /** Samples per pixel. */
  function Depth(layout: Layout): nat
  {
    match layout
    case Planar => 1
    case Interleaved(c) => c
  }

  /** `ndarray.shape` as the tuple Python sees. */
  function Dims(s: Shape): (d: seq<nat>)
    ensures |d| == 2 <==> s.layout.Planar?
    ensures |d| == 3 <==> s.layout.Interleaved?
    ensures d[0] == s.height && d[1] == s.width
  {
    match s.layout
    case Planar => [s.height, s.width]
    case Interleaved(c) => [s.height, s.width, c]
  }

  /** Two shapes are equal exactly when their tuples are. */
  lemma DimsInjective(s: Shape, t: Shape)
    ensures Dims(s) == Dims(t) <==> s == t
  {
    if Dims(s) == Dims(t) {
      if s.layout.Interleaved? {
        assert Dims(s)[2] == Dims(t)[2];
      }
    }
  }

  predicate IsByte(v: int)
  {
    0 <= v <= 255
  }

  /** The array really has the shape it claims, with `uint8` samples. */
  predicate WellFormed(img: Image)
  {
    && |img.rows| == img.shape.height
    && (forall y :: 0 <= y < |img.rows| ==> |img.rows[y]| == img.shape.width)
    && (forall y, x :: 0 <= y < |img.rows| && 0 <= x < |img.rows[y]| ==>
          |img.rows[y][x]| == Depth(img.shape.layout))
    && (forall y, x, k :: 0 <= y < |img.rows| && 0 <= x < |img.rows[y]| && 0 <= k < |img.rows[y][x]| ==>
          IsByte(img.rows[y][x][k]))
  }

  predicate MapWellFormed(m: ScoreMap)
  {
    && |m.values| == m.height
    && forall y :: 0 <= y < |m.values| ==> |m.values[y]| == m.width
  }

  /** `np.array_equal(a, b)`: equal shapes and equal samples everywhere. */
  predicate ArrayEqual(a: Image, b: Image)
    requires WellFormed(a) && WellFormed(b)
  {
    && Dims(a.shape) == Dims(b.shape)
    && forall y, x, k :: 0 <= y < a.shape.height && 0 <= x < a.shape.width && 0 <= k < Depth(a.shape.layout) ==>
         a.rows[y][x][k] == b.rows[y][x][k]
  }

  /** Element-wise array equality is value equality of the modelled images. */
  lemma ArrayEqualIsEquality(a: Image, b: Image)
    requires WellFormed(a) && WellFormed(b)
    ensures ArrayEqual(a, b) <==> a == b
  {
    DimsInjective(a.shape, b.shape);
    if ArrayEqual(a, b) {
      assert forall y, x :: 0 <= y < a.shape.height && 0 <= x < a.shape.width ==> a.rows[y][x] == b.rows[y][x];
      assert forall y :: 0 <= y < a.shape.height ==> a.rows[y] == b.rows[y];
      assert a.rows == b.rows;
    }
  }

  /** The foreign calls, each as the program invokes it. */
  datatype Library = Library(
    /** `cv2.resize(image, (width, height))` */
    resize: (Image, nat, nat) -> Image,
    /** `cv2.cvtColor(image, cv2.COLOR_RGB2GRAY)` */
    rgbToGray: Image -> Image,
    /** `structural_similarity(a, b, full=True)`: the score and the map, or the raised error */
    ssim: (Image, Image) -> Result<(real, ScoreMap)>,
    /** `ndarray.astype(np.uint8)` on one float sample */
    toUint8: real -> int,
    /** `cv2.addWeighted(a, alpha, b, beta, gamma)` */
    addWeighted: (Image, real, Image, real, real) -> Image)

  /** The array is not empty: `cv2.resize` raises on an empty source or target. */
  predicate NonEmpty(s: Shape)
  {
    s.height >= 1 && s.width >= 1
  }

  /** The layout `cv2.resize` returns: a 3-D array with a single channel
      comes back as a 2-D array; every other layout is kept. */
  function ResizedLayout(layout: Layout): Layout
  {
    if layout == Interleaved(1) then Planar else layout
  }

  /** `cv2.COLOR_RGB2GRAY` accepts three or four channels and raises otherwise. */
  predicate GrayConvertible(layout: Layout)
  {
    layout == Interleaved(3) || layout == Interleaved(4)
  }

  /** What the libraries guarantee about the shapes of their results, for the
      inputs they accept. */
  ghost predicate LibraryContract(lib: Library)
  {
    && (forall img, w, h {:trigger lib.resize(img, w, h)} :: WellFormed(img) && NonEmpty(img.shape) && w >= 1 && h >= 1 ==>
          WellFormed(lib.resize(img, w, h)) && lib.resize(img, w, h).shape == Shape(h, w, ResizedLayout(img.shape.layout)))
    && (forall img {:trigger lib.rgbToGray(img)} :: WellFormed(img) && GrayConvertible(img.shape.layout) ==>
          WellFormed(lib.rgbToGray(img)) && lib.rgbToGray(img).shape == Shape(img.shape.height, img.shape.width, Planar))
    && (forall a, b {:trigger lib.ssim(a, b)} :: WellFormed(a) && WellFormed(b) && a.shape == b.shape && lib.ssim(a, b).Success? ==>
          MapWellFormed(lib.ssim(a, b).value.1)
          && lib.ssim(a, b).value.1.height == a.shape.height
          && lib.ssim(a, b).value.1.width == a.shape.width)
    && (forall v :: IsByte(lib.toUint8(v)))
    && (forall a, wa, b, wb, g {:trigger lib.addWeighted(a, wa, b, wb, g)} :: WellFormed(a) && WellFormed(b) && a.shape == b.shape ==>
          WellFormed(lib.addWeighted(a, wa, b, wb, g)) && lib.addWeighted(a, wa, b, wb, g).shape == a.shape)
  }

  /** The filesystem as the program sees it. */
  datatype Disk = Disk(
    /** `os.path.exists(path)` */
    pathExists: string -> bool,
    /** `cv2.imread(path)`: a BGR image, or `None` when it cannot be decoded */
    imread: string -> Option<Image>,
    /** `os.listdir(folder)` in the order the directory returns it, or the
        message of the raised error (not a directory, permission denied) */
    listdir: string -> Result<seq<string>>,
    /** `os.makedirs(path, exist_ok=True)` for a non-empty path: the message of the raised error, if any */
    makedirs: string -> Option<string>,
    /** `cv2.imwrite(path, image)`: the message of the raised error, if any.
        Its boolean result is ignored, as the program ignores it, so `None`
        means only that the call did not raise, not that the file exists. */
    imwrite: (string, Image) -> Option<string>)

  /** `cv2.imread` with its default flag always yields a non-empty 3-channel
      image, and directory entries are non-empty names without separators. */
  ghost predicate DiskContract(disk: Disk)
  {
    && (forall p {:trigger disk.imread(p)} :: disk.imread(p).Some? ==>
          var img := disk.imread(p).value;
          WellFormed(img) && img.shape.layout == Interleaved(3)
          && img.shape.height >= 1 && img.shape.width >= 1)
    && (forall d, i :: disk.listdir(d).Success? && 0 <= i < |disk.listdir(d).value| ==>
          disk.listdir(d).value[i] != "" && '/' !in disk.listdir(d).value[i])
  }
}
