/** The list, grid and naming logic of the archive helpers: batching of
    dataset names, the preview grid, shuffling of the dataset list, zip and
    HDF5 entry names, and the conversion to a binarised, split dataset. */
module FileUtils {
  import opened Results
  import opened Numbers
  import opened Paths
  import Decimal
  import Shuffling
  import Renders

  // ---------------------------------------------------------------- batches

  /** Batch `b` holds the `b`-th run of `size` consecutive names. */
  ghost predicate IsBatchAt<T>(names: seq<T>, batches: seq<seq<T>>, b: int, size: int) {
    && 0 <= b < |batches|
    && 0 < size && 0 <= b * size <= (b + 1) * size <= |names|
    && batches[b] == names[b * size..(b + 1) * size]
  }

  /** The batches laid end to end. */
  function Flatten<T>(batches: seq<seq<T>>): seq<T>
    decreases |batches|
  {
    if batches == [] then [] else Flatten(batches[..|batches| - 1]) + batches[|batches| - 1]
  }

  /** `next_batch`: collect names one by one and emit the collection each time
      it reaches `size`; what is left at the end is dropped. A size of zero or
      less is never reached, so nothing is emitted. Each batch holds the
      names whose images the generator would load and stack. */
  method NextBatch<T>(names: seq<T>, size: int) returns (batches: seq<seq<T>>)
    ensures size <= 0 ==> batches == []
    ensures size > 0 ==> |batches| == |names| / size
    ensures forall b :: 0 <= b < |batches| ==> |batches[b]| == size
    ensures forall b :: 0 <= b < |batches| ==> IsBatchAt(names, batches, b, size)
    ensures 0 <= |batches| * size <= |names|
    ensures Flatten(batches) == names[..|batches| * size]
  {
    batches := [];
    var images: seq<T> := [];
    var i := 0;
    ghost var done := 0;
    while i < |names|
      invariant 0 <= i <= |names|
      invariant size <= 0 ==> batches == []
      invariant done == |batches| * size && 0 <= done <= i
      invariant images == names[done..i]
      invariant size > 0 ==> |images| < size
      invariant forall b :: 0 <= b < |batches| ==> IsBatchAt(names, batches, b, size)
    {
      images := images + [names[i]];
      i := i + 1;
      if |images| == size {
        ghost var n := |batches|;
        ghost var before := batches;
        MulSucc(n, size);
        batches := batches + [images];
        forall b | 0 <= b <= n ensures IsBatchAt(names, batches, b, size) {
          if b < n { assert IsBatchAt(names, before, b, size); }
        }
        done := done + size;
        images := [];
      }
    }
    if size > 0 {
      QuotientOf(|names|, |batches|, |images|, size);
    }
    forall b | 0 <= b < |batches| ensures |batches[b]| == size {
      assert IsBatchAt(names, batches, b, size);
      MulSucc(b, size);
    }
    FlattenBatches(names, batches, size);
  }

  lemma MulSucc(n: int, size: int)
    requires n >= 0 && size > 0
    ensures (n + 1) * size == n * size + size
    ensures 0 <= n * size
  {
  }

  lemma MulAtLeast(k: int, d: int)
    requires k >= 1 && d > 0
    ensures k * d >= d
  {
  }

  /** Division by a positive divisor is determined by quotient and remainder. */
  lemma QuotientOf(a: int, q: int, r: int, d: int)
    requires d > 0 && 0 <= r < d && a == q * d + r
    ensures a / d == q && a % d == r
  {
    var q', r' := a / d, a % d;
    assert (q - q') * d == r' - r;
    if q > q' {
      MulAtLeast(q - q', d);
    } else if q' > q {
      MulAtLeast(q' - q, d);
    }
  }

  /** Batches that are consecutive runs of `size` names lay out the prefix
      they cover. */
  lemma {:induction false} FlattenBatches<T>(names: seq<T>, batches: seq<seq<T>>, size: int)
    requires forall b :: 0 <= b < |batches| ==> IsBatchAt(names, batches, b, size)
    requires 0 <= |batches| * size <= |names|
    ensures Flatten(batches) == names[..|batches| * size]
    decreases |batches|
  {
    if batches != [] {
      var n := |batches| - 1;
      var init := batches[..n];
      assert IsBatchAt(names, batches, n, size);
      forall b | 0 <= b < |init| ensures IsBatchAt(names, init, b, size) {
        assert IsBatchAt(names, batches, b, size);
      }
      FlattenBatches(names, init, size);
      assert names[..(n + 1) * size] == names[..n * size] + names[n * size..(n + 1) * size];
    }
  }

  // ---------------------------------------------------------------- preview

  /** The grid side `math.ceil(np.sqrt(n))`, searched upwards from `k`. */
  function CeilSqrtFrom(n: nat, k: nat): (r: nat)
    requires k == 0 || (k - 1) * (k - 1) < n
    ensures n <= r * r && (r == 0 || (r - 1) * (r - 1) < n)
    decreases n - k
  {
    if n <= k * k then k
    else
      assert k < n by {
        if k > 0 { assert k <= k * k; }
      }
      CeilSqrtFrom(n, k + 1)
  }

  /** The side of the smallest square grid that holds `n` images. */
  function CeilSqrt(n: nat): (r: nat)
    ensures n <= r * r
    ensures n >= 1 ==> (r - 1) * (r - 1) < n
    ensures n == 0 ==> r == 0
  {
    CeilSqrtFrom(n, 0)
  }

  lemma SquareMonotone(a: nat, b: nat)
    requires a <= b
    ensures a * a <= b * b
  {
    assert a * a <= a * b <= b * b;
  }

  /** The ceiling square root is the only side that bounds `n` from above
      with a predecessor that falls short. */
  lemma CeilSqrtUnique(n: nat, side: nat)
    requires n <= side * side && (side == 0 || (side - 1) * (side - 1) < n)
    ensures side == CeilSqrt(n)
  {
    var r := CeilSqrt(n);
    if side < r {
      SquareMonotone(side, r - 1);
    } else if r < side {
      SquareMonotone(r, side - 1);
    }
  }

  /** A cell of the preview canvas: an image of the batch, or the fill value 1. */
  datatype Cell = Fill | Image(index: nat)

  /** The cell in row `i`, column `j` of a grid of side `side`. */
  function GridCell(n: nat, side: nat, i: nat, j: nat): (c: Cell)
    ensures c.Image? <==> i * side + j < n
    ensures c.Image? ==> c.index == i * side + j
  {
    if i * side + j < n then Image(i * side + j) else Fill
  }

  /** `preview_batch` as a layout: row after row of the square grid, images
      in order, the cells past the last image left filled. */
  function PreviewGrid(n: nat): (g: seq<seq<Cell>>)
    ensures |g| == CeilSqrt(n)
    ensures forall i :: 0 <= i < |g| ==> |g[i]| == CeilSqrt(n)
    ensures forall i, j :: 0 <= i < |g| && 0 <= j < |g[i]| ==> g[i][j] == GridCell(n, CeilSqrt(n), i, j)
  {
    var side := CeilSqrt(n);
    seq(side, i requires 0 <= i < side => seq(side, j requires 0 <= j < side => GridCell(n, side, i, j)))
  }

  /** Every image of the batch appears in the grid, at row `x / side` and
      column `x % side`. */
  lemma PreviewGridPlacesEvery(n: nat, x: nat)
    requires x < n
    ensures var side := CeilSqrt(n);
      && 0 < side && x / side < side
      && PreviewGrid(n)[x / side][x % side] == Image(x)
  {
    RowBelow(x, CeilSqrt(n));
  }

  /** An index below `side * side` has a row and a column inside the grid. */
  lemma RowBelow(x: nat, side: nat)
    requires x < side * side
    ensures 0 < side && x / side < side && 0 <= x % side < side
    ensures x == x / side * side + x % side
  {
    if side <= x / side {
      MulMono(side, x / side, side);
    }
  }

  lemma MulMono(a: int, b: int, c: int)
    requires 0 <= a <= b && c >= 0
    ensures a * c <= b * c
  {
  }

  /** No image appears twice: a cell holding image `x` is the one at row
      `x / side` and column `x % side`. */
  lemma PreviewGridUnique(n: nat, i: nat, j: nat, x: nat)
    requires i < CeilSqrt(n) && j < CeilSqrt(n)
    requires PreviewGrid(n)[i][j] == Image(x)
    ensures x < n && i == x / CeilSqrt(n) && j == x % CeilSqrt(n)
  {
    var side := CeilSqrt(n);
    assert x == i * side + j;
    QuotientOf(x, i, j, side);
  }

  // ---------------------------------------------------------------- shuffle

  lemma GatherRange<T>(xs: seq<T>)
    ensures Shuffling.IndicesBelow(Shuffling.Range(|xs|), |xs|)
    ensures Shuffling.Gather(xs, Shuffling.Range(|xs|)) == xs
  {
  }

  /** Gathering through shuffled indices is shuffling the list itself. */
  lemma GatherShuffledRange<T>(list: seq<T>, draws: seq<Unit>)
    requires Shuffling.ShuffleDraws(|list|) <= |draws|
    ensures Shuffling.Shuffle(Shuffling.Range(|list|), draws).Ok?
    ensures Shuffling.IndicesBelow(Shuffling.Shuffle(Shuffling.Range(|list|), draws).value.0, |list|)
    ensures Shuffling.Gather(list, Shuffling.Shuffle(Shuffling.Range(|list|), draws).value.0)
         == Shuffling.Shuffle(list, draws).value.0
  {
    GatherRange(list);
    Shuffling.GatherShuffleDown(list, Shuffling.Range(|list|), Shuffling.ShuffleDraws(|list|), draws);
  }

  /** `file_utils.shuffle`: shuffle the positions `0..n-1`, then index the
      list with them. The result is the list shuffled with the same draws,
      so it is a rearrangement of the list. */
  function ShuffleList<T>(list: seq<T>, draws: seq<Unit>): (r: Result<(seq<T>, seq<Unit>)>)
    ensures r == Shuffling.Shuffle(list, draws)
    ensures r.Ok? <==> Shuffling.ShuffleDraws(|list|) <= |draws|
    ensures r.Ok? ==> |r.value.0| == |list| && multiset(r.value.0) == multiset(list)
    ensures r.Ok? ==> r.value.1 == draws[Shuffling.ShuffleDraws(|list|)..]
  {
    if Shuffling.ShuffleDraws(|list|) <= |draws| then
      GatherShuffledRange(list, draws);
      var access := Shuffling.Shuffle(Shuffling.Range(|list|), draws).value;
      Ok((Shuffling.Gather(list, access.0), access.1))
    else
      Shuffling.ShuffleDownFailure(list, Shuffling.ShuffleDraws(|list|), draws);
      Fail(DrawsExhausted)
  }

  // ---------------------------------------------------------------- archives

  /** Directory inside the zip archive that receives the samples. */
  const SamplesDir: string := "samples"

  /** The archive name of a file written to the zip: the directory, a '/',
      and the file's base name. */
  function ZipEntryName(dirName: string, file: string): (r: string)
    ensures |dirName| < |r| && r[..|dirName|] == dirName && r[|dirName|] == '/'
    ensures r[|dirName| + 1..] == Basename(file)
    ensures Basename(r) == Basename(file)
  {
    var b := GetFilenameWithExtension(file);
    SlashJoinParts(dirName, b);
    BasenameAfterSeparator(dirName + "/", b);
    LastComponentUnique(b, b);
    dirName + "/" + b
  }

  lemma SlashJoinParts(d: string, b: string)
    ensures |d| < |d + "/" + b|
    ensures (d + "/" + b)[..|d|] == d && (d + "/" + b)[|d|] == '/' && (d + "/" + b)[|d| + 1..] == b
  {
  }

  /** Two files share an archive entry exactly when their base names agree. */
  lemma ZipEntryCollision(dirName: string, f: string, g: string)
    ensures ZipEntryName(dirName, f) == ZipEntryName(dirName, g) <==> Basename(f) == Basename(g)
  {
  }

  /** An HDF5 dataset: its name and the `scipy_format` attribute. */
  datatype Dataset = Dataset(name: string, scipyFormat: string)

  /** The extension `save_images_to_hdf5` sweeps: it is called without an
      image format, so the default applies whatever format the caller names. */
  const HdfImageFormat: string := ".png"

  /** The dataset `save_images_to_hdf5` creates for one image. */
  function ImageDataset(image: string, scipyFormat: string): (d: Dataset)
    ensures d.scipyFormat == scipyFormat
    ensures '/' !in d.name && |d.name| <= |Basename(image)| && Basename(image)[..|d.name|] == d.name
    ensures d.name == GetFilename(image)
  {
    Dataset(GetFilename(image), scipyFormat)
  }

  /** Appending text without a '/' extends the base name. */
  lemma BasenameAppend(p: string, t: string)
    requires '/' !in t
    ensures Basename(p + t) == Basename(p) + t
  {
    LastSlashAppend(p, t);
    var c := ComponentStart(p);
    assert ComponentStart(p + t) == c;
    DropAppend(p, t, c);
    assert Basename(p + t) == (p + t)[c..];
  }

  lemma DropAppend<T>(p: seq<T>, t: seq<T>, i: nat)
    requires i <= |p|
    ensures (p + t)[i..] == p[i..] + t
  {
  }

  lemma NoSlashStart(p: string)
    requires '/' !in p
    ensures ComponentStart(p) == 0
  {
  }

  /** A name without '/' that does not end in '.' keeps its root when
      `.png` is appended and split off again. */
  lemma SplitPng(name: string)
    requires '/' !in name && name != [] && name[|name| - 1] != '.'
    ensures Splitext(name + HdfImageFormat) == (name, HdfImageFormat)
  {
    var p := name + HdfImageFormat;
    assert '/' !in p;
    NoSlashStart(p);
    assert p[|name| - 1] != '.';
    assert IsExtensionAt(p, |name|);
    SplitextAt(p, |name|);
    assert p[..|name|] == name && p[|name|..] == HdfImageFormat;
  }

  /** Appending `_s_a` and an extension, none holding '/', extends the
      base name by the same text. */
  lemma BasenameView(p: string, s: string, a: string, ext: string)
    requires '/' !in s && '/' !in a && '/' !in ext
    ensures Basename(p + "_" + s + "_" + a + ext) == Basename(p) + "_" + s + "_" + a + ext
  {
    BasenameAppend(p, "_");
    BasenameAppend(p + "_", s);
    BasenameAppend(p + "_" + s, "_");
    BasenameAppend(p + "_" + s + "_", a);
    BasenameAppend(p + "_" + s + "_" + a, ext);
  }

  /** The base name of a rendered image: the image path's base name
      followed by the view's suffix. */
  lemma RenderBasename(imagePath: string, seed: int, angle: int)
    ensures Basename(Renders.RenderPath(imagePath, seed, angle, HdfImageFormat))
         == RenderStem(imagePath, seed, angle) + HdfImageFormat
  {
    Renders.StrPlain(seed);
    Renders.StrPlain(angle);
    BasenameView(imagePath, Decimal.Str(seed), Decimal.Str(angle), HdfImageFormat);
  }

  /** The dataset name an image of view (`seed`, `angle`) should get. */
  function RenderStem(imagePath: string, seed: int, angle: int): (r: string)
    ensures '/' !in r && r != [] && r[|r| - 1] != '.'
  {
    Renders.StrPlain(angle);
    Basename(imagePath) + "_" + Decimal.Str(seed) + "_" + Decimal.Str(angle)
  }

  /** An image the run rendered is stored under the image path's base name,
      the seed and the angle. */
  lemma RenderDatasetName(imagePath: string, seed: int, angle: int, scipyFormat: string)
    ensures ImageDataset(Renders.RenderPath(imagePath, seed, angle, HdfImageFormat), scipyFormat).name
         == RenderStem(imagePath, seed, angle)
  {
    RenderBasename(imagePath, seed, angle);
    SplitPng(RenderStem(imagePath, seed, angle));
  }

  /** Distinct views of a run become distinct datasets, so no
      `create_dataset` call of the sweep meets an existing name. */
  lemma RenderDatasetsDistinct(imagePath: string, scipyFormat: string, seed: int, angle: int, seed': int, angle': int)
    requires (seed, angle) != (seed', angle')
    ensures ImageDataset(Renders.RenderPath(imagePath, seed, angle, HdfImageFormat), scipyFormat).name
         != ImageDataset(Renders.RenderPath(imagePath, seed', angle', HdfImageFormat), scipyFormat).name
  {
    RenderDatasetName(imagePath, seed, angle, scipyFormat);
    RenderDatasetName(imagePath, seed', angle', scipyFormat);
    var s, a := Decimal.Str(seed), Decimal.Str(angle);
    var s', a' := Decimal.Str(seed'), Decimal.Str(angle');
    if RenderStem(imagePath, seed, angle) == RenderStem(imagePath, seed', angle') {
      Renders.StrPlain(seed);
      Renders.StrPlain(seed');
      Renders.StemSplit(Basename(imagePath), s, a, s', a');
      Decimal.StrInjective(seed, seed');
      Decimal.StrInjective(angle, angle');
    }
  }

  // ---------------------------------------------------------------- fuel

  /** The pixel rule of `fuel_convert`: white (255) becomes 0, anything
      darker becomes 1; both masks are taken before either is applied, and
      values above 255 are left alone. */
  function Binarise(v: int): (r: int)
    ensures v < 255 ==> r == 1
    ensures v == 255 ==> r == 0
    ensures v > 255 ==> r == v
  {
    if v < 255 then 1 else if v == 255 then 0 else v
  }

  /** On 8-bit pixels the result is binary, and 0 marks exactly the white
      pixels. */
  lemma BinariseByte(v: int)
    requires 0 <= v < 256
    ensures Binarise(v) == 0 || Binarise(v) == 1
    ensures Binarise(v) == 0 <==> v == 255
  {
  }

  /** The binarised image, pixel by pixel. */
  function BinariseImage(img: seq<int>): (r: seq<int>)
    ensures |r| == |img| && forall k :: 0 <= k < |img| ==> r[k] == Binarise(img[k])
    ensures (forall k :: 0 <= k < |img| ==> 0 <= img[k] < 256) ==> forall k :: 0 <= k < |r| ==> r[k] == 0 || r[k] == 1
  {
    seq(|img|, k requires 0 <= k < |img| => Binarise(img[k]))
  }

  /** The three ranges of the split, as (start, end) pairs of sample indices. */
  datatype Split = Split(train: (int, int), test: (int, int), valid: (int, int))

  /** The split of `fuel_convert` for `n` samples: `int(0.8 * n)` for
      training, `int(0.1 * n)` for testing, the rest for validation. */
  function FuelSplit(n: int): (sp: Split)
    ensures sp.train.0 == 0 && sp.train.1 == sp.test.0 && sp.test.1 == sp.valid.0 && sp.valid.1 == n
    ensures n >= 0 ==> sp.train.1 == 8 * n / 10 && sp.test.1 - sp.test.0 == n / 10
    ensures n >= 0 ==> 0 <= sp.train.1 <= sp.test.1 <= sp.valid.1
  {
    var tr := Trunc(0.8 * n as real);
    var te := Trunc(0.1 * n as real);
    SplitSizes(n);
    Split((0, tr), (tr, tr + te), (tr + te, n))
  }

  /** For a non-negative count the truncated proportions are floor
      divisions, and together they leave a non-negative rest. */
  lemma SplitSizes(n: int)
    ensures n >= 0 ==> Trunc(0.8 * n as real) == 8 * n / 10
    ensures n >= 0 ==> Trunc(0.1 * n as real) == n / 10
    ensures n >= 0 ==> 8 * n / 10 + n / 10 <= n
  {
    if n >= 0 {
      TenthsTrunc(8 * n);
      TenthsTrunc(n);
      assert 0.8 * n as real == (8 * n) as real / 10.0;
      assert 0.1 * n as real == n as real / 10.0;
    }
  }

  lemma TenthsTrunc(x: int)
    requires x >= 0
    ensures Trunc(x as real / 10.0) == x / 10
  {
    var q, r := x / 10, x % 10;
    assert x as real / 10.0 == q as real + r as real / 10.0;
  }

  /** Within a split every sample lies in exactly one of the three ranges. */
  lemma FuelSplitCovers(n: int, s: int)
    requires 0 <= s < n
    ensures var sp := FuelSplit(n);
      && (sp.train.0 <= s < sp.train.1 || sp.test.0 <= s < sp.test.1 || sp.valid.0 <= s < sp.valid.1)
      && !(sp.train.0 <= s < sp.train.1 && sp.test.0 <= s < sp.test.1)
      && !(sp.train.0 <= s < sp.train.1 && sp.valid.0 <= s < sp.valid.1)
      && !(sp.test.0 <= s < sp.test.1 && sp.valid.0 <= s < sp.valid.1)
  {
  }

  /** The converted file: `fuel_` before the base name, in the same directory. */
  function FuelPath(hdf5File: string): (r: string)
    ensures Basename(r) == "fuel_" + Basename(hdf5File)
    ensures Dirname(r) == Dirname(hdf5File)
  {
    var name := "fuel_" + Basename(hdf5File);
    var d := Dirname(hdf5File);
    FuelName(hdf5File, name);
    LastComponentUnique(name, name);
    DirnameJoin(d, name);
    Join(d, name)
  }

  lemma FuelName(hdf5File: string, name: string)
    requires name == "fuel_" + Basename(hdf5File)
    ensures name != [] && '/' !in name
  {
    assert '/' !in Basename(hdf5File);
  }
}
