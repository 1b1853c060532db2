/** The renderer script's output naming: file extension, per-view and export
    file paths, the output prefix built from the command line, and the choice
    of distinct view angles. */
module Renders {
  import opened Results
  import opened Numbers
  import Decimal
  import opened Paths
  import Shuffling
  import Planner

  /** The extension of every artifact of a run: a mesh when exporting, an
      image otherwise. */
  function FileExtension(exporting: bool): (ext: string)
    ensures exporting <==> ext == ".obj"
    ensures !exporting <==> ext == ".png"
    ensures |ext| == 4 && ext[0] == '.' && '.' !in ext[1..] && '/' !in ext
  {
    if exporting then ".obj" else ".png"
  }

  /** The image written for one view: `<image path>_<seed>_<angle><ext>`. */
  function RenderPath(imagePath: string, seed: int, angle: int, ext: string): (p: string)
    ensures |imagePath| < |p| && p[..|imagePath|] == imagePath && p[|imagePath|] == '_'
    ensures |ext| <= |p| && p[|p| - |ext|..] == ext
  {
    imagePath + "_" + Decimal.Str(seed) + "_" + Decimal.Str(angle) + ext
  }

  /** The mesh written by an export: `<image path>_<seed><ext>`. */
  function ExportPath(imagePath: string, seed: int, ext: string): (p: string)
    ensures |imagePath| < |p| && p[..|imagePath|] == imagePath && p[|imagePath|] == '_'
    ensures |ext| <= |p| && p[|p| - |ext|..] == ext
  {
    imagePath + "_" + Decimal.Str(seed) + ext
  }

  predicate NoUnderscore(s: string) {
    forall i :: 0 <= i < |s| ==> s[i] != '_'
  }

  /** A printed integer holds no separator a file name uses. */
  lemma StrPlain(n: int)
    ensures NoUnderscore(Decimal.Str(n))
    ensures '/' !in Decimal.Str(n) && '.' !in Decimal.Str(n)
  {
  }

  /** A common suffix can be cancelled. */
  lemma CancelSuffix(x: string, x': string, e: string)
    requires x + e == x' + e
    ensures x == x'
  {
    assert x == (x + e)[..|x|];
    assert x' == (x' + e)[..|x'|];
  }

  /** A common prefix can be cancelled. */
  lemma CancelPrefix(p: string, u: string, u': string)
    requires p + u == p + u'
    ensures u == u'
  {
    assert u == (p + u)[|p|..];
    assert u' == (p + u')[|p|..];
  }

  /** `p_s_a` splits back into its parts when `s` holds no underscore. */
  lemma StemSplit(p: string, s: string, a: string, s': string, a': string)
    requires p + "_" + s + "_" + a == p + "_" + s' + "_" + a'
    requires '_' !in s && '_' !in s'
    ensures s == s' && a == a'
  {
    var t := p + "_" + s + "_" + a;
    var n := |p| + 1;
    assert forall i :: 0 <= i < |s| ==> t[n + i] == s[i];
    assert forall i :: 0 <= i < |s'| ==> t[n + i] == s'[i];
    assert t[n + |s|] == '_' && t[n + |s'|] == '_';
    assert |s| == |s'|;
    assert s == t[n..n + |s|] && s' == t[n..n + |s'|];
    assert a == t[n + |s| + 1..] && a' == t[n + |s'| + 1..];
  }

  /** Two views of a run land in the same file only if they have the same
      seed and the same angle. */
  lemma RenderPathInjective(imagePath: string, ext: string, seed: int, angle: int, seed': int, angle': int)
    requires RenderPath(imagePath, seed, angle, ext) == RenderPath(imagePath, seed', angle', ext)
    ensures seed == seed' && angle == angle'
  {
    var s, a := Decimal.Str(seed), Decimal.Str(angle);
    var s', a' := Decimal.Str(seed'), Decimal.Str(angle');
    CancelSuffix(imagePath + "_" + s + "_" + a, imagePath + "_" + s' + "_" + a', ext);
    StrPlain(seed);
    StrPlain(seed');
    StemSplit(imagePath, s, a, s', a');
    Decimal.StrInjective(seed, seed');
    Decimal.StrInjective(angle, angle');
  }

  /** Exports of different seeds land in different files. */
  lemma ExportPathInjective(imagePath: string, ext: string, seed: int, seed': int)
    requires ExportPath(imagePath, seed, ext) == ExportPath(imagePath, seed', ext)
    ensures seed == seed'
  {
    CancelSuffix(imagePath + "_" + Decimal.Str(seed), imagePath + "_" + Decimal.Str(seed'), ext);
    CancelPrefix(imagePath + "_", Decimal.Str(seed), Decimal.Str(seed'));
    Decimal.StrInjective(seed, seed');
  }

  /** The output prefix: the model file's stem, preceded by the `--filename`
      option and an underscore when that option is given and non-empty. */
  function OutputPrefix(model: string, filename: Option<string>): (r: string)
    ensures |GetFilename(model)| <= |r| && r[|r| - |GetFilename(model)|..] == GetFilename(model)
    ensures (filename.Some? && filename.value != []) <==> |GetFilename(model)| < |r|
    ensures filename.Some? && filename.value != [] ==>
      |filename.value| < |r| && r[..|filename.value|] == filename.value && r[|filename.value|] == '_'
    ensures filename.Some? && filename.value != [] ==> |r| == |filename.value| + 1 + |GetFilename(model)|
  {
    var stem := GetFilename(model);
    if filename.Some? && filename.value != [] then filename.value + "_" + stem else stem
  }

  /** The image path handed to the generator: the prefix inside the render
      directory. */
  function ImagePath(renderPath: string, prefix: string): (r: string)
    ensures 0 < |prefix| && prefix[0] == '/' ==> r == prefix
    ensures !(0 < |prefix| && prefix[0] == '/') ==>
      && |r| == |renderPath| + |prefix| + (if Separated(renderPath) then 0 else 1)
      && r[..|renderPath|] == renderPath && r[|r| - |prefix|..] == prefix
      && (!Separated(renderPath) ==> r[|renderPath|] == '/')
    ensures Basename(r) == Basename(prefix)
  {
    Join(renderPath, prefix)
  }

  /** A file a trailing-`*` glob pattern matches: the pattern's fixed part,
      then anything without a '/'. */
  predicate MatchesPrefixGlob(file: string, fixed: string) {
    |fixed| <= |file| && file[..|fixed|] == fixed && '/' !in file[|fixed|..]
  }

  /** The fixed part of the glob `utils.file_exists` uses to detect earlier
      output: render directory and prefix concatenated without a separator. */
  function ExistingOutputProbe(renderPath: string, prefix: string): (r: string)
    ensures |r| == |renderPath| + |prefix|
    ensures r[..|renderPath|] == renderPath && r[|renderPath|..] == prefix
  {
    renderPath + prefix
  }

  /** With a non-empty render directory that lacks a trailing '/', no
      file the run writes matches the probe: the written name has a '/'
      where the probe continues with the prefix. */
  lemma ExistingOutputProbeMisses(renderPath: string, prefix: string, seed: int, angle: int, ext: string)
    requires renderPath != [] && renderPath[|renderPath| - 1] != '/'
    requires prefix != [] && prefix[0] != '/'
    ensures !MatchesPrefixGlob(RenderPath(ImagePath(renderPath, prefix), seed, angle, ext), ExistingOutputProbe(renderPath, prefix))
  {
    var image := ImagePath(renderPath, prefix);
    assert image == renderPath + "/" + prefix;
    assert image[|renderPath|] == '/';
    var f := RenderPath(image, seed, angle, ext);
    assert f[|renderPath|] == '/';
  }

  /** The smallest instance: `out` and `tree` probe `outtree*` while the
      first image is `out/tree_0_0.png`. */
  lemma ExistingOutputProbeMissesRender()
    ensures !MatchesPrefixGlob(RenderPath(ImagePath("out", "tree"), 0, 0, ".png"), ExistingOutputProbe("out", "tree"))
  {
    ExistingOutputProbeMisses("out", "tree", 0, 0, ".png");
  }

  /** The probe the override check evidently intends: the image path itself. */
  function OutputProbe(renderPath: string, prefix: string): (r: string)
    ensures r == ImagePath(renderPath, prefix)
    ensures (renderPath == [] || renderPath[|renderPath| - 1] == '/') && (prefix == [] || prefix[0] != '/') ==>
      r == ExistingOutputProbe(renderPath, prefix)
  {
    Join(renderPath, prefix)
  }

  lemma MatchesOwnPrefix(p: string, t: string)
    requires '/' !in t
    ensures MatchesPrefixGlob(p + t, p)
  {
    assert (p + t)[..|p|] == p && (p + t)[|p|..] == t;
  }

  /** Every file a run writes matches the intended probe, so an earlier run
      into the same directory is always detected. */
  lemma OutputsMatchProbe(renderPath: string, prefix: string, seed: int, angle: int, exporting: bool)
    ensures MatchesPrefixGlob(RenderPath(ImagePath(renderPath, prefix), seed, angle, FileExtension(exporting)), OutputProbe(renderPath, prefix))
    ensures MatchesPrefixGlob(ExportPath(ImagePath(renderPath, prefix), seed, FileExtension(exporting)), OutputProbe(renderPath, prefix))
  {
    var p := ImagePath(renderPath, prefix);
    var ext := FileExtension(exporting);
    StrPlain(seed);
    StrPlain(angle);
    NoSlashConcat("_", Decimal.Str(seed));
    NoSlashConcat("_" + Decimal.Str(seed), "_");
    NoSlashConcat("_" + Decimal.Str(seed) + "_", Decimal.Str(angle));
    NoSlashConcat("_" + Decimal.Str(seed) + "_" + Decimal.Str(angle), ext);
    NoSlashConcat("_" + Decimal.Str(seed), ext);
    RenderPathSplit(p, seed, angle, ext);
    ExportPathSplit(p, seed, ext);
    MatchesOwnPrefix(p, "_" + Decimal.Str(seed) + "_" + Decimal.Str(angle) + ext);
    MatchesOwnPrefix(p, "_" + Decimal.Str(seed) + ext);
  }

  lemma RenderPathSplit(p: string, seed: int, angle: int, ext: string)
    ensures RenderPath(p, seed, angle, ext) == p + ("_" + Decimal.Str(seed) + "_" + Decimal.Str(angle) + ext)
  {
  }

  lemma ExportPathSplit(p: string, seed: int, ext: string)
    ensures ExportPath(p, seed, ext) == p + ("_" + Decimal.Str(seed) + ext)
  {
  }

  lemma NoSlashConcat(a: string, b: string)
    requires '/' !in a && '/' !in b
    ensures '/' !in a + b
  {
  }

  /** On the driver's route the render directory is normalised to end in
      '/', and there the probe `file_exists` builds is the intended one. */
  lemma DriverProbeIsIntended(outputPath: string, prefix: string)
    requires prefix == [] || prefix[0] != '/'
    ensures ExistingOutputProbe(Planner.OutputDirectory(outputPath), prefix) == OutputProbe(Planner.OutputDirectory(outputPath), prefix)
  {
  }

  /** The number of angles a view may look from, one per degree. */
  const Degrees: nat := 360

  /** `np.random.choice(range(0, 360), views, replace=False)`: numpy's legacy
      generator shuffles the whole range and keeps the first `views` entries.
      More views than degrees is rejected before drawing; a negative count
      is rejected after the shuffle. */
  function ChooseAngles(views: int, draws: seq<Unit>): (r: Result<(seq<int>, seq<Unit>)>)
    ensures views > Degrees ==> r == Fail(SampleTooLarge(views))
    ensures views < 0 ==> r.Fail?
    ensures 0 <= views <= Degrees ==> (r.Ok? <==> Shuffling.ShuffleDraws(Degrees) <= |draws|)
    ensures r.Ok? ==> |r.value.0| == views && r.value.1 == draws[Shuffling.ShuffleDraws(Degrees)..]
    ensures r.Ok? ==> forall k :: 0 <= k < views ==> 0 <= r.value.0[k] < Degrees
    ensures r.Ok? ==> Shuffling.Distinct(r.value.0)
    ensures r.Ok? && views == Degrees ==> multiset(r.value.0) == multiset(Shuffling.Range(Degrees))
  {
    if views > Degrees then Fail(SampleTooLarge(views))
    else
      var shuffled :- Shuffling.Shuffle(Shuffling.Range(Degrees), draws);
      if views < 0 then Fail(NegativeSize(views))
      else
        var perm := shuffled.0;
        Shuffling.RangeDistinct(Degrees);
        Shuffling.PermutedRangeBelow(perm, Degrees);
        assert views == Degrees ==> perm[..views] == perm;
        Ok((perm[..views], shuffled.1))
  }


  /** Fewer views see the first angles of a full sweep over the same draws. */
  lemma ChooseAnglesPrefix(views: int, draws: seq<Unit>)
    requires 0 <= views <= Degrees
    requires ChooseAngles(views, draws).Ok?
    ensures ChooseAngles(Degrees, draws).Ok?
    ensures ChooseAngles(views, draws).value.0 == ChooseAngles(Degrees, draws).value.0[..views]
  {
  }
}
