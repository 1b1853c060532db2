/** The job planner of the sample generation driver: it splits each model's
    sample count into renderer invocations of a fixed chunk size plus one
    remainder, and builds each invocation's argument list. */
module Planner {
  import opened Results
  import opened Numbers
  import Decimal
  import Paths

  type Args = seq<string>

  /** Samples one renderer process generates. */
  const JobChunkSize: int := 500

  /** `os.path.join(output_path, '')`: the output directory with a trailing
      '/' unless it is empty or already has one. */
  function OutputDirectory(outputPath: string): (r: string)
    ensures r == [] || r[|r| - 1] == '/'
    ensures |outputPath| <= |r| <= |outputPath| + 1 && r[..|outputPath|] == outputPath
    ensures r == outputPath <==> outputPath == [] || outputPath[|outputPath| - 1] == '/'
    ensures r == Paths.Join(outputPath, "")
  {
    if outputPath == [] || outputPath[|outputPath| - 1] == '/' then outputPath else outputPath + "/"
  }

  /** The renderer executable and script, then `--` and the output
      directory; everything after `--` is the script's own. */
  function JobArgumentsDefault(outputPath: string): (r: Args)
    ensures |r| >= 2 && r[|r| - 2] == "--" && r[|r| - 1] == outputPath
    ensures forall k :: 0 <= k < |r| - 2 ==> r[k] != "--"
  {
    ["/home/ajenal/Apps/blender2.78/blender", "--background", "--python", "sapling_tree_generator.py", "--", outputPath]
  }

  /** A copy of `scriptArgs` followed by the model and its image options. */
  function JobArgumentsModel(scriptArgs: Args, model: string, imageSize: int, views: int): (r: Args)
    ensures |r| == |scriptArgs| + 6 && r[..|scriptArgs|] == scriptArgs
    ensures r[|scriptArgs|..] == [model, "-o", "-size", Decimal.Str(imageSize), "-views", Decimal.Str(views)]
  {
    scriptArgs + [model, "-o", "-size", Decimal.Str(imageSize), "-views", Decimal.Str(views)]
  }

  /** A copy of `modelArgs` followed by the chunk's options: the total, the
      chunk size, the first seed, silhouette and randomness on, and export
      when asked for. */
  function JobArgumentsChunk(modelArgs: Args, total: int, size: int, seed: int, exporting: bool): (r: Args)
    ensures |r| == |modelArgs| + if exporting then 9 else 8
    ensures r[..|modelArgs|] == modelArgs
    ensures exporting <==> r[|r| - 1] == "-E"
  {
    var tail := ["--total-samples", Decimal.Str(total), "-n", Decimal.Str(size), "-seed", Decimal.Str(seed), "-S", "-R"];
    modelArgs + tail + if exporting then ["-E"] else []
  }

  /** What one chunk's options tell the renderer. */
  datatype Chunk = Chunk(total: int, size: int, seed: int, exporting: bool)

  /** The renderer's reading of the options `JobArgumentsChunk` appends. */
  function DecodeChunk(tail: Args): Option<Chunk> {
    if (|tail| == 8 || (|tail| == 9 && tail[8] == "-E"))
      && tail[0] == "--total-samples" && tail[2] == "-n" && tail[4] == "-seed" && tail[6] == "-S" && tail[7] == "-R"
      && Decimal.ParseInt(tail[1]).Some? && Decimal.ParseInt(tail[3]).Some? && Decimal.ParseInt(tail[5]).Some?
    then Some(Chunk(Decimal.ParseInt(tail[1]).value, Decimal.ParseInt(tail[3]).value, Decimal.ParseInt(tail[5]).value, |tail| == 9))
    else None
  }

  /** The renderer reads back exactly the chunk the planner wrote. */
  lemma ChunkRoundTrip(modelArgs: Args, c: Chunk)
    ensures DecodeChunk(JobArgumentsChunk(modelArgs, c.total, c.size, c.seed, c.exporting)[|modelArgs|..]) == Some(c)
  {
    var r := JobArgumentsChunk(modelArgs, c.total, c.size, c.seed, c.exporting);
    var tail := r[|modelArgs|..];
    Decimal.StrRoundTrip(c.total);
    Decimal.StrRoundTrip(c.size);
    Decimal.StrRoundTrip(c.seed);
    assert tail[1] == Decimal.Str(c.total) && tail[3] == Decimal.Str(c.size) && tail[5] == Decimal.Str(c.seed);
  }

  /** `human_readable_time` on a whole number of seconds: negative input is
      clamped to zero, then split into hours, minutes below 60 and seconds
      below 60. */
  function Clock(seconds: int): (r: (nat, nat, nat))
    ensures seconds <= 0 ==> r == (0, 0, 0)
    ensures seconds >= 0 ==> r.0 * 3600 + r.1 * 60 + r.2 == seconds
    ensures r.1 < 60 && r.2 < 60
  {
    var t := if seconds <= 0 then 0 else seconds;
    var m, s := t / 60, t % 60;
    (m / 60, m % 60, s)
  }

  /** Hours, minutes below 60 and seconds below 60 that add up to a count
      are the ones `Clock` finds. */
  lemma ClockUnique(seconds: int, h: nat, m: nat, s: nat)
    requires m < 60 && s < 60 && h * 3600 + m * 60 + s == seconds
    ensures Clock(seconds) == (h, m, s)
  {
    var c := Clock(seconds);
    assert seconds == (h * 60 + m) * 60 + s;
    assert seconds / 60 == h * 60 + m && seconds % 60 == s;
    assert (h * 60 + m) / 60 == h && (h * 60 + m) % 60 == m;
  }

  /** `%2d`: the digits, right-aligned in a field of two. */
  function Pad2(n: nat): (r: string)
    ensures n < 100 ==> |r| == 2
  {
    if n < 10 then " " + Decimal.NatStr(n)
    else
      assert n < 100 ==> |Decimal.NatStr(n / 10)| == 1;
      Decimal.NatStr(n)
  }

  /** The text `"%dh %2dm %2ds" % (h, m, s)` for the clamped duration. */
  function HumanReadableTime(seconds: int): (text: string)
    ensures 9 <= |text| && text[|text| - 1] == 's'
  {
    var c := Clock(seconds);
    Decimal.Str(c.0) + "h " + Pad2(c.1) + "m " + Pad2(c.2) + "s"
  }

  /** A two-character field holding a space and one digit, or two digits. */
  function Unpad2(f: string): Option<nat> {
    if |f| == 2 && f[0] == ' ' && Decimal.IsDigit(f[1]) then Some(Decimal.DigitValue(f[1]))
    else if |f| == 2 && Decimal.AllDigits(f) then Some(Decimal.ParseNat(f))
    else None
  }

  /** A reader of the duration text: hours up to `h `, then two fields. */
  function ReadClock(text: string): Option<(nat, nat, nat)> {
    if |text| < 9 then None
    else
      var n := |text| - 9;
      var hours, rest := text[..n], text[n..];
      if hours != [] && Decimal.AllDigits(hours) && rest[..2] == "h " && rest[4..6] == "m " && rest[8] == 's'
         && Unpad2(rest[2..4]).Some? && Unpad2(rest[6..8]).Some?
      then Some((Decimal.ParseNat(hours), Unpad2(rest[2..4]).value, Unpad2(rest[6..8]).value))
      else None
  }

  lemma Unpad2Pad2(n: nat)
    requires n < 100
    ensures Unpad2(Pad2(n)) == Some(n)
  {
    Decimal.ParseNatStr(n);
    if n < 10 {
      assert Pad2(n)[1] == Decimal.NatStr(n)[0];
    }
  }

  /** The printed duration reads back as the hours, minutes and seconds it
      was printed from. */
  lemma HumanReadableTimeRoundTrip(seconds: int)
    ensures ReadClock(HumanReadableTime(seconds)) == Some(Clock(seconds))
  {
    var c := Clock(seconds);
    var hs, pm, ps := Decimal.Str(c.0), Pad2(c.1), Pad2(c.2);
    Decimal.ParseNatStr(c.0);
    Unpad2Pad2(c.1);
    Unpad2Pad2(c.2);
    assert hs == Decimal.NatStr(c.0);
    ReadClockOf(hs, pm, ps);
  }

  /** Whatever the three fields hold, `ReadClock` finds them again. */
  lemma ReadClockOf(hs: string, pm: string, ps: string)
    requires hs != [] && Decimal.AllDigits(hs)
    requires |pm| == 2 && |ps| == 2 && Unpad2(pm).Some? && Unpad2(ps).Some?
    ensures ReadClock(hs + "h " + pm + "m " + ps + "s") == Some((Decimal.ParseNat(hs), Unpad2(pm).value, Unpad2(ps).value))
  {
    var rest := "h " + pm + "m " + ps + "s";
    var text := hs + rest;
    assert hs + "h " + pm + "m " + ps + "s" == text;
    assert |rest| == 9;
    assert text[..|text| - 9] == hs && text[|text| - 9..] == rest;
    assert rest[..2] == "h " && rest[4..6] == "m " && rest[8] == 's';
    assert rest[2..4] == pm && rest[6..8] == ps;
  }

  /** Python's `int(a / b)` on integers: true division, then truncation. */
  function TruncDiv(a: int, b: int): int
    requires b != 0
  {
    Trunc(a as real / b as real)
  }

  /** For a non-negative count and a positive chunk size this is the floor
      quotient. */
  lemma TruncDivIsQuotient(a: int, b: int)
    requires a >= 0 && b > 0
    ensures TruncDiv(a, b) == a / b
  {
    var q, r := a / b, a % b;
    assert a == q * b + r && 0 <= r < b;
    var x := a as real / b as real;
    assert x == q as real + r as real / b as real;
    assert 0.0 <= r as real / b as real < 1.0;
  }

  /** `q` full chunks, back to back from seed 0; none for a negative `q`. */
  function FullChunks(q: int, chunk: int): (r: seq<(int, int)>)
    ensures |r| == if q < 0 then 0 else q
    ensures forall n :: 0 <= n < |r| ==> r[n] == (n * chunk, chunk)
  {
    seq(if q < 0 then 0 else q, n => (n * chunk, chunk))
  }

  /** One model's chunk plan as (first seed, size) pairs: the full chunks,
      then the remainder when there is one. */
  function ModelChunks(num: int, chunk: int): seq<(int, int)>
    requires chunk != 0
  {
    var chunks := TruncDiv(num, chunk);
    ChunkPlan(chunks, num - chunks * chunk, chunk)
  }

  /** `q` full chunks, then one of size `rest` when that is positive. */
  function ChunkPlan(q: int, rest: int, chunk: int): seq<(int, int)> {
    FullChunks(q, chunk) + if rest > 0 then [(q * chunk, rest)] else []
  }

  /** Sum of the sizes of a chunk plan. */
  function SizeSum(cs: seq<(int, int)>): int {
    if cs == [] then 0 else cs[0].1 + SizeSum(cs[1..])
  }

  /** The chunks lie back to back from seed 0: each starts where the
      previous one ended. */
  ghost predicate Contiguous(cs: seq<(int, int)>) {
    && (cs != [] ==> cs[0].0 == 0)
    && forall k :: 0 < k < |cs| ==> cs[k].0 == cs[k - 1].0 + cs[k - 1].1
  }

  lemma FullChunksContiguous(q: nat, chunk: int)
    ensures Contiguous(FullChunks(q, chunk))
    ensures q > 0 ==> FullChunks(q, chunk)[q - 1].0 + chunk == q * chunk
  {
    var cs := FullChunks(q, chunk);
    forall k | 0 < k < |cs| ensures cs[k].0 == cs[k - 1].0 + cs[k - 1].1 {
      assert (k - 1) * chunk + chunk == k * chunk;
    }
    if q > 0 {
      assert (q - 1) * chunk + chunk == q * chunk;
    }
  }

  /** With a non-negative sample count and a positive chunk size, the plan
      is `num / chunk` full chunks and then the remainder when it is
      positive. */
  lemma ModelChunksForm(num: int, chunk: int)
    requires num >= 0 && chunk > 0
    ensures ModelChunks(num, chunk) == ChunkPlan(num / chunk, num % chunk, chunk)
    ensures num == num / chunk * chunk + num % chunk
  {
    TruncDivIsQuotient(num, chunk);
    assert num - num / chunk * chunk == num % chunk;
  }

  lemma PlanContiguous(q: nat, rest: int, chunk: int)
    ensures Contiguous(ChunkPlan(q, rest, chunk))
  {
    var full := FullChunks(q, chunk);
    var tail := if rest > 0 then [(q * chunk, rest)] else [];
    var cs := full + tail;
    assert cs == ChunkPlan(q, rest, chunk);
    FullChunksContiguous(q, chunk);
    forall k | 0 < k < |cs| ensures cs[k].0 == cs[k - 1].0 + cs[k - 1].1 {
      if k < q {
        assert cs[k] == full[k] && cs[k - 1] == full[k - 1];
      } else {
        assert k == q && cs[k] == tail[0] && cs[k - 1] == full[q - 1];
      }
    }
  }

  lemma PlanSum(q: nat, rest: int, chunk: int)
    requires rest >= 0
    ensures SizeSum(ChunkPlan(q, rest, chunk)) == q * chunk + rest
  {
    var full := FullChunks(q, chunk);
    var tail := if rest > 0 then [(q * chunk, rest)] else [];
    FullChunksSum(q, chunk, 0);
    assert full[0..] == full;
    assert SizeSum(tail) == rest by {
      if tail != [] { assert tail[1..] == []; }
    }
    SizeSumAppend(full, tail);
  }

  /** As many full chunks as fit, then one more exactly when something
      remains; every size is positive and at most the chunk size. */
  lemma ModelChunksCount(num: int, chunk: int)
    requires num >= 0 && chunk > 0
    ensures var cs := ModelChunks(num, chunk);
      && |cs| == num / chunk + (if num % chunk > 0 then 1 else 0)
      && (forall k :: 0 <= k < |cs| ==> 0 < cs[k].1 <= chunk)
      && (forall k :: 0 <= k < num / chunk ==> cs[k] == (k * chunk, chunk))
  {
    ModelChunksForm(num, chunk);
  }

  /** The chunks of one model lie back to back from seed 0. */
  lemma ModelChunksContiguous(num: int, chunk: int)
    requires num >= 0 && chunk > 0
    ensures Contiguous(ModelChunks(num, chunk))
  {
    ModelChunksForm(num, chunk);
    PlanContiguous(num / chunk, num % chunk, chunk);
  }

  /** The chunk sizes of one model add up to its sample count. */
  lemma ModelChunksSum(num: int, chunk: int)
    requires num >= 0 && chunk > 0
    ensures SizeSum(ModelChunks(num, chunk)) == num
  {
    ModelChunksForm(num, chunk);
    PlanSum(num / chunk, num % chunk, chunk);
  }

  /** Every seed below the sample count lies in exactly one chunk of its
      model. */
  lemma ModelChunksCover(num: int, chunk: int, s: int)
    requires num >= 0 && chunk > 0 && 0 <= s < num
    ensures exists k :: 0 <= k < |ModelChunks(num, chunk)| && InChunk(ModelChunks(num, chunk)[k], s)
    ensures forall k, l ::
      (0 <= k < |ModelChunks(num, chunk)| && 0 <= l < |ModelChunks(num, chunk)| &&
       InChunk(ModelChunks(num, chunk)[k], s) && InChunk(ModelChunks(num, chunk)[l], s)) ==> k == l
  {
    ModelChunksCount(num, chunk);
    ModelChunksContiguous(num, chunk);
    ModelChunksSum(num, chunk);
    ContiguousCover(ModelChunks(num, chunk), s);
  }

  /** No seed of a back-to-back plan reaches its total. */
  lemma ContiguousWithin(cs: seq<(int, int)>, k: int, s: int)
    requires Contiguous(cs) && forall k :: 0 <= k < |cs| ==> cs[k].1 > 0
    requires 0 <= k < |cs| && InChunk(cs[k], s)
    ensures 0 <= s < SizeSum(cs)
  {
    ContiguousStarts(cs);
    var last := |cs| - 1;
    assert cs[k].0 + cs[k].1 <= SizeSum(cs) by {
      if k < last { ContiguousOrdered(cs, k, last); }
    }
    assert cs[k].0 >= 0 by {
      SizeSumNonneg(cs[..k]);
    }
  }

  /** No chunk reaches past the sample count, so no sample of a planned job
      has a seed beyond its `--total-samples`. */
  lemma ModelChunksWithinTotal(num: int, chunk: int, k: int, s: int)
    requires num >= 0 && chunk > 0
    requires 0 <= k < |ModelChunks(num, chunk)| && InChunk(ModelChunks(num, chunk)[k], s)
    ensures 0 <= s < num
  {
    ModelChunksCount(num, chunk);
    ModelChunksContiguous(num, chunk);
    ModelChunksSum(num, chunk);
    ContiguousWithin(ModelChunks(num, chunk), k, s);
  }

  lemma {:induction false} SizeSumNonneg(cs: seq<(int, int)>)
    requires forall k :: 0 <= k < |cs| ==> cs[k].1 > 0
    ensures SizeSum(cs) >= 0
    decreases |cs|
  {
    if cs != [] { SizeSumNonneg(cs[1..]); }
  }

  lemma {:induction false} SizeSumAppend(a: seq<(int, int)>, b: seq<(int, int)>)
    ensures SizeSum(a + b) == SizeSum(a) + SizeSum(b)
    decreases |a|
  {
    if a == [] {
      assert a + b == b;
    } else {
      assert (a + b)[0] == a[0];
      assert (a + b)[1..] == a[1..] + b;
      SizeSumAppend(a[1..], b);
    }
  }

  lemma {:induction false} FullChunksSum(q: nat, chunk: int, from: nat)
    requires from <= q
    ensures SizeSum(FullChunks(q, chunk)[from..]) == (q - from) * chunk
    decreases q - from
  {
    var full := FullChunks(q, chunk);
    if from < q {
      assert full[from..][0] == full[from];
      assert full[from..][1..] == full[from + 1..];
      FullChunksSum(q, chunk, from + 1);
      assert (q - from) * chunk == chunk + (q - (from + 1)) * chunk;
    } else {
      assert full[from..] == [];
    }
  }

  /** Sample `s` belongs to exactly one chunk. */
  ghost predicate InChunk(c: (int, int), s: int) {
    c.0 <= s < c.0 + c.1
  }

  /** Back-to-back chunks from seed 0 cover the seeds below their total
      exactly once. */
  lemma {:induction false} ContiguousCover(cs: seq<(int, int)>, s: int)
    requires Contiguous(cs) && forall k :: 0 <= k < |cs| ==> cs[k].1 > 0
    requires 0 <= s < SizeSum(cs)
    ensures exists k :: 0 <= k < |cs| && InChunk(cs[k], s)
    ensures forall k, l :: 0 <= k < |cs| && 0 <= l < |cs| && InChunk(cs[k], s) && InChunk(cs[l], s) ==> k == l
  {
    var k := 0;
    ContiguousStarts(cs);
    while k < |cs| && cs[k].0 + cs[k].1 <= s
      invariant 0 <= k <= |cs|
      invariant k < |cs| ==> cs[k].0 <= s
      invariant 0 < k ==> cs[k - 1].0 + cs[k - 1].1 <= s
      decreases |cs| - k
    {
      k := k + 1;
    }
    assert k < |cs|;
    assert InChunk(cs[k], s);
    forall a, b | 0 <= a < |cs| && 0 <= b < |cs| && InChunk(cs[a], s) && InChunk(cs[b], s) ensures a == b {
      if a < b { ContiguousOrdered(cs, a, b); }
      if b < a { ContiguousOrdered(cs, b, a); }
    }
  }

  /** The last chunk of a back-to-back plan ends at its total; each chunk
      starts at the sum of the sizes before it. */
  lemma {:induction false} ContiguousStarts(cs: seq<(int, int)>)
    requires Contiguous(cs)
    ensures forall k :: 0 <= k < |cs| ==> cs[k].0 == SizeSum(cs[..k])
    ensures cs != [] ==> cs[|cs| - 1].0 + cs[|cs| - 1].1 == SizeSum(cs)
    decreases |cs|
  {
    if cs != [] {
      var init := cs[..|cs| - 1];
      assert Contiguous(init);
      ContiguousStarts(init);
      assert forall k :: 0 <= k < |init| ==> cs[..k] == init[..k];
      assert cs == init + [cs[|cs| - 1]];
      SizeSumAppend(init, [cs[|cs| - 1]]);
      assert SizeSum([cs[|cs| - 1]]) == cs[|cs| - 1].1;
      if |cs| > 1 {
        assert cs[|cs| - 1].0 == init[|init| - 1].0 + init[|init| - 1].1;
      }
      assert cs[..|cs| - 1] == init;
    }
  }

  /** A later chunk starts no earlier than an earlier chunk ends. */
  lemma {:induction false} ContiguousOrdered(cs: seq<(int, int)>, a: int, b: int)
    requires Contiguous(cs) && forall k :: 0 <= k < |cs| ==> cs[k].1 > 0
    requires 0 <= a < b < |cs|
    ensures cs[a].0 + cs[a].1 <= cs[b].0
    decreases b - a
  {
    if a + 1 < b { ContiguousOrdered(cs, a + 1, b); }
  }

  /** A planned job: the argument list of one renderer invocation. */
  datatype Job = Job(model: string, chunk: Chunk, args: Args)

  /** The jobs of one model, in seed order. */
  function ModelJobs(scriptArgs: Args, model: string, num: int, imageSize: int, views: int, chunk: int, exporting: bool): (r: seq<Job>)
    requires chunk != 0
    ensures |r| == |ModelChunks(num, chunk)|
    ensures forall k :: 0 <= k < |r| ==> r[k].model == model && r[k].chunk.total == num && r[k].chunk.exporting == exporting
    ensures forall k :: 0 <= k < |r| ==> r[k].chunk.seed == ModelChunks(num, chunk)[k].0 && r[k].chunk.size == ModelChunks(num, chunk)[k].1
    ensures forall k :: 0 <= k < |r| ==> ArgsOf(JobArgumentsModel(scriptArgs, model, imageSize, views), r[k])
  {
    var modelArgs := JobArgumentsModel(scriptArgs, model, imageSize, views);
    var cs := ModelChunks(num, chunk);
    var r := seq(|cs|, k requires 0 <= k < |cs| =>
      Job(model, Chunk(num, cs[k].1, cs[k].0, exporting), JobArgumentsChunk(modelArgs, num, cs[k].1, cs[k].0, exporting)));
    forall k | 0 <= k < |r| ensures ArgsOf(modelArgs, r[k]) {
      ChunkArgs(modelArgs, r[k]);
    }
    r
  }

  /** A job's argument list is the model's arguments followed by options the
      renderer reads back as exactly the job's chunk. */
  ghost predicate ArgsOf(modelArgs: Args, job: Job) {
    && |modelArgs| <= |job.args|
    && job.args[..|modelArgs|] == modelArgs
    && DecodeChunk(job.args[|modelArgs|..]) == Some(job.chunk)
  }

  lemma ChunkArgs(modelArgs: Args, job: Job)
    requires job.args == JobArgumentsChunk(modelArgs, job.chunk.total, job.chunk.size, job.chunk.seed, job.chunk.exporting)
    ensures ArgsOf(modelArgs, job)
  {
    ChunkRoundTrip(modelArgs, job.chunk);
  }

  /** The job list as a whole: the jobs of each model, model after model. */
  function PlanJobs(scriptArgs: Args, models: seq<string>, num: int, imageSize: int, views: int, chunk: int, exporting: bool): seq<Job>
    requires models != [] ==> chunk != 0
  {
    if models == [] then []
    else ModelJobs(scriptArgs, models[0], num, imageSize, views, chunk, exporting) + PlanJobs(scriptArgs, models[1..], num, imageSize, views, chunk, exporting)
  }

  /** Jobs are grouped model by model in the order the models are given:
      job `i * L + k` is the `k`-th job of model `i`, where `L` is the number
      of chunks each model gets. */
  lemma {:induction false} PlanJobsGrouped(scriptArgs: Args, models: seq<string>, num: int, imageSize: int, views: int, chunk: int, exporting: bool, i: int, k: int)
    requires chunk != 0
    requires 0 <= i < |models| && 0 <= k < |ModelChunks(num, chunk)|
    ensures |PlanJobs(scriptArgs, models, num, imageSize, views, chunk, exporting)| == |models| * |ModelChunks(num, chunk)|
    ensures i * |ModelChunks(num, chunk)| + k < |PlanJobs(scriptArgs, models, num, imageSize, views, chunk, exporting)|
    ensures PlanJobs(scriptArgs, models, num, imageSize, views, chunk, exporting)[i * |ModelChunks(num, chunk)| + k]
         == ModelJobs(scriptArgs, models[i], num, imageSize, views, chunk, exporting)[k]
    decreases |models|
  {
    var L := |ModelChunks(num, chunk)|;
    var gs := Groups(scriptArgs, models, num, imageSize, views, chunk, exporting);
    PlanJobsConcat(scriptArgs, models, num, imageSize, views, chunk, exporting);
    ConcatLength(gs, L);
    ConcatAt(gs, L, i, k);
    OffsetIsProduct(i, L);
    OffsetIsProduct(|models|, L);
  }

  /** The jobs of each model, one group per model. */
  function Groups(scriptArgs: Args, models: seq<string>, num: int, imageSize: int, views: int, chunk: int, exporting: bool): (gs: seq<seq<Job>>)
    requires chunk != 0
    ensures |gs| == |models|
    ensures forall j :: 0 <= j < |gs| ==> |gs[j]| == |ModelChunks(num, chunk)|
  {
    seq(|models|, j requires 0 <= j < |models| => ModelJobs(scriptArgs, models[j], num, imageSize, views, chunk, exporting))
  }

  lemma {:induction false} PlanJobsConcat(scriptArgs: Args, models: seq<string>, num: int, imageSize: int, views: int, chunk: int, exporting: bool)
    requires chunk != 0
    ensures PlanJobs(scriptArgs, models, num, imageSize, views, chunk, exporting)
         == Concat(Groups(scriptArgs, models, num, imageSize, views, chunk, exporting))
    decreases |models|
  {
    if models != [] {
      var gs := Groups(scriptArgs, models, num, imageSize, views, chunk, exporting);
      PlanJobsConcat(scriptArgs, models[1..], num, imageSize, views, chunk, exporting);
      assert gs[1..] == Groups(scriptArgs, models[1..], num, imageSize, views, chunk, exporting);
    }
  }

  /** The groups laid end to end. */
  function Concat<T>(gs: seq<seq<T>>): seq<T>
    decreases |gs|
  {
    if gs == [] then [] else gs[0] + Concat(gs[1..])
  }

  /** Where group `i` of `L` entries starts, counted by addition. */
  function Offset(i: nat, L: nat): nat {
    if i == 0 then 0 else L + Offset(i - 1, L)
  }

  lemma {:induction false} OffsetIsProduct(i: nat, L: nat)
    ensures Offset(i, L) == i * L
    decreases i
  {
    if i > 0 {
      OffsetIsProduct(i - 1, L);
      MulPred(i, L);
    }
  }

  lemma {:induction false} ConcatLength<T>(gs: seq<seq<T>>, L: nat)
    requires forall j :: 0 <= j < |gs| ==> |gs[j]| == L
    ensures |Concat(gs)| == Offset(|gs|, L)
    decreases |gs|
  {
    if gs != [] {
      assert forall j :: 0 <= j < |gs[1..]| ==> gs[1..][j] == gs[j + 1];
      ConcatLength(gs[1..], L);
    }
  }

  /** Entry `k` of group `i` sits at offset `Offset(i, L) + k`. */
  lemma {:induction false} ConcatAt<T>(gs: seq<seq<T>>, L: nat, i: nat, k: nat)
    requires forall j :: 0 <= j < |gs| ==> |gs[j]| == L
    requires i < |gs| && k < L
    ensures Offset(i, L) + k < |Concat(gs)| && Concat(gs)[Offset(i, L) + k] == gs[i][k]
    decreases i
  {
    assert forall j :: 0 <= j < |gs[1..]| ==> gs[1..][j] == gs[j + 1];
    ConcatLength(gs[1..], L);
    if i > 0 {
      ConcatAt(gs[1..], L, i - 1, k);
    }
  }

  lemma MulPred(n: int, L: int)
    ensures n * L == L + (n - 1) * L
  {
  }

  /** Within one model the seeds increase: a later job starts after an
      earlier one ends. */
  lemma ModelJobsSeedsIncrease(scriptArgs: Args, model: string, num: int, imageSize: int, views: int, chunk: int, exporting: bool, k: int, l: int)
    requires num >= 0 && chunk > 0
    requires 0 <= k < l < |ModelJobs(scriptArgs, model, num, imageSize, views, chunk, exporting)|
    ensures var jobs := ModelJobs(scriptArgs, model, num, imageSize, views, chunk, exporting);
      jobs[k].chunk.seed + jobs[k].chunk.size <= jobs[l].chunk.seed
  {
    ModelChunksCount(num, chunk);
    ModelChunksContiguous(num, chunk);
    ContiguousOrdered(ModelChunks(num, chunk), k, l);
  }

  /** The inner loop of `create_job_list` for one model: its full chunks,
      then the remainder. */
  method CreateModelJobs(scriptArgs: Args, model: string, num: int, imageSize: int, views: int, chunk: int, exporting: bool)
    returns (group: seq<Job>)
    requires chunk != 0
    ensures group == ModelJobs(scriptArgs, model, num, imageSize, views, chunk, exporting)
  {
    var modelArgs := JobArgumentsModel(scriptArgs, model, imageSize, views);
    var chunks := TruncDiv(num, chunk);
    ghost var planned := ModelJobs(scriptArgs, model, num, imageSize, views, chunk, exporting);
    ghost var cs := ModelChunks(num, chunk);
    group := [];
    var n := 0;
    while n < chunks
      invariant 0 <= n <= |FullChunks(chunks, chunk)|
      invariant group == planned[..n]
    {
      assert cs[n] == (n * chunk, chunk);
      var job := Job(model, Chunk(num, chunk, n * chunk, exporting), JobArgumentsChunk(modelArgs, num, chunk, n * chunk, exporting));
      ModelJobAt(scriptArgs, model, num, imageSize, views, chunk, exporting, n);
      PrefixExtend(planned, n, job);
      group := group + [job];
      n := n + 1;
    }
    if num - chunks * chunk > 0 {
      var rest := num - chunks * chunk;
      assert cs[n] == (chunks * chunk, rest);
      var job := Job(model, Chunk(num, rest, chunks * chunk, exporting), JobArgumentsChunk(modelArgs, num, rest, chunks * chunk, exporting));
      ModelJobAt(scriptArgs, model, num, imageSize, views, chunk, exporting, n);
      PrefixExtend(planned, n, job);
      group := group + [job];
      assert n + 1 == |planned|;
    }
    assert planned[..|planned|] == planned;
  }

  /** The `n`-th planned job of a model, written out. */
  lemma ModelJobAt(scriptArgs: Args, model: string, num: int, imageSize: int, views: int, chunk: int, exporting: bool, n: nat)
    requires chunk != 0 && n < |ModelChunks(num, chunk)|
    ensures var c := ModelChunks(num, chunk)[n];
      ModelJobs(scriptArgs, model, num, imageSize, views, chunk, exporting)[n]
      == Job(model, Chunk(num, c.1, c.0, exporting), JobArgumentsChunk(JobArgumentsModel(scriptArgs, model, imageSize, views), num, c.1, c.0, exporting))
  {
  }

  lemma PrefixExtend<T>(s: seq<T>, n: nat, x: T)
    requires n < |s| && s[n] == x
    ensures s[..n] + [x] == s[..n + 1]
  {
  }

  /** `create_job_list`: the jobs of each model, model after model. */
  method CreateJobList(scriptArgs: Args, models: seq<string>, num: int, imageSize: int, views: int, chunk: int, exporting: bool)
    returns (jobs: seq<Job>)
    requires models != [] ==> chunk != 0
    ensures jobs == PlanJobs(scriptArgs, models, num, imageSize, views, chunk, exporting)
  {
    jobs := [];
    var i := 0;
    while i < |models|
      invariant 0 <= i <= |models|
      invariant jobs + PlanJobs(scriptArgs, models[i..], num, imageSize, views, chunk, exporting)
             == PlanJobs(scriptArgs, models, num, imageSize, views, chunk, exporting)
    {
      var group := CreateModelJobs(scriptArgs, models[i], num, imageSize, views, chunk, exporting);
      PlanJobsStep(scriptArgs, models, num, imageSize, views, chunk, exporting, i);
      AppendAssoc(jobs, group, PlanJobs(scriptArgs, models[i + 1..], num, imageSize, views, chunk, exporting));
      jobs := jobs + group;
      i := i + 1;
    }
    assert models[i..] == [];
  }

  lemma PlanJobsStep(scriptArgs: Args, models: seq<string>, num: int, imageSize: int, views: int, chunk: int, exporting: bool, i: nat)
    requires chunk != 0 && i < |models|
    ensures PlanJobs(scriptArgs, models[i..], num, imageSize, views, chunk, exporting)
         == ModelJobs(scriptArgs, models[i], num, imageSize, views, chunk, exporting)
          + PlanJobs(scriptArgs, models[i + 1..], num, imageSize, views, chunk, exporting)
  {
    assert models[i..][0] == models[i];
    assert models[i..][1..] == models[i + 1..];
  }

  lemma AppendAssoc<T>(a: seq<T>, b: seq<T>, c: seq<T>)
    ensures (a + b) + c == a + (b + c)
  {
  }
}
