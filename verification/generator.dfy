/** The per-sample configuration pipeline of the renderer script: fixed
    defaults, the complexity blend, the silhouette override and the seed,
    applied sample by sample over a range of seeds, with the view angles and
    output files each sample yields. */
module Generator {
  import opened Results
  import opened Numbers
  import opened TreeModel
  import TreeConfigs
  import Renders
  import Shuffling

  /** The sapling add-on settings every sample uses. */
  const Defaults: Model := map[
    "levels" := Int(2),
    "bevel" := Bool(true),
    "bevelRes" := Int(4),
    "resU" := Int(4),
    "handleType" := Str("0"),
    "curveRes" := Tuple([Int(8), Int(5), Int(3), Int(1)]),
    "showLeaves" := Bool(false)
  ]

  /** `tree_model_defaults`: seven assignments in a row. */
  function TreeModelDefaults(m: Model): (r: Model)
    ensures r.Keys == m.Keys + Defaults.Keys
    ensures forall k :: k in Defaults ==> r[k] == Defaults[k]
    ensures forall k :: k in m && k !in Defaults ==> r[k] == m[k]
  {
    m["levels" := Int(2)]["bevel" := Bool(true)]["bevelRes" := Int(4)]["resU" := Int(4)]
     ["handleType" := Str("0")]["curveRes" := Tuple([Int(8), Int(5), Int(3), Int(1)])]["showLeaves" := Bool(false)]
  }

  /** Applying the defaults twice changes nothing more. */
  lemma DefaultsIdempotent(m: Model)
    ensures TreeModelDefaults(TreeModelDefaults(m)) == TreeModelDefaults(m)
  {
  }

  // ---------------------------------------------------------------------
  // The complexity blend

  /** The `type_func` a blend casts its result with. */
  datatype Cast = ToInt | ToFloat

  function CastTo(c: Cast, x: real): (v: Value)
    ensures AsNumber(v).Some?
  {
    match c
    case ToInt => Int(Trunc(x))
    case ToFloat => Float(x)
  }

  lemma CastMonotone(c: Cast, x: real, y: real)
    requires x <= y
    ensures AsNumber(CastTo(c, x)).value <= AsNumber(CastTo(c, y)).value
  {
    if c == ToInt { TruncMonotone(x, y); }
  }

  /** An operand numpy can broadcast to length `n`. */
  predicate Fits(a: Operand, n: nat) {
    a.Scalar? || |a.xs| == 1 || |a.xs| == n
  }

  /** The length the tuple branch broadcasts start and end to; none when the
      shapes clash, or when both are scalars and the 0-d result cannot be
      turned into a tuple. */
  function BroadcastLength(a: Operand, b: Operand): (r: Option<nat>)
    ensures r.Some? ==> Fits(a, r.value) && Fits(b, r.value)
    ensures r.Some? <==>
      !(a.Scalar? && b.Scalar?) && (a.Vector? && b.Vector? ==> |a.xs| == |b.xs| || |a.xs| == 1 || |b.xs| == 1)
    ensures r.Some? && a.Vector? && b.Vector? && |a.xs| == |b.xs| ==> r.value == |a.xs|
  {
    match (a, b)
    case (Scalar(_), Scalar(_)) => None
    case (Scalar(_), Vector(ys)) => Some(|ys|)
    case (Vector(xs), Scalar(_)) => Some(|xs|)
    case (Vector(xs), Vector(ys)) =>
      if |xs| == |ys| || |ys| == 1 then Some(|xs|)
      else if |xs| == 1 then Some(|ys|)
      else None
  }

  /** Element `i` of `a` broadcast to length `n`. */
  function Component(a: Operand, i: nat, n: nat): real
    requires Fits(a, n) && i < n
  {
    match a
    case Scalar(x) => x
    case Vector(xs) => if |xs| == 1 then xs[0] else xs[i]
  }

  /** What the blend promises for one component blended from `a` to `b` at
      sample `current` of `total`: the cast start at the first sample, the
      cast end at the last, and in between the cast of a value between the
      two; past the last sample, the cast of a value beyond the end, since
      nothing clamps the blend. */
  ghost predicate BlendsBetween(c: Cast, a: real, b: real, current: int, total: int, v: Value) {
    && (current == 0 ==> v == CastTo(c, a))
    && (current == total ==> v == CastTo(c, b))
    && (0 <= current <= total ==> exists x :: Min(a, b) <= x <= Max(a, b) && v == CastTo(c, x))
    && (0 < total < current && a < b ==> exists x :: x > b && v == CastTo(c, x))
    && (0 < total < current && b < a ==> exists x :: x < b && v == CastTo(c, x))
  }

  /** The blend fraction `current / total`. */
  function Fraction(current: int, total: int): (t: real)
    requires total != 0
    ensures current == 0 ==> t == 0.0
    ensures current == total ==> t == 1.0
    ensures 0 <= current <= total ==> 0.0 <= t <= 1.0
    ensures 0 < total < current ==> t > 1.0
  {
    var t := current as real / total as real;
    assert t * total as real == current as real;
    if 0 < total then
      assert current <= total ==> t <= 1.0 by {
        if t > 1.0 { MulPos(t - 1.0, total as real); }
      }
      assert total < current ==> t > 1.0 by {
        if t <= 1.0 { MulNonneg(1.0 - t, total as real); }
      }
      assert 0 <= current ==> 0.0 <= t by {
        if t < 0.0 { MulPos(-t, total as real); }
      }
      t
    else
      t
  }

  /** One blended component meets `BlendsBetween`. */
  lemma BlendMeetsPromise(c: Cast, a: real, b: real, current: int, total: int)
    requires total != 0
    ensures BlendsBetween(c, a, b, current, total, CastTo(c, Lerp(a, b, Fraction(current, total))))
  {
    var x := Lerp(a, b, Fraction(current, total));
    if 0 <= current <= total {
      assert Min(a, b) <= x <= Max(a, b) && CastTo(c, x) == CastTo(c, x);
    }
    if 0 < total < current && a != b {
      BlendExtrapolates(a, b, current, total);
      assert CastTo(c, x) == CastTo(c, x);
    }
  }

  /** Past the last sample the blend runs beyond the end value, away from
      the start: nothing clamps it. */
  lemma BlendExtrapolates(a: real, b: real, current: int, total: int)
    requires 0 < total < current && a != b
    ensures a < b ==> Lerp(a, b, Fraction(current, total)) > b
    ensures b < a ==> Lerp(a, b, Fraction(current, total)) < b
  {
    var t := Fraction(current, total);
    if a < b {
      var w := b - a;
      MulAboveOne(t, w);
      assert Lerp(a, b, t) == a + t * w;
    } else {
      var w := a - b;
      MulAboveOne(t, w);
      assert Lerp(a, b, t) == a - t * w;
    }
  }

  predicate Broadcastable(start: Value, end: Value) {
    && AsOperand(start).Some?
    && AsOperand(end).Some?
    && BroadcastLength(AsOperand(start).value, AsOperand(end).value).Some?
  }

  /** The tuple branch's promise: a tuple of the broadcast length whose
      every component blends between the matching start and end components. */
  ghost predicate TupleBlend(c: Cast, start: Value, end: Value, current: int, total: int, v: Value) {
    && Broadcastable(start, end)
    && var s, e := AsOperand(start).value, AsOperand(end).value;
       var n := BroadcastLength(s, e).value;
       && v.Tuple?
       && |v.elems| == n
       && forall i :: 0 <= i < n ==> BlendsBetween(c, Component(s, i, n), Component(e, i, n), current, total, v.elems[i])
  }

  /** The scalar branch's promise: both ends are numbers and the value
      blends between them. */
  ghost predicate ScalarBlend(c: Cast, start: Value, end: Value, current: int, total: int, v: Value) {
    && AsNumber(start).Some?
    && AsNumber(end).Some?
    && BlendsBetween(c, AsNumber(start).value, AsNumber(end).value, current, total, v)
  }

  function BlendEach(c: Cast, s: Operand, e: Operand, n: nat, t: real): seq<Value>
    requires Fits(s, n) && Fits(e, n)
  {
    seq(n, i requires 0 <= i < n => CastTo(c, Lerp(Component(s, i, n), Component(e, i, n), t)))
  }

  lemma BlendEachMeetsPromise(c: Cast, s: Operand, e: Operand, n: nat, current: int, total: int)
    requires Fits(s, n) && Fits(e, n) && total != 0
    ensures forall i :: 0 <= i < n ==>
      BlendsBetween(c, Component(s, i, n), Component(e, i, n), current, total, BlendEach(c, s, e, n, Fraction(current, total))[i])
  {
    forall i | 0 <= i < n
      ensures BlendsBetween(c, Component(s, i, n), Component(e, i, n), current, total, BlendEach(c, s, e, n, Fraction(current, total))[i])
    {
      BlendMeetsPromise(c, Component(s, i, n), Component(e, i, n), current, total);
    }
  }

  /** `complexity_variation`: overwrite `param` with the blend from `start`
      to `end` at sample `current` of `total`, element-wise when the current
      value is a tuple. */
  function ComplexityVariation(m: Model, param: string, c: Cast, start: Value, end: Value, current: int, total: int): (r: Result<Model>)
    ensures total == 0 ==> r == Fail(ZeroDivision)
    ensures total != 0 && param !in m ==> r == Fail(MissingKey(param))
    ensures total != 0 && param in m && m[param].Tuple? ==> (r.Ok? <==> Broadcastable(start, end))
    ensures total != 0 && param in m && !m[param].Tuple? ==> (r.Ok? <==> AsNumber(start).Some? && AsNumber(end).Some?)
    ensures r.Ok? ==> param in m && r.value.Keys == m.Keys
    ensures r.Ok? ==> forall k :: k in m && k != param ==> r.value[k] == m[k]
    ensures r.Ok? && m[param].Tuple? ==> TupleBlend(c, start, end, current, total, r.value[param])
    ensures r.Ok? && !m[param].Tuple? ==> ScalarBlend(c, start, end, current, total, r.value[param])
  {
    if total == 0 then Fail(ZeroDivision)
    else if param !in m then Fail(MissingKey(param))
    else
      var t := Fraction(current, total);
      if m[param].Tuple? then
        if !Broadcastable(start, end) then Fail(ShapeMismatch(param))
        else
          var s, e := AsOperand(start).value, AsOperand(end).value;
          var n := BroadcastLength(s, e).value;
          BlendEachMeetsPromise(c, s, e, n, current, total);
          Ok(m[param := Tuple(BlendEach(c, s, e, n, t))])
      else if AsNumber(start).None? || AsNumber(end).None? then Fail(NotNumeric(param))
      else
        var a, b := AsNumber(start).value, AsNumber(end).value;
        BlendMeetsPromise(c, a, b, current, total);
        Ok(m[param := CastTo(c, Lerp(a, b, t))])
  }

  /** Blending tuples of the same length keeps that length. */
  lemma TupleBlendKeepsLength(c: Cast, start: seq<Value>, end: seq<Value>, current: int, total: int, v: Value)
    requires |start| == |end|
    requires TupleBlend(c, Tuple(start), Tuple(end), current, total, v)
    ensures |v.elems| == |start|
  {
  }

  // ---------------------------------------------------------------------
  // The silhouette override

  /** Minimum branch radius per unit of tree scale in a silhouette. */
  const SkeletonRadiusDamper: real := 0.005

  const SilhouetteKeys: set<string> := {"closeTip", "minRadius", "scale0"}

  /** The silhouette override: closed tips off, a minimum radius
      proportional to the tree's scale, and a zero trunk radius. */
  function RenderSilhouette(m: Model): (r: Result<Model>)
    ensures "scale" !in m ==> r == Fail(MissingKey("scale"))
    ensures r.Ok? <==> "scale" in m && AsNumber(m["scale"]).Some?
    ensures r.Ok? ==> r.value.Keys == m.Keys + SilhouetteKeys
    ensures r.Ok? ==> r.value["closeTip"] == Bool(false) && r.value["scale0"] == Float(0.0)
    ensures r.Ok? ==> r.value["minRadius"] == Float(SkeletonRadiusDamper * AsNumber(m["scale"]).value)
    ensures r.Ok? ==> forall k :: k in m && k !in SilhouetteKeys ==> r.value[k] == m[k]
  {
    var m1 := m["closeTip" := Bool(false)];
    if "scale" !in m1 then Fail(MissingKey("scale"))
    else if AsNumber(m1["scale"]).None? then Fail(NotNumeric("scale"))
    else Ok(m1["minRadius" := Float(SkeletonRadiusDamper * AsNumber(m1["scale"]).value)]["scale0" := Float(0.0)])
  }

  // ---------------------------------------------------------------------
  // The sample loop

  /** The end points of the four blends, read once per model before the loop. */
  datatype Targets = Targets(
    branchesEnd: Value,
    splitsEnd: Value,
    radiusVarianceEnd: Value,
    radiusStart: Value,
    radiusEnd: Value)

  /** The blend end points: the model's branches and splits, and the trunk
      radius, half of it and 1.3 times it. */
  function ComplexityTargets(m: Model): (r: Result<Targets>)
    ensures r.Ok? <==> "branches" in m && "segSplits" in m && "scale0" in m && AsNumber(m["scale0"]).Some?
    ensures r.Ok? ==> r.value.branchesEnd == m["branches"] && r.value.splitsEnd == m["segSplits"]
    ensures r.Ok? ==> r.value.radiusStart == m["scale0"]
    ensures r.Ok? ==> r.value.radiusVarianceEnd == Float(AsNumber(m["scale0"]).value * 0.5)
    ensures r.Ok? ==> r.value.radiusEnd == Float(AsNumber(m["scale0"]).value * 1.3)
  {
    if "branches" !in m then Fail(MissingKey("branches"))
    else if "segSplits" !in m then Fail(MissingKey("segSplits"))
    else if "scale0" !in m then Fail(MissingKey("scale0"))
    else if AsNumber(m["scale0"]).None? then Fail(NotNumeric("scale0"))
    else
      var radius := AsNumber(m["scale0"]).value;
      Ok(Targets(m["branches"], m["segSplits"], Float(radius * 0.5), m["scale0"], Float(radius * 1.3)))
  }

  const BranchesStart: Value := Tuple([Int(1), Int(3), Int(1), Int(1)])
  const SplitsStart: Value := Tuple([Float(0.0), Float(0.0), Float(0.0), Float(0.0)])

  const ComplexityKeys: set<string> := {"branches", "segSplits", "scale0", "scaleV0"}

  /** One blend's cast and end points. */
  datatype Blend = Blend(cast: Cast, start: Value, end: Value)

  /** The blend each complexity key gets: `branches` from (1, 3, 1, 1) and
      `segSplits` from zeros to the model's values, `scale0` from the trunk
      radius to 1.3 times it, and `scaleV0` from 0 to half the trunk radius. */
  function BranchesBlend(t: Targets): Blend { Blend(ToInt, BranchesStart, t.branchesEnd) }
  function SplitsBlend(t: Targets): Blend { Blend(ToFloat, SplitsStart, t.splitsEnd) }
  function RadiusBlend(t: Targets): Blend { Blend(ToFloat, t.radiusStart, t.radiusEnd) }
  function RadiusVarianceBlend(t: Targets): Blend { Blend(ToFloat, Int(0), t.radiusVarianceEnd) }

  /** A value carrying blend `b` at sample `s`: the promise of the tuple
      branch or of the scalar branch. */
  ghost predicate CarriesBlend(b: Blend, s: int, total: int, v: Value) {
    TupleBlend(b.cast, b.start, b.end, s, total, v) || ScalarBlend(b.cast, b.start, b.end, s, total, v)
  }

  /** The complexity keys among `keys` hold their blend at sample `s`. */
  ghost predicate ComplexityBlended(t: Targets, s: int, total: int, out: Model, keys: set<string>) {
    && keys <= out.Keys
    && ("branches" in keys ==> CarriesBlend(BranchesBlend(t), s, total, out["branches"]))
    && ("segSplits" in keys ==> CarriesBlend(SplitsBlend(t), s, total, out["segSplits"]))
    && ("scale0" in keys ==> CarriesBlend(RadiusBlend(t), s, total, out["scale0"]))
    && ("scaleV0" in keys ==> CarriesBlend(RadiusVarianceBlend(t), s, total, out["scaleV0"]))
  }

  /** A blend keeps the kind of the value it overwrites: a tuple stays a
      tuple and a number stays a number. */
  ghost predicate KindKept(m: Model, out: Model, k: string) {
    k in m && k in out && (out[k].Tuple? <==> m[k].Tuple?)
  }

  /** The four blends of one sample, in source order. */
  function BlendComplexity(m: Model, t: Targets, s: int, total: int): (r: Result<Model>)
    ensures total == 0 ==> r.Fail?
    ensures r.Ok? ==> r.value.Keys == m.Keys && ComplexityKeys <= m.Keys
    ensures r.Ok? ==> forall k :: k in m && k !in ComplexityKeys ==> r.value[k] == m[k]
    ensures r.Ok? ==> ComplexityBlended(t, s, total, r.value, ComplexityKeys)
    ensures r.Ok? ==> forall k :: k in ComplexityKeys ==> KindKept(m, r.value, k)
  {
    var m1 :- ComplexityVariation(m, "branches", ToInt, BranchesStart, t.branchesEnd, s, total);
    var m2 :- ComplexityVariation(m1, "segSplits", ToFloat, SplitsStart, t.splitsEnd, s, total);
    var m3 :- ComplexityVariation(m2, "scale0", ToFloat, t.radiusStart, t.radiusEnd, s, total);
    var m4 :- ComplexityVariation(m3, "scaleV0", ToFloat, Int(0), t.radiusVarianceEnd, s, total);
    VariationCarries(m, "branches", ToInt, BranchesStart, t.branchesEnd, s, total, m1);
    VariationCarries(m1, "segSplits", ToFloat, SplitsStart, t.splitsEnd, s, total, m2);
    VariationCarries(m2, "scale0", ToFloat, t.radiusStart, t.radiusEnd, s, total, m3);
    VariationCarries(m3, "scaleV0", ToFloat, Int(0), t.radiusVarianceEnd, s, total, m4);
    BlendsKept(m, m1, m2, m3, m4);
    CarriedOver(BranchesBlend(t), s, total, m1["branches"], m4["branches"]);
    CarriedOver(SplitsBlend(t), s, total, m2["segSplits"], m4["segSplits"]);
    CarriedOver(RadiusBlend(t), s, total, m3["scale0"], m4["scale0"]);
    Ok(m4)
  }

  /** One blend's frame: `next` is `prev` with only key `k` overwritten, by
      a value of the old one's kind. */
  ghost predicate BlendStepped(prev: Model, next: Model, k: string) {
    && next.Keys == prev.Keys
    && (forall j :: j in prev && j != k ==> next[j] == prev[j])
    && KindKept(prev, next, k)
  }

  /** One blend's outcome: its key carries the blend, the rest is framed. */
  lemma VariationCarries(m: Model, param: string, c: Cast, start: Value, end: Value, s: int, total: int, out: Model)
    requires ComplexityVariation(m, param, c, start, end, s, total) == Ok(out)
    ensures BlendStepped(m, out, param) && CarriesBlend(Blend(c, start, end), s, total, out[param])
  {
  }

  /** Each blend touches only its own key, so after the fourth every key
      still holds the value its own blend wrote, of the kind it had. */
  lemma BlendsKept(m: Model, m1: Model, m2: Model, m3: Model, m4: Model)
    requires BlendStepped(m, m1, "branches") && BlendStepped(m1, m2, "segSplits")
    requires BlendStepped(m2, m3, "scale0") && BlendStepped(m3, m4, "scaleV0")
    ensures m4["branches"] == m1["branches"] && m4["segSplits"] == m2["segSplits"] && m4["scale0"] == m3["scale0"]
    ensures forall k :: k in ComplexityKeys ==> KindKept(m, m4, k)
  {
    assert m4["branches"] == m3["branches"] == m2["branches"] == m1["branches"];
    assert m4["segSplits"] == m3["segSplits"] == m2["segSplits"];
  }

  lemma CarriedOver(b: Blend, s: int, total: int, v: Value, w: Value)
    requires CarriesBlend(b, s, total, v) && v == w
    ensures CarriesBlend(b, s, total, w)
  {
  }

  /** The command line switches the loop reads. */
  datatype Settings = Settings(
    pureRandom: bool,
    silhouette: bool,
    exporting: bool,
    views: int,
    imagePath: string)

  /** Every registered parameter whose name is outside `except` holds a
      value its descriptor can produce. */
  ghost predicate ConformsExcept(reg: TreeConfigs.Registry, out: Model, except: set<string>) {
    forall i :: 0 <= i < |reg| && reg[i].name !in except ==>
      reg[i].name in out && TreeConfigs.Conforms(reg[i].param, out[reg[i].name])
  }

  /** The jitter step: registered parameters redrawn in pure random mode. */
  function JitterStep(st: Settings, reg: TreeConfigs.Registry, m: Model, draws: seq<Unit>): (r: Result<(Model, seq<Unit>)>)
    ensures r.Ok? ==> KeepsOutside(m, r.value.0, JitterWrites(st, reg))
    ensures r.Ok? && !st.pureRandom ==> r.value.1 == draws && r.value.0 == m
    ensures r.Ok? && st.pureRandom ==> r.value.0.Keys == m.Keys + TreeConfigs.NameSet(reg)
    ensures r.Ok? && st.pureRandom && TreeConfigs.UniqueNames(reg) ==> ConformsExcept(reg, r.value.0, {})
    ensures r.Ok? && st.pureRandom ==>
      TreeConfigs.TotalDraws(reg, TreeConfigs.GetJitter) <= |draws| &&
      r.value.1 == draws[TreeConfigs.TotalDraws(reg, TreeConfigs.GetJitter)..]
  {
    if st.pureRandom then TreeConfigs.Jitter(reg, m, draws) else Ok((m, draws))
  }

  /** The complexity step: the four blends in pure random mode. */
  function ComplexityStep(st: Settings, t: Targets, m: Model, s: int, total: int): (r: Result<Model>)
    ensures r.Ok? ==> r.value.Keys == m.Keys && KeepsOutside(m, r.value, BlendWrites(st))
    ensures r.Ok? && st.pureRandom ==> ComplexityBlended(t, s, total, r.value, ComplexityKeys)
    ensures r.Ok? && st.pureRandom ==> forall k :: k in ComplexityKeys ==> KindKept(m, r.value, k)
  {
    if st.pureRandom then BlendComplexity(m, t, s, total) else Ok(m)
  }

  /** The silhouette step: the override in silhouette mode. */
  function SilhouetteStep(st: Settings, m: Model): (r: Result<Model>)
    ensures r.Ok? ==> KeepsOutside(m, r.value, SilhouetteWrites(st))
    ensures r.Ok? && st.silhouette ==> Silhouetted(r.value)
  {
    if st.silhouette then RenderSilhouette(m) else Ok(m)
  }

  /** The silhouette promise on a configuration: closed tips off, a zero
      trunk radius and a minimum radius proportional to the scale. */
  ghost predicate Silhouetted(m: Model) {
    && SilhouetteKeys <= m.Keys
    && m["closeTip"] == Bool(false)
    && m["scale0"] == Float(0.0)
    && "scale" in m && AsNumber(m["scale"]).Some?
    && m["minRadius"] == Float(SkeletonRadiusDamper * AsNumber(m["scale"]).value)
  }

  /** The keys the jitter writes: the registered names, in pure random mode. */
  function JitterWrites(st: Settings, reg: TreeConfigs.Registry): set<string> {
    if st.pureRandom then TreeConfigs.NameSet(reg) else {}
  }

  /** The keys the blends write, in pure random mode. */
  function BlendWrites(st: Settings): set<string> {
    if st.pureRandom then ComplexityKeys else {}
  }

  /** The keys the silhouette override writes, in silhouette mode. */
  function SilhouetteWrites(st: Settings): set<string> {
    if st.silhouette then SilhouetteKeys else {}
  }

  /** Keys the shaping steps may write. */
  function ShapeWrites(st: Settings, reg: TreeConfigs.Registry): set<string> {
    JitterWrites(st, reg) + BlendWrites(st) + SilhouetteWrites(st)
  }

  /** Keys written after the jitter in pure random mode: the blended keys
      and, in silhouette mode, the silhouette keys. */
  function AfterJitter(st: Settings): set<string> {
    ComplexityKeys + SilhouetteWrites(st)
  }

  /** Blended keys no later step overwrites: all four, less `scale0` in
      silhouette mode. */
  function BlendKept(st: Settings): set<string> {
    ComplexityKeys - SilhouetteWrites(st)
  }

  /** `b` keeps every key of `a`, and its value outside `written`. */
  ghost predicate KeepsOutside(a: Model, b: Model, written: set<string>) {
    a.Keys <= b.Keys && forall k :: k in a && k !in written ==> b[k] == a[k]
  }

  lemma KeepsOutsideTrans(a: Model, b: Model, c: Model, w1: set<string>, w2: set<string>)
    requires KeepsOutside(a, b, w1) && KeepsOutside(b, c, w2)
    ensures KeepsOutside(a, c, w1 + w2)
  {
  }

  /** A step that leaves keys outside `written` alone keeps every value
      that conformed there. */
  lemma ConformsKept(reg: TreeConfigs.Registry, a: Model, b: Model, except: set<string>, written: set<string>)
    requires ConformsExcept(reg, a, except) && KeepsOutside(a, b, written)
    ensures ConformsExcept(reg, b, except + written)
  {
  }

  /** A step that leaves keys outside `written` alone keeps the blends there. */
  lemma BlendsSurvive(t: Targets, s: int, total: int, a: Model, b: Model, keys: set<string>, written: set<string>)
    requires ComplexityBlended(t, s, total, a, keys) && KeepsOutside(a, b, written)
    ensures ComplexityBlended(t, s, total, b, keys - written)
  {
  }

  /** The shaping steps of one iteration in order: jitter, complexity,
      silhouette. The blend comes after the jitter, so on a key both write
      the blend wins; the silhouette comes last and wins over both. */
  function Shape(st: Settings, reg: TreeConfigs.Registry, t: Targets, m: Model, s: int, total: int, draws: seq<Unit>): (r: Result<(Model, seq<Unit>)>)
    ensures r.Ok? && st.silhouette ==> Silhouetted(r.value.0)
    ensures r.Ok? && st.pureRandom ==> ComplexityBlended(t, s, total, r.value.0, BlendKept(st))
    ensures r.Ok? && st.pureRandom ==> TreeConfigs.NameSet(reg) <= r.value.0.Keys
    ensures r.Ok? && st.pureRandom && TreeConfigs.UniqueNames(reg) ==> ConformsExcept(reg, r.value.0, AfterJitter(st))
    ensures r.Ok? && !st.pureRandom ==> r.value.1 == draws
    ensures r.Ok? && st.pureRandom ==>
      TreeConfigs.TotalDraws(reg, TreeConfigs.GetJitter) <= |draws| &&
      r.value.1 == draws[TreeConfigs.TotalDraws(reg, TreeConfigs.GetJitter)..]
    ensures r.Ok? ==> KeepsOutside(m, r.value.0, ShapeWrites(st, reg))
  {
    var jittered :- JitterStep(st, reg, m, draws);
    var blended :- ComplexityStep(st, t, jittered.0, s, total);
    var shaped :- SilhouetteStep(st, blended);
    ShapeSteps(st, reg, t, m, jittered.0, blended, shaped, s, total);
    Ok((shaped, jittered.1))
  }

  /** The facts of the three shaping steps, carried to the shaped model. */
  lemma ShapeSteps(st: Settings, reg: TreeConfigs.Registry, t: Targets, m: Model, jittered: Model, blended: Model, shaped: Model, s: int, total: int)
    requires KeepsOutside(m, jittered, JitterWrites(st, reg))
    requires st.pureRandom ==> TreeConfigs.NameSet(reg) <= jittered.Keys
    requires st.pureRandom && TreeConfigs.UniqueNames(reg) ==> ConformsExcept(reg, jittered, {})
    requires KeepsOutside(jittered, blended, BlendWrites(st))
    requires st.pureRandom ==> ComplexityBlended(t, s, total, blended, ComplexityKeys)
    requires KeepsOutside(blended, shaped, SilhouetteWrites(st))
    ensures st.pureRandom ==> ComplexityBlended(t, s, total, shaped, BlendKept(st))
    ensures st.pureRandom ==> TreeConfigs.NameSet(reg) <= shaped.Keys
    ensures st.pureRandom && TreeConfigs.UniqueNames(reg) ==> ConformsExcept(reg, shaped, AfterJitter(st))
    ensures KeepsOutside(m, shaped, ShapeWrites(st, reg))
  {
    KeepsOutsideTrans(m, jittered, blended, JitterWrites(st, reg), BlendWrites(st));
    KeepsOutsideTrans(m, blended, shaped, JitterWrites(st, reg) + BlendWrites(st), SilhouetteWrites(st));
    if st.pureRandom {
      BlendsSurvive(t, s, total, blended, shaped, ComplexityKeys, SilhouetteWrites(st));
      if TreeConfigs.UniqueNames(reg) {
        ConformsKept(reg, jittered, blended, {}, ComplexityKeys);
        ConformsKept(reg, blended, shaped, {} + ComplexityKeys, SilhouetteWrites(st));
        assert {} + ComplexityKeys + SilhouetteWrites(st) == AfterJitter(st);
      }
    }
  }

  /** What the iteration for seed `s` hands to the renderer: the seed, the
      silhouette in silhouette mode, and in pure random mode the blends and
      the jittered values of every registered parameter no later step
      overwrites. */
  ghost predicate Configured(st: Settings, reg: TreeConfigs.Registry, t: Targets, s: int, total: int, out: Model) {
    && "seed" in out && out["seed"] == Int(s)
    && (st.silhouette ==> Silhouetted(out))
    && (st.pureRandom ==> ComplexityBlended(t, s, total, out, BlendKept(st)))
    && (st.pureRandom ==> TreeConfigs.NameSet(reg) <= out.Keys)
    && (st.pureRandom && TreeConfigs.UniqueNames(reg) ==> ConformsExcept(reg, out, AfterJitter(st) + {"seed"}))
  }

  /** Keys the iteration for one seed may write: the shaped keys and the seed. */
  function SampleWrites(st: Settings, reg: TreeConfigs.Registry): set<string> {
    ShapeWrites(st, reg) + {"seed"}
  }

  /** One iteration's configuration: the shaping steps, then the seed. The
      silhouette override comes after the blend, so its zero trunk radius
      wins over the blended one. */
  function ConfigureSample(st: Settings, reg: TreeConfigs.Registry, t: Targets, m: Model, s: int, total: int, draws: seq<Unit>): (r: Result<(Model, seq<Unit>)>)
    ensures r.Ok? ==> Configured(st, reg, t, s, total, r.value.0)
    ensures r.Ok? ==> KeepsOutside(m, r.value.0, SampleWrites(st, reg))
    ensures r.Ok? && !st.pureRandom ==> r.value.1 == draws
    ensures r.Ok? && st.pureRandom ==>
      TreeConfigs.TotalDraws(reg, TreeConfigs.GetJitter) <= |draws| &&
      r.value.1 == draws[TreeConfigs.TotalDraws(reg, TreeConfigs.GetJitter)..]
  {
    var shaped :- Shape(st, reg, t, m, s, total, draws);
    SeedStep(st, reg, t, m, shaped.0, s, total);
    Ok((shaped.0["seed" := Int(s)], shaped.1))
  }

  /** Setting the seed keeps what the shaping steps established. */
  lemma SeedStep(st: Settings, reg: TreeConfigs.Registry, t: Targets, m: Model, shaped: Model, s: int, total: int)
    requires KeepsOutside(m, shaped, ShapeWrites(st, reg))
    requires st.silhouette ==> Silhouetted(shaped)
    requires st.pureRandom ==> ComplexityBlended(t, s, total, shaped, BlendKept(st))
    requires st.pureRandom ==> TreeConfigs.NameSet(reg) <= shaped.Keys
    requires st.pureRandom && TreeConfigs.UniqueNames(reg) ==> ConformsExcept(reg, shaped, AfterJitter(st))
    ensures Configured(st, reg, t, s, total, shaped["seed" := Int(s)])
    ensures KeepsOutside(m, shaped["seed" := Int(s)], SampleWrites(st, reg))
  {
    var out := shaped["seed" := Int(s)];
    KeepsOutsideTrans(m, shaped, out, ShapeWrites(st, reg), {"seed"});
    if st.pureRandom {
      BlendsSurvive(t, s, total, shaped, out, BlendKept(st), {"seed"});
      assert BlendKept(st) - {"seed"} == BlendKept(st);
      if TreeConfigs.UniqueNames(reg) {
        ConformsKept(reg, shaped, out, AfterJitter(st), {"seed"});
      }
    }
  }

  /** What one sample leaves behind: its configuration, its view angles and
      the files written for it. */
  datatype Sample = Sample(config: Model, angles: seq<int>, files: seq<string>)

  /** The files of one sample, given its angles. */
  ghost predicate NamedAsWritten(st: Settings, s: int, smp: Sample) {
    if st.exporting then
      smp.angles == [] && smp.files == [Renders.ExportPath(st.imagePath, s, Renders.FileExtension(true))]
    else
      && |smp.angles| == st.views
      && (forall k :: 0 <= k < |smp.angles| ==> 0 <= smp.angles[k] < Renders.Degrees)
      && Shuffling.Distinct(smp.angles)
      && (st.imagePath == [] ==> smp.files == [])
      && (st.imagePath != [] ==> |smp.files| == st.views)
      && (st.imagePath != [] ==> forall v :: 0 <= v < |smp.files| ==>
            smp.files[v] == Renders.RenderPath(st.imagePath, s, smp.angles[v], Renders.FileExtension(false)))
  }

  /** Sample `smp` was made for seed `s`: its configuration carries the seed
      and its files are named for it. */
  ghost predicate SampleAt(st: Settings, s: int, smp: Sample) {
    && "seed" in smp.config
    && smp.config["seed"] == Int(s)
    && NamedAsWritten(st, s, smp)
  }

  /** A property of the samples by seed survives putting the sample of the
      seed before them in front. */
  lemma ConsEach<T>(P: (int, T) -> bool, s: int, x: T, rest: seq<T>)
    requires P(s, x)
    requires forall i :: 0 <= i < |rest| ==> P(s + 1 + i, rest[i])
    ensures forall i :: 0 <= i < |[x] + rest| ==> P(s + i, ([x] + rest)[i])
  {
    forall i | 0 <= i < |[x] + rest| ensures P(s + i, ([x] + rest)[i]) {
      if i > 0 {
        assert ([x] + rest)[i] == rest[i - 1];
        assert P(s + 1 + (i - 1), rest[i - 1]);
      }
    }
  }

  /** `P` holds of every element of `xs`, numbered from `s`. */
  ghost predicate Each<T>(P: (int, T) -> bool, s: int, xs: seq<T>)
    decreases |xs|
  {
    xs != [] ==> P(s, xs[0]) && Each(P, s + 1, xs[1..])
  }

  lemma EachCons<T>(P: (int, T) -> bool, s: int, x: T, rest: seq<T>)
    requires P(s, x) && Each(P, s + 1, rest)
    ensures Each(P, s, [x] + rest)
  {
    assert ([x] + rest)[0] == x && ([x] + rest)[1..] == rest;
  }

  /** Element `i` of `xs` is numbered `s + i`. */
  lemma {:induction false} EachAt<T>(P: (int, T) -> bool, s: int, xs: seq<T>, i: nat)
    requires Each(P, s, xs) && i < |xs|
    ensures P(s + i, xs[i])
    decreases i
  {
    if i > 0 {
      EachAt(P, s + 1, xs[1..], i - 1);
      assert xs[1..][i - 1] == xs[i];
    }
  }

  /** The model each iteration hands on keeps what the previous one kept,
      so every sample keeps the unwritten keys of the model the loop started
      from. */
  lemma KeptCons(st: Settings, reg: TreeConfigs.Registry, m: Model, x: Sample, rest: seq<Sample>)
    requires KeepsOutside(m, x.config, SampleWrites(st, reg))
    requires forall i :: 0 <= i < |rest| ==> KeepsOutside(x.config, rest[i].config, SampleWrites(st, reg))
    ensures forall i :: 0 <= i < |[x] + rest| ==> KeepsOutside(m, ([x] + rest)[i].config, SampleWrites(st, reg))
  {
    var w := SampleWrites(st, reg);
    forall i | 0 <= i < |rest| ensures KeepsOutside(m, rest[i].config, w) {
      KeepsOutsideTrans(m, x.config, rest[i].config, w, w);
      assert w + w == w;
    }
    ConsEach((i, y: Sample) => KeepsOutside(m, y.config, w), 0, x, rest);
  }

  /** The export or the per-view renders of sample `s`. A render names a
      file per view only when an image path is set. */
  function Outputs(st: Settings, s: int, config: Model, draws: seq<Unit>): (r: Result<(Sample, seq<Unit>)>)
    ensures st.exporting ==> r.Ok? && r.value.1 == draws
    ensures !st.exporting && 0 <= st.views <= Renders.Degrees ==> (r.Ok? <==> Shuffling.ShuffleDraws(Renders.Degrees) <= |draws|)
    ensures r.Ok? ==> NamedAsWritten(st, s, r.value.0) && r.value.0.config == config
  {
    var ext := Renders.FileExtension(st.exporting);
    if st.exporting then Ok((Sample(config, [], [Renders.ExportPath(st.imagePath, s, ext)]), draws))
    else
      var chosen :- Renders.ChooseAngles(st.views, draws);
      var angles := chosen.0;
      var files := if st.imagePath == [] then [] else seq(st.views, v requires 0 <= v < st.views => Renders.RenderPath(st.imagePath, s, angles[v], ext));
      Ok((Sample(config, angles, files), chosen.1))
  }

  /** The loop over seeds `s` up to `stop`, threading the configuration and
      the draws from one sample to the next. */
  function Run(st: Settings, reg: TreeConfigs.Registry, t: Targets, m: Model, s: int, stop: int, total: int, draws: seq<Unit>): (r: Result<seq<Sample>>)
    ensures r.Ok? ==> |r.value| == if s <= stop then stop - s else 0
    ensures r.Ok? ==> Each((i, smp: Sample) => SampleAt(st, i, smp), s, r.value)
    ensures r.Ok? ==> Each((i, smp: Sample) => Configured(st, reg, t, i, total, smp.config), s, r.value)
    ensures r.Ok? ==> forall i :: 0 <= i < |r.value| ==> KeepsOutside(m, r.value[i].config, SampleWrites(st, reg))
    decreases stop - s
  {
    if stop <= s then Ok([])
    else
      var configured :- ConfigureSample(st, reg, t, m, s, total, draws);
      var output :- Outputs(st, s, configured.0, configured.1);
      var rest :- Run(st, reg, t, configured.0, s + 1, stop, total, output.1);
      EachCons((i, smp: Sample) => SampleAt(st, i, smp), s, output.0, rest);
      EachCons((i, smp: Sample) => Configured(st, reg, t, i, total, smp.config), s, output.0, rest);
      KeptCons(st, reg, m, output.0, rest);
      Ok([output.0] + rest)
  }

  /** `generate` from the point the model is prepared: read the blend end
      points once, then run the loop over `number` seeds from `start`. */
  function Generate(st: Settings, reg: TreeConfigs.Registry, m: Model, start: int, number: int, total: int, draws: seq<Unit>): (r: Result<seq<Sample>>)
    ensures ComplexityTargets(m).Fail? ==> r.Fail?
    ensures r.Ok? ==> |r.value| == if 0 <= number then number else 0
    ensures r.Ok? ==> Each((i, smp: Sample) => SampleAt(st, i, smp), start, r.value)
    ensures r.Ok? ==> ComplexityTargets(m).Ok?
    ensures r.Ok? ==> Each((i, smp: Sample) => Configured(st, reg, ComplexityTargets(m).value, i, total, smp.config), start, r.value)
    ensures r.Ok? ==> forall i :: 0 <= i < |r.value| ==> KeepsOutside(m, r.value[i].config, SampleWrites(st, reg))
  {
    var t :- ComplexityTargets(m);
    Run(st, reg, t, m, start, start + number, total, draws)
  }

  /** Exports of two samples differ. */
  lemma ExportsDistinct(imagePath: string, s: int, s': int)
    requires s != s'
    ensures Renders.ExportPath(imagePath, s, Renders.FileExtension(true)) != Renders.ExportPath(imagePath, s', Renders.FileExtension(true))
  {
    if Renders.ExportPath(imagePath, s, Renders.FileExtension(true)) == Renders.ExportPath(imagePath, s', Renders.FileExtension(true)) {
      Renders.ExportPathInjective(imagePath, Renders.FileExtension(true), s, s');
    }
  }

  /** Renders of two samples, or of two angles of one sample, differ. */
  lemma RendersDistinct(imagePath: string, s: int, a: int, s': int, a': int)
    requires s != s' || a != a'
    ensures Renders.RenderPath(imagePath, s, a, Renders.FileExtension(false)) != Renders.RenderPath(imagePath, s', a', Renders.FileExtension(false))
  {
    if Renders.RenderPath(imagePath, s, a, Renders.FileExtension(false)) == Renders.RenderPath(imagePath, s', a', Renders.FileExtension(false)) {
      Renders.RenderPathInjective(imagePath, Renders.FileExtension(false), s, a, s', a');
    }
  }

  /** Files of two samples made for different seeds differ, and so do the
      files of two views of one sample. */
  lemma SampleFilesDistinct(st: Settings, si: int, a: Sample, v: nat, sj: int, b: Sample, w: nat)
    requires NamedAsWritten(st, si, a) && NamedAsWritten(st, sj, b)
    requires v < |a.files| && w < |b.files|
    requires si != sj || (a == b && v != w)
    ensures a.files[v] != b.files[w]
  {
    if st.exporting {
      ExportsDistinct(st.imagePath, si, sj);
    } else {
      var f := a.files[v];
      var g := b.files[w];
      assert f == Renders.RenderPath(st.imagePath, si, a.angles[v], Renders.FileExtension(false));
      assert g == Renders.RenderPath(st.imagePath, sj, b.angles[w], Renders.FileExtension(false));
      RendersDistinct(st.imagePath, si, a.angles[v], sj, b.angles[w]);
    }
  }

  /** No two files of a run coincide. */
  lemma RunFilesDistinct(st: Settings, samples: seq<Sample>, s: int, i: nat, v: nat, j: nat, w: nat)
    requires Each((k, smp: Sample) => SampleAt(st, k, smp), s, samples)
    requires i < |samples| && j < |samples|
    requires v < |samples[i].files| && w < |samples[j].files|
    requires (i, v) != (j, w)
    ensures samples[i].files[v] != samples[j].files[w]
  {
    var a, b := samples[i], samples[j];
    EachAt((k, smp: Sample) => SampleAt(st, k, smp), s, samples, i);
    EachAt((k, smp: Sample) => SampleAt(st, k, smp), s, samples, j);
    if i == j {
      SeededFilesDistinct(st, s + i, a, v, s + i, a, w);
    } else {
      SeededFilesDistinct(st, s + i, a, v, s + j, b, w);
    }
  }

  lemma SeededFilesDistinct(st: Settings, si: int, a: Sample, v: nat, sj: int, b: Sample, w: nat)
    requires SampleAt(st, si, a) && SampleAt(st, sj, b)
    requires v < |a.files| && w < |b.files|
    requires si != sj || (a == b && v != w)
    ensures a.files[v] != b.files[w]
  {
    SampleNamed(st, si, a);
    SampleNamed(st, sj, b);
    SampleFilesDistinct(st, si, a, v, sj, b, w);
  }

  lemma SampleNamed(st: Settings, s: int, smp: Sample)
    requires SampleAt(st, s, smp)
    ensures NamedAsWritten(st, s, smp)
  {
  }
}
