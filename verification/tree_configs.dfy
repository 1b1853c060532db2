/** `treeconfigs.py`: bounded parameter descriptors and the insertion-ordered
    registry (`TreeConfig`) that redraws registered parameters of a tree model.

    numpy's global random stream is an explicit sequence of unit draws: every
    call of `random()`, `uniform()` or `randint()` consumes exactly one draw,
    and each sampling function returns the draws left over.
 */
module TreeConfigs {
  import opened Results
  import opened Numbers
  import opened TreeModel

  datatype IntBounds = IntBounds(lo: int, hi: int)
  datatype FloatBounds = FloatBounds(lo: real, hi: real)

  /** `IntParameter`, `FloatParameter`, and the list parameters, which hold
      one scalar descriptor per element. */
  datatype Param =
    | IntParam(ib: IntBounds)
    | FloatParam(fb: FloatBounds)
    | IntListParam(ibs: seq<IntBounds>)
    | FloatListParam(fbs: seq<FloatBounds>)
  {
    predicate IsScalar() { IntParam? || FloatParam? }

    /** The per-element descriptors of a list parameter. */
    function Subs(): (ps: seq<Param>)
      requires !IsScalar()
      ensures forall i :: 0 <= i < |ps| ==> ps[i].IsScalar()
      ensures IntListParam? ==> |ps| == |ibs| && forall i :: 0 <= i < |ps| ==> ps[i] == IntParam(ibs[i])
      ensures FloatListParam? ==> |ps| == |fbs| && forall i :: 0 <= i < |ps| ==> ps[i] == FloatParam(fbs[i])
    {
      if IntListParam? then seq(|ibs|, i requires 0 <= i < |ibs| => IntParam(ibs[i]))
      else seq(|fbs|, i requires 0 <= i < |fbs| => FloatParam(fbs[i]))
    }
  }

  /** `get_jitter` or `get_random`. */
  datatype Mode = GetJitter | GetRandom

  /** `np.random.uniform(lo, hi)`, equally `lo + (hi - lo) * random()`. */
  function Uniform(lo: real, hi: real, r: Unit): (x: real)
    ensures Min(lo, hi) <= x <= Max(lo, hi)
    ensures lo < hi ==> lo <= x < hi
    ensures lo == hi ==> x == lo
  {
    Lerp(lo, hi, r)
  }

  /** `IntParameter.get_random` (and `get_jitter`, which calls it): the lower
      bound without a draw when the bounds coincide, otherwise `randint`
      over the half-open range, which rejects a lower bound above the upper. */
  function IntSample(b: IntBounds, draws: seq<Unit>): (r: Result<(int, seq<Unit>)>)
    ensures r.Ok? <==> b.lo == b.hi || (b.lo < b.hi && draws != [])
    ensures b.lo == b.hi ==> r == Ok((b.lo, draws))
    ensures r.Ok? && b.lo != b.hi ==> b.lo <= r.value.0 < b.hi && r.value.1 == draws[1..]
    ensures b.lo > b.hi ==> r == Fail(EmptyIntRange(b.lo, b.hi))
  {
    if b.lo == b.hi then Ok((b.lo, draws))
    else if b.lo > b.hi then Fail(EmptyIntRange(b.lo, b.hi))
    else if draws == [] then Fail(DrawsExhausted)
    else Ok((b.lo + Below(draws[0], b.hi - b.lo), draws[1..]))
  }

  /** Every integer of a non-empty range is drawn by some unit draw. */
  lemma IntSampleReachesEvery(b: IntBounds, v: int)
    requires b.lo <= v < b.hi
    ensures exists r: Unit :: IntSample(b, [r]) == Ok((v, []))
  {
    BelowReachesEvery(b.hi - b.lo, v - b.lo);
    var r: Unit :| Below(r, b.hi - b.lo) == v - b.lo;
    assert IntSample(b, [r]) == Ok((v, []));
  }

  /** `FloatParameter.get_random`: one draw, scaled onto the bounds. */
  function FloatRandom(b: FloatBounds, draws: seq<Unit>): (r: Result<(real, seq<Unit>)>)
    ensures r.Ok? <==> draws != []
    ensures r.Ok? ==> r.value.1 == draws[1..]
    ensures r.Ok? ==> Min(b.lo, b.hi) <= r.value.0 <= Max(b.lo, b.hi)
    ensures r.Ok? && b.lo < b.hi ==> b.lo <= r.value.0 < b.hi
    ensures r.Ok? && b.lo == b.hi ==> r.value.0 == b.lo
  {
    if draws == [] then Fail(DrawsExhausted)
    else Ok((Uniform(b.lo, b.hi, draws[0]), draws[1..]))
  }

  /** `FloatParameter.get_jitter`: exactly 0.0 without a draw for the bounds
      (0, 0); otherwise `uniform` draws until the value lies in the closed
      range. With exact arithmetic the first draw passes when lo <= hi and
      none ever passes when lo > hi (see `JitterLoopNeverExits`), so one
      draw decides. */
  function FloatJitter(b: FloatBounds, draws: seq<Unit>): (r: Result<(real, seq<Unit>)>)
    ensures b.lo == 0.0 && b.hi == 0.0 ==> r == Ok((0.0, draws))
    ensures r.Ok? ==> b.lo <= r.value.0 <= b.hi
    ensures r.Ok? <==> (b.lo == 0.0 && b.hi == 0.0) || (b.lo <= b.hi && draws != [])
    ensures r.Ok? && !(b.lo == 0.0 && b.hi == 0.0) ==> r.value.1 == draws[1..]
  {
    if b.lo == 0.0 && b.hi == 0.0 then Ok((0.0, draws))
    else if draws == [] then Fail(DrawsExhausted)
    else
      var x := Uniform(b.lo, b.hi, draws[0]);
      if b.lo <= x <= b.hi then Ok((x, draws[1..])) else Fail(JitterNeverAccepts(b.lo, b.hi))
  }

  /** With the lower bound above the upper, no draw passes the rejection
      test, so the source's `while True` loop never returns. */
  lemma JitterLoopNeverExits(b: FloatBounds, r: Unit)
    requires b.lo > b.hi
    ensures !(b.lo <= Uniform(b.lo, b.hi, r) <= b.hi)
  {
  }

  /** The bounds admit sampling at all (numpy raises for an int range with
      lo > hi; the float rejection loop never ends for lo > hi). */
  predicate Drawable(p: Param, mode: Mode) {
    match p
    case IntParam(b) => b.lo <= b.hi
    case FloatParam(b) => mode == GetRandom || b.lo <= b.hi
    case IntListParam(bs) => forall i :: 0 <= i < |bs| ==> bs[i].lo <= bs[i].hi
    case FloatListParam(bs) => mode == GetRandom || forall i :: 0 <= i < |bs| ==> bs[i].lo <= bs[i].hi
  }

  function ScalarDrawCount(p: Param, mode: Mode): nat
    requires p.IsScalar()
  {
    match p
    case IntParam(b) => if b.lo == b.hi then 0 else 1
    case FloatParam(b) => if mode == GetJitter && b.lo == 0.0 && b.hi == 0.0 then 0 else 1
  }

  function SubsDrawCount(ps: seq<Param>, mode: Mode): nat
    requires forall i :: 0 <= i < |ps| ==> ps[i].IsScalar()
  {
    if ps == [] then 0 else ScalarDrawCount(ps[0], mode) + SubsDrawCount(ps[1..], mode)
  }

  /** How many draws one sampling of `p` consumes. */
  function DrawCount(p: Param, mode: Mode): nat {
    if p.IsScalar() then ScalarDrawCount(p, mode) else SubsDrawCount(p.Subs(), mode)
  }

  /** A value that a descriptor can produce: an int in the half-open range
      (or the single bound), a float within the bounds, and for a list one
      conforming element per sub-descriptor. */
  predicate ScalarConforms(p: Param, v: Value)
    requires p.IsScalar()
  {
    match p
    case IntParam(b) => v.Int? && ((b.lo == b.hi && v.i == b.lo) || (b.lo <= v.i < b.hi))
    case FloatParam(b) => v.Float? && Min(b.lo, b.hi) <= v.x <= Max(b.lo, b.hi)
  }

  predicate Conforms(p: Param, v: Value) {
    if p.IsScalar() then ScalarConforms(p, v)
    else
      var ps := p.Subs();
      v.Tuple? && |v.elems| == |ps| && forall i :: 0 <= i < |ps| ==> ScalarConforms(ps[i], v.elems[i])
  }

  function SampleScalar(p: Param, mode: Mode, draws: seq<Unit>): (r: Result<(Value, seq<Unit>)>)
    requires p.IsScalar()
    ensures r.Ok? <==> Drawable(p, mode) && ScalarDrawCount(p, mode) <= |draws|
    ensures r.Ok? ==> ScalarConforms(p, r.value.0) && r.value.1 == draws[ScalarDrawCount(p, mode)..]
  {
    match p
    case IntParam(b) =>
      var a :- IntSample(b, draws);
      Ok((Int(a.0), a.1))
    case FloatParam(b) =>
      var a :- if mode == GetJitter then FloatJitter(b, draws) else FloatRandom(b, draws);
      Ok((Float(a.0), a.1))
  }

  /** The list parameters' loop: one sampling per sub-descriptor, in order. */
  function SampleEach(ps: seq<Param>, mode: Mode, draws: seq<Unit>): (r: Result<(seq<Value>, seq<Unit>)>)
    requires forall i :: 0 <= i < |ps| ==> ps[i].IsScalar()
    ensures r.Ok? <==> (forall i :: 0 <= i < |ps| ==> Drawable(ps[i], mode)) && SubsDrawCount(ps, mode) <= |draws|
    ensures r.Ok? ==> |r.value.0| == |ps| && forall i :: 0 <= i < |ps| ==> ScalarConforms(ps[i], r.value.0[i])
    ensures r.Ok? ==> r.value.1 == draws[SubsDrawCount(ps, mode)..]
  {
    if ps == [] then Ok(([], draws))
    else
      var a :- SampleScalar(ps[0], mode, draws);
      var b :- SampleEach(ps[1..], mode, a.1);
      assert forall i :: 1 <= i < |ps| ==> ps[i] == ps[1..][i - 1];
      Ok(([a.0] + b.0, b.1))
  }

  /** `get_jitter` / `get_random` of any descriptor. */
  function SampleParam(p: Param, mode: Mode, draws: seq<Unit>): (r: Result<(Value, seq<Unit>)>)
    ensures r.Ok? <==> Drawable(p, mode) && DrawCount(p, mode) <= |draws|
    ensures r.Ok? ==> Conforms(p, r.value.0) && r.value.1 == draws[DrawCount(p, mode)..]
  {
    if p.IsScalar() then SampleScalar(p, mode, draws)
    else
      var ps := p.Subs();
      assert Drawable(p, mode) <==> forall i :: 0 <= i < |ps| ==> Drawable(ps[i], mode);
      var a :- SampleEach(ps, mode, draws);
      Ok((Tuple(a.0), a.1))
  }

  // ---------------------------------------------------------------------------
  // The registry (`TreeConfig.tree_parameters`, an OrderedDict)

  datatype Entry = Entry(name: string, param: Param)

  /** Registered descriptors in registration order. */
  type Registry = seq<Entry>

  function NameSet(reg: Registry): set<string> {
    set i | 0 <= i < |reg| :: reg[i].name
  }

  ghost predicate UniqueNames(reg: Registry) {
    forall i, j :: 0 <= i < j < |reg| ==> reg[i].name != reg[j].name
  }

  function Lookup(reg: Registry, name: string): Option<Param> {
    if reg == [] then None
    else if reg[0].name == name then Some(reg[0].param)
    else Lookup(reg[1..], name)
  }

  /** `tree_parameters[name] = p`: ordered-dict assignment. A new name goes
      last; a registered name keeps its position and gets the new descriptor. */
  function Register(reg: Registry, name: string, p: Param): (r: Registry)
    ensures Lookup(r, name) == Some(p)
    ensures NameSet(r) == NameSet(reg) + {name}
    ensures |reg| <= |r|
    ensures forall i :: 0 <= i < |reg| ==> r[i].name == reg[i].name
    ensures forall i :: 0 <= i < |reg| && reg[i].name != name ==> r[i] == reg[i]
    ensures name in NameSet(reg) ==> |r| == |reg|
    ensures name !in NameSet(reg) ==> |r| == |reg| + 1 && r[|reg|] == Entry(name, p)
    ensures UniqueNames(reg) ==> UniqueNames(r)
  {
    if name in NameSet(reg) then
      var r := seq(|reg|, i requires 0 <= i < |reg| => if reg[i].name == name then Entry(name, p) else reg[i]);
      assert forall i :: 0 <= i < |r| ==> r[i].name == reg[i].name;
      assert NameSet(r) == NameSet(reg) by {
        forall n | n in NameSet(reg) ensures n in NameSet(r) {
          var i :| 0 <= i < |reg| && reg[i].name == n;
          assert r[i].name == n;
        }
      }
      RegisteredLookup(r, name, p);
      r
    else
      var r := reg + [Entry(name, p)];
      LookupAppend(reg, name, p);
      NameSetAppend(reg, Entry(name, p));
      r
  }

  lemma RegisteredLookup(r: Registry, name: string, p: Param)
    requires forall i :: 0 <= i < |r| && r[i].name == name ==> r[i].param == p
    requires name in NameSet(r)
    ensures Lookup(r, name) == Some(p)
  {
    if r[0].name != name {
      var i :| 0 <= i < |r| && r[i].name == name;
      assert r[1..][i - 1].name == name;
      RegisteredLookup(r[1..], name, p);
    }
  }

  lemma NameSetAppend(reg: Registry, e: Entry)
    ensures NameSet(reg + [e]) == NameSet(reg) + {e.name}
  {
    var r := reg + [e];
    assert r[|reg|].name == e.name;
    forall n | n in NameSet(reg) ensures n in NameSet(r) {
      var i :| 0 <= i < |reg| && reg[i].name == n;
      assert r[i].name == n;
    }
  }

  lemma LookupAppend(reg: Registry, name: string, p: Param)
    requires name !in NameSet(reg)
    ensures Lookup(reg + [Entry(name, p)], name) == Some(p)
  {
    if reg != [] {
      assert (reg + [Entry(name, p)])[1..] == reg[1..] + [Entry(name, p)];
      assert NameSet(reg[1..]) <= NameSet(reg) by {
        forall n | n in NameSet(reg[1..]) ensures n in NameSet(reg) {
          var i :| 0 <= i < |reg[1..]| && reg[1..][i].name == n;
          assert reg[i + 1].name == n;
        }
      }
      LookupAppend(reg[1..], name, p);
    }
  }

  /** `add_int_parameter`: the bounds are truncated to integers. */
  function AddIntParameter(reg: Registry, name: string, minVal: real, maxVal: real): (r: Registry)
    ensures Lookup(r, name) == Some(IntParam(IntBounds(Trunc(minVal), Trunc(maxVal))))
    ensures NameSet(r) == NameSet(reg) + {name}
  {
    Register(reg, name, IntParam(IntBounds(Trunc(minVal), Trunc(maxVal))))
  }

  /** `add_float_parameter`. */
  function AddFloatParameter(reg: Registry, name: string, minVal: real, maxVal: real): (r: Registry)
    ensures Lookup(r, name) == Some(FloatParam(FloatBounds(minVal, maxVal)))
    ensures NameSet(r) == NameSet(reg) + {name}
  {
    Register(reg, name, FloatParam(FloatBounds(minVal, maxVal)))
  }

  function MinLen(a: nat, b: nat): nat { if a <= b then a else b }

  /** `add_int_list_parameter`: bounds truncated, then zipped, so the list
      is as long as the shorter bound vector. */
  function AddIntListParameter(reg: Registry, name: string, minVec: seq<real>, maxVec: seq<real>): (r: Registry)
    ensures Lookup(r, name).Some? && Lookup(r, name).value.IntListParam?
    ensures var bs := Lookup(r, name).value.ibs;
      && |bs| == MinLen(|minVec|, |maxVec|)
      && forall i :: 0 <= i < |bs| ==> bs[i] == IntBounds(Trunc(minVec[i]), Trunc(maxVec[i]))
    ensures NameSet(r) == NameSet(reg) + {name}
  {
    var n := MinLen(|minVec|, |maxVec|);
    Register(reg, name, IntListParam(seq(n, i requires 0 <= i < n => IntBounds(Trunc(minVec[i]), Trunc(maxVec[i])))))
  }

  /** `add_float_list_parameter`: the bound vectors zipped. */
  function AddFloatListParameter(reg: Registry, name: string, minVec: seq<real>, maxVec: seq<real>): (r: Registry)
    ensures Lookup(r, name).Some? && Lookup(r, name).value.FloatListParam?
    ensures var bs := Lookup(r, name).value.fbs;
      && |bs| == MinLen(|minVec|, |maxVec|)
      && forall i :: 0 <= i < |bs| ==> bs[i] == FloatBounds(minVec[i], maxVec[i])
    ensures NameSet(r) == NameSet(reg) + {name}
  {
    var n := MinLen(|minVec|, |maxVec|);
    Register(reg, name, FloatListParam(seq(n, i requires 0 <= i < n => FloatBounds(minVec[i], maxVec[i]))))
  }

  // ---------------------------------------------------------------------------
  // jitter / shuffle

  function TotalDraws(reg: Registry, mode: Mode): nat {
    if reg == [] then 0 else DrawCount(reg[0].param, mode) + TotalDraws(reg[1..], mode)
  }

  predicate AllDrawable(reg: Registry, mode: Mode) {
    forall i :: 0 <= i < |reg| ==> Drawable(reg[i].param, mode)
  }

  /** The tail of a registry with unique names has unique names, none of
      them the head's. */
  lemma UniqueTail(reg: Registry)
    requires reg != []
    ensures UniqueNames(reg) ==> UniqueNames(reg[1..]) && reg[0].name !in NameSet(reg[1..])
  {
    forall n | n in NameSet(reg[1..]) && UniqueNames(reg) ensures n != reg[0].name {
      var i :| 0 <= i < |reg[1..]| && reg[1..][i].name == n;
      assert reg[i + 1].name == n;
    }
  }

  lemma NameSetCons(reg: Registry)
    requires reg != []
    ensures NameSet(reg) == {reg[0].name} + NameSet(reg[1..])
  {
    forall n | n in NameSet(reg) ensures n in {reg[0].name} + NameSet(reg[1..]) {
      var i :| 0 <= i < |reg| && reg[i].name == n;
      if i > 0 { assert reg[1..][i - 1].name == n; }
    }
    forall n | n in NameSet(reg[1..]) ensures n in NameSet(reg) {
      var i :| 0 <= i < |reg[1..]| && reg[1..][i].name == n;
      assert reg[i + 1].name == n;
    }
  }

  /** The loop of `jitter` (mode GetJitter) and `shuffle` (mode GetRandom):
      each registered parameter, in registration order, is redrawn into the
      model. */
  function Apply(reg: Registry, mode: Mode, m: Model, draws: seq<Unit>): (r: Result<(Model, seq<Unit>)>)
    ensures r.Ok? <==> AllDrawable(reg, mode) && TotalDraws(reg, mode) <= |draws|
    ensures r.Ok? ==> r.value.1 == draws[TotalDraws(reg, mode)..]
    ensures r.Ok? ==> r.value.0.Keys == m.Keys + NameSet(reg)
    ensures r.Ok? ==> forall k :: k in m && k !in NameSet(reg) ==> r.value.0[k] == m[k]
    ensures r.Ok? && UniqueNames(reg) ==>
      forall i :: 0 <= i < |reg| ==> Conforms(reg[i].param, r.value.0[reg[i].name])
    decreases |reg|
  {
    if reg == [] then Ok((m, draws))
    else
      var s := SampleParam(reg[0].param, mode, draws);
      if s.Fail? then
        ApplyHeadFails(reg, mode, draws);
        Fail(s.failure)
      else
        var r := Apply(reg[1..], mode, m[reg[0].name := s.value.0], s.value.1);
        ApplyStep(reg, mode, m, draws, s.value, r);
        r
  }

  /** What `Apply` promises, as one predicate for the step lemma. */
  ghost predicate Applied(reg: Registry, mode: Mode, m: Model, draws: seq<Unit>, r: Result<(Model, seq<Unit>)>) {
    && (r.Ok? <==> AllDrawable(reg, mode) && TotalDraws(reg, mode) <= |draws|)
    && (r.Ok? ==> r.value.1 == draws[TotalDraws(reg, mode)..])
    && (r.Ok? ==> r.value.0.Keys == m.Keys + NameSet(reg))
    && (r.Ok? ==> forall k :: k in m && k !in NameSet(reg) ==> r.value.0[k] == m[k])
    && (r.Ok? && UniqueNames(reg) ==>
      forall i :: 0 <= i < |reg| ==> Conforms(reg[i].param, r.value.0[reg[i].name]))
  }

  lemma AllDrawableCons(reg: Registry, mode: Mode)
    requires reg != []
    ensures AllDrawable(reg, mode) <==> Drawable(reg[0].param, mode) && AllDrawable(reg[1..], mode)
  {
    assert forall i :: 1 <= i < |reg| ==> reg[i] == reg[1..][i - 1];
  }

  /** A parameter that cannot be drawn stops the loop, and the loop's
      condition for success fails with it. */
  lemma ApplyHeadFails(reg: Registry, mode: Mode, draws: seq<Unit>)
    requires reg != [] && SampleParam(reg[0].param, mode, draws).Fail?
    ensures !(AllDrawable(reg, mode) && TotalDraws(reg, mode) <= |draws|)
  {
    AllDrawableCons(reg, mode);
  }

  /** The loop's promise carries over from the tail to the whole registry
      once the head parameter has been drawn. */
  lemma ApplyStep(reg: Registry, mode: Mode, m: Model, draws: seq<Unit>, a: (Value, seq<Unit>), r: Result<(Model, seq<Unit>)>)
    requires reg != [] && SampleParam(reg[0].param, mode, draws) == Ok(a)
    requires Applied(reg[1..], mode, m[reg[0].name := a.0], a.1, r)
    ensures Applied(reg, mode, m, draws, r)
  {
    ApplyStepDraws(reg, mode, draws, a, r.Ok?, if r.Ok? then r.value.1 else []);
    if r.Ok? {
      ApplyStepKeys(reg, m, a.0, r.value.0);
      if UniqueNames(reg) {
        ApplyStepConforms(reg, m[reg[0].name := a.0], a.0, r.value.0);
      }
    }
  }

  /** Key bookkeeping of one loop step. */
  lemma ApplyStepKeys(reg: Registry, m: Model, v: Value, out: Model)
    requires reg != []
    requires out.Keys == m[reg[0].name := v].Keys + NameSet(reg[1..])
    requires forall k :: k in m[reg[0].name := v] && k !in NameSet(reg[1..]) ==> out[k] == m[reg[0].name := v][k]
    ensures out.Keys == m.Keys + NameSet(reg)
    ensures forall k :: k in m && k !in NameSet(reg) ==> out[k] == m[k]
  {
    NameSetCons(reg);
  }

  /** Draw accounting of one loop step. */
  lemma ApplyStepDraws(reg: Registry, mode: Mode, draws: seq<Unit>, a: (Value, seq<Unit>), ok: bool, left: seq<Unit>)
    requires reg != [] && SampleParam(reg[0].param, mode, draws) == Ok(a)
    requires ok <==> AllDrawable(reg[1..], mode) && TotalDraws(reg[1..], mode) <= |a.1|
    requires ok ==> TotalDraws(reg[1..], mode) <= |a.1| && left == a.1[TotalDraws(reg[1..], mode)..]
    ensures ok <==> AllDrawable(reg, mode) && TotalDraws(reg, mode) <= |draws|
    ensures ok ==> TotalDraws(reg, mode) <= |draws| && left == draws[TotalDraws(reg, mode)..]
  {
    AllDrawableCons(reg, mode);
  }

  /** The head's value survives the rest of the loop, and the tail's values
      conform by the tail's promise. */
  lemma ApplyStepConforms(reg: Registry, m': Model, v: Value, out: Model)
    requires reg != [] && UniqueNames(reg)
    requires Conforms(reg[0].param, v) && reg[0].name in m' && m'[reg[0].name] == v
    requires NameSet(reg) <= out.Keys
    requires reg[0].name !in NameSet(reg[1..]) ==> out[reg[0].name] == m'[reg[0].name]
    requires UniqueNames(reg[1..]) ==> forall i :: 0 <= i < |reg[1..]| ==> Conforms(reg[1..][i].param, out[reg[1..][i].name])
    ensures forall i :: 0 <= i < |reg| ==> Conforms(reg[i].param, out[reg[i].name])
  {
    UniqueTail(reg);
    forall i | 0 <= i < |reg| ensures Conforms(reg[i].param, out[reg[i].name]) {
      if i > 0 {
        assert reg[i] == reg[1..][i - 1];
      }
    }
  }

  /** `TreeConfig.jitter`. */
  function Jitter(reg: Registry, m: Model, draws: seq<Unit>): Result<(Model, seq<Unit>)> {
    Apply(reg, GetJitter, m, draws)
  }

  /** `TreeConfig.shuffle`. */
  function Shuffle(reg: Registry, m: Model, draws: seq<Unit>): Result<(Model, seq<Unit>)> {
    Apply(reg, GetRandom, m, draws)
  }

  lemma {:induction false} TotalDrawsAppend(a: Registry, b: Registry, mode: Mode)
    ensures TotalDraws(a + b, mode) == TotalDraws(a, mode) + TotalDraws(b, mode)
    decreases |a|
  {
    if a == [] {
      assert a + b == b;
    } else {
      assert (a + b)[0] == a[0];
      assert (a + b)[1..] == a[1..] + b;
      TotalDrawsAppend(a[1..], b, mode);
    }
  }

  lemma ApplyCons(reg: Registry, mode: Mode, m: Model, draws: seq<Unit>)
    requires reg != [] && Apply(reg, mode, m, draws).Ok?
    ensures var a := SampleParam(reg[0].param, mode, draws);
      && a.Ok?
      && Apply(reg, mode, m, draws) == Apply(reg[1..], mode, m[reg[0].name := a.value.0], a.value.1)
  {
  }

  /** Registration order is visiting order: the registered parameter at
      position `i` takes its value from the draws left after the parameters
      before it have taken theirs. */
  lemma {:induction false} ApplyVisitsInOrder(reg: Registry, mode: Mode, m: Model, draws: seq<Unit>, i: nat)
    requires Apply(reg, mode, m, draws).Ok?
    requires UniqueNames(reg)
    requires i < |reg|
    ensures TotalDraws(reg[..i], mode) <= |draws|
    ensures var s := SampleParam(reg[i].param, mode, draws[TotalDraws(reg[..i], mode)..]);
      s.Ok? && Apply(reg, mode, m, draws).value.0[reg[i].name] == s.value.0
    decreases i
  {
    ApplyCons(reg, mode, m, draws);
    var a := SampleParam(reg[0].param, mode, draws).value;
    if i == 0 {
      ApplyHeadValue(reg, mode, m, draws);
      assert reg[..0] == [];
      assert draws[0..] == draws;
    } else {
      UniqueTail(reg);
      ApplyVisitsInOrder(reg[1..], mode, m[reg[0].name := a.0], a.1, i - 1);
      VisitShift(reg, mode, draws, a.1, i);
    }
  }

  /** The tail's `i - 1`-th parameter is the registry's `i`-th, and the
      draws it sees are the same. */
  lemma VisitShift(reg: Registry, mode: Mode, draws: seq<Unit>, rest: seq<Unit>, i: nat)
    requires 0 < i < |reg|
    requires SampleParam(reg[0].param, mode, draws).Ok? && rest == SampleParam(reg[0].param, mode, draws).value.1
    requires TotalDraws(reg[1..][..i - 1], mode) <= |rest|
    ensures reg[1..][i - 1] == reg[i]
    ensures TotalDraws(reg[..i], mode) <= |draws|
    ensures rest[TotalDraws(reg[1..][..i - 1], mode)..] == draws[TotalDraws(reg[..i], mode)..]
  {
    PrefixDrawsCons(reg, mode, i);
    DropDrop(draws, DrawCount(reg[0].param, mode), TotalDraws(reg[1..][..i - 1], mode));
  }

  /** No later step overwrites the head's value. */
  lemma ApplyHeadValue(reg: Registry, mode: Mode, m: Model, draws: seq<Unit>)
    requires reg != [] && Apply(reg, mode, m, draws).Ok? && UniqueNames(reg)
    ensures SampleParam(reg[0].param, mode, draws).Ok?
    ensures Apply(reg, mode, m, draws).value.0[reg[0].name] == SampleParam(reg[0].param, mode, draws).value.0
  {
    ApplyCons(reg, mode, m, draws);
    UniqueTail(reg);
  }

  lemma PrefixDrawsCons(reg: Registry, mode: Mode, i: nat)
    requires 0 < i <= |reg|
    ensures TotalDraws(reg[..i], mode) == DrawCount(reg[0].param, mode) + TotalDraws(reg[1..][..i - 1], mode)
  {
    var pre := reg[..i];
    assert pre[0] == reg[0] && pre[1..] == reg[1..][..i - 1];
  }

  lemma DropDrop<T>(s: seq<T>, a: nat, b: nat)
    requires a + b <= |s|
    ensures s[a..][b..] == s[a + b..]
  {
  }
}
