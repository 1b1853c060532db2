/** The tree model configuration: the dictionary read from a model file and
    handed, once fully resolved, to the sapling tree add-on for each sample. */
module TreeModel {
  import opened Results

  /** A Python value as it occurs in a tree model dictionary. */
  datatype Value =
    | Int(i: int)
    | Float(x: real)
    | Bool(b: bool)
    | Str(s: string)
    | Tuple(elems: seq<Value>)
    | List(elems: seq<Value>)

  type Model = map<string, Value>

  /** The number a value denotes in Python arithmetic; a bool counts as 0 or 1. */
  function AsNumber(v: Value): Option<real> {
    match v
    case Int(i) => Some(i as real)
    case Float(x) => Some(x)
    case Bool(b) => Some(if b then 1.0 else 0.0)
    case _ => None
  }

  /** `np.array(v)` for a numeric value: a 0-d array (a scalar) or a 1-d array. */
  datatype Operand = Scalar(x: real) | Vector(xs: seq<real>)

  function NumbersOf(vs: seq<Value>): (r: Option<seq<real>>)
    ensures r.Some? ==> |r.value| == |vs|
    ensures r.Some? ==> forall i :: 0 <= i < |vs| ==> AsNumber(vs[i]) == Some(r.value[i])
    ensures r.None? ==> exists i :: 0 <= i < |vs| && AsNumber(vs[i]).None?
  {
    if vs == [] then Some([])
    else match (AsNumber(vs[0]), NumbersOf(vs[1..]))
      case (Some(x), Some(xs)) => Some([x] + xs)
      case (None, _) => None
      case (_, None) => assert forall i :: 0 < i < |vs| ==> vs[i] == vs[1..][i - 1]; None
  }

  /** The array numpy builds from `v`, when `v` is a number or a flat
      tuple or list of numbers. */
  function AsOperand(v: Value): Option<Operand> {
    match v
    case Tuple(es) => if NumbersOf(es).Some? then Some(Vector(NumbersOf(es).value)) else None
    case List(es) => if NumbersOf(es).Some? then Some(Vector(NumbersOf(es).value)) else None
    case _ => if AsNumber(v).Some? then Some(Scalar(AsNumber(v).value)) else None
  }

  /** `utils.read_tree_model`, with the dictionary the model file's first
      line parses to given as input: an empty dictionary yields no model. */
  function ReadTreeModel(parsed: Model): (r: Result<Model>)
    ensures r.Ok? <==> parsed != map[]
    ensures r.Ok? ==> r.value == parsed
    ensures r.Fail? ==> r.failure == EmptyConfig
  {
    if |parsed| == 0 then Fail(EmptyConfig) else Ok(parsed)
  }
}
