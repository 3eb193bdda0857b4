/** Python values as the ZiGate driver hands them to the entity platforms. */
module Values {

  datatype Option<+T> = None | Some(value: T) {
    function GetOr(default: T): T {
      match this
      case Some(v) => v
      case None => default
    }
  }

  /** An attribute value: `None`, a bool, an int, a float, a str or a dict. */
  datatype Value =
    | VNone
    | VBool(b: bool)
    | VInt(i: int)
    | VFloat(r: real)
    | VStr(s: string)
    | VDict(d: map<string, Value>)

  /** Python truthiness of a value. */
  predicate Truthy(v: Value) {
    match v
    case VNone => false
    case VBool(b) => b
    case VInt(i) => i != 0
    case VFloat(r) => r != 0.0
    case VStr(s) => s != ""
    case VDict(d) => d != map[]
  }

  /** Python truthiness of an optional string (`None` and `''` are false). */
  predicate TruthyStr(s: Option<string>) {
    s.Some? && s.value != ""
  }

  /** An optional string as a value: `None` or a str. */
  function OptStr(s: Option<string>): (r: Value)
    ensures r == VNone <==> s.None?
    ensures s.Some? ==> r == VStr(s.value)
  {
    match s
    case None => VNone
    case Some(t) => VStr(t)
  }

  /** `str()` of an optional string, as `'{}'.format(...)` writes it. */
  function OptStrText(s: Option<string>): (r: string)
    ensures s.Some? ==> r == s.value
    ensures s.None? ==> r == "None"
  {
    match s
    case None => "None"
    case Some(t) => t
  }

  /** `not v`: the result is always a bool of the opposite truthiness. */
  function Negate(v: Value): (r: Value)
    ensures r.VBool? && Truthy(r) == !Truthy(v)
  {
    VBool(!Truthy(v))
  }

  /** Negating twice restores the truthiness, and restores a bool exactly. */
  lemma NegateTwice(v: Value)
    ensures Truthy(Negate(Negate(v))) == Truthy(v)
    ensures v.VBool? ==> Negate(Negate(v)) == v
  {
  }
}
