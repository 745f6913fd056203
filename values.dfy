/**
 * JavaScript values as the core sees them, and the way a call completes.
 *
 * Numbers are integers here (no fractions, no NaN); a function is known only
 * by an identity; an object is its own enumerable properties.
 */
module Values {

  datatype Option<+T> = None | Some(value: T)

  datatype Value =
    | Undefined
    | Null
    | Bool(b: bool)
    | Num(n: int)
    | Str(s: string)
    | Fn(id: nat)
    | Obj(props: map<string, Value>)

  /** JavaScript truthiness: `if (v)` takes the branch exactly when this holds. */
  predicate Truthy(v: Value)
  {
    match v
    case Undefined => false
    case Null => false
    case Bool(b) => b
    case Num(n) => n != 0
    case Str(s) => s != ""
    case Fn(_) => true
    case Obj(_) => true
  }

  /** `typeof v === 'object'` (true for null as well). */
  predicate IsObjectLike(v: Value)
  {
    v.Null? || v.Obj?
  }

  /** `a || b` */
  function Or(a: Value, b: Value): (r: Value)
    ensures Truthy(a) ==> r == a
    ensures !Truthy(a) ==> r == b
  {
    if Truthy(a) then a else b
  }

  /** Property read `v[key]`; primitives are taken to have no properties. */
  function Get(v: Value, key: string): Value
  {
    if v.Obj? && key in v.props then v.props[key] else Undefined
  }

  /** How a call ends: it returns a value, or it throws one. */
  datatype Completion<+R> = Normal(value: R) | Thrown(exception: Value)

  /** The TypeError a property access on undefined/null or a property write on a
      primitive raises (strict mode). */
  const TypeErrorValue: Value := Obj(map["name" := Str("TypeError")])

  /** Concatenation is associative; stated once so that proofs can name the step. */
  lemma AppendAssoc<T>(a: seq<T>, b: seq<T>, c: seq<T>)
    ensures (a + b) + c == a + (b + c)
  {
  }

  /** A sequence is its prefix followed by the rest. */
  lemma SplitJoin<T>(s: seq<T>, a: nat)
    requires a <= |s|
    ensures s[..a] + s[a..] == s
  {
  }
}
