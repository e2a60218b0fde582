/** JSON-like configuration values, as Python holds them after `json.loads`,
    and Python's `==` on them. */
module Json {

  /** A configuration value. Python's `int` and `float` are both `Num`: Python
      compares them by mathematical value, so `1 == 1.0`. */
  datatype JsonValue =
    | Null
    | Bool(b: bool)
    | Num(n: real)
    | Str(s: string)
    | List(items: seq<JsonValue>)
    | Object(fields: map<string, JsonValue>)

  /** The number a Python `bool` stands for (`bool` is a subclass of `int`). */
  function BoolAsNum(b: bool): real {
    if b then 1.0 else 0.0
  }

  /** Python's `==` on JSON values: numbers by value, `True == 1` and
      `False == 0`, lists element-wise with equal lengths, dicts by key set and
      value-wise equality; values of other kinds differ. Equal values are of
      the same kind (counting `bool` and numbers as one kind), and on `None`,
      strings and numbers `==` is plain equality. */
  predicate PyEq(a: JsonValue, b: JsonValue)
    ensures PyEq(a, b) ==>
              (a.Null? <==> b.Null?) && (a.Str? <==> b.Str?) &&
              (a.List? <==> b.List?) && (a.Object? <==> b.Object?)
    ensures (a.Null? || a.Str? || a.Num?) && (b.Null? || b.Str? || b.Num?) ==> (PyEq(a, b) <==> a == b)
  {
    match (a, b)
    case (Null, Null) => true
    case (Bool(x), Bool(y)) => x == y
    case (Bool(x), Num(n)) => n == BoolAsNum(x)
    case (Num(m), Bool(y)) => m == BoolAsNum(y)
    case (Num(m), Num(n)) => m == n
    case (Str(s), Str(t)) => s == t
    case (List(xs), List(ys)) =>
      |xs| == |ys| && forall i :: 0 <= i < |xs| ==> PyEq(xs[i], ys[i])
    case (Object(m), Object(n)) =>
      m.Keys == n.Keys && forall k :: k in m ==> PyEq(m[k], n[k])
    case _ => false
  }

  /** Two dicts are equal in Python's sense. */
  predicate PyEqFields(m: map<string, JsonValue>, n: map<string, JsonValue>) {
    PyEq(Object(m), Object(n))
  }

  /** Python's `==` is reflexive on JSON values (no NaN is representable). */
  lemma {:induction false} PyEqRefl(a: JsonValue)
    ensures PyEq(a, a)
  {
    match a
    case List(xs) =>
      forall i | 0 <= i < |xs| ensures PyEq(xs[i], xs[i]) {
        PyEqRefl(xs[i]);
      }
    case Object(m) =>
      forall k | k in m ensures PyEq(m[k], m[k]) {
        PyEqRefl(m[k]);
      }
    case _ =>
  }

  /** Python's `==` is symmetric on JSON values. */
  lemma {:induction false} PyEqSym(a: JsonValue, b: JsonValue)
    requires PyEq(a, b)
    ensures PyEq(b, a)
  {
    match (a, b)
    case (List(xs), List(ys)) =>
      forall i | 0 <= i < |ys| ensures PyEq(ys[i], xs[i]) {
        PyEqSym(xs[i], ys[i]);
      }
    case (Object(m), Object(n)) =>
      forall k | k in n ensures PyEq(n[k], m[k]) {
        PyEqSym(m[k], n[k]);
      }
    case _ =>
  }
}
