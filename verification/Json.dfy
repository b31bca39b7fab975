/** JSON values as every other module sees them, and the equality Python gives them. */
module Json {

  datatype Option<+T> = None | Some(value: T)

  /** Numbers are exact. An object is a finite map, so two objects that differ only in the
      order in which their members were written are the same value. */
  datatype Json =
    | Null
    | Bool(b: bool)
    | Num(n: real)
    | Str(s: string)
    | Arr(items: seq<Json>)
    | Obj(members: map<string, Json>)

  predicate IsInteger(n: real) {
    n.Floor as real == n
  }

  /** `a == b` in Python: like JSON equality, except that a boolean equals the number 0 or 1,
      at every level of nesting. */
  predicate PyEq(a: Json, b: Json)
    decreases a
  {
    match (a, b)
    case (Bool(x), Num(n)) => n == (if x then 1.0 else 0.0)
    case (Num(n), Bool(x)) => n == (if x then 1.0 else 0.0)
    case (Arr(xs), Arr(ys)) =>
      |xs| == |ys| && forall i | 0 <= i < |xs| :: PyEq(xs[i], ys[i])
    case (Obj(m), Obj(n)) =>
      m.Keys == n.Keys && forall k | k in m :: PyEq(m[k], n[k])
    case _ => a == b
  }

  /** Holds no value that Python would confuse with another: no boolean, no 0 and no 1. */
  predicate Unambiguous(j: Json) {
    match j
    case Bool(_) => false
    case Num(n) => n != 0.0 && n != 1.0
    case Arr(xs) => forall i | 0 <= i < |xs| :: Unambiguous(xs[i])
    case Obj(m) => forall k | k in m :: Unambiguous(m[k])
    case _ => true
  }

  lemma {:induction false} PyEqExact(a: Json, b: Json)
    requires PyEq(a, b)
    requires Unambiguous(b)
    ensures a == b
  {
    match (a, b)
    case (Arr(xs), Arr(ys)) =>
      forall i | 0 <= i < |xs| ensures xs[i] == ys[i] {
        PyEqExact(xs[i], ys[i]);
      }
    case (Obj(m), Obj(n)) =>
      forall k | k in m ensures m[k] == n[k] {
        PyEqExact(m[k], n[k]);
      }
    case _ =>
  }

  lemma {:induction false} PyEqReflexive(j: Json)
    ensures PyEq(j, j)
  {
    match j
    case Arr(xs) =>
      forall i | 0 <= i < |xs| ensures PyEq(xs[i], xs[i]) {
        PyEqReflexive(xs[i]);
      }
    case Obj(m) =>
      forall k | k in m ensures PyEq(m[k], m[k]) {
        PyEqReflexive(m[k]);
      }
    case _ =>
  }

  /** An ambiguous value has a twin: another value, of the same shape, that Python takes for it. */
  lemma {:induction false} AmbiguousHasTwin(j: Json) returns (v: Json)
    requires !Unambiguous(j)
    ensures PyEq(v, j) && v != j
    ensures j.Arr? ==> v.Arr?
    ensures j.Obj? ==> v.Obj?
  {
    match j
    case Bool(x) => v := Num(if x then 1.0 else 0.0);
    case Num(n) => v := Bool(n == 1.0);
    case Arr(xs) =>
      var i :| 0 <= i < |xs| && !Unambiguous(xs[i]);
      var twin := AmbiguousHasTwin(xs[i]);
      forall n | 0 <= n < |xs| ensures PyEq(xs[n], xs[n]) {
        PyEqReflexive(xs[n]);
      }
      v := Arr(xs[i := twin]);
      assert v.items[i] != xs[i];
    case Obj(m) =>
      var k :| k in m && !Unambiguous(m[k]);
      var twin := AmbiguousHasTwin(m[k]);
      forall n | n in m ensures PyEq(m[n], m[n]) {
        PyEqReflexive(m[n]);
      }
      v := Obj(m[k := twin]);
      assert v.members.Keys == m.Keys && v.members[k] != m[k];
  }

  /** `j` nests at most `levels` deep: a scalar is one level, a container one more than its
      deepest member. */
  predicate NestsWithin(j: Json, levels: int) {
    && levels >= 1
    && match j
       case Arr(xs) => forall i | 0 <= i < |xs| :: NestsWithin(xs[i], levels - 1)
       case Obj(m) => forall k | k in m :: NestsWithin(m[k], levels - 1)
       case _ => true
  }
}
