/** Small generic helpers shared by the geometry modules: an optional value
    (Python's `None`) and the identity-based set difference that several
    containers of the model rely on. */
module Collections {

  /** A value that may be absent; `None` plays the role of Python's `None`. */
  datatype Option<T> = None | Some(value: T)

  /** No element occurs twice in `s`. */
  predicate NoDuplicates<T(==)>(s: seq<T>)
  {
    forall i, j :: 0 <= i < j < |s| ==> s[i] != s[j]
  }

  /** The elements of `a` that do not occur in `b`, each once.  Python's
      `list(set(a) - set(b))` promises no order; this definition keeps the
      order of first occurrence in `a`, which is one of the orders it may
      produce.  Equality is that of `T`: for class types, object identity. */
  function Difference<T(==)>(a: seq<T>, b: seq<T>): (r: seq<T>)
    ensures NoDuplicates(r)
    ensures forall i :: 0 <= i < |r| ==> r[i] in a && r[i] !in b
    ensures forall i :: 0 <= i < |a| && a[i] !in b ==> a[i] in r
    ensures |r| <= |a|
  {
    if a == [] then []
    else
      var rest := Difference(a[..|a| - 1], b);
      var x := a[|a| - 1];
      assert a == a[..|a| - 1] + [x];
      if x in b || x in rest then rest else rest + [x]
  }
}
