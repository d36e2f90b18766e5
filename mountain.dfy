/**
 * Model of mountain.py: a mountain record and its comparison operators.
 * The operators order mountains by length and then by name, and are
 * deliberately non-strict on the name, so `<` behaves like "at most".
 */
module Mountains {

  import opened Options

  datatype Mountain = Mountain(name: string, difficultyLevel: int, length: int)

  /** Python's `<=` on `str`: lexicographic order on character codes, a proper prefix being smaller. */
  predicate NameLe(a: string, b: string)
    decreases |a|
  {
    if |a| == 0 then true
    else if |b| == 0 then false
    else if a[0] != b[0] then a[0] < b[0]
    else NameLe(a[1..], b[1..])
  }

  /** `Mountain.__lt__`: by length, and by `<=` on names when the lengths agree. */
  predicate Lt(a: Mountain, b: Mountain)
    ensures a.length < b.length ==> Lt(a, b)
    ensures Lt(a, b) ==> a.length <= b.length
    ensures SameKey(a, b) ==> Lt(a, b)
  {
    NameLeReflexive(a.name);
    if a.length == b.length then NameLe(a.name, b.name) else a.length < b.length
  }

  /** `Mountain.__gt__`: by length, and by `>=` on names when the lengths agree. */
  predicate Gt(a: Mountain, b: Mountain)
    ensures a.length > b.length ==> Gt(a, b)
    ensures Gt(a, b) ==> a.length >= b.length
    ensures SameKey(a, b) ==> Gt(a, b)
  {
    NameLeReflexive(a.name);
    if a.length == b.length then NameLe(b.name, a.name) else a.length > b.length
  }

  /**
   * `Mountain.__eq__`: when the lengths differ the Python method falls off its end
   * and returns `None`, which is falsy; that outcome is `None` here.
   */
  function Eq(a: Mountain, b: Mountain): (r: Option<bool>)
    ensures r.None? <==> a.length != b.length
    ensures r == Some(true) <==> SameKey(a, b)
  {
    if a.length == b.length then Some(a.name == b.name) else None
  }

  /** Python truthiness of the value `__eq__` returns. */
  predicate Truthy(r: Option<bool>)
  {
    r == Some(true)
  }

  /** The two fields the operators look at agree (difficulty is ignored). */
  predicate SameKey(a: Mountain, b: Mountain)
  {
    a.length == b.length && a.name == b.name
  }

  lemma {:induction false} NameLeReflexive(a: string)
    ensures NameLe(a, a)
    decreases |a|
  {
    if |a| > 0 {
      NameLeReflexive(a[1..]);
    }
  }

  lemma {:induction false} NameLeTotal(a: string, b: string)
    ensures NameLe(a, b) || NameLe(b, a)
    decreases |a|
  {
    if |a| > 0 && |b| > 0 && a[0] == b[0] {
      NameLeTotal(a[1..], b[1..]);
    }
  }

  lemma {:induction false} NameLeAntisymmetric(a: string, b: string)
    requires NameLe(a, b) && NameLe(b, a)
    ensures a == b
    decreases |a|
  {
    if |a| > 0 {
      NameLeAntisymmetric(a[1..], b[1..]);
      assert a == [a[0]] + a[1..] && b == [b[0]] + b[1..];
    }
  }

  lemma {:induction false} NameLeTransitive(a: string, b: string, c: string)
    requires NameLe(a, b) && NameLe(b, c)
    ensures NameLe(a, c)
    decreases |a|
  {
    if |a| > 0 && |b| > 0 && |c| > 0 && a[0] == b[0] && b[0] == c[0] {
      NameLeTransitive(a[1..], b[1..], c[1..]);
    }
  }

  /** mountain.py:16-18 and 33-35: with different lengths the operators compare lengths, and exactly one holds. */
  lemma ComparisonWhenLengthsDiffer(a: Mountain, b: Mountain)
    requires a.length != b.length
    ensures Lt(a, b) <==> a.length < b.length
    ensures Gt(a, b) <==> a.length > b.length
    ensures Lt(a, b) != Gt(a, b)
  {
  }

  /** mountain.py:16-17 and 33-34: with equal lengths the names decide, non-strictly, so identical mountains satisfy both. */
  lemma ComparisonWhenLengthsAgree(a: Mountain, b: Mountain)
    requires a.length == b.length
    ensures Lt(a, b) <==> NameLe(a.name, b.name)
    ensures Gt(a, b) <==> NameLe(b.name, a.name)
    ensures SameKey(a, b) ==> Lt(a, b) && Gt(a, b)
  {
    NameLeReflexive(a.name);
  }

  /** mountain.py:25-26: `==` is truthy exactly when length and name agree, and is `None` when the lengths differ. */
  lemma EqMeaning(a: Mountain, b: Mountain)
    ensures Truthy(Eq(a, b)) <==> SameKey(a, b)
    ensures a.length != b.length ==> Eq(a, b) == None
  {
  }

  /** `>` is the converse of `<`, so one of them suffices to state an order. */
  lemma GtIsConverseOfLt(a: Mountain, b: Mountain)
    ensures Gt(a, b) <==> Lt(b, a)
  {
  }

  /**
   * `<` is a total preorder on mountains whose ties are exactly the mountains with the
   * same length and name: the order a sorted list of mountains is kept in.
   */
  lemma LtTotalPreorder(a: Mountain, b: Mountain, c: Mountain)
    ensures Lt(a, a)
    ensures Lt(a, b) || Lt(b, a)
    ensures Lt(a, b) && Lt(b, c) ==> Lt(a, c)
    ensures Lt(a, b) && Lt(b, a) <==> SameKey(a, b)
  {
    NameLeReflexive(a.name);
    NameLeTotal(a.name, b.name);
    if a.length == b.length && NameLe(a.name, b.name) && NameLe(b.name, a.name) {
      NameLeAntisymmetric(a.name, b.name);
    }
    if SameKey(a, b) {
      NameLeReflexive(b.name);
    }
    if Lt(a, b) && Lt(b, c) && a.length == b.length && b.length == c.length {
      NameLeTransitive(a.name, b.name, c.name);
    }
  }
}
