/** Arithmetic and sequences that several components use. */
module Common {

  /** Division, to be hidden where its properties are enough. */
  function Quotient(a: nat, n: nat): nat
    requires n > 0
  {
    DivBounds(a, n);
    a / n
  }

  lemma DivBounds(a: nat, n: nat)
    requires n > 0
    ensures 0 <= a / n && (a / n) * n <= a < (a / n + 1) * n
  {
  }

  lemma QuotientBounds(a: nat, n: nat)
    requires n > 0
    ensures Quotient(a, n) * n <= a < Quotient(a, n) * n + n
  {
    DivBounds(a, n);
  }

  lemma MulMonotone(p: nat, q: nat, d: nat)
    requires p <= q
    ensures p * d <= q * d
  {
  }

  function Concat<T>(parts: seq<seq<T>>): seq<T> {
    if parts == [] then [] else parts[0] + Concat(parts[1..])
  }

  lemma ConcatFirst<T>(first: seq<T>, parts: seq<seq<T>>, rest: seq<T>)
    ensures Concat([first] + parts) + rest == first + (Concat(parts) + rest)
  {
    assert ([first] + parts)[1..] == parts;
    assert first + (Concat(parts) + rest) == (first + Concat(parts)) + rest;
  }
}
