/** Generic list operations the two scripts rely on: Python's `None`-or-value,
    `list.index`, `list(dict.fromkeys(xs))` (order-preserving de-duplication),
    repeated `extend` (flattening), and the "first element not in another list"
    early-exit loop used twice by the import. */
module Lists {

  datatype Option<T> = None | Some(value: T)

  predicate Distinct<T(==)>(xs: seq<T>) {
    forall i, j :: 0 <= i < j < |xs| ==> xs[i] != xs[j]
  }

  /** Position of the first occurrence of `x` in `xs` (Python's `xs.index(x)`). */
  function IndexOf<T(==)>(xs: seq<T>, x: T): (i: nat)
    requires x in xs
    ensures i < |xs| && xs[i] == x && x !in xs[..i]
  {
    if xs[0] == x then 0
    else
      var k := IndexOf(xs[1..], x);
      assert xs[..k + 1] == [xs[0]] + xs[1..][..k];
      k + 1
  }

  /** The first occurrence of `x` in a prefix of `xs` is its first occurrence in `xs`. */
  lemma IndexOfPrefix<T>(xs: seq<T>, m: nat, x: T)
    requires m <= |xs| && x in xs[..m]
    ensures x in xs && IndexOf(xs, x) == IndexOf(xs[..m], x)
  {
    var b := IndexOf(xs[..m], x);
    assert xs[..m][..b] == xs[..b];
  }

  /** `list(dict.fromkeys(xs))`: each element once, at the place of its first occurrence. */
  function Dedup<T(==)>(xs: seq<T>): seq<T>
  {
    if xs == [] then []
    else
      var rest := Dedup(xs[..|xs| - 1]);
      if xs[|xs| - 1] in rest then rest else rest + [xs[|xs| - 1]]
  }

  lemma {:induction false} DedupElements<T>(xs: seq<T>)
    ensures forall x :: x in Dedup(xs) <==> x in xs
  {
    if xs != [] {
      var p := xs[..|xs| - 1];
      DedupElements(p);
      assert xs == p + [xs[|xs| - 1]];
    }
  }

  lemma {:induction false} DedupDistinct<T>(xs: seq<T>)
    ensures Distinct(Dedup(xs))
  {
    if xs != [] {
      DedupDistinct(xs[..|xs| - 1]);
    }
  }

  /** The de-duplicated list keeps first-occurrence order: an element listed
      earlier first occurs earlier in the input. */
  lemma {:induction false} DedupFirstOccurrenceOrder<T>(xs: seq<T>)
    ensures forall y :: y in Dedup(xs) ==> y in xs
    ensures forall i, j :: 0 <= i < j < |Dedup(xs)| ==>
      IndexOf(xs, Dedup(xs)[i]) < IndexOf(xs, Dedup(xs)[j])
  {
    DedupElements(xs);
    if xs != [] {
      var p := xs[..|xs| - 1];
      DedupFirstOccurrenceOrder(p);
      DedupSnocLength(xs);
      forall i, j | 0 <= i < j < |Dedup(xs)|
        ensures IndexOf(xs, Dedup(xs)[i]) < IndexOf(xs, Dedup(xs)[j])
      {
        DedupKeepsPrefix(xs, i);
        if j < |Dedup(p)| {
          DedupKeepsPrefix(xs, j);
        } else {
          DedupNewLast(xs);
        }
      }
    }
  }

  /** Adding an element adds at most one entry to the de-duplicated list. */
  lemma DedupSnocLength<T>(xs: seq<T>)
    requires xs != []
    ensures |Dedup(xs[..|xs| - 1])| <= |Dedup(xs)| <= |Dedup(xs[..|xs| - 1])| + 1
  {
  }

  /** Adding an element keeps the earlier entries, and their first occurrences. */
  lemma DedupKeepsPrefix<T>(xs: seq<T>, i: nat)
    requires xs != [] && i < |Dedup(xs[..|xs| - 1])|
    ensures i < |Dedup(xs)| && Dedup(xs)[i] == Dedup(xs[..|xs| - 1])[i]
    ensures Dedup(xs)[i] in xs[..|xs| - 1] && Dedup(xs)[i] in xs
    ensures IndexOf(xs, Dedup(xs)[i]) == IndexOf(xs[..|xs| - 1], Dedup(xs)[i]) < |xs| - 1
  {
    var p := xs[..|xs| - 1];
    DedupEntryIn(p, i);
    IndexOfPrefix(xs, |xs| - 1, Dedup(p)[i]);
  }

  /** Every entry of the de-duplicated list comes from its input. */
  lemma DedupEntryIn<T>(xs: seq<T>, i: nat)
    requires i < |Dedup(xs)|
    ensures Dedup(xs)[i] in xs
  {
    DedupElements(xs);
    assert Dedup(xs)[i] in Dedup(xs);
  }

  /** A new entry is the added element, first occurring at the end. */
  lemma DedupNewLast<T>(xs: seq<T>)
    requires xs != [] && |Dedup(xs)| > |Dedup(xs[..|xs| - 1])|
    ensures Dedup(xs)[|Dedup(xs[..|xs| - 1])|] == xs[|xs| - 1]
    ensures IndexOf(xs, xs[|xs| - 1]) == |xs| - 1
  {
    DedupElements(xs[..|xs| - 1]);
    LastNewIndex(xs);
  }

  /** An element first seen at the end of `xs` has its first occurrence there. */
  lemma LastNewIndex<T>(xs: seq<T>)
    requires xs != [] && xs[|xs| - 1] !in xs[..|xs| - 1]
    ensures IndexOf(xs, xs[|xs| - 1]) == |xs| - 1
  {
  }

  /** De-duplicating one more element appends it exactly when it is new. */
  lemma DedupSnoc<T>(xs: seq<T>, x: T)
    ensures Dedup(xs + [x]) == if x in xs then Dedup(xs) else Dedup(xs) + [x]
  {
    assert (xs + [x])[..|xs + [x]| - 1] == xs;
    DedupElements(xs);
  }

  /** Concatenation of a list of lists, as repeated `extend` builds it. */
  function Flatten<T>(xss: seq<seq<T>>): seq<T>
  {
    if xss == [] then [] else Flatten(xss[..|xss| - 1]) + xss[|xss| - 1]
  }

  lemma {:induction false} FlattenElements<T>(xss: seq<seq<T>>, x: T)
    ensures x in Flatten(xss) <==> exists i :: 0 <= i < |xss| && x in xss[i]
  {
    if xss != [] {
      var p := xss[..|xss| - 1];
      FlattenElements(p, x);
      if x in Flatten(xss) && x !in xss[|xss| - 1] {
        var i :| 0 <= i < |p| && x in p[i];
        assert xss[i] == p[i];
      }
      if exists i :: 0 <= i < |xss| && x in xss[i] {
        var i :| 0 <= i < |xss| && x in xss[i];
        if i < |p| {
          assert p[i] == xss[i];
        }
      }
    }
  }

  /** The first element of `xs` that is not in `pool`, or `None` when all are. */
  function FirstAbsent<T(==)>(xs: seq<T>, pool: seq<T>): (r: Option<T>)
    ensures r.None? <==> forall i :: 0 <= i < |xs| ==> xs[i] in pool
    ensures r.Some? ==>
      r.value in xs && r.value !in pool &&
      forall j :: 0 <= j < IndexOf(xs, r.value) ==> xs[j] in pool
  {
    if xs == [] then None
    else if xs[0] !in pool then Some(xs[0])
    else
      var r := FirstAbsent(xs[1..], pool);
      assert forall i :: 1 <= i < |xs| ==> xs[i] == xs[1..][i - 1];
      if r.Some? then
        assert xs[IndexOf(xs[1..], r.value) + 1] == r.value;
        r
      else r
  }

  /** The early-exit membership loop: walks `xs` in order and stops at the first
      element missing from `pool`. */
  method FindAbsent<T(==)>(xs: seq<T>, pool: seq<T>) returns (r: Option<T>)
    ensures r == FirstAbsent(xs, pool)
  {
    for i := 0 to |xs|
      invariant forall j :: 0 <= j < i ==> xs[j] in pool
    {
      if xs[i] !in pool {
        return Some(xs[i]);
      }
    }
    return None;
  }
}
