/**
 * The Java collections the core fills in place: a `LinkedHashSet` (insertion
 * order, no duplicates) is a duplicate-free sequence, and a `TreeSet` whose
 * comparator is not part of the model is a sequence with the later of two
 * equivalent elements dropped.
 */
module Collections {

  predicate NoDuplicates<T(==)>(s: seq<T>)
  {
    forall i, j :: 0 <= i < j < |s| ==> s[i] != s[j]
  }

  /** `LinkedHashSet.add`: appended at the end unless already present. */
  function AddIfAbsent<T(==,!new)>(s: seq<T>, x: T): (r: seq<T>)
    requires NoDuplicates(s)
    ensures NoDuplicates(r)
    ensures forall y :: y in r <==> y in s || y == x
    ensures |s| <= |r| && r[..|s|] == s
  {
    if x in s then s else s + [x]
  }

  /**
   * `LinkedHashSet.addAll(hashSet)`: the elements of `s` not yet present are
   * appended; the order in which the `HashSet` yields them is not known, so
   * each step picks any remaining element.
   */
  method AppendAll<T(==,!new)>(linked: seq<T>, s: set<T>) returns (r: seq<T>)
    requires NoDuplicates(linked)
    ensures NoDuplicates(r)
    ensures |linked| <= |r| && r[..|linked|] == linked
    ensures forall y :: y in r <==> y in linked || y in s
  {
    r := linked;
    var rest := s;
    while rest != {}
      invariant rest <= s
      invariant NoDuplicates(r)
      invariant |linked| <= |r| && r[..|linked|] == linked
      invariant forall y :: y in r <==> y in linked || y in s - rest
      decreases rest
    {
      var x :| x in rest;
      r := AddIfAbsent(r, x);
      rest := rest - {x};
    }
  }

  /**
   * `TreeSet.add` for each element of `xs` in turn, where `same(x, y)` stands
   * for `x.compareTo(y) == 0`: an element equivalent to one already kept is
   * dropped, the first one inserted stays.
   */
  function Dedup<T(==,!new)>(same: (T, T) -> bool, xs: seq<T>): (ys: seq<T>)
    ensures forall i, j :: 0 <= i < j < |ys| ==> !same(ys[j], ys[i])
    ensures forall y :: y in ys ==> y in xs
    ensures forall x :: x in xs ==> x in ys || exists y :: y in ys && same(x, y)
    ensures |ys| <= |xs|
    decreases |xs|
  {
    if xs == [] then []
    else
      var prev := Dedup(same, xs[..|xs| - 1]);
      var x := xs[|xs| - 1];
      assert xs == xs[..|xs| - 1] + [x];
      if exists y :: y in prev && same(x, y) then prev else prev + [x]
  }

}
