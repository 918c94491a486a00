/** Small building blocks shared by the stores: an optional value (the source's
    `null`) and the row filter that models a SQL `WHERE` over a table. */
module Common {

  /** A value that may be missing (a nullable reference in the source). */
  datatype Option<+T> = None | Some(value: T)

  /** The rows of `s` that satisfy `keep`, in table order. Defined from the last
      row backwards so that a scan that appends row by row follows it directly. */
  function Filter<T(!new)>(s: seq<T>, keep: T -> bool): (r: seq<T>)
    ensures |r| <= |s|
    ensures forall x :: x in r <==> x in s && keep(x)
    ensures (|r| == |s|) <==> (forall i :: 0 <= i < |s| ==> keep(s[i]))
    ensures (forall i :: 0 <= i < |s| ==> keep(s[i])) ==> r == s
    decreases |s|
  {
    if s == [] then []
    else
      var init := Filter(s[..|s| - 1], keep);
      assert s == s[..|s| - 1] + [s[|s| - 1]];
      if keep(s[|s| - 1]) then init + [s[|s| - 1]] else init
  }

  /** Filtering a table with one more row at its end. */
  lemma FilterSnoc<T(!new)>(s: seq<T>, x: T, keep: T -> bool)
    ensures Filter(s + [x], keep) == Filter(s, keep) + (if keep(x) then [x] else [])
  {
    assert (s + [x])[..|s + [x]| - 1] == s;
  }

  /** No row of `s` satisfies `keep`: the filter is empty. */
  lemma FilterNone<T(!new)>(s: seq<T>, keep: T -> bool)
    requires forall i :: 0 <= i < |s| ==> !keep(s[i])
    ensures Filter(s, keep) == []
  {
  }

  /** Filtering keeps the surviving rows in their table order, so a relation
      that holds between every earlier and later row still holds after it. */
  lemma {:induction false} FilterPairwise<T(!new)>(s: seq<T>, keep: T -> bool, rel: (T, T) -> bool)
    requires forall i, j :: 0 <= i < j < |s| ==> rel(s[i], s[j])
    ensures forall i, j :: 0 <= i < j < |Filter(s, keep)| ==> rel(Filter(s, keep)[i], Filter(s, keep)[j])
    decreases |s|
  {
    if s != [] {
      var init := s[..|s| - 1];
      var x := s[|s| - 1];
      FilterPairwise(init, keep, rel);
      var fi := Filter(init, keep);
      var r := Filter(s, keep);
      if keep(x) {
        assert r == fi + [x];
        forall i, j | 0 <= i < j < |r|
          ensures rel(r[i], r[j])
        {
          if j == |r| - 1 {
            assert r[i] == fi[i] && fi[i] in fi;
            var k :| 0 <= k < |init| && init[k] == fi[i];
            assert s[k] == init[k] && r[j] == s[|s| - 1];
          } else {
            assert r[i] == fi[i] && r[j] == fi[j];
          }
        }
      }
    }
  }

  /** The first row of `s` satisfying `p` (a `SELECT ... WHERE` whose reader
      is read once), or nothing. */
  function FindFirst<T(!new)>(s: seq<T>, p: T -> bool): (r: Option<T>)
    ensures r.Some? ==> r.value in s && p(r.value)
    ensures r.None? <==> forall i :: 0 <= i < |s| ==> !p(s[i])
  {
    if s == [] then None
    else if p(s[0]) then Some(s[0])
    else
      assert forall i :: 1 <= i < |s| ==> s[i] == s[1..][i - 1];
      FindFirst(s[1..], p)
  }

  /** Looking up in a table with one more row at its end. */
  lemma {:induction false} FindFirstSnoc<T(!new)>(s: seq<T>, x: T, p: T -> bool)
    ensures FindFirst(s + [x], p) ==
      if FindFirst(s, p).Some? then FindFirst(s, p) else if p(x) then Some(x) else None
    decreases |s|
  {
    if s != [] {
      assert (s + [x])[1..] == s[1..] + [x];
      FindFirstSnoc(s[1..], x, p);
    }
  }

  /** Deleting rows that the lookup could never match leaves its answer as
      it was. */
  lemma {:induction false} FindFirstFiltered<T(!new)>(s: seq<T>, keep: T -> bool, p: T -> bool)
    requires forall x :: p(x) ==> keep(x)
    ensures FindFirst(Filter(s, keep), p) == FindFirst(s, p)
    decreases |s|
  {
    if s != [] {
      var init := s[..|s| - 1];
      var x := s[|s| - 1];
      assert s == init + [x];
      FilterSnoc(init, x, keep);
      FindFirstFiltered(init, keep, p);
      FindFirstSnoc(init, x, p);
      FindFirstSnoc(Filter(init, keep), x, p);
    }
  }
}
