/**
 * The lookups the handlers make through Django's ORM, over a table held as a
 * sequence of rows. `Model.objects.get(...)` has three outcomes: no row matches
 * (DoesNotExist, which the handlers catch), exactly one row matches (it is
 * returned), or several rows match (MultipleObjectsReturned, which no handler
 * catches, so the request fails with a server error).
 */
module Query {

  /** The outcome of `objects.get(...)`. */
  datatype Lookup<T> = DoesNotExist | Found(value: T) | MultipleReturned

  /** Two different rows satisfy `p`. */
  ghost predicate Ambiguous<T>(rows: seq<T>, p: T -> bool) {
    exists i, j :: 0 <= i < j < |rows| && p(rows[i]) && p(rows[j])
  }

  /** The positions of the rows that satisfy `p`, in table order. */
  function Matches<T>(rows: seq<T>, p: T -> bool): (r: seq<nat>)
    ensures forall k :: 0 <= k < |r| ==> r[k] < |rows| && p(rows[r[k]])
    ensures forall i :: 0 <= i < |rows| && p(rows[i]) ==> i in r
    ensures forall a, b :: 0 <= a < b < |r| ==> r[a] < r[b]
  {
    if |rows| == 0 then []
    else
      var rest := Matches(rows[..|rows| - 1], p);
      assert forall i :: 0 <= i < |rows| - 1 ==> rows[..|rows| - 1][i] == rows[i];
      if p(rows[|rows| - 1]) then rest + [|rows| - 1] else rest
  }

  /** `objects.get(...)` with the filter `p`. */
  function Get<T>(rows: seq<T>, p: T -> bool): (r: Lookup<T>)
    ensures r.DoesNotExist? <==> forall i :: 0 <= i < |rows| ==> !p(rows[i])
    ensures r.Found? ==> exists i :: 0 <= i < |rows| && rows[i] == r.value && p(rows[i])
    ensures r.Found? ==> forall i :: 0 <= i < |rows| && p(rows[i]) ==> rows[i] == r.value
    ensures r.MultipleReturned? <==> Ambiguous(rows, p)
  {
    var m := Matches(rows, p);
    if |m| == 0 then DoesNotExist
    else if |m| == 1 then
      assert forall i :: 0 <= i < |rows| && p(rows[i]) ==> i == m[0];
      Found(rows[m[0]])
    else
      assert 0 <= m[0] < m[1] < |rows| && p(rows[m[0]]) && p(rows[m[1]]);
      MultipleReturned
  }

  /** When at most one position satisfies `p` (a unique column), `get` never reports several rows. */
  lemma GetOnUniqueColumn<T>(rows: seq<T>, p: T -> bool)
    requires forall i, j :: 0 <= i < |rows| && 0 <= j < |rows| && p(rows[i]) && p(rows[j]) ==> i == j
    ensures !Get(rows, p).MultipleReturned?
  {
  }

  /** Appending a row that satisfies `p` to a table that already has one makes `get` report several rows. */
  lemma GetAfterDuplicate<T>(rows: seq<T>, p: T -> bool, row: T)
    requires exists i :: 0 <= i < |rows| && p(rows[i])
    requires p(row)
    ensures Get(rows + [row], p).MultipleReturned?
  {
    var i :| 0 <= i < |rows| && p(rows[i]);
    var t := rows + [row];
    assert t[i] == rows[i] && t[|rows|] == row;
    assert 0 <= i < |rows| < |t| && p(t[i]) && p(t[|rows|]);
  }
}
