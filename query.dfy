/**
 * The few query shapes the route handlers use on a table, modelled over a
 * table held as a sequence of rows in primary-key order (the order the model
 * fixes for `.all()`, which without `order_by` the database leaves open):
 * `filter_by(...).first()`, `filter_by(...).all()` and `filter_by(...).count()`.
 */
module Query {
  import opened Wrappers

  /** `filter_by(...).first()`: the earliest row that satisfies `p`, or None. */
  function First<T>(rows: seq<T>, p: T -> bool): (r: Option<T>)
    ensures r.None? <==> forall i :: 0 <= i < |rows| ==> !p(rows[i])
    ensures r.Some? ==> exists i :: 0 <= i < |rows| && rows[i] == r.value && p(rows[i])
                                    && forall j :: 0 <= j < i ==> !p(rows[j])
  {
    if rows == [] then None
    else if p(rows[0]) then Some(rows[0])
    else
      var r := First(rows[1..], p);
      assert r.Some? ==> exists i :: 0 <= i < |rows| && rows[i] == r.value && p(rows[i])
                                     && forall j :: 0 <= j < i ==> !p(rows[j]) by {
        if r.Some? {
          var i :| 0 <= i < |rows[1..]| && rows[1..][i] == r.value && p(rows[1..][i])
                   && forall j :: 0 <= j < i ==> !p(rows[1..][j]);
          forall j | 0 <= j < i + 1 ensures !p(rows[j]) {
            if j > 0 { assert rows[j] == rows[1..][j - 1]; }
          }
          assert rows[i + 1] == r.value;
        }
      }
      r
  }

  /** `r` is `s` with some elements left out, the rest in their order. */
  ghost predicate Subsequence<T>(r: seq<T>, s: seq<T>)
    decreases |s|
  {
    r == [] || (s != [] && ((r[|r| - 1] == s[|s| - 1] && Subsequence(r[..|r| - 1], s[..|s| - 1]))
                            || Subsequence(r, s[..|s| - 1])))
  }

  /**
   * `filter_by(...).all()`: the rows that satisfy `p`, in table order. Every
   * matching copy is kept and no other row, and the rows keep their order.
   */
  function Filter<T(!new)>(rows: seq<T>, p: T -> bool): (r: seq<T>)
    ensures |r| <= |rows|
    ensures forall i :: 0 <= i < |r| ==> p(r[i]) && r[i] in rows
    ensures forall i :: 0 <= i < |rows| && p(rows[i]) ==> rows[i] in r
    ensures multiset(r) <= multiset(rows)
    ensures forall x :: multiset(r)[x] == if p(x) then multiset(rows)[x] else 0
    ensures Subsequence(r, rows)
  {
    if rows == [] then []
    else
      var rest := Filter(rows[..|rows| - 1], p);
      var last := rows[|rows| - 1];
      assert rows == rows[..|rows| - 1] + [last];
      assert multiset(rows) == multiset(rows[..|rows| - 1]) + multiset{last};
      if p(last) then
        assert (rest + [last])[..|rest + [last]| - 1] == rest;
        assert multiset(rest + [last]) == multiset(rest) + multiset{last};
        rest + [last]
      else
        assert Subsequence(rest, rows);
        rest
  }

  /** `filter_by(...).count()` is the number of positions of the table whose row matches. */
  lemma {:induction false} FilterCount<T(!new)>(rows: seq<T>, p: T -> bool)
    ensures |Filter(rows, p)| == |MatchingPositions(rows, p)|
  {
    if rows != [] {
      var n := |rows| - 1;
      FilterCount(rows[..n], p);
      assert Filter(rows, p) == if p(rows[n]) then Filter(rows[..n], p) + [rows[n]] else Filter(rows[..n], p);
      MatchingPositionsSnoc(rows, p);
    }
  }

  /** The positions of `rows` whose row satisfies `p`. */
  ghost function MatchingPositions<T>(rows: seq<T>, p: T -> bool): set<int> {
    set i | 0 <= i < |rows| && p(rows[i])
  }

  lemma MatchingPositionsSnoc<T>(rows: seq<T>, p: T -> bool)
    requires rows != []
    ensures var n := |rows| - 1;
            |MatchingPositions(rows, p)| == |MatchingPositions(rows[..n], p)| + (if p(rows[n]) then 1 else 0)
  {
    var n := |rows| - 1;
    var before := MatchingPositions(rows[..n], p);
    var after := MatchingPositions(rows, p);
    assert after == before + (if p(rows[n]) then {n} else {}) by {
      forall i | 0 <= i < n ensures rows[i] == rows[..n][i] { }
    }
    assert n !in before;
  }
}
