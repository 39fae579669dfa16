/**
 * TypeORM's `findOne` / `findOneBy` over an in-memory table: a table is the
 * sequence of its rows, and a lookup yields a row satisfying the condition,
 * or nothing.
 */
module Repository {
  import opened Wrappers

  /** The first row, in storage order, that satisfies `where`. */
  function FindOneBy<T>(rows: seq<T>, where: T -> bool): (r: Option<T>)
    ensures r.Some? ==> r.value in rows && where(r.value)
    ensures r.None? <==> forall k :: 0 <= k < |rows| ==> !where(rows[k])
    decreases |rows|
  {
    if |rows| == 0 then None
    else if where(rows[0]) then Some(rows[0])
    else
      var r := FindOneBy(rows[1..], where);
      assert r.None? ==> forall k :: 0 <= k < |rows| ==> !where(rows[k]) by {
        if r.None? {
          forall k | 0 <= k < |rows| ensures !where(rows[k]) {
            if k > 0 { assert rows[k] == rows[1..][k - 1]; }
          }
        }
      }
      r
  }

  /** When at most one row satisfies the condition (a unique column), the lookup finds exactly that row. */
  lemma FindOneByUnique<T>(rows: seq<T>, where: T -> bool, x: T)
    requires forall j, k :: 0 <= j < |rows| && 0 <= k < |rows| && where(rows[j]) && where(rows[k]) ==> rows[j] == rows[k]
    requires x in rows && where(x)
    ensures FindOneBy(rows, where) == Some(x)
  {
    var r := FindOneBy(rows, where);
    var j :| 0 <= j < |rows| && rows[j] == x;
    assert r.Some?;
    var k :| 0 <= k < |rows| && rows[k] == r.value;
  }
}
