/**
 * The `Dataset` row of datacat.py (lines 7-8) and the listing the table
 * returns for `datasets(order_by='priority')` (datacat.py:107).
 */
module Records {

  datatype Dataset = Dataset(id: int, title: string, done: bool, name: string, details: string, priority: int)

  /** Some row of `rows` has id `id`. */
  ghost predicate Listed(rows: seq<Dataset>, id: int)
  {
    exists i :: 0 <= i < |rows| && rows[i].id == id
  }

  /**
   * `rows` lists every record of `table` once, by non-decreasing priority.
   * `table` is keyed by id.
   */
  ghost predicate ListsByPriority(rows: seq<Dataset>, table: map<int, Dataset>)
  {
    && (forall i :: 0 <= i < |rows| ==> rows[i].id in table && table[rows[i].id] == rows[i])
    && (forall id :: id in table ==> Listed(rows, id))
    && (forall i, j :: 0 <= i < j < |rows| ==> rows[i].id != rows[j].id)
    && (forall i, j :: 0 <= i < j < |rows| ==> rows[i].priority <= rows[j].priority)
  }

  /**
   * The order the listing is built in: by priority, and rows of equal
   * priority by id. SQL leaves the order of ties open; `ListsByPriority`
   * does not depend on this choice.
   */
  predicate Precedes(a: Dataset, b: Dataset)
  {
    a.priority < b.priority || (a.priority == b.priority && a.id < b.id)
  }

  predicate StrictlyOrdered(rows: seq<Dataset>)
  {
    forall i, j :: 0 <= i < j < |rows| ==> Precedes(rows[i], rows[j])
  }

  /** Inserts `d` at its place in a strictly ordered listing that does not hold its id. */
  function InsertByPriority(rows: seq<Dataset>, d: Dataset): (r: seq<Dataset>)
    requires StrictlyOrdered(rows)
    requires forall i :: 0 <= i < |rows| ==> rows[i].id != d.id
    ensures StrictlyOrdered(r)
    ensures |r| == |rows| + 1
    ensures forall x :: x in r <==> x in rows || x == d
  {
    if rows == [] then [d]
    else if Precedes(d, rows[0]) then [d] + rows
    else
      var rest := InsertByPriority(rows[1..], d);
      assert forall x :: x in rest ==> Precedes(rows[0], x) by {
        forall x | x in rest ensures Precedes(rows[0], x) {
          if x != d {
            var k :| 0 <= k < |rows[1..]| && rows[1..][k] == x;
            assert rows[k + 1] == x;
          }
        }
      }
      [rows[0]] + rest
  }
}
