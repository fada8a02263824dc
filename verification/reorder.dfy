/**
 * The `/reorder` handler of datacat.py (lines 104-107): for each position
 * `i` of the submitted id list, the row with id `ids[i]` gets priority `i`.
 * `Reprioritized` is the table after those writes, one after another;
 * `ReprioritizedPositions` states the result without the loop.
 */
module Reordering {
  import opened Records

  /** The last position of `x` in `s`. */
  function LastIndexOf(s: seq<int>, x: int): (k: nat)
    requires x in s
    ensures k < |s| && s[k] == x
    ensures forall j :: k < j < |s| ==> s[j] != x
  {
    if s[|s| - 1] == x then |s| - 1
    else
      assert x in s[..|s| - 1] by {
        var i :| 0 <= i < |s| && s[i] == x;
        assert s[..|s| - 1][i] == x;
      }
      LastIndexOf(s[..|s| - 1], x)
  }

  /** The table after `update({'priority': i}, ids[i])` for i = 0, 1, ... in turn. */
  function Reprioritized(table: map<int, Dataset>, ids: seq<int>): (r: map<int, Dataset>)
    requires forall i :: 0 <= i < |ids| ==> ids[i] in table
    ensures r.Keys == table.Keys
    ensures forall id :: id in table ==> r[id] == table[id].(priority := r[id].priority)
  {
    if ids == [] then table
    else
      var prev := Reprioritized(table, ids[..|ids| - 1]);
      var id := ids[|ids| - 1];
      prev[id := prev[id].(priority := |ids| - 1)]
  }

  /**
   * Each listed id ends with the last position it appears at (a repeated id
   * keeps its last write), and every other row keeps its priority.
   */
  lemma {:induction false} ReprioritizedPositions(table: map<int, Dataset>, ids: seq<int>)
    requires forall i :: 0 <= i < |ids| ==> ids[i] in table
    ensures forall id :: id in table && id in ids ==>
              Reprioritized(table, ids)[id] == table[id].(priority := LastIndexOf(ids, id))
    ensures forall id :: id in table && id !in ids ==> Reprioritized(table, ids)[id] == table[id]
  {
    if ids != [] {
      var init := ids[..|ids| - 1];
      ReprioritizedPositions(table, init);
      forall id | id in table
        ensures id in ids ==> Reprioritized(table, ids)[id] == table[id].(priority := LastIndexOf(ids, id))
        ensures id !in ids ==> Reprioritized(table, ids)[id] == table[id]
      {
        if id != ids[|ids| - 1] {
          assert id in ids <==> id in init by {
            if id in ids {
              var i :| 0 <= i < |ids| && ids[i] == id;
              assert init[i] == id;
            }
          }
        }
      }
    }
  }

  /** One more step of the loop: writing position `k` after the first `k`. */
  lemma ReprioritizedStep(table: map<int, Dataset>, ids: seq<int>, k: nat)
    requires k < |ids|
    requires forall j :: 0 <= j <= k ==> ids[j] in table
    ensures Reprioritized(table, ids[..k + 1]) ==
            var prev := Reprioritized(table, ids[..k]);
            prev[ids[k] := prev[ids[k]].(priority := k)]
  {
    assert ids[..k + 1][..k] == ids[..k];
  }

  /** The ids in `ids` are pairwise different. */
  predicate Distinct(ids: seq<int>)
  {
    forall i, j :: 0 <= i < j < |ids| ==> ids[i] != ids[j]
  }

  /** Some row of `rows` has priority `p`. */
  ghost predicate HasPriority(rows: seq<Dataset>, p: int)
  {
    exists i :: 0 <= i < |rows| && rows[i].priority == p
  }

  /**
   * Rows whose priorities rise strictly, stay below `n` and take every value
   * below `n` have priorities 0, 1, 2, ... in order.
   */
  lemma {:induction false} DensePriorities(rows: seq<Dataset>, n: nat, k: nat)
    requires k <= |rows|
    requires forall i, j :: 0 <= i < j < |rows| ==> rows[i].priority < rows[j].priority
    requires forall i :: 0 <= i < |rows| ==> 0 <= rows[i].priority < n
    requires forall p :: 0 <= p < n ==> HasPriority(rows, p)
    ensures forall i :: 0 <= i < k ==> rows[i].priority == i
  {
    if k > 0 {
      DensePriorities(rows, n, k - 1);
      var j := k - 1;
      assert rows[j].priority >= j by {
        if j > 0 { assert rows[j - 1].priority < rows[j].priority; }
      }
      assert HasPriority(rows, j);
      var i :| 0 <= i < |rows| && rows[i].priority == j;
    }
  }

  /** With no id repeated, each listed id ends with its own position as priority. */
  lemma DistinctPositions(table: map<int, Dataset>, ids: seq<int>)
    requires Distinct(ids)
    requires forall i :: 0 <= i < |ids| ==> ids[i] in table
    ensures forall q :: 0 <= q < |ids| ==> Reprioritized(table, ids)[ids[q]].priority == q
  {
    ReprioritizedPositions(table, ids);
    forall q | 0 <= q < |ids| ensures LastIndexOf(ids, ids[q]) == q {
      var k := LastIndexOf(ids, ids[q]);
      assert !(q < k) && !(k < q);
    }
  }

  /**
   * A listing by priority of a table in which the row with id `ids[q]` has
   * priority `q`, for every row, shows the ids in the order of `ids`.
   */
  lemma ListingByPosition(table: map<int, Dataset>, ids: seq<int>, rows: seq<Dataset>)
    requires Distinct(ids)
    requires forall q :: 0 <= q < |ids| ==> ids[q] in table && table[ids[q]].priority == q
    requires forall id :: id in table ==> id in ids
    requires ListsByPriority(rows, table)
    ensures |rows| == |ids|
    ensures forall i :: 0 <= i < |rows| ==> rows[i].id == ids[i] && rows[i].priority == i
  {
    var n := |ids|;
    // The priority of a listed row is the position of its id.
    forall j | 0 <= j < |rows| ensures 0 <= rows[j].priority < n && ids[rows[j].priority] == rows[j].id {
      var q :| 0 <= q < n && ids[q] == rows[j].id;
    }
    forall i, j | 0 <= i < j < |rows| ensures rows[i].priority < rows[j].priority {
      assert ids[rows[i].priority] != ids[rows[j].priority];
    }
    forall p | 0 <= p < n ensures HasPriority(rows, p) {
      assert ids[p] in table;
      var i :| 0 <= i < |rows| && rows[i].id == ids[p];
    }
    DensePriorities(rows, n, |rows|);
    if n > 0 {
      assert HasPriority(rows, n - 1);
      var i :| 0 <= i < |rows| && rows[i].priority == n - 1;
      assert i == n - 1;
    }
    if |rows| > 0 {
      assert rows[|rows| - 1].priority == |rows| - 1;
    }
  }

  /**
   * After a reorder that lists every row once, the listing by priority
   * follows the submitted order: its i-th row has id `ids[i]`.
   */
  lemma ListingFollowsReorder(table: map<int, Dataset>, ids: seq<int>, rows: seq<Dataset>)
    requires Distinct(ids)
    requires forall i :: 0 <= i < |ids| ==> ids[i] in table
    requires forall id :: id in table ==> id in ids
    requires ListsByPriority(rows, Reprioritized(table, ids))
    ensures |rows| == |ids|
    ensures forall i :: 0 <= i < |rows| ==> rows[i].id == ids[i] && rows[i].priority == i
  {
    DistinctPositions(table, ids);
    ListingByPosition(Reprioritized(table, ids), ids, rows);
  }

  /** The example [3, 1, 2]: priorities 3 -> 0, 1 -> 1, 2 -> 2. */
  lemma ReorderExample(table: map<int, Dataset>)
    requires table.Keys == {1, 2, 3}
    ensures Reprioritized(table, [3, 1, 2])[3].priority == 0
    ensures Reprioritized(table, [3, 1, 2])[1].priority == 1
    ensures Reprioritized(table, [3, 1, 2])[2].priority == 2
  {
    var ids := [3, 1, 2];
    ReprioritizedPositions(table, ids);
    assert LastIndexOf(ids, 3) == 0 && LastIndexOf(ids, 1) == 1 && LastIndexOf(ids, 2) == 2;
  }

  /** After reordering by [3, 1, 2], the listing by priority shows ids 3, 1, 2. */
  lemma ReorderListingExample(table: map<int, Dataset>, after: map<int, Dataset>, rows: seq<Dataset>)
    requires table.Keys == {1, 2, 3}
    requires after == Reprioritized(table, [3, 1, 2])
    requires ListsByPriority(rows, after)
    ensures |rows| == 3 && rows[0].id == 3 && rows[1].id == 1 && rows[2].id == 2
  {
    var ids := [3, 1, 2];
    assert Distinct(ids);
    assert forall i :: 0 <= i < |ids| ==> ids[i] in table;
    assert forall id :: id in table ==> id in ids;
    ListingFollowsReorder(table, ids, rows);
  }
}
