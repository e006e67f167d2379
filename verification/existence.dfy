/** The id classifier shared by `groupProductsByExistence` and
    `groupOrdersByExistence`: de-duplicate the ids, look them up in one query,
    and split them into the stored ones and the missing ones. */
module Existence {
  import opened Collections
  import opened Tables

  datatype Grouping = Grouping(existing: set<int>, missing: seq<int>)

  /** `ids.filter(id => !existing.has(id))`. */
  function Unstored(ids: seq<int>, existing: set<int>): seq<int> {
    Where(ids, id => id, existing, false)
  }

  function GroupByExistence(stored: set<int>, ids: seq<int>): Grouping {
    var uniqueIds := Distinct(ids);
    var existing := set id | id in uniqueIds && id in stored;
    Grouping(existing, Unstored(uniqueIds, existing))
  }

  /** `a` occurs in `ids` before every occurrence of `b`. */
  ghost predicate FirstBefore(ids: seq<int>, a: int, b: int) {
    exists p :: 0 <= p < |ids| && ids[p] == a && forall q :: 0 <= q < |ids| && ids[q] == b ==> p < q
  }

  /** The classifier partitions the distinct input ids: `existing` are the
      stored ones, `missing` the others, each once, in the order of their
      first appearance in the input. */
  lemma GroupByExistenceSpec(stored: set<int>, ids: seq<int>)
    ensures var g := GroupByExistence(stored, ids);
      && g.existing == (set id | id in ids && id in stored)
      && NoDuplicates(g.missing)
      && (forall id :: id in g.missing <==> id in ids && id !in stored)
      && (forall id :: id in g.existing ==> id !in g.missing)
      && (forall i, j :: 0 <= i < j < |g.missing| ==> FirstBefore(ids, g.missing[i], g.missing[j]))
  {
    var unique := Distinct(ids);
    var g := GroupByExistence(stored, ids);
    DistinctSpec(ids);
    DistinctFirstBefore(ids);
    UnstoredSpec(unique, g.existing, ids);
  }

  lemma {:induction false} UnstoredSpec(s: seq<int>, existing: set<int>, ids: seq<int>)
    requires NoDuplicates(s)
    requires forall i, j :: 0 <= i < j < |s| ==> FirstBefore(ids, s[i], s[j])
    ensures NoDuplicates(Unstored(s, existing))
    ensures forall id :: id in Unstored(s, existing) <==> id in s && id !in existing
    ensures forall i, j :: 0 <= i < j < |Unstored(s, existing)| ==>
      FirstBefore(ids, Unstored(s, existing)[i], Unstored(s, existing)[j])
  {
    if s != [] {
      var init := s[..|s| - 1];
      var x := s[|s| - 1];
      assert forall i, j :: 0 <= i < j < |init| ==> FirstBefore(ids, init[i], init[j]) by {
        forall i, j | 0 <= i < j < |init| ensures FirstBefore(ids, init[i], init[j]) {
          assert init[i] == s[i] && init[j] == s[j];
        }
      }
      UnstoredSpec(init, existing, ids);
      var u := Unstored(init, existing);
      if x !in existing {
        assert Unstored(s, existing) == u + [x];
        forall i | 0 <= i < |u| ensures FirstBefore(ids, u[i], x) && u[i] != x {
          assert u[i] in u;
          var k :| 0 <= k < |init| && init[k] == u[i];
          assert s[k] == u[i];
        }
      }
    }
  }

  /** Distinct lists each value before every value that first appears later. */
  lemma {:induction false} DistinctFirstBefore(ids: seq<int>)
    ensures forall i, j :: 0 <= i < j < |Distinct(ids)| ==> FirstBefore(ids, Distinct(ids)[i], Distinct(ids)[j])
  {
    if ids != [] {
      var init := ids[..|ids| - 1];
      var x := ids[|ids| - 1];
      var d := Distinct(init);
      DistinctFirstBefore(init);
      DistinctSpec(init);
      forall i, j | 0 <= i < j < |Distinct(ids)| ensures FirstBefore(ids, Distinct(ids)[i], Distinct(ids)[j]) {
        var a, b := Distinct(ids)[i], Distinct(ids)[j];
        if j < |d| {
          assert a == d[i] && b == d[j];
          var p :| 0 <= p < |init| && init[p] == a && forall q :: 0 <= q < |init| && init[q] == b ==> p < q;
          assert ids[p] == a;
          forall q | 0 <= q < |ids| && ids[q] == b ensures p < q {
            if q < |init| {
              assert init[q] == b;
            }
          }
        } else {
          assert b == x && x !in init;
          assert a in init;
          var p :| 0 <= p < |init| && init[p] == a;
          assert ids[p] == a;
          assert forall q :: 0 <= q < |init| ==> ids[q] == init[q] && init[q] in init;
        }
      }
    }
  }

  /** Filtering records by key and then turning them into rows is filtering
      their rows by key. */
  lemma {:induction false} WhereRows<T, V>(records: seq<T>, key: T -> int, existing: set<int>, inside: bool,
                                           row: T -> (int, V))
    requires forall r :: row(r).0 == key(r)
    ensures MapSeq(Where(records, key, existing, inside), row) == RowsWhere(MapSeq(records, row), existing, inside)
  {
    if records != [] {
      var init := records[..|records| - 1];
      var r := records[|records| - 1];
      WhereRows(init, key, existing, inside, row);
      assert MapSeq(records, row)[..|records| - 1] == MapSeq(init, row);
      MapSeqAppend(Where(init, key, existing, inside), [r], row);
    }
  }
}
