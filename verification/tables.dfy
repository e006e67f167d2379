/** What the relational store does with the write statements the repositories
    issue on a table keyed by id: `createMany` with and without
    `skipDuplicates`, and `update` of one row by id. A row is a (key, value)
    pair; a failed statement is `None`. */
module Tables {
  import opened Collections

  function KeysOf<K, V>(rows: seq<(K, V)>): (ks: seq<K>)
    ensures |ks| == |rows| && forall i :: 0 <= i < |rows| ==> ks[i] == rows[i].0
  {
    seq(|rows|, i requires 0 <= i < |rows| => rows[i].0)
  }

  /** The value of the last row carrying each key. */
  function LastValues<K, V>(rows: seq<(K, V)>): map<K, V> {
    if rows == [] then map[]
    else LastValues(rows[..|rows| - 1])[rows[|rows| - 1].0 := rows[|rows| - 1].1]
  }

  lemma {:induction false} LastValuesKeys<K, V>(rows: seq<(K, V)>)
    ensures forall k :: k in LastValues(rows) <==> k in KeysOf(rows)
    ensures forall k :: k in LastValues(rows) ==> (k, LastValues(rows)[k]) in rows
  {
    if rows != [] {
      LastValuesKeys(rows[..|rows| - 1]);
      assert KeysOf(rows) == KeysOf(rows[..|rows| - 1]) + [rows[|rows| - 1].0];
    }
  }

  /** A row with no later row for its key gives that key its value. */
  lemma {:induction false} LastValuesOfLast<K, V>(rows: seq<(K, V)>, i: nat)
    requires i < |rows| && forall j :: i < j < |rows| ==> rows[j].0 != rows[i].0
    ensures rows[i].0 in LastValues(rows) && LastValues(rows)[rows[i].0] == rows[i].1
  {
    if i < |rows| - 1 {
      var init := rows[..|rows| - 1];
      assert init[i] == rows[i];
      LastValuesOfLast(init, i);
    }
  }

  /** `createMany({ data: rows, skipDuplicates: true })`: a row whose key is
      already stored, or came earlier in `rows`, is skipped. */
  function SkipInsert<K, V>(m: map<K, V>, rows: seq<(K, V)>): map<K, V> {
    if rows == [] then m
    else
      var r := SkipInsert(m, rows[..|rows| - 1]);
      var (k, v) := rows[|rows| - 1];
      if k in r then r else r[k := v]
  }

  /** After a skipping insert every key of the rows is stored, the rows that
      were there keep their values, and every new value is the value of one
      of the rows. */
  lemma {:induction false} SkipInsertSpec<K, V>(m: map<K, V>, rows: seq<(K, V)>)
    ensures forall k :: k in SkipInsert(m, rows) <==> k in m || k in KeysOf(rows)
    ensures forall k :: k in m ==> SkipInsert(m, rows)[k] == m[k]
    ensures forall k :: k in SkipInsert(m, rows) && k !in m ==> (k, SkipInsert(m, rows)[k]) in rows
  {
    if rows != [] {
      var init := rows[..|rows| - 1];
      SkipInsertSpec(m, init);
      assert KeysOf(rows) == KeysOf(init) + [rows[|rows| - 1].0];
      forall k | k in SkipInsert(m, rows) && k !in m
        ensures (k, SkipInsert(m, rows)[k]) in rows
      {
        if k in SkipInsert(m, init) {
          assert (k, SkipInsert(m, init)[k]) in init;
        }
      }
    }
  }

  lemma {:induction false} SkipInsertAppend<K, V>(m: map<K, V>, a: seq<(K, V)>, b: seq<(K, V)>)
    ensures SkipInsert(m, a + b) == SkipInsert(SkipInsert(m, a), b)
  {
    if b == [] {
      assert a + b == a;
    } else {
      assert (a + b)[..|a + b| - 1] == a + b[..|b| - 1];
      SkipInsertAppend(m, a, b[..|b| - 1]);
    }
  }

  /** Rows whose keys are all stored write nothing. */
  lemma {:induction false} SkipInsertPresent<K, V>(m: map<K, V>, rows: seq<(K, V)>)
    requires forall i :: 0 <= i < |rows| ==> rows[i].0 in m
    ensures SkipInsert(m, rows) == m
  {
    if rows != [] {
      SkipInsertPresent(m, rows[..|rows| - 1]);
    }
  }

  /** Repeating a skipping insert changes nothing. */
  lemma SkipInsertIdempotent<K, V>(m: map<K, V>, rows: seq<(K, V)>)
    ensures SkipInsert(SkipInsert(m, rows), rows) == SkipInsert(m, rows)
  {
    SkipInsertSpec(m, rows);
    SkipInsertPresent(SkipInsert(m, rows), rows);
  }

  /** `createMany({ data: rows })`: fails on a key that is stored or repeated. */
  function Insert<K, V>(m: map<K, V>, rows: seq<(K, V)>): Option<map<K, V>> {
    if rows == [] then Some(m)
    else
      match Insert(m, rows[..|rows| - 1])
      case None => None
      case Some(r) =>
        var (k, v) := rows[|rows| - 1];
        if k in r then None else Some(r[k := v])
  }

  /** An insert succeeds exactly when its keys are distinct and new, and then
      adds each row under its key. */
  lemma {:induction false} InsertSpec<K, V>(m: map<K, V>, rows: seq<(K, V)>)
    ensures Insert(m, rows).Some? <==>
      NoDuplicates(KeysOf(rows)) && forall i :: 0 <= i < |rows| ==> rows[i].0 !in m
    ensures Insert(m, rows).Some? ==> Insert(m, rows).value == m + LastValues(rows)
  {
    if rows != [] {
      var init := rows[..|rows| - 1];
      var last := rows[|rows| - 1];
      InsertSpec(m, init);
      InsertSnoc(m, init, last);
      assert rows == init + [last];
    }
  }

  /** One more row: the insert goes on exactly when the key is neither stored
      nor in the earlier rows. */
  lemma InsertSnoc<K, V>(m: map<K, V>, init: seq<(K, V)>, last: (K, V))
    requires Insert(m, init).Some? <==>
      NoDuplicates(KeysOf(init)) && forall i :: 0 <= i < |init| ==> init[i].0 !in m
    requires Insert(m, init).Some? ==> Insert(m, init).value == m + LastValues(init)
    ensures var rows := init + [last];
      && (Insert(m, rows).Some? <==>
            NoDuplicates(KeysOf(rows)) && forall i :: 0 <= i < |rows| ==> rows[i].0 !in m)
      && (Insert(m, rows).Some? ==> Insert(m, rows).value == m + LastValues(rows))
  {
    var rows := init + [last];
    assert rows[..|rows| - 1] == init;
    LastValuesKeys(init);
    KeysSnoc(init, last);
    NoDuplicatesSnoc(KeysOf(init), last.0);
    NewKeysSnoc(m, init, last);
    match Insert(m, init)
    case None =>
      assert Insert(m, rows).None?;
    case Some(r) =>
      if last.0 in r {
        assert Insert(m, rows).None?;
      } else {
        assert Insert(m, rows) == Some(r[last.0 := last.1]);
        LastValuesSnoc(m, r, init, last);
      }
  }

  lemma KeysSnoc<K, V>(init: seq<(K, V)>, last: (K, V))
    ensures KeysOf(init + [last]) == KeysOf(init) + [last.0]
  {
  }

  lemma LastValuesSnoc<K, V>(m: map<K, V>, r: map<K, V>, init: seq<(K, V)>, last: (K, V))
    requires r == m + LastValues(init)
    ensures r[last.0 := last.1] == m + LastValues(init + [last])
  {
    assert (init + [last])[..|init|] == init;
  }

  lemma NewKeysSnoc<K, V>(m: map<K, V>, init: seq<(K, V)>, last: (K, V))
    ensures (forall i :: 0 <= i < |init + [last]| ==> (init + [last])[i].0 !in m) <==>
      (forall i :: 0 <= i < |init| ==> init[i].0 !in m) && last.0 !in m
  {
    var rows := init + [last];
    if forall i :: 0 <= i < |rows| ==> rows[i].0 !in m {
      forall i | 0 <= i < |init| ensures init[i].0 !in m {
        assert rows[i] == init[i];
      }
      assert rows[|init|] == last;
    }
    if (forall i :: 0 <= i < |init| ==> init[i].0 !in m) && last.0 !in m {
      forall i | 0 <= i < |rows| ensures rows[i].0 !in m {
        if i < |init| {
          assert rows[i] == init[i];
        } else {
          assert rows[i] == last;
        }
      }
    }
  }

  lemma {:induction false} InsertAppend<K, V>(m: map<K, V>, a: seq<(K, V)>, b: seq<(K, V)>)
    ensures Insert(m, a + b) == match Insert(m, a) case None => None case Some(r) => Insert(r, b)
  {
    if b == [] {
      assert a + b == a;
    } else {
      assert (a + b)[..|a + b| - 1] == a + b[..|b| - 1];
      InsertAppend(m, a, b[..|b| - 1]);
      if Insert(m, a).None? {
        NoneStaysNone(m, a + b[..|b| - 1], b[|b| - 1]);
      }
    }
  }

  lemma NoneStaysNone<K, V>(m: map<K, V>, s: seq<(K, V)>, x: (K, V))
    requires Insert(m, s).None?
    ensures Insert(m, s + [x]).None?
  {
    assert (s + [x])[..|s|] == s;
  }

  /** `update({ where: { id: k }, data: v })` for each row in order: fails on
      a key that is not stored. */
  function Update<K, V>(m: map<K, V>, rows: seq<(K, V)>): Option<map<K, V>> {
    if rows == [] then Some(m)
    else
      match Update(m, rows[..|rows| - 1])
      case None => None
      case Some(r) =>
        var (k, v) := rows[|rows| - 1];
        if k !in r then None else Some(r[k := v])
  }

  /** Updates succeed exactly when every key is stored; each key then holds
      the value of its last row, and the set of keys does not change. */
  lemma {:induction false} UpdateSpec<K, V>(m: map<K, V>, rows: seq<(K, V)>)
    ensures Update(m, rows).Some? <==> forall i :: 0 <= i < |rows| ==> rows[i].0 in m
    ensures Update(m, rows).Some? ==> Update(m, rows).value == m + LastValues(rows)
    ensures Update(m, rows).Some? ==> Update(m, rows).value.Keys == m.Keys
  {
    if rows != [] {
      var init := rows[..|rows| - 1];
      UpdateSpec(m, init);
      LastValuesKeys(rows);
    }
  }

  lemma {:induction false} UpdateAppend<K, V>(m: map<K, V>, a: seq<(K, V)>, b: seq<(K, V)>)
    ensures Update(m, a + b) == match Update(m, a) case None => None case Some(r) => Update(r, b)
  {
    if b == [] {
      assert a + b == a;
    } else {
      assert (a + b)[..|a + b| - 1] == a + b[..|b| - 1];
      UpdateAppend(m, a, b[..|b| - 1]);
    }
  }

  /** Applying the same updates again changes nothing. */
  lemma UpdateIdempotent<K, V>(m: map<K, V>, rows: seq<(K, V)>)
    requires Update(m, rows).Some?
    ensures Update(Update(m, rows).value, rows) == Update(m, rows)
  {
    var r := Update(m, rows).value;
    UpdateSpec(m, rows);
    UpdateSpec(r, rows);
    assert r + LastValues(rows) == r;
  }

  /** The rows whose key is (`inside`) or is not (`!inside`) in `s`, in order. */
  function RowsWhere<K, V>(rows: seq<(K, V)>, s: set<K>, inside: bool): seq<(K, V)> {
    if rows == [] then []
    else
      var init := RowsWhere(rows[..|rows| - 1], s, inside);
      if (rows[|rows| - 1].0 in s) == inside then init + [rows[|rows| - 1]] else init
  }

  /** Filtering rows by key keeps, for the keys it lets through, the value of
      the last row. */
  lemma {:induction false} LastValuesWhere<K, V>(rows: seq<(K, V)>, s: set<K>, inside: bool)
    ensures LastValues(RowsWhere(rows, s, inside))
         == map k | k in LastValues(rows) && (k in s) == inside :: LastValues(rows)[k]
  {
    if rows != [] {
      var init := rows[..|rows| - 1];
      var last := rows[|rows| - 1];
      LastValuesWhere(init, s, inside);
      if (last.0 in s) == inside {
        var f := RowsWhere(init, s, inside);
        assert (f + [last])[..|f + [last]| - 1] == f;
        RestrictSet(LastValues(init), last.0, last.1, s, inside);
      } else {
        RestrictSkip(LastValues(init), last.0, last.1, s, inside);
      }
    }
  }

  lemma RestrictSet<K, V>(m: map<K, V>, k: K, v: V, s: set<K>, inside: bool)
    requires (k in s) == inside
    ensures (map x | x in m[k := v] && (x in s) == inside :: m[k := v][x])
         == (map x | x in m && (x in s) == inside :: m[x])[k := v]
  {
  }

  lemma RestrictSkip<K, V>(m: map<K, V>, k: K, v: V, s: set<K>, inside: bool)
    requires (k in s) != inside
    ensures (map x | x in m[k := v] && (x in s) == inside :: m[k := v][x])
         == (map x | x in m && (x in s) == inside :: m[x])
  {
  }

  /** A successful insert stores every row under its key. */
  lemma InsertStoresRows<K, V>(m: map<K, V>, rows: seq<(K, V)>)
    requires Insert(m, rows).Some?
    ensures forall i :: 0 <= i < |rows| ==>
      rows[i].0 in Insert(m, rows).value && Insert(m, rows).value[rows[i].0] == rows[i].1
  {
    InsertSpec(m, rows);
    forall i | 0 <= i < |rows| ensures Insert(m, rows).value[rows[i].0] == rows[i].1 {
      forall j | i < j < |rows| ensures rows[j].0 != rows[i].0 {
        assert KeysOf(rows)[i] != KeysOf(rows)[j];
      }
      LastValuesOfLast(rows, i);
    }
  }

  /** After a successful update a key holds the value of its last row. */
  lemma UpdateStoresLastRows<K, V>(m: map<K, V>, rows: seq<(K, V)>)
    requires Update(m, rows).Some?
    ensures forall i :: (0 <= i < |rows| && forall j :: i < j < |rows| ==> rows[j].0 != rows[i].0) ==>
      rows[i].0 in Update(m, rows).value && Update(m, rows).value[rows[i].0] == rows[i].1
  {
    UpdateSpec(m, rows);
    forall i | 0 <= i < |rows| && forall j :: i < j < |rows| ==> rows[j].0 != rows[i].0
      ensures Update(m, rows).value[rows[i].0] == rows[i].1
    {
      LastValuesOfLast(rows, i);
    }
  }

  /** The keys a filter lets through are the keys of the rows on its side. */
  lemma {:induction false} RowsWhereKeys<K, V>(rows: seq<(K, V)>, s: set<K>, inside: bool)
    ensures forall k :: k in KeysOf(RowsWhere(rows, s, inside)) <==> k in KeysOf(rows) && (k in s) == inside
  {
    if rows != [] {
      var init := rows[..|rows| - 1];
      RowsWhereKeys(init, s, inside);
      assert KeysOf(rows) == KeysOf(init) + [rows[|rows| - 1].0];
      var f := RowsWhere(init, s, inside);
      assert KeysOf(f + [rows[|rows| - 1]]) == KeysOf(f) + [rows[|rows| - 1].0];
    }
  }

  /** The rows outside `s` have distinct keys exactly when every key that
      repeats in `rows` is in `s`. */
  lemma {:induction false} RowsOutsideDistinct<K, V>(rows: seq<(K, V)>, s: set<K>)
    ensures NoDuplicates(KeysOf(RowsWhere(rows, s, false))) <==>
      forall i, j :: 0 <= i < j < |rows| && rows[i].0 == rows[j].0 ==> rows[i].0 in s
  {
    if rows != [] {
      var init := rows[..|rows| - 1];
      var last := rows[|rows| - 1];
      var f := RowsWhere(init, s, false);
      RowsOutsideDistinct(init, s);
      RowsWhereKeys(init, s, false);
      assert forall i :: 0 <= i < |init| ==> rows[i] == init[i];
      if last.0 !in s {
        var ks := KeysOf(f + [last]);
        assert ks == KeysOf(f) + [last.0];
        if NoDuplicates(ks) {
          assert NoDuplicates(KeysOf(f)) by {
            forall i, j | 0 <= i < j < |KeysOf(f)| ensures KeysOf(f)[i] != KeysOf(f)[j] {
              assert ks[i] != ks[j];
            }
          }
          assert last.0 !in KeysOf(f) by {
            forall p | 0 <= p < |KeysOf(f)| ensures KeysOf(f)[p] != last.0 {
              assert ks[p] != ks[|ks| - 1];
            }
          }
          forall i | 0 <= i < |init| ensures rows[i].0 != last.0 {
            assert KeysOf(init)[i] == rows[i].0;
          }
        }
      }
    }
  }

  /** Splitting rows by membership in `s` and writing both parts keeps, for
      every key, the value of its last row. */
  lemma LastValuesPartition<K, V>(rows: seq<(K, V)>, s: set<K>)
    ensures LastValues(RowsWhere(rows, s, false)) + LastValues(RowsWhere(rows, s, true)) == LastValues(rows)
  {
    LastValuesWhere(rows, s, false);
    LastValuesWhere(rows, s, true);
  }

  /** Inserting the rows whose key is not stored fails exactly when such a
      key repeats. */
  lemma InsertOutside<K, V>(m: map<K, V>, rows: seq<(K, V)>, s: set<K>)
    requires forall k :: k in KeysOf(rows) ==> (k in s <==> k in m)
    ensures Insert(m, RowsWhere(rows, s, false)).Some? <==>
      forall i, j :: 0 <= i < j < |rows| && rows[i].0 == rows[j].0 ==> rows[i].0 in m
  {
    var outside := RowsWhere(rows, s, false);
    RowsWhereKeys(rows, s, false);
    RowsOutsideDistinct(rows, s);
    InsertSpec(m, outside);
    assert forall i :: 0 <= i < |outside| ==> outside[i].0 !in m by {
      forall i | 0 <= i < |outside| ensures outside[i].0 !in m {
        assert KeysOf(outside)[i] == outside[i].0;
      }
    }
    forall i | 0 <= i < |rows| ensures rows[i].0 in s <==> rows[i].0 in m {
      assert KeysOf(rows)[i] == rows[i].0;
    }
  }

  /** Inserting the rows with new keys and then updating those with stored
      keys writes, for every key, the value of its last row. */
  lemma InsertThenUpdate<K, V>(m: map<K, V>, rows: seq<(K, V)>, s: set<K>)
    requires forall k :: k in KeysOf(rows) && k in s ==> k in m
    requires Insert(m, RowsWhere(rows, s, false)).Some?
    ensures Update(Insert(m, RowsWhere(rows, s, false)).value, RowsWhere(rows, s, true)) == Some(m + LastValues(rows))
  {
    var outside := RowsWhere(rows, s, false);
    var inside := RowsWhere(rows, s, true);
    InsertSpec(m, outside);
    var c := Insert(m, outside).value;
    InsideStored(m, c, rows, s);
    UpdateSpec(c, inside);
    LastValuesPartition(rows, s);
    MapUnionAssoc(m, LastValues(outside), LastValues(inside));
  }

  /** The rows whose key is in `s` are all stored once `m`, which holds those
      keys, has grown to `c`. */
  lemma InsideStored<K, V>(m: map<K, V>, c: map<K, V>, rows: seq<(K, V)>, s: set<K>)
    requires forall k :: k in KeysOf(rows) && k in s ==> k in m
    requires m.Keys <= c.Keys
    ensures forall i :: 0 <= i < |RowsWhere(rows, s, true)| ==> RowsWhere(rows, s, true)[i].0 in c
  {
    var inside := RowsWhere(rows, s, true);
    RowsWhereKeys(rows, s, true);
    forall i | 0 <= i < |inside| ensures inside[i].0 in c {
      assert KeysOf(inside)[i] == inside[i].0;
    }
  }

  /** Writing the same values twice is writing them once. */
  lemma MapUnionTwice<K, V>(m: map<K, V>, l: map<K, V>)
    ensures (m + l) + l == m + l
  {
  }

  lemma MapUnionAssoc<K, V>(a: map<K, V>, b: map<K, V>, c: map<K, V>)
    ensures (a + b) + c == a + (b + c)
  {
  }

  /** Writing the rows of one more chunk of records: a skipping insert of the
      first `i + 1` chunks is that of the first `i` followed by chunk `i`. */
  lemma SkipInsertChunk<T, K, V>(m: map<K, V>, chunks: seq<seq<T>>, i: nat, row: T -> (K, V))
    requires i < |chunks|
    ensures SkipInsert(m, MapSeq(Flatten(chunks[..i + 1]), row))
         == SkipInsert(SkipInsert(m, MapSeq(Flatten(chunks[..i]), row)), MapSeq(chunks[i], row))
  {
    FlattenSnoc(chunks, i);
    MapSeqAppend(Flatten(chunks[..i]), chunks[i], row);
    SkipInsertAppend(m, MapSeq(Flatten(chunks[..i]), row), MapSeq(chunks[i], row));
  }

  /** The same for an insert that fails on a stored or repeated key. */
  lemma InsertChunk<T, K, V>(m: map<K, V>, chunks: seq<seq<T>>, i: nat, row: T -> (K, V))
    requires i < |chunks|
    ensures Insert(m, MapSeq(Flatten(chunks[..i + 1]), row))
         == match Insert(m, MapSeq(Flatten(chunks[..i]), row))
            case None => None
            case Some(r) => Insert(r, MapSeq(chunks[i], row))
  {
    FlattenSnoc(chunks, i);
    MapSeqAppend(Flatten(chunks[..i]), chunks[i], row);
    InsertAppend(m, MapSeq(Flatten(chunks[..i]), row), MapSeq(chunks[i], row));
  }

  /** Once the first chunks fail to insert, the insert of all of them fails. */
  lemma InsertFailsForAll<T, K, V>(m: map<K, V>, chunks: seq<seq<T>>, i: nat, row: T -> (K, V))
    requires i < |chunks|
    requires Insert(m, MapSeq(Flatten(chunks[..i + 1]), row)).None?
    ensures Insert(m, MapSeq(Flatten(chunks), row)).None?
  {
    assert chunks == chunks[..i + 1] + chunks[i + 1..];
    FlattenAppend(chunks[..i + 1], chunks[i + 1..]);
    MapSeqAppend(Flatten(chunks[..i + 1]), Flatten(chunks[i + 1..]), row);
    InsertAppend(m, MapSeq(Flatten(chunks[..i + 1]), row), MapSeq(Flatten(chunks[i + 1..]), row));
  }

  /** Updating with the rows of one more chunk of records. */
  lemma UpdateChunk<T, K, V>(m: map<K, V>, chunks: seq<seq<T>>, i: nat, row: T -> (K, V))
    requires i < |chunks|
    ensures Update(m, MapSeq(Flatten(chunks[..i + 1]), row))
         == match Update(m, MapSeq(Flatten(chunks[..i]), row))
            case None => None
            case Some(r) => Update(r, MapSeq(chunks[i], row))
  {
    FlattenSnoc(chunks, i);
    MapSeqAppend(Flatten(chunks[..i]), chunks[i], row);
    UpdateAppend(m, MapSeq(Flatten(chunks[..i]), row), MapSeq(chunks[i], row));
  }
}
