/**
 * The load step: a batch goes into the warehouse under one of four write
 * policies chosen by the table's name.
 */
module Insert {
  import opened Wrappers
  import opened Frame

  // ---------------------------------------------------------------------
  // The upsert key
  // ---------------------------------------------------------------------

  /** The primary key of train_movements. */
  const KeyColumns: set<string> := {"TrainCode", "TrainDate", "LocationOrder"}

  datatype Key = Key(code: Cell, date: Cell, order: Cell)

  function KeyOf(row: Row): Key {
    Key(Get(row, "TrainCode"), Get(row, "TrainDate"), Get(row, "LocationOrder"))
  }

  /** At most one row per key. */
  predicate UniqueKeys(rows: seq<Row>) {
    forall i, j :: 0 <= i < j < |rows| ==> KeyOf(rows[i]) != KeyOf(rows[j])
  }

  function KeysOf(rows: seq<Row>): set<Key> {
    set x | x in rows :: KeyOf(x)
  }

  /** The first batch row carrying key `k`. */
  function FindKey(batch: seq<Row>, k: Key): (r: Option<nat>)
    ensures r.Some? ==> r.value < |batch| && KeyOf(batch[r.value]) == k
    ensures r.None? ==> k !in KeysOf(batch)
    decreases |batch|
  {
    if batch == [] then None
    else if KeyOf(batch[0]) == k then Some(0)
    else
      match FindKey(batch[1..], k)
      case None =>
        assert forall x :: x in batch ==> x == batch[0] || x in batch[1..];
        None
      case Some(j) => Some(j + 1)
  }

  /** `"col" = EXCLUDED."col"` for every update column; the other cells stay. */
  function Overwrite(stored: Row, incoming: Row, cols: set<string>): (r: Row)
    ensures r.Keys == stored.Keys + cols
    ensures forall c :: c in cols ==> r[c] == Get(incoming, c)
    ensures forall c :: c in stored && c !in cols ==> r[c] == stored[c]
  {
    map c | c in stored.Keys + cols :: if c in cols then Get(incoming, c) else stored[c]
  }

  /** A stored row after the upsert: overwritten when the batch carries its key. */
  function Merged(stored: Row, batch: seq<Row>, cols: set<string>): Row {
    match FindKey(batch, KeyOf(stored))
    case None => stored
    case Some(j) => Overwrite(stored, batch[j], cols)
  }

  /** The batch rows whose key is not yet stored, in batch order. */
  function NewRows(batch: seq<Row>, present: set<Key>): (r: seq<Row>)
    ensures |r| <= |batch|
    ensures forall x :: x in r ==> x in batch && KeyOf(x) !in present
    decreases |batch|
  {
    if batch == [] then []
    else (if KeyOf(batch[0]) in present then [] else [batch[0]]) + NewRows(batch[1..], present)
  }

  /**
   * `INSERT INTO train_movements SELECT * FROM temp ON CONFLICT (key) DO
   * UPDATE SET <update columns>`: stored rows keep their place, conflicting
   * ones take the incoming values, and rows with new keys are added.
   */
  function Upserted(rows: seq<Row>, batch: seq<Row>, cols: set<string>): (r: seq<Row>)
    ensures |rows| <= |r| <= |rows| + |batch|
  {
    seq(|rows|, i requires 0 <= i < |rows| => Merged(rows[i], batch, cols)) + NewRows(batch, KeysOf(rows))
  }

  // ---------------------------------------------------------------------
  // Properties of the upsert
  // ---------------------------------------------------------------------

  lemma OverwriteKeepsKey(stored: Row, incoming: Row, cols: set<string>)
    requires cols !! KeyColumns
    ensures KeyOf(Overwrite(stored, incoming, cols)) == KeyOf(stored)
  {
    assert "TrainCode" !in cols && "TrainDate" !in cols && "LocationOrder" !in cols;
  }

  lemma MergedKeepsKey(stored: Row, batch: seq<Row>, cols: set<string>)
    requires cols !! KeyColumns
    ensures KeyOf(Merged(stored, batch, cols)) == KeyOf(stored)
  {
    var j := FindKey(batch, KeyOf(stored));
    if j.Some? {
      OverwriteKeepsKey(stored, batch[j.value], cols);
    }
  }

  lemma {:induction false} NewRowsComplete(batch: seq<Row>, present: set<Key>)
    ensures forall x :: x in batch && KeyOf(x) !in present ==> x in NewRows(batch, present)
    ensures KeysOf(NewRows(batch, present)) == KeysOf(batch) - present
    decreases |batch|
  {
    if batch != [] {
      NewRowsComplete(batch[1..], present);
      assert forall x :: x in batch <==> x == batch[0] || x in batch[1..];
      var tail := NewRows(batch[1..], present);
      var head: seq<Row> := if KeyOf(batch[0]) in present then [] else [batch[0]];
      assert NewRows(batch, present) == head + tail;
      assert forall x :: x in head + tail <==> x in head || x in tail;
    }
  }

  lemma UniqueTail(batch: seq<Row>)
    requires batch != [] && UniqueKeys(batch)
    ensures UniqueKeys(batch[1..])
    ensures KeyOf(batch[0]) !in KeysOf(batch[1..])
  {
    var rest := batch[1..];
    forall i, j | 0 <= i < j < |rest| ensures KeyOf(rest[i]) != KeyOf(rest[j]) {
      assert rest[i] == batch[i + 1] && rest[j] == batch[j + 1];
    }
    forall x | x in rest ensures KeyOf(x) != KeyOf(batch[0]) {
      var m :| 0 <= m < |rest| && rest[m] == x;
      assert batch[m + 1] == x;
    }
  }

  lemma ConsUnique(x: Row, tail: seq<Row>)
    requires UniqueKeys(tail) && KeyOf(x) !in KeysOf(tail)
    ensures UniqueKeys([x] + tail)
  {
    var r := [x] + tail;
    forall i, j | 0 <= i < j < |r| ensures KeyOf(r[i]) != KeyOf(r[j]) {
      assert r[j] == tail[j - 1];
      if i == 0 {
        assert r[j] in tail;
      } else {
        assert r[i] == tail[i - 1];
      }
    }
  }

  lemma {:induction false} NewRowsUnique(batch: seq<Row>, present: set<Key>)
    requires UniqueKeys(batch)
    ensures UniqueKeys(NewRows(batch, present))
    decreases |batch|
  {
    if batch != [] {
      var rest := batch[1..];
      UniqueTail(batch);
      NewRowsUnique(rest, present);
      var tail := NewRows(rest, present);
      if KeyOf(batch[0]) !in present {
        assert KeyOf(batch[0]) !in KeysOf(tail) by {
          forall x | x in tail ensures KeyOf(x) != KeyOf(batch[0]) {
            assert x in rest;
          }
        }
        ConsUnique(batch[0], tail);
        assert NewRows(batch, present) == [batch[0]] + tail;
      } else {
        assert NewRows(batch, present) == tail;
      }
    }
  }

  /** The upsert keeps at most one row per key. */
  lemma UpsertKeepsKeysUnique(rows: seq<Row>, batch: seq<Row>, cols: set<string>)
    requires cols !! KeyColumns
    requires UniqueKeys(rows) && UniqueKeys(batch)
    ensures UniqueKeys(Upserted(rows, batch, cols))
  {
    var r := Upserted(rows, batch, cols);
    var added := NewRows(batch, KeysOf(rows));
    NewRowsUnique(batch, KeysOf(rows));
    forall i | 0 <= i < |rows| ensures KeyOf(r[i]) == KeyOf(rows[i]) {
      MergedKeepsKey(rows[i], batch, cols);
    }
    forall i, j | 0 <= i < j < |r| ensures KeyOf(r[i]) != KeyOf(r[j]) {
      if j >= |rows| {
        assert r[j] == added[j - |rows|] && r[j] in added;
        if i < |rows| {
          assert rows[i] in rows;
        } else {
          assert r[i] == added[i - |rows|];
        }
      }
    }
  }

  /** After the upsert the stored keys are the old ones together with the batch's. */
  lemma UpsertKeySet(rows: seq<Row>, batch: seq<Row>, cols: set<string>)
    requires cols !! KeyColumns
    ensures KeysOf(Upserted(rows, batch, cols)) == KeysOf(rows) + KeysOf(batch)
  {
    var r := Upserted(rows, batch, cols);
    var added := NewRows(batch, KeysOf(rows));
    NewRowsComplete(batch, KeysOf(rows));
    var merged := r[..|rows|];
    assert r == merged + added;
    forall i | 0 <= i < |rows| ensures KeyOf(merged[i]) == KeyOf(rows[i]) {
      MergedKeepsKey(rows[i], batch, cols);
    }
    assert KeysOf(merged) == KeysOf(rows) by {
      forall k | k in KeysOf(rows) ensures k in KeysOf(merged) {
        var x :| x in rows && KeyOf(x) == k;
        var i :| 0 <= i < |rows| && rows[i] == x;
        assert merged[i] in merged;
      }
      forall k | k in KeysOf(merged) ensures k in KeysOf(rows) {
        var x :| x in merged && KeyOf(x) == k;
        var i :| 0 <= i < |merged| && merged[i] == x;
        assert rows[i] in rows;
      }
    }
    assert forall x :: x in r <==> x in merged || x in added;
  }

  /** A stored row whose key the batch does not carry is left exactly as it was, in its place. */
  lemma UpsertLeavesOthers(rows: seq<Row>, batch: seq<Row>, cols: set<string>, i: nat)
    requires i < |rows| && KeyOf(rows[i]) !in KeysOf(batch)
    ensures Upserted(rows, batch, cols)[i] == rows[i]
  {
  }

  /**
   * A stored row the batch carries the key of takes every update column
   * from the incoming row and keeps its key and its other cells.
   */
  lemma UpsertOverwrites(rows: seq<Row>, batch: seq<Row>, cols: set<string>, i: nat, j: nat)
    requires UniqueKeys(batch) && cols !! KeyColumns
    requires i < |rows| && j < |batch| && KeyOf(rows[i]) == KeyOf(batch[j])
    ensures var r := Upserted(rows, batch, cols)[i];
      && KeyOf(r) == KeyOf(rows[i])
      && (forall c :: c in cols ==> r[c] == Get(batch[j], c))
      && (forall c :: c in rows[i] && c !in cols ==> r[c] == rows[i][c])
  {
    var f := FindKey(batch, KeyOf(rows[i]));
    assert f.value == j;
    OverwriteKeepsKey(rows[i], batch[j], cols);
  }

  /** A batch row with a key not yet stored is inserted as it is. */
  lemma UpsertInserts(rows: seq<Row>, batch: seq<Row>, cols: set<string>, j: nat)
    requires j < |batch| && KeyOf(batch[j]) !in KeysOf(rows)
    ensures batch[j] in Upserted(rows, batch, cols)
  {
    NewRowsComplete(batch, KeysOf(rows));
    assert batch[j] in NewRows(batch, KeysOf(rows));
  }

  /**
   * After the upsert each batch key is held by exactly one row, and that row
   * carries the incoming values of every update column: an updated movement
   * replaces the stored stop instead of duplicating it.
   */
  lemma UpsertLeavesOneRow(rows: seq<Row>, batch: seq<Row>, cols: set<string>, j: nat)
    requires UniqueKeys(rows) && UniqueKeys(batch) && cols !! KeyColumns
    requires j < |batch|
    ensures var r := Upserted(rows, batch, cols);
      exists i :: 0 <= i < |r| && KeyOf(r[i]) == KeyOf(batch[j])
        && (forall c :: c in cols ==> Get(r[i], c) == Get(batch[j], c))
        && (forall i' :: 0 <= i' < |r| && KeyOf(r[i']) == KeyOf(batch[j]) ==> i' == i)
  {
    var r := Upserted(rows, batch, cols);
    var k := KeyOf(batch[j]);
    UpsertKeepsKeysUnique(rows, batch, cols);
    if k in KeysOf(rows) {
      var x :| x in rows && KeyOf(x) == k;
      var i :| 0 <= i < |rows| && rows[i] == x;
      UpsertOverwrites(rows, batch, cols, i, j);
      assert r[i].Keys == rows[i].Keys + cols;
      assert KeyOf(r[i]) == k;
    } else {
      UpsertInserts(rows, batch, cols, j);
      var i :| 0 <= i < |r| && r[i] == batch[j];
      assert KeyOf(r[i]) == k;
    }
  }

  /** Every row of a well-formed batch has the update columns, so overwriting it with itself is the identity. */
  lemma OverwriteSelf(b: Row, cols: set<string>)
    requires cols <= b.Keys
    ensures Overwrite(b, b, cols) == b
  {
  }

  lemma NewRowsAllPresent(batch: seq<Row>, present: set<Key>)
    requires KeysOf(batch) <= present
    ensures NewRows(batch, present) == []
  {
    if batch != [] {
      assert batch[0] in batch;
      assert KeysOf(batch[1..]) <= KeysOf(batch) by {
        assert forall x :: x in batch[1..] ==> x in batch;
      }
      NewRowsAllPresent(batch[1..], present);
    }
  }

  /** Upserting the same batch twice gives the table upserting it once gives. */
  lemma UpsertIdempotent(rows: seq<Row>, batch: Table)
    requires WellFormed(batch) && UniqueKeys(batch.rows)
    ensures var cols := batch.columns - KeyColumns;
      Upserted(Upserted(rows, batch.rows, cols), batch.rows, cols) == Upserted(rows, batch.rows, cols)
  {
    var cols := batch.columns - KeyColumns;
    var once := Upserted(rows, batch.rows, cols);
    var twice := Upserted(once, batch.rows, cols);
    UpsertKeySet(rows, batch.rows, cols);
    NewRowsAllPresent(batch.rows, KeysOf(once));
    assert twice == seq(|once|, i requires 0 <= i < |once| => Merged(once[i], batch.rows, cols));
    var added := NewRows(batch.rows, KeysOf(rows));
    forall i | 0 <= i < |once| ensures Merged(once[i], batch.rows, cols) == once[i] {
      if i < |rows| {
        MergedTwice(rows[i], batch.rows, cols);
      } else {
        assert once[i] == added[i - |rows|] && once[i] in added;
        MergedBatchRow(once[i], batch, cols);
      }
    }
  }

  /** A stored row merged with the batch is merged again into itself. */
  lemma MergedTwice(stored: Row, batch: seq<Row>, cols: set<string>)
    requires cols !! KeyColumns
    ensures Merged(Merged(stored, batch, cols), batch, cols) == Merged(stored, batch, cols)
  {
    MergedKeepsKey(stored, batch, cols);
    var f := FindKey(batch, KeyOf(stored));
    if f.Some? {
      var b := batch[f.value];
      OverwriteKeepsKey(stored, b, cols);
      assert Overwrite(Overwrite(stored, b, cols), b, cols) == Overwrite(stored, b, cols);
    }
  }

  /** A row of a batch with unique keys, merged with that batch, is itself. */
  lemma MergedBatchRow(x: Row, batch: Table, cols: set<string>)
    requires WellFormed(batch) && UniqueKeys(batch.rows) && cols <= batch.columns
    requires x in batch.rows
    ensures Merged(x, batch.rows, cols) == x
  {
    var m :| 0 <= m < |batch.rows| && batch.rows[m] == x;
    var f := FindKey(batch.rows, KeyOf(x));
    assert f.value == m;
    OverwriteSelf(x, cols);
  }

  /** Rows whose TrainDate is not `today`, in their order: `DELETE ... WHERE "TrainDate" = :today`. */
  function WithoutDay(rows: seq<Row>, today: Value): (r: seq<Row>)
    ensures forall x :: x in r ==> x in rows && Get(x, "TrainDate") != Some(today)
    decreases |rows|
  {
    if rows == [] then []
    else (if Get(rows[0], "TrainDate") == Some(today) then [] else [rows[0]]) + WithoutDay(rows[1..], today)
  }

  /** Only today's rows are deleted; every other row (a missing date compares as unknown) survives. */
  lemma {:induction false} WithoutDayKeepsOthers(rows: seq<Row>, today: Value)
    ensures forall x :: x in rows && Get(x, "TrainDate") != Some(today) ==> x in WithoutDay(rows, today)
    ensures |WithoutDay(rows, today)| == |rows| - CountDay(rows, today)
    decreases |rows|
  {
    if rows != [] {
      WithoutDayKeepsOthers(rows[1..], today);
      assert forall x :: x in rows ==> x == rows[0] || x in rows[1..];
    }
  }

  /** The number of rows dated `today` (the delete's rowcount). */
  function CountDay(rows: seq<Row>, today: Value): (n: nat)
    ensures n <= |rows|
    decreases |rows|
  {
    if rows == [] then 0
    else (if Get(rows[0], "TrainDate") == Some(today) then 1 else 0) + CountDay(rows[1..], today)
  }

  // ---------------------------------------------------------------------
  // The warehouse
  // ---------------------------------------------------------------------

  datatype Outcome = Loaded | Failed(reason: string)

  /** The database the pipeline writes to, as a map from table name to table. */
  class Warehouse {
    var tables: map<string, Table>

    /** The upsert target keeps its primary key. */
    ghost predicate Valid()
      reads this
    {
      "train_movements" in tables ==> UniqueKeys(tables["train_movements"].rows)
    }

    constructor(initial: map<string, Table>)
      requires "train_movements" in initial ==> UniqueKeys(initial["train_movements"].rows)
      ensures Valid() && tables == initial
    {
      tables := initial;
    }

    /** `stations`: `if_exists='replace'`, the table becomes the batch. */
    method ReplaceStations(batch: Table)
      requires Valid()
      modifies this
      ensures Valid()
      ensures tables == old(tables)["stations" := batch]
    {
      tables := tables["stations" := batch];
    }

    /**
     * `current_trains`: delete the rows dated `today`, then append the whole
     * batch, an empty one included. Deleting from a table that does not
     * exist fails, and nothing is committed.
     */
    method ReplaceToday(batch: Table, today: Value) returns (r: Outcome)
      requires Valid()
      modifies this
      ensures Valid()
      ensures "current_trains" !in old(tables) ==> r.Failed? && tables == old(tables)
      ensures "current_trains" in old(tables) ==> (r == Loaded &&
        tables == old(tables)["current_trains" := Table(old(tables)["current_trains"].columns,
          WithoutDay(old(tables)["current_trains"].rows, today) + batch.rows)])
    {
      if "current_trains" !in tables {
        return Failed("relation \"current_trains\" does not exist");
      }
      var stored := tables["current_trains"];
      tables := tables["current_trains" := Table(stored.columns, WithoutDay(stored.rows, today) + batch.rows)];
      return Loaded;
    }

    /**
     * `train_movements`: an empty batch is a no-op; otherwise the rows are
     * upserted on (TrainCode, TrainDate, LocationOrder), overwriting every
     * non-key column the batch has. A batch with no column outside the key
     * leaves the SET clause empty, which the database rejects as a syntax
     * error, so nothing changes. The database rejects a batch that carries
     * one key twice, so callers pass distinct keys.
     */
    method UpsertMovements(batch: Table) returns (r: Outcome)
      requires Valid() && UniqueKeys(batch.rows)
      modifies this
      ensures Valid()
      ensures Empty(batch) ==> r == Loaded && tables == old(tables)
      ensures !Empty(batch) && batch.columns <= KeyColumns ==> r.Failed? && tables == old(tables)
      ensures !Empty(batch) && "train_movements" !in old(tables) ==> r.Failed? && tables == old(tables)
      ensures !Empty(batch) && !(batch.columns <= KeyColumns) && "train_movements" in old(tables) ==> (r == Loaded &&
        tables == old(tables)["train_movements" := Table(old(tables)["train_movements"].columns,
          Upserted(old(tables)["train_movements"].rows, batch.rows, batch.columns - KeyColumns))])
    {
      if Empty(batch) {
        return Loaded;
      }
      if batch.columns <= KeyColumns {
        return Failed("syntax error at end of input");
      }
      if "train_movements" !in tables {
        return Failed("relation \"train_movements\" does not exist");
      }
      var stored := tables["train_movements"];
      var cols := batch.columns - KeyColumns;
      UpsertKeepsKeysUnique(stored.rows, batch.rows, cols);
      tables := tables["train_movements" := Table(stored.columns, Upserted(stored.rows, batch.rows, cols))];
      return Loaded;
    }

    /** Any other table: `if_exists='append'`, creating the table from the batch when it is new. */
    method Append(batch: Table, name: string)
      requires Valid() && name != "train_movements"
      modifies this
      ensures Valid()
      ensures name in old(tables) ==> tables == old(tables)[name := Table(old(tables)[name].columns, old(tables)[name].rows + batch.rows)]
      ensures name !in old(tables) ==> tables == old(tables)[name := batch]
    {
      if name in tables {
        tables := tables[name := Table(tables[name].columns, tables[name].rows + batch.rows)];
      } else {
        tables := tables[name := batch];
      }
    }

    /** `insert_data`: the policy is chosen by the table's name. */
    method InsertData(batch: Table, name: string, today: Value) returns (r: Outcome)
      requires Valid()
      requires name == "train_movements" ==> UniqueKeys(batch.rows)
      modifies this
      ensures Valid()
      ensures name == "stations" ==> r == Loaded && tables == old(tables)["stations" := batch]
      ensures name == "current_trains" ==> (r == Loaded <==> "current_trains" in old(tables))
      ensures name == "current_trains" && "current_trains" in old(tables) ==>
        tables == old(tables)["current_trains" := Table(old(tables)["current_trains"].columns,
          WithoutDay(old(tables)["current_trains"].rows, today) + batch.rows)]
      ensures name == "train_movements" ==>
        (r == Loaded <==> Empty(batch) || (!(batch.columns <= KeyColumns) && "train_movements" in old(tables)))
      ensures name == "train_movements" && Empty(batch) ==> tables == old(tables)
      ensures name == "train_movements" && !Empty(batch) && !(batch.columns <= KeyColumns) && "train_movements" in old(tables) ==>
        tables == old(tables)["train_movements" := Table(old(tables)["train_movements"].columns,
          Upserted(old(tables)["train_movements"].rows, batch.rows, batch.columns - KeyColumns))]
      ensures name !in {"stations", "current_trains", "train_movements"} ==> r == Loaded && tables.Keys == old(tables).Keys + {name}
      ensures name !in {"stations", "current_trains", "train_movements"} && name in old(tables) ==>
        tables == old(tables)[name := Table(old(tables)[name].columns, old(tables)[name].rows + batch.rows)]
      ensures name !in {"stations", "current_trains", "train_movements"} && name !in old(tables) ==>
        tables == old(tables)[name := batch]
      ensures r.Failed? ==> tables == old(tables)
      ensures forall n :: n in old(tables) && n != name ==> n in tables && tables[n] == old(tables)[n]
    {
      if name == "stations" {
        ReplaceStations(batch);
        r := Loaded;
      } else if name == "current_trains" {
        r := ReplaceToday(batch, today);
      } else if name == "train_movements" {
        r := UpsertMovements(batch);
      } else {
        Append(batch, name);
        r := Loaded;
      }
    }
  }
}
