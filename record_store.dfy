/** The six tables the importer writes, as a value: each table is an ordered sequence of
    records, each record an id plus its string columns. The operations are the parts of
    Moodle's `$DB` API the importer calls: `get_record` on a natural key, `get_field` by
    id, `insert_record` and `update_record`. */
module RecordStore {
  import opened Php

  datatype Table = Compcat | Component | Flavor | Variant | CompFlavor | CompVariant

  datatype Record = Record(id: int, fields: Row)

  /** A natural key: a name, or a (component name, flavor or variant name) pair. */
  datatype Key = Name(name: string) | Pair(componentname: string, other: string)

  /** Database name of each table. */
  function TableName(t: Table): string
  {
    match t
    case Compcat => "tiny_elements_compcat"
    case Component => "tiny_elements_component"
    case Flavor => "tiny_elements_flavor"
    case Variant => "tiny_elements_variant"
    case CompFlavor => "tiny_elements_comp_flavor"
    case CompVariant => "tiny_elements_comp_variant"
  }

  /** The column that, with `componentname`, keys a relation table. */
  function RelationColumn(t: Table): string
  {
    if t == CompVariant then "variant" else "flavorname"
  }

  /** The natural key the importer matches a table on: `name` for the four entity tables,
      (`componentname`, flavor or variant name) for the two relation tables. */
  function KeyOf(t: Table, fields: Row): Key
  {
    match t
    case CompFlavor => Pair(Get(fields, "componentname"), Get(fields, "flavorname"))
    case CompVariant => Pair(Get(fields, "componentname"), Get(fields, "variant"))
    case _ => Name(Get(fields, "name"))
  }

  /** Position of the first record whose key is `key`, or `|rows|` when there is none. */
  function FirstIndex(rows: seq<Record>, t: Table, key: Key): (i: nat)
    ensures i <= |rows|
    ensures i < |rows| ==> KeyOf(t, rows[i].fields) == key
    ensures forall j :: 0 <= j < i ==> KeyOf(t, rows[j].fields) != key
  {
    if |rows| == 0 then 0
    else if KeyOf(t, rows[0].fields) == key then 0
    else 1 + FirstIndex(rows[1..], t, key)
  }

  /** `$DB->get_record($table, <key columns>)`: the first record with that key, if any. */
  function Lookup(rows: seq<Record>, t: Table, key: Key): (r: Option<Record>)
    ensures r.None? <==> forall i :: 0 <= i < |rows| ==> KeyOf(t, rows[i].fields) != key
    ensures r.Some? ==> r.value in rows && KeyOf(t, r.value.fields) == key
  {
    var i := FirstIndex(rows, t, key);
    if i < |rows| then Some(rows[i]) else None
  }

  /** Position of the first record with id `id`, or `|rows|` when there is none. */
  function FirstIdIndex(rows: seq<Record>, id: int): (i: nat)
    ensures i <= |rows|
    ensures i < |rows| ==> rows[i].id == id
    ensures forall j :: 0 <= j < i ==> rows[j].id != id
  {
    if |rows| == 0 then 0
    else if rows[0].id == id then 0
    else 1 + FirstIdIndex(rows[1..], id)
  }

  /** `$DB->get_field($table, $column, ['id' => $id])`: None (PHP false) when no record
      has that id, otherwise the column (read as '' when absent) of the first record
      that has it. */
  function FieldById(rows: seq<Record>, id: int, column: string): (r: Option<string>)
    ensures r.None? <==> forall i :: 0 <= i < |rows| ==> rows[i].id != id
    ensures r.Some? ==> exists i :: (0 <= i < |rows| && rows[i].id == id
      && r.value == Get(rows[i].fields, column)
      && forall j :: 0 <= j < i ==> rows[j].id != id)
  {
    var i := FirstIdIndex(rows, id);
    if i < |rows| then Some(Get(rows[i].fields, column)) else None
  }

  /** With distinct ids, `get_field` by a record's id reads that record's column. */
  lemma FieldByIdAt(rows: seq<Record>, i: int, column: string)
    requires 0 <= i < |rows|
    requires forall j, k :: 0 <= j < k < |rows| ==> rows[j].id != rows[k].id
    ensures FieldById(rows, rows[i].id, column) == Some(Get(rows[i].fields, column))
  {
    var k := FirstIdIndex(rows, rows[i].id);
    assert k == i;
  }

  /** The same columns written over every record with id `id`; the others are untouched. */
  function UpdateRows(rows: seq<Record>, id: int, changes: Row): seq<Record>
  {
    seq(|rows|, i requires 0 <= i < |rows| =>
      if rows[i].id == id then Record(id, rows[i].fields + changes) else rows[i])
  }

  /** Ids are positive, below the next id to hand out, distinct, and no two records of a
      table share a natural key. */
  ghost predicate TableValid(t: Table, rows: seq<Record>, nextId: int)
  {
    && (forall i :: 0 <= i < |rows| ==> 0 < rows[i].id < nextId)
    && (forall i, j :: 0 <= i < j < |rows| ==> rows[i].id != rows[j].id)
    && (forall i, j :: 0 <= i < j < |rows| ==> KeyOf(t, rows[i].fields) != KeyOf(t, rows[j].fields))
  }

  datatype Db = Db(
    compcat: seq<Record>,
    component: seq<Record>,
    flavor: seq<Record>,
    variant: seq<Record>,
    compFlavor: seq<Record>,
    compVariant: seq<Record>,
    nextId: int)
  {
    function Rows(t: Table): seq<Record>
    {
      match t
      case Compcat => compcat
      case Component => component
      case Flavor => flavor
      case Variant => variant
      case CompFlavor => compFlavor
      case CompVariant => compVariant
    }

    function WithRows(t: Table, rows: seq<Record>): (d: Db)
      ensures d.Rows(t) == rows && d.nextId == nextId
      ensures forall u :: u != t ==> d.Rows(u) == Rows(u)
    {
      match t
      case Compcat => this.(compcat := rows)
      case Component => this.(component := rows)
      case Flavor => this.(flavor := rows)
      case Variant => this.(variant := rows)
      case CompFlavor => this.(compFlavor := rows)
      case CompVariant => this.(compVariant := rows)
    }

    ghost predicate Valid()
    {
      && 0 < nextId
      && TableValid(Compcat, compcat, nextId)
      && TableValid(Component, component, nextId)
      && TableValid(Flavor, flavor, nextId)
      && TableValid(Variant, variant, nextId)
      && TableValid(CompFlavor, compFlavor, nextId)
      && TableValid(CompVariant, compVariant, nextId)
    }

    /** `$DB->insert_record($table, $record)`: the record (without its `id` column) is
        appended under the next free id, which is returned. */
    function Insert(t: Table, record: Row): (Db, int)
    {
      (WithRows(t, Rows(t) + [Record(nextId, record - {"id"})]).(nextId := nextId + 1), nextId)
    }

    /** `$DB->update_record($table, $record)`: the columns `$record` supplies (except `id`)
        are written over the record whose id is `id`; the other columns keep their values. */
    function Update(t: Table, id: int, record: Row): Db
    {
      WithRows(t, UpdateRows(Rows(t), id, record - {"id"}))
    }

    /** The lookup-then-write every table pass performs: a stored record with the same
        natural key keeps its id and takes the incoming columns, otherwise the record is
        inserted. Returns the new store and the record's id. */
    function Upsert(t: Table, record: Row): (r: (Db, int))
      ensures r.0.nextId >= nextId
      ensures forall u :: u != t ==> r.0.Rows(u) == Rows(u)
    {
      var found := Lookup(Rows(t), t, KeyOf(t, record));
      if found.Some? then (Update(t, found.value.id, record), found.value.id)
      else Insert(t, record)
    }
  }

  /** Merging a record over stored columns carries every column of the record but `id`. */
  lemma MergeCarries(fields: Row, record: Row)
    ensures forall c :: c in record && c != "id" ==>
      c in fields + (record - {"id"}) && (fields + (record - {"id"}))[c] == record[c]
  {
  }

  /** The id an upsert returns: the stored record's when the key is found (the table keeps
      its length), the next free id otherwise (the record is appended). */
  lemma UpsertFound(db: Db, t: Table, record: Row)
    ensures var r := db.Upsert(t, record);
      var found := Lookup(db.Rows(t), t, KeyOf(t, record));
      && (found.Some? ==> r.1 == found.value.id && |r.0.Rows(t)| == |db.Rows(t)|)
      && (found.None? ==> r.1 == db.nextId && r.0.Rows(t) == db.Rows(t) + [Record(db.nextId, record - {"id"})])
  {
  }

  /** `Db.Upsert` as its two branches. */
  lemma UpsertUnfolds(db: Db, t: Table, record: Row)
    ensures var found := Lookup(db.Rows(t), t, KeyOf(t, record));
      db.Upsert(t, record) ==
        if found.Some? then (db.Update(t, found.value.id, record), found.value.id) else db.Insert(t, record)
  {
  }

  /** After an upsert the key resolves to the returned id and the stored record carries
      every incoming column but `id`. */
  lemma UpsertStores(db: Db, t: Table, record: Row)
    requires db.Valid()
    ensures var r := db.Upsert(t, record);
      var stored := Lookup(r.0.Rows(t), t, KeyOf(t, record));
      && stored.Some? && stored.value.id == r.1
      && forall c :: c in record && c != "id" ==> c in stored.value.fields && stored.value.fields[c] == record[c]
  {
    if Lookup(db.Rows(t), t, KeyOf(t, record)).Some? {
      UpsertStoresUpdate(db, t, record);
    } else {
      UpsertStoresInsert(db, t, record);
    }
  }

  /** The update branch of `UpsertStores`. */
  lemma UpsertStoresUpdate(db: Db, t: Table, record: Row)
    requires db.Valid()
    requires Lookup(db.Rows(t), t, KeyOf(t, record)).Some?
    ensures var r := db.Upsert(t, record);
      var stored := Lookup(r.0.Rows(t), t, KeyOf(t, record));
      && stored.Some? && stored.value.id == r.1
      && forall c :: c in record && c != "id" ==> c in stored.value.fields && stored.value.fields[c] == record[c]
  {
    var found := Lookup(db.Rows(t), t, KeyOf(t, record));
    ValidTable(db, t);
    UpdateAtKey(t, db.Rows(t), record, db.nextId);
    MergeCarries(found.value.fields, record);
  }

  /** The insert branch of `UpsertStores`. */
  lemma UpsertStoresInsert(db: Db, t: Table, record: Row)
    requires Lookup(db.Rows(t), t, KeyOf(t, record)).None?
    ensures var r := db.Upsert(t, record);
      var stored := Lookup(r.0.Rows(t), t, KeyOf(t, record));
      && stored.Some? && stored.value.id == r.1
      && forall c :: c in record && c != "id" ==> c in stored.value.fields && stored.value.fields[c] == record[c]
  {
    var r := Record(db.nextId, record - {"id"});
    assert KeyOf(t, r.fields) == KeyOf(t, record);
    InsertShape(db, t, record);
    AppendFound(t, db.Rows(t), r);
  }

  /** An upsert keeps the store valid: the update branch leaves every key where it was,
      the insert branch adds a key that was missing under a fresh id. */
  lemma UpsertKeepsValid(db: Db, t: Table, record: Row)
    requires db.Valid()
    ensures db.Upsert(t, record).0.Valid()
  {
    if Lookup(db.Rows(t), t, KeyOf(t, record)).Some? {
      UpsertUpdateCase(db, t, record);
    } else {
      InsertKeepsValid(db, t, record);
    }
  }

  /** Two tables whose records agree on id and key position by position. */
  ghost predicate SameShape(t: Table, a: seq<Record>, b: seq<Record>)
  {
    |a| == |b| &&
    forall i :: 0 <= i < |a| ==> a[i].id == b[i].id && KeyOf(t, a[i].fields) == KeyOf(t, b[i].fields)
  }

  lemma SameShapeLookup(t: Table, a: seq<Record>, b: seq<Record>, key: Key)
    requires SameShape(t, a, b)
    ensures FirstIndex(a, t, key) == FirstIndex(b, t, key)
    ensures Lookup(a, t, key).Some? == Lookup(b, t, key).Some?
  {
  }

  /** Raising the next id keeps a table valid. */
  lemma TableValidMono(t: Table, rows: seq<Record>, n: int, m: int)
    requires TableValid(t, rows, n) && n <= m
    ensures TableValid(t, rows, m)
  {
  }

  /** Replacing one valid table (and possibly raising the next id) keeps the store valid. */
  lemma WithRowsValid(db: Db, t: Table, rows: seq<Record>, n: int)
    requires db.Valid() && db.nextId <= n
    requires TableValid(t, rows, n)
    ensures db.WithRows(t, rows).(nextId := n).Valid()
  {
    TableValidMono(Compcat, db.compcat, db.nextId, n);
    TableValidMono(Component, db.component, db.nextId, n);
    TableValidMono(Flavor, db.flavor, db.nextId, n);
    TableValidMono(Variant, db.variant, db.nextId, n);
    TableValidMono(CompFlavor, db.compFlavor, db.nextId, n);
    TableValidMono(CompVariant, db.compVariant, db.nextId, n);
  }

  lemma ValidTable(db: Db, t: Table)
    requires db.Valid()
    ensures TableValid(t, db.Rows(t), db.nextId)
  {
  }

  /** Appending a record under a fresh id and a key not yet present keeps a table valid. */
  lemma AppendValid(t: Table, rows: seq<Record>, r: Record, n: int)
    requires TableValid(t, rows, n)
    requires Lookup(rows, t, KeyOf(t, r.fields)).None?
    requires 0 < r.id == n
    ensures TableValid(t, rows + [r], n + 1)
  {
    var rows' := rows + [r];
    forall i, j | 0 <= i < j < |rows'|
      ensures rows'[i].id != rows'[j].id && KeyOf(t, rows'[i].fields) != KeyOf(t, rows'[j].fields)
    {
      if j == |rows| { assert rows'[i] == rows[i]; }
    }
  }

  /** Writing columns over the records with id `id` keeps a table valid as long as it does
      not change their natural key; every key still resolves at the same position. */
  lemma UpdateRowsValid(t: Table, rows: seq<Record>, id: int, changes: Row, n: int)
    requires TableValid(t, rows, n)
    requires forall r :: r in rows && r.id == id ==> KeyOf(t, r.fields + changes) == KeyOf(t, r.fields)
    ensures TableValid(t, UpdateRows(rows, id, changes), n)
    ensures SameShape(t, rows, UpdateRows(rows, id, changes))
  {
    var rows' := UpdateRows(rows, id, changes);
    forall i | 0 <= i < |rows|
      ensures rows'[i].id == rows[i].id && KeyOf(t, rows'[i].fields) == KeyOf(t, rows[i].fields)
    {
      assert rows[i] in rows;
    }
  }

  /** `update_record` that leaves the natural key of the record it writes alone keeps the
      store valid. */
  lemma UpdateKeepsValid(db: Db, t: Table, id: int, record: Row)
    requires db.Valid()
    requires forall r :: r in db.Rows(t) && r.id == id ==>
      KeyOf(t, r.fields + (record - {"id"})) == KeyOf(t, r.fields)
    ensures db.Update(t, id, record).Valid()
    ensures SameShape(t, db.Rows(t), db.Update(t, id, record).Rows(t))
  {
    ValidTable(db, t);
    UpdateRowsValid(t, db.Rows(t), id, record - {"id"}, db.nextId);
    WithRowsValid(db, t, UpdateRows(db.Rows(t), id, record - {"id"}), db.nextId);
    assert db.WithRows(t, UpdateRows(db.Rows(t), id, record - {"id"})).(nextId := db.nextId)
      == db.Update(t, id, record);
  }

  /** Writing a record's own key columns back over a record with the same key leaves
      that key as it was. */
  lemma MergeKeepsKey(t: Table, fields: Row, record: Row)
    requires KeyOf(t, fields) == KeyOf(t, record)
    ensures KeyOf(t, fields + (record - {"id"})) == KeyOf(t, fields)
  {
  }

  /** The update branch of `Db.Upsert` on one table: the matched record keeps its id and
      position and now carries the incoming columns. */
  lemma UpdateAtKey(t: Table, rows: seq<Record>, record: Row, n: int)
    requires TableValid(t, rows, n)
    requires Lookup(rows, t, KeyOf(t, record)).Some?
    ensures var cur := Lookup(rows, t, KeyOf(t, record)).value;
      var rows' := UpdateRows(rows, cur.id, record - {"id"});
      && TableValid(t, rows', n)
      && SameShape(t, rows, rows')
      && Lookup(rows', t, KeyOf(t, record)) == Some(Record(cur.id, cur.fields + (record - {"id"})))
      && (forall key :: Lookup(rows, t, key).Some? ==> Lookup(rows', t, key).Some?)
  {
    var key := KeyOf(t, record);
    var i := FirstIndex(rows, t, key);
    var cur := rows[i];
    forall r | r in rows && r.id == cur.id
      ensures KeyOf(t, r.fields + (record - {"id"})) == KeyOf(t, r.fields)
    {
      var j :| 0 <= j < |rows| && rows[j] == r;
      assert j == i;
      MergeKeepsKey(t, r.fields, record);
    }
    var rows' := UpdateRows(rows, cur.id, record - {"id"});
    UpdateRowsValid(t, rows, cur.id, record - {"id"}, n);
    SameShapeLookup(t, rows, rows', key);
    forall k | Lookup(rows, t, k).Some? ensures Lookup(rows', t, k).Some? {
      SameShapeLookup(t, rows, rows', k);
    }
  }

  lemma UpsertUpdateCase(db: Db, t: Table, record: Row)
    requires db.Valid()
    requires Lookup(db.Rows(t), t, KeyOf(t, record)).Some?
    ensures var cur := Lookup(db.Rows(t), t, KeyOf(t, record)).value;
      var rows' := db.Update(t, cur.id, record).Rows(t);
      && db.Update(t, cur.id, record).Valid()
      && Lookup(rows', t, KeyOf(t, record)) == Some(Record(cur.id, cur.fields + (record - {"id"})))
      && (forall key :: Lookup(db.Rows(t), t, key).Some? ==> Lookup(rows', t, key).Some?)
  {
    var cur := Lookup(db.Rows(t), t, KeyOf(t, record)).value;
    ValidTable(db, t);
    UpdateAtKey(t, db.Rows(t), record, db.nextId);
    WithRowsValid(db, t, UpdateRows(db.Rows(t), cur.id, record - {"id"}), db.nextId);
    assert db.WithRows(t, UpdateRows(db.Rows(t), cur.id, record - {"id"})).(nextId := db.nextId)
      == db.Update(t, cur.id, record);
  }

  /** The insert branch of `Db.Upsert` keeps the store valid. */
  lemma InsertKeepsValid(db: Db, t: Table, record: Row)
    requires db.Valid()
    requires Lookup(db.Rows(t), t, KeyOf(t, record)).None?
    ensures db.Insert(t, record).0.Valid()
  {
    var r := Record(db.nextId, record - {"id"});
    assert KeyOf(t, r.fields) == KeyOf(t, record);
    ValidTable(db, t);
    AppendValid(t, db.Rows(t), r, db.nextId);
    WithRowsValid(db, t, db.Rows(t) + [r], db.nextId + 1);
  }

  /** A record appended under a key no record has is the one that key resolves to. */
  lemma AppendFound(t: Table, rows: seq<Record>, r: Record)
    requires Lookup(rows, t, KeyOf(t, r.fields)).None?
    ensures Lookup(rows + [r], t, KeyOf(t, r.fields)) == Some(r)
  {
    var rows' := rows + [r];
    assert rows'[|rows|] == r;
    assert forall j :: 0 <= j < |rows| ==> rows'[j] == rows[j];
  }

  /** A record found in a valid store has a positive id below the next id. */
  lemma LookupIdInRange(db: Db, t: Table, key: Key)
    requires db.Valid()
    requires Lookup(db.Rows(t), t, key).Some?
    ensures 0 < Lookup(db.Rows(t), t, key).value.id < db.nextId
  {
    ValidTable(db, t);
    var i := FirstIndex(db.Rows(t), t, key);
    assert Lookup(db.Rows(t), t, key).value == db.Rows(t)[i];
  }

  /** Every key that resolves in `a` resolves in `b` to a record with the same id. */
  ghost predicate KeepsKeyIds(t: Table, a: seq<Record>, b: seq<Record>)
  {
    forall key :: Lookup(a, t, key).Some? ==>
      Lookup(b, t, key).Some? && Lookup(b, t, key).value.id == Lookup(a, t, key).value.id
  }

  lemma KeepsKeyIdsTrans(t: Table, a: seq<Record>, b: seq<Record>, c: seq<Record>)
    requires KeepsKeyIds(t, a, b) && KeepsKeyIds(t, b, c)
    ensures KeepsKeyIds(t, a, c)
  {
  }

  lemma KeepsKeyIdsAt(t: Table, a: seq<Record>, b: seq<Record>, key: Key)
    requires KeepsKeyIds(t, a, b) && Lookup(a, t, key).Some?
    ensures Lookup(b, t, key).Some? && Lookup(b, t, key).value.id == Lookup(a, t, key).value.id
  {
  }

  lemma SameShapeKeepsKeyIds(t: Table, a: seq<Record>, b: seq<Record>)
    requires SameShape(t, a, b)
    ensures KeepsKeyIds(t, a, b)
  {
    forall key | Lookup(a, t, key).Some?
      ensures Lookup(b, t, key).Some? && Lookup(b, t, key).value.id == Lookup(a, t, key).value.id
    {
      SameShapeLookup(t, a, b, key);
    }
  }

  /** The first record with the key is the one a lookup finds. */
  lemma LookupAt(rows: seq<Record>, t: Table, key: Key, i: int)
    requires 0 <= i < |rows| && KeyOf(t, rows[i].fields) == key
    requires forall j :: 0 <= j < i ==> KeyOf(t, rows[j].fields) != key
    ensures Lookup(rows, t, key) == Some(rows[i])
  {
    var k := FirstIndex(rows, t, key);
    assert k == i;
  }

  /** Extending a table at its end never moves an existing key to another id. */
  lemma PrefixKeepsKeyIds(t: Table, a: seq<Record>, b: seq<Record>)
    requires a <= b
    ensures KeepsKeyIds(t, a, b)
  {
    forall key | Lookup(a, t, key).Some?
      ensures Lookup(b, t, key) == Lookup(a, t, key)
    {
      var i := FirstIndex(a, t, key);
      assert forall j :: 0 <= j <= i ==> b[j] == a[j];
      LookupAt(b, t, key, i);
    }
  }

  /** Rewriting the record of one key leaves the lookup of every other key as it was. */
  lemma UpdateKeepsOtherLookup(t: Table, rows: seq<Record>, record: Row, n: int, key: Key)
    requires TableValid(t, rows, n)
    requires Lookup(rows, t, KeyOf(t, record)).Some? && key != KeyOf(t, record)
    ensures Lookup(UpdateRows(rows, Lookup(rows, t, KeyOf(t, record)).value.id, record - {"id"}), t, key)
      == Lookup(rows, t, key)
  {
    var j := FirstIndex(rows, t, KeyOf(t, record));
    var rows' := UpdateRows(rows, rows[j].id, record - {"id"});
    UpdateAtKey(t, rows, record, n);
    SameShapeLookup(t, rows, rows', key);
    var i := FirstIndex(rows, t, key);
    if i < |rows| {
      assert i != j && rows[i].id != rows[j].id;
      assert rows'[i] == rows[i];
    }
  }

  /** Appending a record of another key leaves the lookup of `key` as it was. */
  lemma AppendKeepsOtherLookup(t: Table, rows: seq<Record>, r: Record, key: Key)
    requires KeyOf(t, r.fields) != key
    ensures Lookup(rows + [r], t, key) == Lookup(rows, t, key)
  {
    var rows' := rows + [r];
    var i := FirstIndex(rows, t, key);
    if i < |rows| {
      assert forall k :: 0 <= k <= i ==> rows'[k] == rows[k];
      LookupAt(rows', t, key, i);
    } else {
      forall k | 0 <= k < |rows'|
        ensures KeyOf(t, rows'[k].fields) != key
      {
        if k < |rows| {
          assert rows'[k] == rows[k];
        }
      }
    }
  }

  /** An upsert of another key leaves what `key` resolves to exactly as it was: the
      record stored under it, or nothing. */
  lemma UpsertKeepsLookup(db: Db, t: Table, record: Row, key: Key)
    requires db.Valid() && key != KeyOf(t, record)
    ensures Lookup(db.Upsert(t, record).0.Rows(t), t, key) == Lookup(db.Rows(t), t, key)
  {
    var rows := db.Rows(t);
    var found := Lookup(rows, t, KeyOf(t, record));
    if found.Some? {
      ValidTable(db, t);
      UpdateKeepsOtherLookup(t, rows, record, db.nextId, key);
      assert db.Upsert(t, record).0.Rows(t) == UpdateRows(rows, found.value.id, record - {"id"});
    } else {
      var r := Record(db.nextId, record - {"id"});
      assert KeyOf(t, r.fields) == KeyOf(t, record);
      AppendKeepsOtherLookup(t, rows, r, key);
      InsertShape(db, t, record);
    }
  }

  /** An upsert never moves an existing key to another id. */
  lemma UpsertKeepsKeyIds(db: Db, t: Table, record: Row)
    requires db.Valid()
    ensures KeepsKeyIds(t, db.Rows(t), db.Upsert(t, record).0.Rows(t))
  {
    var found := Lookup(db.Rows(t), t, KeyOf(t, record));
    ValidTable(db, t);
    if found.Some? {
      UpdateAtKey(t, db.Rows(t), record, db.nextId);
      SameShapeKeepsKeyIds(t, db.Rows(t), db.Upsert(t, record).0.Rows(t));
    } else {
      var rows' := db.Rows(t) + [Record(db.nextId, record - {"id"})];
      PrefixKeepsKeyIds(t, db.Rows(t), rows');
    }
  }

  /** Setting a `categoryname` column never changes a natural key, so it keeps the store
      valid and every key at its position. */
  lemma SetCategorynameKeepsValid(db: Db, t: Table, id: int, value: string)
    requires db.Valid()
    ensures db.Update(t, id, map["categoryname" := value]).Valid()
    ensures SameShape(t, db.Rows(t), db.Update(t, id, map["categoryname" := value]).Rows(t))
  {
    var changes := map["categoryname" := value];
    forall r | r in db.Rows(t) && r.id == id
      ensures KeyOf(t, r.fields + (changes - {"id"})) == KeyOf(t, r.fields)
    {
      assert changes - {"id"} == changes;
    }
    UpdateKeepsValid(db, t, id, changes);
  }

  /** `insert_record` appends to its own table, hands out the next id and touches nothing else. */
  lemma InsertShape(db: Db, t: Table, record: Row)
    ensures var d := db.Insert(t, record).0;
      && d.Rows(t) == db.Rows(t) + [Record(db.nextId, record - {"id"})]
      && d.nextId == db.nextId + 1
      && forall u :: u != t ==> d.Rows(u) == db.Rows(u)
  {
  }
}
