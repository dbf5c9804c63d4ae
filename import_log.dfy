/** The result log of `importxml` (`classes/importer.php`), as functions: what each table
    loop appends to `$importresults`. Each line is decided against the store as the loop
    sees it: as the earlier rows left it in a live run, and as it was before the import in
    a dry run, which writes no record. */
module ImportLog {
  import opened Php
  import opened RecordStore
  import opened Descriptor
  import opened Results
  import opened ImportSpec

  /** How a record is named in the log: its name, or "<component> - <flavor or variant>"
      for a relation. */
  function Label(key: Key): (text: string)
    ensures key.Name? ==> text == key.name
    ensures key.Pair? ==> && |text| == |key.componentname| + 3 + |key.other|
                          && text[..|key.componentname|] == key.componentname
                          && text[|key.componentname|..|key.componentname| + 3] == " - "
                          && text[|text| - |key.other|..] == key.other
  {
    match key
    case Name(name) => name
    case Pair(componentname, other) => componentname + " - " + other
  }

  /** The `new…` string of each table. */
  function NewCode(t: Table): ResultCode
  {
    match t
    case Compcat => NewCategory
    case Component => NewComponent
    case Flavor => NewFlavor
    case Variant => NewVariant
    case CompFlavor => NewCompFlavor
    case CompVariant => NewCompVariant
  }

  /** The `replace…` string of each table. */
  function ReplaceCode(t: Table): ResultCode
  {
    match t
    case Compcat => ReplaceCategory
    case Component => ReplaceComponent
    case Flavor => ReplaceFlavor
    case Variant => ReplaceVariant
    case CompFlavor => ReplaceCompFlavor
    case CompVariant => ReplaceCompVariant
  }

  /** The line the import of a record with natural key `key` logs against the store `db`:
      "replace" when a record with that key is stored, "new" otherwise. */
  function Entry(db: Db, t: Table, key: Key): (e: ImportResult)
    ensures e.subject == Label(key)
    ensures e.code == ReplaceCode(t) <==> Stored(db, t, key)
    ensures e.code == NewCode(t) <==> !Stored(db, t, key)
  {
    ImportResult(if Stored(db, t, key) then ReplaceCode(t) else NewCode(t), Label(key))
  }

  // ----- the table loops that log every row -----

  /** What a table loop that imports every row logs: one line per row, each decided
      against the store the earlier rows left (`step` is one row's write), or, in a dry
      run, against the store as it was. */
  function RowLog(db: Db, rows: seq<Row>, entry: (Db, Row) -> ImportResult, step: (Db, Row) -> Db, dryrun: bool): (r: seq<ImportResult>)
    ensures |r| == |rows|
    decreases |rows|
  {
    if |rows| == 0 then []
    else
      var next := if dryrun then db else step(db, rows[0]);
      [entry(db, rows[0])] + RowLog(next, rows[1..], entry, step, dryrun)
  }

  /** The store once `step` has written each of `rows` in turn. */
  function Written(db: Db, rows: seq<Row>, step: (Db, Row) -> Db): Db
    decreases |rows|
  {
    if |rows| == 0 then db else Written(step(db, rows[0]), rows[1..], step)
  }

  /** Line `k` of such a loop's log is decided against the store rows `..k` left, or, in a
      dry run, against the store as it was. */
  lemma {:induction false} RowLogAt(db: Db, rows: seq<Row>, entry: (Db, Row) -> ImportResult, step: (Db, Row) -> Db, dryrun: bool, k: int)
    requires 0 <= k < |rows|
    ensures RowLog(db, rows, entry, step, dryrun)[k]
      == entry(if dryrun then db else Written(db, rows[..k], step), rows[k])
    decreases k
  {
    if k == 0 {
      assert rows[..0] == [];
    } else {
      var next := if dryrun then db else step(db, rows[0]);
      RowLogAt(next, rows[1..], entry, step, dryrun, k - 1);
      assert rows[1..][k - 1] == rows[k];
      assert rows[..k][0] == rows[0] && rows[..k][1..] == rows[1..][..k - 1];
    }
  }

  /** The log line of a row of table `t`: named after the row's key. */
  function TableEntry(t: Table): (Db, Row) -> ImportResult
  {
    (d: Db, row: Row) => Entry(d, t, KeyOf(t, row))
  }

  // ----- categories -----

  /** One row's write in the category loop: `import_category`. */
  function CategoryStep(svc: Services): (Db, Row) -> Db
  {
    (d: Db, row: Row) => CategoryWrite(d, row, svc).0
  }

  /** What the category loop logs: one line per row, named after the row. */
  function CategoryLog(db: Db, rows: seq<Row>, svc: Services, dryrun: bool): (r: seq<ImportResult>)
    ensures |r| == |rows|
    decreases |rows|
  {
    if |rows| == 0 then []
    else
      var next := if dryrun then db else CategoryWrite(db, rows[0], svc).0;
      [Entry(db, Compcat, KeyOf(Compcat, rows[0]))] + CategoryLog(next, rows[1..], svc, dryrun)
  }

  /** The category loop's log is the log of a loop that writes each row with `CategoryStep`. */
  lemma {:induction false} CategoryLogIsRowLog(db: Db, rows: seq<Row>, svc: Services, dryrun: bool)
    ensures CategoryLog(db, rows, svc, dryrun) == RowLog(db, rows, TableEntry(Compcat), CategoryStep(svc), dryrun)
    decreases |rows|
  {
    if |rows| > 0 {
      var next := if dryrun then db else CategoryWrite(db, rows[0], svc).0;
      assert TableEntry(Compcat)(db, rows[0]) == Entry(db, Compcat, KeyOf(Compcat, rows[0]));
      assert next == if dryrun then db else CategoryStep(svc)(db, rows[0]);
      CategoryLogIsRowLog(next, rows[1..], svc, dryrun);
    }
  }

  /** The category writes in turn leave the store the category pass leaves, whatever map
      the pass starts from. */
  lemma {:induction false} CategoryWritten(db: Db, rows: seq<Row>, catmap: map<string, int>, svc: Services)
    ensures Written(db, rows, CategoryStep(svc)) == CategoryPass(db, rows, catmap, svc).0
    decreases |rows|
  {
    if |rows| > 0 {
      var w := CategoryWrite(db, rows[0], svc);
      assert Written(db, rows, CategoryStep(svc)) == Written(w.0, rows[1..], CategoryStep(svc));
      CategoryPassUnfold(db, rows, catmap, svc);
      CategoryWritten(w.0, rows[1..], catmap[Get(rows[0], "id") := w.1], svc);
    }
  }

  /** Line `k` of the category loop's log says whether a category named like row `k` is
      stored in the store as rows `..k` left it (the map the pass starts from plays no
      part), or, in a dry run, in the store as it was. */
  lemma CategoryLogAt(db: Db, rows: seq<Row>, catmap: map<string, int>, svc: Services, dryrun: bool, k: int)
    requires 0 <= k < |rows|
    ensures CategoryLog(db, rows, svc, dryrun)[k]
      == Entry(if dryrun then db else CategoryPass(db, rows[..k], catmap, svc).0, Compcat, KeyOf(Compcat, rows[k]))
  {
    CategoryLogIsRowLog(db, rows, svc, dryrun);
    RowLogAt(db, rows, TableEntry(Compcat), CategoryStep(svc), dryrun, k);
    CategoryWritten(db, rows[..k], catmap, svc);
  }

  // ----- components -----

  /** One row's write in the component loop: `import_component`. */
  function ComponentStep(catmap: map<string, int>, svc: Services): (Db, Row) -> Db
  {
    (d: Db, row: Row) => ComponentWrite(d, row, catmap, svc).0
  }

  /** What the component loop logs: one line per row, named after the row. */
  function ComponentLog(db: Db, rows: seq<Row>, catmap: map<string, int>, svc: Services, dryrun: bool): (r: seq<ImportResult>)
    ensures |r| == |rows|
    decreases |rows|
  {
    if |rows| == 0 then []
    else
      var next := if dryrun then db else ComponentWrite(db, rows[0], catmap, svc).0;
      [Entry(db, Component, KeyOf(Component, rows[0]))] + ComponentLog(next, rows[1..], catmap, svc, dryrun)
  }

  /** The component loop's log is the log of a loop that writes each row with `ComponentStep`. */
  lemma {:induction false} ComponentLogIsRowLog(db: Db, rows: seq<Row>, catmap: map<string, int>, svc: Services, dryrun: bool)
    ensures ComponentLog(db, rows, catmap, svc, dryrun) == RowLog(db, rows, TableEntry(Component), ComponentStep(catmap, svc), dryrun)
    decreases |rows|
  {
    if |rows| > 0 {
      var next := if dryrun then db else ComponentWrite(db, rows[0], catmap, svc).0;
      assert TableEntry(Component)(db, rows[0]) == Entry(db, Component, KeyOf(Component, rows[0]));
      assert next == if dryrun then db else ComponentStep(catmap, svc)(db, rows[0]);
      ComponentLogIsRowLog(next, rows[1..], catmap, svc, dryrun);
    }
  }

  /** The component writes in turn leave the store the component pass leaves, whatever
      map the pass starts from. */
  lemma {:induction false} ComponentWritten(db: Db, rows: seq<Row>, catmap: map<string, int>, compmap: map<string, int>, svc: Services)
    ensures Written(db, rows, ComponentStep(catmap, svc)) == ComponentPass(db, rows, catmap, compmap, svc).0
    decreases |rows|
  {
    if |rows| > 0 {
      var w := ComponentWrite(db, rows[0], catmap, svc);
      assert Written(db, rows, ComponentStep(catmap, svc)) == Written(w.0, rows[1..], ComponentStep(catmap, svc));
      ComponentPassUnfold(db, rows, catmap, compmap, svc);
      ComponentWritten(w.0, rows[1..], catmap, compmap[Get(rows[0], "id") := w.1], svc);
    }
  }

  /** Line `k` of the component loop's log says whether a component named like row `k` is
      stored in the store as rows `..k` left it, or, in a dry run, as it was. */
  lemma ComponentLogAt(db: Db, rows: seq<Row>, catmap: map<string, int>, compmap: map<string, int>, svc: Services, dryrun: bool, k: int)
    requires 0 <= k < |rows|
    ensures ComponentLog(db, rows, catmap, svc, dryrun)[k]
      == Entry(if dryrun then db else ComponentPass(db, rows[..k], catmap, compmap, svc).0, Component, KeyOf(Component, rows[k]))
  {
    ComponentLogIsRowLog(db, rows, catmap, svc, dryrun);
    RowLogAt(db, rows, TableEntry(Component), ComponentStep(catmap, svc), dryrun, k);
    ComponentWritten(db, rows[..k], catmap, compmap, svc);
  }

  // ----- flavors, variants and component–flavor relations -----

  /** One record's write in an upsert loop. */
  function UpsertStep(t: Table): (Db, Row) -> Db
  {
    (d: Db, rec: Row) => d.Upsert(t, rec).0
  }

  /** What an upsert loop logs: one line per prepared record, named after its key. */
  function UpsertLog(db: Db, t: Table, recs: seq<Row>, dryrun: bool): (r: seq<ImportResult>)
    ensures |r| == |recs|
    decreases |recs|
  {
    if |recs| == 0 then []
    else
      var next := if dryrun then db else db.Upsert(t, recs[0]).0;
      [Entry(db, t, KeyOf(t, recs[0]))] + UpsertLog(next, t, recs[1..], dryrun)
  }

  /** An upsert loop's log is the log of a loop that writes each record with `UpsertStep`. */
  lemma {:induction false} UpsertLogIsRowLog(db: Db, t: Table, recs: seq<Row>, dryrun: bool)
    ensures UpsertLog(db, t, recs, dryrun) == RowLog(db, recs, TableEntry(t), UpsertStep(t), dryrun)
    decreases |recs|
  {
    if |recs| > 0 {
      var next := if dryrun then db else db.Upsert(t, recs[0]).0;
      assert TableEntry(t)(db, recs[0]) == Entry(db, t, KeyOf(t, recs[0]));
      assert next == if dryrun then db else UpsertStep(t)(db, recs[0]);
      UpsertLogIsRowLog(next, t, recs[1..], dryrun);
    }
  }

  /** One iteration of an upsert loop's log, as the loop sees it. */
  lemma UpsertLogStep(db: Db, t: Table, recs: seq<Row>, tail: seq<Row>, dryrun: bool, next: Db)
    requires |recs| > 0 && recs[1..] == tail
    requires next == if dryrun then db else db.Upsert(t, recs[0]).0
    ensures UpsertLog(db, t, recs, dryrun) == [Entry(db, t, KeyOf(t, recs[0]))] + UpsertLog(next, t, tail, dryrun)
  {
  }

  /** One iteration of the flavor loop's log, as the loop sees it. */
  lemma FlavorLogStep(db: Db, rows: seq<Row>, i: int, catmap: map<string, int>, svc: Services, dryrun: bool, next: Db)
    requires 0 <= i < |rows|
    requires next == if dryrun then db else db.Upsert(Flavor, FlavorRecord(rows[i], catmap, svc)).0
    ensures UpsertLog(db, Flavor, FlavorRecords(rows[i..], catmap, svc), dryrun)
      == [Entry(db, Flavor, KeyOf(Flavor, FlavorRecord(rows[i], catmap, svc)))] + UpsertLog(next, Flavor, FlavorRecords(rows[i + 1..], catmap, svc), dryrun)
  {
    assert rows[i..][0] == rows[i] && rows[i..][1..] == rows[i + 1..];
    UpsertLogStep(db, Flavor, FlavorRecords(rows[i..], catmap, svc), FlavorRecords(rows[i + 1..], catmap, svc), dryrun, next);
  }

  /** One iteration of the variant loop's log, as the loop sees it. */
  lemma VariantLogStep(db: Db, rows: seq<Row>, i: int, catmap: map<string, int>, svc: Services, dryrun: bool, next: Db)
    requires 0 <= i < |rows|
    requires next == if dryrun then db else db.Upsert(Variant, VariantRecord(rows[i], catmap, svc)).0
    ensures UpsertLog(db, Variant, VariantRecords(rows[i..], catmap, svc), dryrun)
      == [Entry(db, Variant, KeyOf(Variant, VariantRecord(rows[i], catmap, svc)))] + UpsertLog(next, Variant, VariantRecords(rows[i + 1..], catmap, svc), dryrun)
  {
    assert rows[i..][0] == rows[i] && rows[i..][1..] == rows[i + 1..];
    UpsertLogStep(db, Variant, VariantRecords(rows[i..], catmap, svc), VariantRecords(rows[i + 1..], catmap, svc), dryrun, next);
  }

  /** One iteration of the component–flavor loop's log, as the loop sees it. */
  lemma CompFlavorLogStep(db: Db, rows: seq<Row>, i: int, catmap: map<string, int>, svc: Services, dryrun: bool, next: Db)
    requires 0 <= i < |rows|
    requires next == if dryrun then db else db.Upsert(CompFlavor, CompFlavorRecord(rows[i], catmap, svc)).0
    ensures UpsertLog(db, CompFlavor, CompFlavorRecords(rows[i..], catmap, svc), dryrun)
      == [Entry(db, CompFlavor, KeyOf(CompFlavor, CompFlavorRecord(rows[i], catmap, svc)))] + UpsertLog(next, CompFlavor, CompFlavorRecords(rows[i + 1..], catmap, svc), dryrun)
  {
    assert rows[i..][0] == rows[i] && rows[i..][1..] == rows[i + 1..];
    UpsertLogStep(db, CompFlavor, CompFlavorRecords(rows[i..], catmap, svc), CompFlavorRecords(rows[i + 1..], catmap, svc), dryrun, next);
  }

  /** The upserts in turn leave the store the upsert pass leaves. */
  lemma {:induction false} UpsertWritten(db: Db, t: Table, recs: seq<Row>)
    ensures Written(db, recs, UpsertStep(t)) == UpsertAll(db, t, recs)
    decreases |recs|
  {
    if |recs| > 0 {
      assert Written(db, recs, UpsertStep(t)) == Written(db.Upsert(t, recs[0]).0, recs[1..], UpsertStep(t));
      UpsertWritten(db.Upsert(t, recs[0]).0, t, recs[1..]);
    }
  }

  /** Line `k` of an upsert loop's log says whether the key of record `k` is stored in the
      store as records `..k` left it, or, in a dry run, as it was. */
  lemma UpsertLogAt(db: Db, t: Table, recs: seq<Row>, dryrun: bool, k: int)
    requires 0 <= k < |recs|
    ensures UpsertLog(db, t, recs, dryrun)[k]
      == Entry(if dryrun then db else UpsertAll(db, t, recs[..k]), t, KeyOf(t, recs[k]))
  {
    UpsertLogIsRowLog(db, t, recs, dryrun);
    RowLogAt(db, recs, TableEntry(t), UpsertStep(t), dryrun, k);
    UpsertWritten(db, t, recs[..k]);
  }

  /** An upsert stores exactly the keys stored before and the key of its record. */
  lemma UpsertStoredIff(db: Db, t: Table, record: Row, key: Key)
    requires db.Valid()
    ensures Stored(db.Upsert(t, record).0, t, key) <==> Stored(db, t, key) || key == KeyOf(t, record)
  {
    if Stored(db, t, key) {
      UpsertKeepsKeyIds(db, t, record);
      KeepsKeyIdsAt(t, db.Rows(t), db.Upsert(t, record).0.Rows(t), key);
    } else if key == KeyOf(t, record) {
      UpsertStores(db, t, record);
    } else {
      UpsertKeepsLookup(db, t, record, key);
    }
  }

  /** An upsert pass stores exactly the keys stored before and the keys of its records. */
  lemma {:induction false} UpsertAllStoredIff(db: Db, t: Table, recs: seq<Row>, key: Key)
    requires db.Valid()
    ensures Stored(UpsertAll(db, t, recs), t, key)
      <==> Stored(db, t, key) || exists j :: 0 <= j < |recs| && KeyOf(t, recs[j]) == key
    decreases |recs|
  {
    if |recs| > 0 {
      var d1 := db.Upsert(t, recs[0]).0;
      UpsertStoredIff(db, t, recs[0], key);
      UpsertKeepsValid(db, t, recs[0]);
      UpsertAllStoredIff(d1, t, recs[1..], key);
      KeyAmongCons(t, recs, key);
    }
  }
  /** A key is among the natural keys of a non-empty sequence exactly when it is the first
      one's or among the rest's. */
  lemma KeyAmongCons(t: Table, recs: seq<Row>, key: Key)
    requires |recs| > 0
    ensures (exists j :: 0 <= j < |recs| && KeyOf(t, recs[j]) == key)
      <==> KeyOf(t, recs[0]) == key || exists j :: 0 <= j < |recs[1..]| && KeyOf(t, recs[1..][j]) == key
  {
    if exists j :: 0 <= j < |recs[1..]| && KeyOf(t, recs[1..][j]) == key {
      var j :| 0 <= j < |recs[1..]| && KeyOf(t, recs[1..][j]) == key;
      assert KeyOf(t, recs[j + 1]) == key;
    }
    if exists j :: 0 <= j < |recs| && KeyOf(t, recs[j]) == key {
      var j :| 0 <= j < |recs| && KeyOf(t, recs[j]) == key;
      if j > 0 {
        assert KeyOf(t, recs[1..][j - 1]) == key;
      }
    }
  }
  lemma UpsertLogReplaces(db: Db, t: Table, recs: seq<Row>, k: int)
    requires db.Valid() && 0 <= k < |recs|
    ensures UpsertLog(db, t, recs, false)[k].code == ReplaceCode(t)
      <==> Stored(db, t, KeyOf(t, recs[k])) || exists j :: 0 <= j < k && KeyOf(t, recs[j]) == KeyOf(t, recs[k])
  {
    UpsertLogAt(db, t, recs, false, k);
    UpsertAllStoredIff(db, t, recs[..k], KeyOf(t, recs[k]));
    KeyAmongPrefix(t, recs, k, KeyOf(t, recs[k]));
  }
  /** The natural keys of a prefix are those of the records before its end. */
  lemma KeyAmongPrefix(t: Table, recs: seq<Row>, k: int, key: Key)
    requires 0 <= k <= |recs|
    ensures (exists j :: 0 <= j < |recs[..k]| && KeyOf(t, recs[..k][j]) == key)
      <==> exists j :: 0 <= j < k && KeyOf(t, recs[j]) == key
  {
    assert forall j :: 0 <= j < k ==> recs[..k][j] == recs[j];
  }

  // ----- component–variant relations -----

  /** A legacy relation row whose component is not part of the import: dropped unlogged. */
  predicate Dropped(row: Row, compmap: map<string, int>)
  {
    "componentname" !in row && Get(row, "component") !in compmap
  }

  /** How many rows are not dropped. */
  function Kept(rows: seq<Row>, compmap: map<string, int>): (n: nat)
    ensures n <= |rows|
    decreases |rows|
  {
    if |rows| == 0 then 0
    else (if Dropped(rows[0], compmap) then 0 else 1) + Kept(rows[1..], compmap)
  }

  /** The resolution `resolve` returns nothing exactly for the rows dropped against `compmap`. */
  ghost predicate DropsAsMap(resolve: (Db, Row) -> Option<Row>, compmap: map<string, int>)
  {
    forall d: Db, row: Row :: resolve(d, row).None? <==> Dropped(row, compmap)
  }

  /** What a loop logs that resolves each row first (`resolve`), drops the rows that do not
      resolve unlogged, and writes the others (`step`): one line per resolved row, decided
      against the store the earlier rows left, or, in a dry run, as it was. */
  function ResolvedLog(db: Db, rows: seq<Row>, entry: (Db, Row) -> ImportResult, resolve: (Db, Row) -> Option<Row>,
                       step: (Db, Row) -> Db, dryrun: bool): (r: seq<ImportResult>)
    ensures |r| <= |rows|
    decreases |rows|
  {
    if |rows| == 0 then []
    else
      var resolved := resolve(db, rows[0]);
      var next := if dryrun || resolved.None? then db else step(db, resolved.value);
      (if resolved.None? then [] else [entry(db, resolved.value)])
        + ResolvedLog(next, rows[1..], entry, resolve, step, dryrun)
  }

  /** The store once each of `rows` that resolves has been written in turn. */
  function ResolvedWritten(db: Db, rows: seq<Row>, resolve: (Db, Row) -> Option<Row>, step: (Db, Row) -> Db): Db
    decreases |rows|
  {
    if |rows| == 0 then db
    else
      var resolved := resolve(db, rows[0]);
      ResolvedWritten(if resolved.None? then db else step(db, resolved.value), rows[1..], resolve, step)
  }

  /** Such a loop logs one line for each row it does not drop. */
  lemma {:induction false} ResolvedLogLength(db: Db, rows: seq<Row>, entry: (Db, Row) -> ImportResult, resolve: (Db, Row) -> Option<Row>,
                                             step: (Db, Row) -> Db, dryrun: bool, compmap: map<string, int>)
    requires DropsAsMap(resolve, compmap)
    ensures |ResolvedLog(db, rows, entry, resolve, step, dryrun)| == Kept(rows, compmap)
    decreases |rows|
  {
    if |rows| > 0 {
      var resolved := resolve(db, rows[0]);
      var next := if dryrun || resolved.None? then db else step(db, resolved.value);
      ResolvedLogLength(next, rows[1..], entry, resolve, step, dryrun, compmap);
    }
  }

  /** Dropping the first of rows `..k` leaves one kept row fewer when the first is kept. */
  lemma KeptShift(rows: seq<Row>, compmap: map<string, int>, k: int)
    requires 0 < k <= |rows|
    ensures Kept(rows[..k], compmap) == (if Dropped(rows[0], compmap) then 0 else 1) + Kept(rows[1..][..k - 1], compmap)
  {
    assert rows[..k][0] == rows[0] && rows[..k][1..] == rows[1..][..k - 1];
  }

  /** The store rows `..k` leave, seen from the second row on. */
  lemma ResolvedWrittenShift(db: Db, rows: seq<Row>, resolve: (Db, Row) -> Option<Row>, step: (Db, Row) -> Db, k: int)
    requires 0 < k <= |rows|
    ensures var resolved := resolve(db, rows[0]);
      ResolvedWritten(db, rows[..k], resolve, step)
        == ResolvedWritten(if resolved.None? then db else step(db, resolved.value), rows[1..][..k - 1], resolve, step)
  {
    assert rows[..k][0] == rows[0] && rows[..k][1..] == rows[1..][..k - 1];
  }

  /** A first row that is not dropped logs the first line, against the store as it was. */
  lemma ResolvedLogHead(db: Db, rows: seq<Row>, entry: (Db, Row) -> ImportResult, resolve: (Db, Row) -> Option<Row>,
                        step: (Db, Row) -> Db, dryrun: bool, compmap: map<string, int>)
    requires DropsAsMap(resolve, compmap)
    requires 0 < |rows| && !Dropped(rows[0], compmap)
    ensures var log := ResolvedLog(db, rows, entry, resolve, step, dryrun);
      && resolve(db, rows[0]).Some?
      && 0 < |log| && log[0] == entry(db, resolve(db, rows[0]).value)
  {
  }

  /** The lines of the rows after the first follow the first row's line, if it has one. */
  lemma ResolvedLogTail(db: Db, rows: seq<Row>, entry: (Db, Row) -> ImportResult, resolve: (Db, Row) -> Option<Row>,
                        step: (Db, Row) -> Db, dryrun: bool, compmap: map<string, int>, n: int)
    requires DropsAsMap(resolve, compmap) && 0 < |rows|
    requires var resolved := resolve(db, rows[0]);
      var next := if dryrun || resolved.None? then db else step(db, resolved.value);
      0 <= n < |ResolvedLog(next, rows[1..], entry, resolve, step, dryrun)|
    ensures var resolved := resolve(db, rows[0]);
      var next := if dryrun || resolved.None? then db else step(db, resolved.value);
      var h := if Dropped(rows[0], compmap) then 0 else 1;
      var log := ResolvedLog(db, rows, entry, resolve, step, dryrun);
      h + n < |log| && log[h + n] == ResolvedLog(next, rows[1..], entry, resolve, step, dryrun)[n]
  {
  }

  /** Row `k`'s line, found from its line among the lines of the rows after the first. */
  lemma ResolvedLogShift(db: Db, rows: seq<Row>, entry: (Db, Row) -> ImportResult, resolve: (Db, Row) -> Option<Row>,
                         step: (Db, Row) -> Db, dryrun: bool, compmap: map<string, int>, k: int)
    requires DropsAsMap(resolve, compmap)
    requires 0 < k < |rows| && !Dropped(rows[k], compmap)
    requires var resolved := resolve(db, rows[0]);
      var next := if dryrun || resolved.None? then db else step(db, resolved.value);
      var dk := if dryrun then next else ResolvedWritten(next, rows[1..][..k - 1], resolve, step);
      var tail := ResolvedLog(next, rows[1..], entry, resolve, step, dryrun);
      && resolve(dk, rows[1..][k - 1]).Some?
      && Kept(rows[1..][..k - 1], compmap) < |tail|
      && tail[Kept(rows[1..][..k - 1], compmap)] == entry(dk, resolve(dk, rows[1..][k - 1]).value)
    ensures var dk := if dryrun then db else ResolvedWritten(db, rows[..k], resolve, step);
      var log := ResolvedLog(db, rows, entry, resolve, step, dryrun);
      && resolve(dk, rows[k]).Some?
      && Kept(rows[..k], compmap) < |log|
      && log[Kept(rows[..k], compmap)] == entry(dk, resolve(dk, rows[k]).value)
  {
    assert rows[1..][k - 1] == rows[k];
    KeptShift(rows, compmap, k);
    if !dryrun {
      ResolvedWrittenShift(db, rows, resolve, step, k);
    }
    ResolvedLogTail(db, rows, entry, resolve, step, dryrun, compmap, Kept(rows[1..][..k - 1], compmap));
  }

  /** The line of a row `k` that is not dropped comes after those of the earlier rows kept,
      and is decided against the store rows `..k` left, or, in a dry run, as it was. */
  lemma {:induction false} ResolvedLogAt(db: Db, rows: seq<Row>, entry: (Db, Row) -> ImportResult, resolve: (Db, Row) -> Option<Row>,
                                         step: (Db, Row) -> Db, dryrun: bool, compmap: map<string, int>, k: int)
    requires DropsAsMap(resolve, compmap)
    requires 0 <= k < |rows| && !Dropped(rows[k], compmap)
    ensures var dk := if dryrun then db else ResolvedWritten(db, rows[..k], resolve, step);
      var log := ResolvedLog(db, rows, entry, resolve, step, dryrun);
      && resolve(dk, rows[k]).Some?
      && Kept(rows[..k], compmap) < |log|
      && log[Kept(rows[..k], compmap)] == entry(dk, resolve(dk, rows[k]).value)
    decreases k
  {
    if k == 0 {
      assert rows[..0] == [] && Kept(rows[..0], compmap) == 0;
      assert ResolvedWritten(db, rows[..0], resolve, step) == db;
      ResolvedLogHead(db, rows, entry, resolve, step, dryrun, compmap);
    } else {
      var resolved := resolve(db, rows[0]);
      var next := if dryrun || resolved.None? then db else step(db, resolved.value);
      ResolvedLogAt(next, rows[1..], entry, resolve, step, dryrun, compmap, k - 1);
      ResolvedLogShift(db, rows, entry, resolve, step, dryrun, compmap, k);
    }
  }

  /** How the component–variant loop resolves a row: `ResolvedCompVariant`. */
  function CompVariantResolve(compmap: map<string, int>): (Db, Row) -> Option<Row>
  {
    (d: Db, row: Row) => ResolvedCompVariant(d, row, compmap)
  }

  /** One resolved relation's write: `import_component_variant`. */
  function CompVariantStep(): (Db, Row) -> Db
  {
    (d: Db, rec: Row) => CompVariantWrite(d, rec).0
  }

  lemma CompVariantDrops(compmap: map<string, int>)
    ensures DropsAsMap(CompVariantResolve(compmap), compmap)
  {
    forall d: Db, row: Row
      ensures CompVariantResolve(compmap)(d, row).None? <==> Dropped(row, compmap)
    {
      assert CompVariantResolve(compmap)(d, row) == ResolvedCompVariant(d, row, compmap);
    }
  }

  /** What the component–variant loop logs: one line per row it does not drop, named after
      the relation's key. */
  function CompVariantLog(db: Db, rows: seq<Row>, compmap: map<string, int>, dryrun: bool): (r: seq<ImportResult>)
    ensures |r| <= |rows|
    decreases |rows|
  {
    if |rows| == 0 then []
    else
      var resolved := ResolvedCompVariant(db, rows[0], compmap);
      var next := if dryrun || resolved.None? then db else CompVariantWrite(db, resolved.value).0;
      (if resolved.None? then [] else [Entry(db, CompVariant, KeyOf(CompVariant, resolved.value))])
        + CompVariantLog(next, rows[1..], compmap, dryrun)
  }

  /** The component–variant loop's log is the log of a loop that resolves each row with
      `CompVariantResolve` and writes it with `CompVariantStep`. */
  lemma {:induction false} CompVariantLogIsResolvedLog(db: Db, rows: seq<Row>, compmap: map<string, int>, dryrun: bool)
    ensures CompVariantLog(db, rows, compmap, dryrun)
      == ResolvedLog(db, rows, TableEntry(CompVariant), CompVariantResolve(compmap), CompVariantStep(), dryrun)
    decreases |rows|
  {
    if |rows| > 0 {
      var resolved := ResolvedCompVariant(db, rows[0], compmap);
      var next := if dryrun || resolved.None? then db else CompVariantWrite(db, resolved.value).0;
      assert CompVariantResolve(compmap)(db, rows[0]) == resolved;
      if resolved.Some? {
        assert TableEntry(CompVariant)(db, resolved.value) == Entry(db, CompVariant, KeyOf(CompVariant, resolved.value));
        assert next == if dryrun then db else CompVariantStep()(db, resolved.value);
      }
      CompVariantLogIsResolvedLog(next, rows[1..], compmap, dryrun);
    }
  }

  /** One iteration of the component–variant loop's log, as the loop sees it. */
  lemma CompVariantLogStep(db: Db, rows: seq<Row>, i: int, compmap: map<string, int>, dryrun: bool, next: Db)
    requires 0 <= i < |rows|
    requires var resolved := ResolvedCompVariant(db, rows[i], compmap);
      next == if dryrun || resolved.None? then db else CompVariantWrite(db, resolved.value).0
    ensures var resolved := ResolvedCompVariant(db, rows[i], compmap);
      CompVariantLog(db, rows[i..], compmap, dryrun)
        == (if resolved.None? then [] else [Entry(db, CompVariant, KeyOf(CompVariant, resolved.value))])
           + CompVariantLog(next, rows[i + 1..], compmap, dryrun)
  {
    assert rows[i..][0] == rows[i] && rows[i..][1..] == rows[i + 1..];
  }

  /** The loop logs one line for each row it does not drop. */
  lemma CompVariantLogLength(db: Db, rows: seq<Row>, compmap: map<string, int>, dryrun: bool)
    ensures |CompVariantLog(db, rows, compmap, dryrun)| == Kept(rows, compmap)
  {
    CompVariantDrops(compmap);
    CompVariantLogIsResolvedLog(db, rows, compmap, dryrun);
    ResolvedLogLength(db, rows, TableEntry(CompVariant), CompVariantResolve(compmap), CompVariantStep(), dryrun, compmap);
  }

  /** The resolved writes in turn leave the store the component–variant pass leaves. */
  lemma {:induction false} CompVariantWritten(db: Db, rows: seq<Row>, compmap: map<string, int>)
    ensures ResolvedWritten(db, rows, CompVariantResolve(compmap), CompVariantStep()) == CompVariantPass(db, rows, compmap)
    decreases |rows|
  {
    if |rows| > 0 {
      var resolved := ResolvedCompVariant(db, rows[0], compmap);
      var d1 := if resolved.None? then db else CompVariantWrite(db, resolved.value).0;
      assert ResolvedWritten(db, rows, CompVariantResolve(compmap), CompVariantStep())
        == ResolvedWritten(d1, rows[1..], CompVariantResolve(compmap), CompVariantStep());
      CompVariantWritten(d1, rows[1..], compmap);
    }
  }

  /** The line of a row `k` that is not dropped comes after those of the earlier rows it
      kept, and says whether its relation is stored in the store as rows `..k` left it,
      or, in a dry run, as it was. */
  lemma CompVariantLogAt(db: Db, rows: seq<Row>, compmap: map<string, int>, dryrun: bool, k: int)
    requires 0 <= k < |rows| && !Dropped(rows[k], compmap)
    ensures var dk := if dryrun then db else CompVariantPass(db, rows[..k], compmap);
      var log := CompVariantLog(db, rows, compmap, dryrun);
      && Kept(rows[..k], compmap) < |log|
      && log[Kept(rows[..k], compmap)]
         == Entry(dk, CompVariant, KeyOf(CompVariant, ResolvedCompVariant(dk, rows[k], compmap).value))
  {
    CompVariantDrops(compmap);
    CompVariantLogIsResolvedLog(db, rows, compmap, dryrun);
    ResolvedLogAt(db, rows, TableEntry(CompVariant), CompVariantResolve(compmap), CompVariantStep(), dryrun, compmap, k);
    CompVariantWritten(db, rows[..k], compmap);
  }

  // ----- the whole descriptor -----

  /** What `importxml` logs once the descriptor is accepted: the lines of the six table
      loops in their fixed order (the category backfill logs nothing). `catmap` and
      `compmap` are the maps the category and component loops built; in a dry run their
      ids are made up. */
  function XmlLog(db: Db, doc: Document, c: Constants, svc: Services, dryrun: bool,
                  catmap: map<string, int>, compmap: map<string, int>): (r: seq<ImportResult>)
    ensures |r| == |Filed(doc, c, Compcat)| + |Filed(doc, c, Component)| + |Filed(doc, c, Flavor)|
      + |Filed(doc, c, Variant)| + |Filed(doc, c, CompFlavor)| + Kept(Filed(doc, c, CompVariant), compmap)
  {
    var flavors := FlavorRecords(Filed(doc, c, Flavor), catmap, svc);
    var variants := VariantRecords(Filed(doc, c, Variant), catmap, svc);
    var compflavors := CompFlavorRecords(Filed(doc, c, CompFlavor), catmap, svc);
    var d1 := if dryrun then db else CategoryPass(db, Filed(doc, c, Compcat), map[], svc).0;
    var d2 := if dryrun then db else ComponentPass(d1, Filed(doc, c, Component), catmap, map[], svc).0;
    var d3 := if dryrun then db else UpsertAll(d2, Flavor, flavors);
    var d4 := if dryrun then db else UpsertAll(d3, Variant, variants);
    var d5 := if dryrun then db else UpsertAll(d4, CompFlavor, compflavors);
    CompVariantLogLength(d5, Filed(doc, c, CompVariant), compmap, dryrun);
    CategoryLog(db, Filed(doc, c, Compcat), svc, dryrun)
      + ComponentLog(d1, Filed(doc, c, Component), catmap, svc, dryrun)
      + UpsertLog(d2, Flavor, flavors, dryrun)
      + UpsertLog(d3, Variant, variants, dryrun)
      + UpsertLog(d4, CompFlavor, compflavors, dryrun)
      + CompVariantLog(d5, Filed(doc, c, CompVariant), compmap, dryrun)
  }

  /** The log of `importxml` read off its six loops: each loop's log, against the store
      the previous loops left (or, in a dry run, the store as it was). */
  lemma XmlLogOf(db: Db, doc: Document, c: Constants, svc: Services, dryrun: bool,
                 catmap: map<string, int>, compmap: map<string, int>, d1: Db, d2: Db, d3: Db, d4: Db, d5: Db,
                 p1: seq<ImportResult>, p2: seq<ImportResult>, p3: seq<ImportResult>,
                 p4: seq<ImportResult>, p5: seq<ImportResult>, p6: seq<ImportResult>)
    requires d1 == if dryrun then db else CategoryPass(db, Filed(doc, c, Compcat), map[], svc).0
    requires d2 == if dryrun then db else ComponentPass(d1, Filed(doc, c, Component), catmap, map[], svc).0
    requires d3 == if dryrun then db else UpsertAll(d2, Flavor, FlavorRecords(Filed(doc, c, Flavor), catmap, svc))
    requires d4 == if dryrun then db else UpsertAll(d3, Variant, VariantRecords(Filed(doc, c, Variant), catmap, svc))
    requires d5 == if dryrun then db else UpsertAll(d4, CompFlavor, CompFlavorRecords(Filed(doc, c, CompFlavor), catmap, svc))
    requires p1 == CategoryLog(db, Filed(doc, c, Compcat), svc, dryrun)
    requires p2 == ComponentLog(d1, Filed(doc, c, Component), catmap, svc, dryrun)
    requires p3 == UpsertLog(d2, Flavor, FlavorRecords(Filed(doc, c, Flavor), catmap, svc), dryrun)
    requires p4 == UpsertLog(d3, Variant, VariantRecords(Filed(doc, c, Variant), catmap, svc), dryrun)
    requires p5 == UpsertLog(d4, CompFlavor, CompFlavorRecords(Filed(doc, c, CompFlavor), catmap, svc), dryrun)
    requires p6 == CompVariantLog(d5, Filed(doc, c, CompVariant), compmap, dryrun)
    ensures p1 + p2 + p3 + p4 + p5 + p6 == XmlLog(db, doc, c, svc, dryrun, catmap, compmap)
  {
  }
}
