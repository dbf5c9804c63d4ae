/** The importer object of tiny_elements (`classes/importer.php`). It holds the dry-run
    flag and the result log, and works on Moodle's record store and file store, which are
    fields here holding values that the methods replace. Each method is proved against the
    functions of `ImportSpec` (what a live run leaves behind) and of `ImportLog` (what it
    logs). In a dry run the six table loops and the file loop write nothing, and each
    record is logged against the store as it was before the import; the category backfill
    of `update_flavor_variant_category` still writes, and it logs nothing in either mode. */
module Importer {
  import opened Php
  import opened RecordStore
  import opened Descriptor
  import opened Results
  import opened FileImport
  import opened ImportSpec
  import opened ImportLog

  /** One relation loop of `import_component` on the store `db`: every non-empty name
      whose relation to the component is not stored gets one. */
  method FillRelations(db: Db, t: Table, componentname: string, names: seq<string>) returns (d: Db)
    requires t == CompFlavor || t == CompVariant
    ensures d == Filled(db, t, componentname, names)
  {
    d := db;
    var i := 0;
    assert names[0..] == names;
    while i < |names|
      invariant 0 <= i <= |names|
      invariant Filled(d, t, componentname, names[i..]) == Filled(db, t, componentname, names)
    {
      var other := names[i];
      ghost var before := d;
      if other != "" {
        var rec := RelationRecord(t, componentname, other);
        var existing := Lookup(d.Rows(t), t, KeyOf(t, rec));
        if existing.None? {
          d := d.Insert(t, rec).0;
        }
      }
      assert d == AddRelation(before, t, componentname, other);
      FilledStep(before, t, componentname, names, i, d);
      i := i + 1;
    }
    assert names[i..] == [];
  }

  /** Once a loop has run through `s`, nothing of it is left and all of it is done. */
  lemma Exhausted<T>(s: seq<T>, i: int)
    requires i == |s|
    ensures s[i..] == [] && s[..i] == s
  {
  }

  /** Before a loop's first iteration nothing is logged yet. */
  lemma LogStarts(whole: seq<ImportResult>)
    ensures [] + whole == whole
  {
  }

  /** More entries logged on top of a log that already grew by `logged`. */
  lemma LogGrows(start: seq<ImportResult>, logged: seq<ImportResult>, before: seq<ImportResult>, more: seq<ImportResult>, after: seq<ImportResult>)
    requires before == start + logged && after == before + more
    ensures after == start + (logged + more)
  {
  }

  /** A loop's log so far, the lines one more iteration adds and the lines the rest of
      the loop will add make up what the loop as a whole logs. */
  lemma LogSplices(logged0: seq<ImportResult>, more: seq<ImportResult>, logged: seq<ImportResult>,
                   rest: seq<ImportResult>, whole: seq<ImportResult>)
    requires logged == logged0 + more && whole == more + rest
    ensures logged + rest == logged0 + whole
  {
  }

  /** Row `j` of a run of a table loop that writes each row with `step`: the row was
      logged (by `entry`) against the store it met, `dbs[j]`; the positive id `ids[j]` it
      got was filed under its descriptor id; outside a dry run `step` took the store to
      `dbs[j + 1]` and the id is the one the write returned (`idOf`); a dry run writes
      nothing. */
  ghost predicate LoopStepAt(dbs: seq<Db>, maps: seq<map<string, int>>, ids: seq<int>, rows: seq<Row>, logged: seq<ImportResult>,
                             entry: (Db, Row) -> ImportResult, step: (Db, Row) -> Db, idOf: (Db, Row) -> int,
                             dryrun: bool, j: int)
  {
    && 0 <= j < |rows| && j + 1 < |dbs| && j + 1 < |maps| && j < |ids| && j < |logged|
    && logged[j] == entry(dbs[j], rows[j])
    && dbs[j + 1] == (if dryrun then dbs[j] else step(dbs[j], rows[j]))
    && 0 < ids[j] && maps[j + 1] == maps[j][Get(rows[j], "id") := ids[j]]
    && (!dryrun ==> ids[j] == idOf(dbs[j], rows[j]))
  }

  /** Such a loop after the rows `rows`: the stores and maps each row met (and the last
      ones), one id and one log line per row. */
  ghost predicate LoopRun(dbs: seq<Db>, maps: seq<map<string, int>>, ids: seq<int>, rows: seq<Row>, logged: seq<ImportResult>,
                          entry: (Db, Row) -> ImportResult, step: (Db, Row) -> Db, idOf: (Db, Row) -> int, dryrun: bool)
  {
    && |dbs| == |rows| + 1 && |maps| == |rows| + 1 && |ids| == |rows| && |logged| == |rows|
    && forall j :: 0 <= j < |rows| ==> LoopStepAt(dbs, maps, ids, rows, logged, entry, step, idOf, dryrun, j)
  }

  /** One more iteration extends the run. */
  lemma LoopRunSnoc(dbs: seq<Db>, maps: seq<map<string, int>>, ids: seq<int>, rows: seq<Row>, logged: seq<ImportResult>,
                    entry: (Db, Row) -> ImportResult, step: (Db, Row) -> Db, idOf: (Db, Row) -> int, dryrun: bool,
                    i: int, d: Db, m: map<string, int>, id: int, line: ImportResult)
    requires 0 <= i < |rows| && LoopRun(dbs, maps, ids, rows[..i], logged, entry, step, idOf, dryrun)
    requires line == entry(dbs[i], rows[i])
    requires d == if dryrun then dbs[i] else step(dbs[i], rows[i])
    requires 0 < id && m == maps[i][Get(rows[i], "id") := id]
    requires !dryrun ==> id == idOf(dbs[i], rows[i])
    ensures LoopRun(dbs + [d], maps + [m], ids + [id], rows[..i + 1], logged + [line], entry, step, idOf, dryrun)
    ensures (dbs + [d])[0] == dbs[0] && (dbs + [d])[i + 1] == d
    ensures (maps + [m])[0] == maps[0] && (maps + [m])[i + 1] == m
  {
    var dbs', maps', ids', rows', logged' := dbs + [d], maps + [m], ids + [id], rows[..i + 1], logged + [line];
    forall j | 0 <= j < i + 1
      ensures LoopStepAt(dbs', maps', ids', rows', logged', entry, step, idOf, dryrun, j)
    {
      if j < i {
        assert LoopStepAt(dbs, maps, ids, rows[..i], logged, entry, step, idOf, dryrun, j);
        assert rows'[j] == rows[..i][j];
      }
    }
  }

  /** What a run records about row `k`. */
  lemma LoopRunAt(dbs: seq<Db>, maps: seq<map<string, int>>, ids: seq<int>, rows: seq<Row>, logged: seq<ImportResult>,
                  entry: (Db, Row) -> ImportResult, step: (Db, Row) -> Db, idOf: (Db, Row) -> int, dryrun: bool, k: int)
    requires LoopRun(dbs, maps, ids, rows, logged, entry, step, idOf, dryrun) && 0 <= k < |rows|
    ensures logged[k] == entry(dbs[k], rows[k])
    ensures dbs[k + 1] == if dryrun then dbs[k] else step(dbs[k], rows[k])
    ensures 0 < ids[k] && maps[k + 1] == maps[k][Get(rows[k], "id") := ids[k]]
    ensures !dryrun ==> ids[k] == idOf(dbs[k], rows[k])
  {
    assert LoopStepAt(dbs, maps, ids, rows, logged, entry, step, idOf, dryrun, k);
  }

  /** A run from row `k` on logs what the loop logs from there. */
  lemma {:induction false} LoopRunLog(dbs: seq<Db>, maps: seq<map<string, int>>, ids: seq<int>, rows: seq<Row>, logged: seq<ImportResult>,
                                      entry: (Db, Row) -> ImportResult, step: (Db, Row) -> Db, idOf: (Db, Row) -> int,
                                      dryrun: bool, k: int)
    requires LoopRun(dbs, maps, ids, rows, logged, entry, step, idOf, dryrun) && 0 <= k <= |rows|
    ensures RowLog(dbs[k], rows[k..], entry, step, dryrun) == logged[k..]
    decreases |rows| - k
  {
    if k < |rows| {
      LoopRunAt(dbs, maps, ids, rows, logged, entry, step, idOf, dryrun, k);
      LoopRunLog(dbs, maps, ids, rows, logged, entry, step, idOf, dryrun, k + 1);
      assert rows[k..][0] == rows[k] && rows[k..][1..] == rows[k + 1..];
      assert logged[k..] == [logged[k]] + logged[k + 1..];
    }
  }

  /** The map a run builds from an empty one files a positive id under the descriptor id
      of each row, and under nothing else. */
  lemma {:induction false} LoopRunFiled(dbs: seq<Db>, maps: seq<map<string, int>>, ids: seq<int>, rows: seq<Row>, logged: seq<ImportResult>,
                                        entry: (Db, Row) -> ImportResult, step: (Db, Row) -> Db, idOf: (Db, Row) -> int,
                                        dryrun: bool, k: int)
    requires LoopRun(dbs, maps, ids, rows, logged, entry, step, idOf, dryrun) && maps[0] == map[] && 0 <= k <= |rows|
    ensures maps[k].Keys == IdsOf(rows[..k])
    ensures forall key :: key in maps[k] ==> maps[k][key] > 0
    decreases k
  {
    if k == 0 {
      assert rows[..0] == [];
    } else {
      LoopRunFiled(dbs, maps, ids, rows, logged, entry, step, idOf, dryrun, k - 1);
      LoopRunAt(dbs, maps, ids, rows, logged, entry, step, idOf, dryrun, k - 1);
      IdsOfSnoc(rows, k - 1);
    }
  }

  /** The id a write of `t` returned for `row` against the store `d`: a record stored under
      the row's key keeps its id, in a dry run as in a live one. */
  ghost predicate KeepsFoundId(d: Db, t: Table, row: Row, id: int)
  {
    var found := Lookup(d.Rows(t), t, KeyOf(t, row));
    found.Some? ==> id == found.value.id
  }

  /** Every row of a run got the id of the record its key found in the store it met. */
  ghost predicate FoundIds(dbs: seq<Db>, ids: seq<int>, rows: seq<Row>, t: Table)
  {
    && |rows| <= |ids| && |rows| < |dbs|
    && forall j :: 0 <= j < |rows| ==> KeepsFoundId(dbs[j], t, rows[j], ids[j])
  }

  /** The map `m` files the descriptor id of `row` under the id of the record stored under
      the row's key in `d`, when there is one. */
  ghost predicate ResolvesStored(d: Db, t: Table, m: map<string, int>, row: Row)
  {
    var found := Lookup(d.Rows(t), t, KeyOf(t, row));
    found.Some? ==> Get(row, "id") in m && m[Get(row, "id")] == found.value.id
  }

  /** `ResolvesStored` for the last row of each descriptor id, the one whose id the map
      keeps. */
  ghost predicate ResolvesAllStored(d: Db, t: Table, m: map<string, int>, rows: seq<Row>)
  {
    forall j :: 0 <= j < |rows| && Get(rows[j], "id") !in IdsOf(rows[j + 1..]) ==> ResolvesStored(d, t, m, rows[j])
  }

  /** One more row that kept its found id. */
  lemma FoundIdsSnoc(dbs: seq<Db>, ids: seq<int>, rows: seq<Row>, t: Table, i: int, d: Db, id: int)
    requires 0 <= i < |rows| && |ids| == i && |dbs| == i + 1
    requires FoundIds(dbs, ids, rows[..i], t) && KeepsFoundId(dbs[i], t, rows[i], id)
    ensures FoundIds(dbs + [d], ids + [id], rows[..i + 1], t)
  {
    forall j | 0 <= j < i + 1
      ensures KeepsFoundId((dbs + [d])[j], t, rows[..i + 1][j], (ids + [id])[j])
    {
      if j < i {
        assert KeepsFoundId(dbs[j], t, rows[..i][j], ids[j]);
      }
    }
  }

  /** A dry run leaves every store it meets as it found it. */
  lemma {:induction false} LoopRunDryStores(dbs: seq<Db>, maps: seq<map<string, int>>, ids: seq<int>, rows: seq<Row>, logged: seq<ImportResult>,
                                            entry: (Db, Row) -> ImportResult, step: (Db, Row) -> Db, idOf: (Db, Row) -> int, k: int)
    requires LoopRun(dbs, maps, ids, rows, logged, entry, step, idOf, true) && 0 <= k <= |rows|
    ensures dbs[k] == dbs[0]
    decreases k
  {
    if k > 0 {
      LoopRunDryStores(dbs, maps, ids, rows, logged, entry, step, idOf, k - 1);
      LoopRunAt(dbs, maps, ids, rows, logged, entry, step, idOf, true, k - 1);
    }
  }

  /** Once row `j` is filed, no later row with another descriptor id moves its entry. */
  lemma {:induction false} LoopRunKeepsId(dbs: seq<Db>, maps: seq<map<string, int>>, ids: seq<int>, rows: seq<Row>, logged: seq<ImportResult>,
                                          entry: (Db, Row) -> ImportResult, step: (Db, Row) -> Db, idOf: (Db, Row) -> int,
                                          dryrun: bool, j: int, n: int)
    requires LoopRun(dbs, maps, ids, rows, logged, entry, step, idOf, dryrun) && 0 <= j < n <= |rows|
    requires forall k :: j < k < n ==> Get(rows[k], "id") != Get(rows[j], "id")
    ensures Get(rows[j], "id") in maps[n] && maps[n][Get(rows[j], "id")] == ids[j]
    decreases n
  {
    LoopRunAt(dbs, maps, ids, rows, logged, entry, step, idOf, dryrun, n - 1);
    if n - 1 > j {
      LoopRunKeepsId(dbs, maps, ids, rows, logged, entry, step, idOf, dryrun, j, n - 1);
    }
  }

  /** In a dry run the map files the descriptor id of each row whose key is stored, when no
      later row repeats that descriptor id, under the stored record's id. */
  lemma LoopRunDryResolves(dbs: seq<Db>, maps: seq<map<string, int>>, ids: seq<int>, rows: seq<Row>, logged: seq<ImportResult>,
                           entry: (Db, Row) -> ImportResult, step: (Db, Row) -> Db, idOf: (Db, Row) -> int, t: Table)
    requires LoopRun(dbs, maps, ids, rows, logged, entry, step, idOf, true) && FoundIds(dbs, ids, rows, t)
    ensures ResolvesAllStored(dbs[0], t, maps[|rows|], rows)
  {
    forall j | 0 <= j < |rows| && Get(rows[j], "id") !in IdsOf(rows[j + 1..])
      ensures ResolvesStored(dbs[0], t, maps[|rows|], rows[j])
    {
      forall k | j < k < |rows|
        ensures Get(rows[k], "id") != Get(rows[j], "id")
      {
        assert rows[j + 1..][k - j - 1] == rows[k];
      }
      LoopRunKeepsId(dbs, maps, ids, rows, logged, entry, step, idOf, true, j, |rows|);
      LoopRunDryStores(dbs, maps, ids, rows, logged, entry, step, idOf, j);
      assert KeepsFoundId(dbs[j], t, rows[j], ids[j]);
    }
  }

  /** In a dry run the category map files a category that is already stored under its
      stored id, so that category is among those whose files the dry run previews (the
      backfill, which runs before the files, leaves the categories alone). */
  lemma DryRunPreviewsStoredCategory(d: Db, svc: Services, m: map<string, int>, rows: seq<Row>, j: int)
    requires ResolvesAllStored(d, Compcat, m, rows)
    requires 0 <= j < |rows| && Get(rows[j], "id") !in IdsOf(rows[j + 1..])
    requires Lookup(d.compcat, Compcat, KeyOf(Compcat, rows[j])).Some?
    ensures IdName(Lookup(d.compcat, Compcat, KeyOf(Compcat, rows[j])).value) in SelectedCategories(Backfill(d, svc).compcat, m.Values)
  {
    var rec := Lookup(d.compcat, Compcat, KeyOf(Compcat, rows[j])).value;
    assert ResolvesStored(d, Compcat, m, rows[j]);
    assert rec.id in m.Values by {
      assert m[Get(rows[j], "id")] == rec.id;
    }
    BackfillFrame(d, svc);
    var i :| 0 <= i < |d.compcat| && d.compcat[i] == rec;
  }

  /** The id `import_category` returns, as a function of the store and the row. */
  function CategoryId(svc: Services): (Db, Row) -> int
  {
    (d: Db, row: Row) => CategoryWrite(d, row, svc).1
  }

  /** The id `import_component` returns. */
  function ComponentId(catmap: map<string, int>, svc: Services): (Db, Row) -> int
  {
    (d: Db, row: Row) => ComponentWrite(d, row, catmap, svc).1
  }

  /** A write of `import_category` as the loop's step and id. */
  lemma CategoryWriteSteps(before: Db, row: Row, svc: Services, after: Db, id: int)
    requires (after, id) == CategoryWrite(before, row, svc)
    ensures after == CategoryStep(svc)(before, row) && id == CategoryId(svc)(before, row)
  {
  }

  /** A write of `import_component` as the loop's step and id. */
  lemma ComponentWriteSteps(before: Db, row: Row, catmap: map<string, int>, svc: Services, after: Db, id: int)
    requires (after, id) == ComponentWrite(before, row, catmap, svc)
    ensures after == ComponentStep(catmap, svc)(before, row) && id == ComponentId(catmap, svc)(before, row)
  {
  }

  /** A run of the category loop logs the category log. */
  lemma CategoryLoopLog(dbs: seq<Db>, maps: seq<map<string, int>>, ids: seq<int>, rows: seq<Row>, logged: seq<ImportResult>,
                        svc: Services, dryrun: bool)
    requires LoopRun(dbs, maps, ids, rows, logged, TableEntry(Compcat), CategoryStep(svc), CategoryId(svc), dryrun)
    ensures CategoryLog(dbs[0], rows, svc, dryrun) == logged
  {
    LoopRunLog(dbs, maps, ids, rows, logged, TableEntry(Compcat), CategoryStep(svc), CategoryId(svc), dryrun, 0);
    CategoryLogIsRowLog(dbs[0], rows, svc, dryrun);
    assert rows[0..] == rows && logged[0..] == logged;
  }

  /** Outside a dry run, a run of the category loop from row `k` on is the category pass. */
  lemma {:induction false} CategoryLoopPass(dbs: seq<Db>, maps: seq<map<string, int>>, ids: seq<int>, rows: seq<Row>, logged: seq<ImportResult>,
                                            svc: Services, k: int)
    requires LoopRun(dbs, maps, ids, rows, logged, TableEntry(Compcat), CategoryStep(svc), CategoryId(svc), false) && 0 <= k <= |rows|
    ensures CategoryPass(dbs[k], rows[k..], maps[k], svc) == (dbs[|rows|], maps[|rows|])
    decreases |rows| - k
  {
    if k < |rows| {
      LoopRunAt(dbs, maps, ids, rows, logged, TableEntry(Compcat), CategoryStep(svc), CategoryId(svc), false, k);
      CategoryLoopPass(dbs, maps, ids, rows, logged, svc, k + 1);
    }
  }

  /** A run of the component loop logs the component log. */
  lemma ComponentLoopLog(dbs: seq<Db>, maps: seq<map<string, int>>, ids: seq<int>, rows: seq<Row>, logged: seq<ImportResult>,
                         catmap: map<string, int>, svc: Services, dryrun: bool)
    requires LoopRun(dbs, maps, ids, rows, logged, TableEntry(Component), ComponentStep(catmap, svc), ComponentId(catmap, svc), dryrun)
    ensures ComponentLog(dbs[0], rows, catmap, svc, dryrun) == logged
  {
    LoopRunLog(dbs, maps, ids, rows, logged, TableEntry(Component), ComponentStep(catmap, svc), ComponentId(catmap, svc), dryrun, 0);
    ComponentLogIsRowLog(dbs[0], rows, catmap, svc, dryrun);
    assert rows[0..] == rows && logged[0..] == logged;
  }

  /** Outside a dry run, a run of the component loop from row `k` on is the component pass. */
  lemma {:induction false} ComponentLoopPass(dbs: seq<Db>, maps: seq<map<string, int>>, ids: seq<int>, rows: seq<Row>, logged: seq<ImportResult>,
                                             catmap: map<string, int>, svc: Services, k: int)
    requires LoopRun(dbs, maps, ids, rows, logged, TableEntry(Component), ComponentStep(catmap, svc), ComponentId(catmap, svc), false)
    requires 0 <= k <= |rows|
    ensures ComponentPass(dbs[k], rows[k..], catmap, maps[k], svc) == (dbs[|rows|], maps[|rows|])
    decreases |rows| - k
  {
    if k < |rows| {
      LoopRunAt(dbs, maps, ids, rows, logged, TableEntry(Component), ComponentStep(catmap, svc), ComponentId(catmap, svc), false, k);
      ComponentLoopPass(dbs, maps, ids, rows, logged, catmap, svc, k + 1);
    }
  }

  /** The metadata search of `importfiles`: the `source`, `author` and `license` of the
      first entry of `$metadata[$categoryname]` whose filename matches, or none. */
  method FindFileMetadata(metadata: Metadata, categoryname: string, filename: string) returns (m: map<string, string>)
    ensures m == MetadataFor(metadata, categoryname, filename)
  {
    m := map[];
    if |metadata| != 0 && categoryname in metadata {
      var entries := metadata[categoryname];
      var j := 0;
      while j < |entries|
        invariant 0 <= j <= |entries|
        invariant forall k :: 0 <= k < j ==> Get(entries[k], "filename") != filename
      {
        if Get(entries[j], "filename") == filename {
          m := map["source" := Get(entries[j], "source"), "author" := Get(entries[j], "author"),
                   "license" := Get(entries[j], "license")];
          return;
        }
        j := j + 1;
      }
    }
  }

  class Importer {
    /** Whether the import is only simulated. */
    const dryrun: bool
    /** The constants of `constants.php` the importer reads. */
    const consts: Constants
    /** The collaborators whose code is not part of this model. */
    const svc: Services
    /** `$importresults`: one entry per record or file handled, in order. */
    var importresults: seq<ImportResult>
    /** The plugin's six tables. */
    var db: Db
    /** The `images` file area of the plugin. */
    var files: Files

    ghost predicate Valid()
      reads this
    {
      db.Valid()
    }

    constructor (dryrun: bool, consts: Constants, svc: Services, db: Db, files: Files)
      requires db.Valid()
      ensures Valid()
      ensures this.dryrun == dryrun && this.consts == consts && this.svc == svc
      ensures this.db == db && this.files == files && importresults == []
    {
      this.dryrun := dryrun;
      this.consts := consts;
      this.svc := svc;
      this.db := db;
      this.files := files;
      importresults := [];
    }

    /** `get_importresults`. */
    method GetImportResults() returns (r: seq<ImportResult>)
      ensures r == importresults
    {
      r := importresults;
    }

    /** The lookup-then-write shared by the table imports: a record whose natural key is
        stored is updated in place (its id returned), any other is inserted; a dry run
        writes nothing and makes up a positive id for a new record. The outcome is logged
        either way. */
    method Store(t: Table, rec: Row, replaced: ResultCode, added: ResultCode, subject: string) returns (id: int, ghost entry: ImportResult)
      requires Valid()
      modifies this
      ensures Valid() && files == old(files) && 0 < id
      ensures importresults == old(importresults) + [entry]
      ensures var found := Lookup(old(db).Rows(t), t, KeyOf(t, rec));
        && entry == ImportResult(if found.Some? then replaced else added, subject)
        && (found.Some? ==> id == found.value.id)
        && (found.None? && dryrun ==> id <= PHP_INT_MAX)
      ensures !dryrun ==> (db, id) == old(db).Upsert(t, rec)
      ensures dryrun ==> db == old(db)
    {
      var d := db;
      var found := Lookup(d.Rows(t), t, KeyOf(t, rec));
      UpsertUnfolds(d, t, rec);
      UpsertKeepsValid(d, t, rec);
      if found.Some? {
        LookupIdInRange(d, t, KeyOf(t, rec));
        id := found.value.id;
        if !dryrun {
          db := d.Update(t, id, rec);
          assert (db, id) == d.Upsert(t, rec);
        }
        importresults := importresults + [ImportResult(replaced, subject)];
        entry := ImportResult(replaced, subject);
      } else {
        if !dryrun {
          var inserted := d.Insert(t, rec);
          db, id := inserted.0, inserted.1;
          assert (db, id) == d.Upsert(t, rec);
        } else {
          assert 0 < 1 <= PHP_INT_MAX;
          id :| 0 < id <= PHP_INT_MAX;
        }
        importresults := importresults + [ImportResult(added, subject)];
        entry := ImportResult(added, subject);
      }
    }

    /** `import_category`: the category is stored by name; outside a dry run, when its
        descriptor id differs from the id it is stored under, its css is rewritten for the
        new id and written again. */
    method ImportCategory(row: Row) returns (id: int, ghost entry: ImportResult)
      requires Valid()
      modifies this
      ensures Valid() && files == old(files) && 0 < id
      ensures importresults == old(importresults) + [entry]
      ensures entry == Entry(old(db), Compcat, KeyOf(Compcat, row))
      ensures var found := Lookup(old(db).Rows(Compcat), Compcat, KeyOf(Compcat, row));
        found.Some? ==> id == found.value.id
      ensures !dryrun ==> (db, id) == CategoryWrite(old(db), row, svc)
      ensures dryrun ==> db == old(db)
    {
      ghost var d0 := db;
      id, entry := Store(Compcat, row, ReplaceCategory, NewCategory, Get(row, "name"));
      ghost var d1 := db;
      if Get(row, "id") != IdText(id) && !dryrun {
        var rewritten := row["css" := svc.updateTags(Get(row, "id"), id, Get(row, "css"))];
        db := db.Update(Compcat, id, rewritten);
      }
      if !dryrun {
        CategoryWriteIs(d0, row, svc, d1, id, db);
      }
    }

    /** `import_component`: the prepared component is stored by name; outside a dry run
        every name of its `flavors` and `variants` lists then gets its relation row. */
    method ImportComponent(row: Row, catmap: map<string, int>) returns (id: int, ghost entry: ImportResult)
      requires Valid()
      modifies this
      ensures Valid() && files == old(files) && 0 < id
      ensures importresults == old(importresults) + [entry]
      ensures entry == Entry(old(db), Component, KeyOf(Component, row))
      ensures var found := Lookup(old(db).Rows(Component), Component, KeyOf(Component, row));
        found.Some? ==> id == found.value.id
      ensures !dryrun ==> (db, id) == ComponentWrite(old(db), row, catmap, svc)
      ensures dryrun ==> db == old(db)
    {
      var rec := PreparedComponent(db, row, catmap, svc);
      PreparedComponentLists(db, row, catmap, svc);
      ghost var d0 := db;
      id, entry := Store(Component, rec, ReplaceComponent, NewComponent, Get(rec, "name"));
      if !dryrun {
        ComponentWriteAfterUpsert(d0, row, catmap, svc, db, id);
        FillComponentRelations(rec);
        ComponentWriteKeepsValid(d0, row, catmap, svc);
      }
    }

    /** The two relation loops of `import_component` (outside a dry run): every name of
        the component's `flavors` list, then of its `variants` list, gets its relation
        row, unless the list is falsy. */
    method FillComponentRelations(rec: Row)
      modifies this
      ensures files == old(files) && importresults == old(importresults)
      ensures db == FillPass(FillPass(old(db), CompFlavor, Get(rec, "name"), Get(rec, "flavors")),
                             CompVariant, Get(rec, "name"), Get(rec, "variants"))
    {
      var name := Get(rec, "name");
      var d := db;
      if !Empty(Get(rec, "flavors")) {
        d := FillRelations(d, CompFlavor, name, Explode(',', Get(rec, "flavors")));
      }
      assert d == FillPass(old(db), CompFlavor, name, Get(rec, "flavors"));
      ghost var d1 := d;
      if !Empty(Get(rec, "variants")) {
        d := FillRelations(d, CompVariant, name, Explode(',', Get(rec, "variants")));
      }
      assert d == FillPass(d1, CompVariant, name, Get(rec, "variants"));
      db := d;
    }

    /** `import_flavor`: looked up by name, stored with its css and content rewritten. */
    method ImportFlavor(row: Row, catmap: map<string, int>) returns (id: int, ghost entry: ImportResult)
      requires Valid()
      modifies this
      ensures Valid() && files == old(files) && 0 < id
      ensures importresults == old(importresults) + [entry]
      ensures KeyOf(Flavor, FlavorRecord(row, catmap, svc)) == KeyOf(Flavor, row)
      ensures entry == Entry(old(db), Flavor, KeyOf(Flavor, row))
      ensures var found := Lookup(old(db).flavor, Flavor, KeyOf(Flavor, row));
        found.Some? ==> id == found.value.id
      ensures !dryrun ==> (db, id) == old(db).Upsert(Flavor, FlavorRecord(row, catmap, svc))
      ensures dryrun ==> db == old(db)
    {
      var rec := FlavorRecord(row, catmap, svc);
      RewrittenKeepsKey(Flavor, row, {"css", "content"}, catmap, svc, true);
      id, entry := Store(Flavor, rec, ReplaceFlavor, NewFlavor, Get(rec, "name"));
    }

    /** `import_variant`: looked up by name, stored with css, content and icon url rewritten. */
    method ImportVariant(row: Row, catmap: map<string, int>) returns (id: int, ghost entry: ImportResult)
      requires Valid()
      modifies this
      ensures Valid() && files == old(files) && 0 < id
      ensures importresults == old(importresults) + [entry]
      ensures KeyOf(Variant, VariantRecord(row, catmap, svc)) == KeyOf(Variant, row)
      ensures entry == Entry(old(db), Variant, KeyOf(Variant, row))
      ensures var found := Lookup(old(db).variant, Variant, KeyOf(Variant, row));
        found.Some? ==> id == found.value.id
      ensures !dryrun ==> (db, id) == old(db).Upsert(Variant, VariantRecord(row, catmap, svc))
      ensures dryrun ==> db == old(db)
    {
      var rec := VariantRecord(row, catmap, svc);
      RewrittenKeepsKey(Variant, row, {"css", "content", "iconurl"}, catmap, svc, false);
      id, entry := Store(Variant, rec, ReplaceVariant, NewVariant, Get(rec, "name"));
    }

    /** `import_component_flavor`: looked up by component and flavor name, stored with its
        icon url rewritten; logged as "component - flavor". */
    method ImportComponentFlavor(row: Row, catmap: map<string, int>) returns (id: int, ghost entry: ImportResult)
      requires Valid()
      modifies this
      ensures Valid() && files == old(files) && 0 < id
      ensures importresults == old(importresults) + [entry]
      ensures KeyOf(CompFlavor, CompFlavorRecord(row, catmap, svc)) == KeyOf(CompFlavor, row)
      ensures entry == Entry(old(db), CompFlavor, KeyOf(CompFlavor, row))
      ensures var found := Lookup(old(db).compFlavor, CompFlavor, KeyOf(CompFlavor, row));
        found.Some? ==> id == found.value.id
      ensures !dryrun ==> (db, id) == old(db).Upsert(CompFlavor, CompFlavorRecord(row, catmap, svc))
      ensures dryrun ==> db == old(db)
    {
      var rec := CompFlavorRecord(row, catmap, svc);
      RewrittenKeepsKey(CompFlavor, row, {"iconurl"}, catmap, svc, false);
      id, entry := Store(CompFlavor, rec, ReplaceCompFlavor, NewCompFlavor,
        Label(KeyOf(CompFlavor, rec)));
    }

    /** `import_component_variant`: a legacy row whose component is not part of the import
        is dropped (0 returned, nothing logged); any other row is stored by
        `StoreCompVariant`. */
    method ImportComponentVariant(row: Row, compmap: map<string, int>) returns (id: int, ghost logged: seq<ImportResult>)
      requires Valid()
      modifies this
      ensures Valid() && files == old(files)
      ensures importresults == old(importresults) + logged
      ensures var resolved := ResolvedCompVariant(old(db), row, compmap);
        && (resolved.None? ==> id == 0 && db == old(db) && logged == [])
        && (resolved.Some? ==>
              var found := Lookup(old(db).compVariant, CompVariant, KeyOf(CompVariant, resolved.value));
              && 0 < id
              && logged == [Entry(old(db), CompVariant, KeyOf(CompVariant, resolved.value))]
              && (found.Some? ==> id == found.value.id && db == old(db))
              && (!dryrun ==> (db, id) == CompVariantWrite(old(db), resolved.value)))
      ensures dryrun ==> db == old(db)
    {
      logged := [];
      var resolved := ResolvedCompVariant(db, row, compmap);
      if resolved.None? {
        return 0, logged;
      }
      ghost var d0 := db;
      id := StoreCompVariant(resolved.value);
      logged := [Entry(d0, CompVariant, KeyOf(CompVariant, resolved.value))];
    }

    /** The rest of `import_component_variant`, on the resolved row: a relation already
        stored is left as it is (its id returned, logged as replaced); a missing one is
        inserted (a dry run makes up a positive id). */
    method StoreCompVariant(rec: Row) returns (id: int)
      requires Valid()
      modifies this
      ensures Valid() && files == old(files) && 0 < id
      ensures var found := Lookup(old(db).compVariant, CompVariant, KeyOf(CompVariant, rec));
        && importresults == old(importresults) + [Entry(old(db), CompVariant, KeyOf(CompVariant, rec))]
        && (found.Some? ==> id == found.value.id && db == old(db))
        && (found.None? && dryrun ==> id <= PHP_INT_MAX)
      ensures !dryrun ==> (db, id) == CompVariantWrite(old(db), rec)
      ensures dryrun ==> db == old(db)
    {
      var key := KeyOf(CompVariant, rec);
      var current := Lookup(db.compVariant, CompVariant, key);
      CompVariantWriteUnfolds(db, rec);
      if current.None? {
        if !dryrun {
          InsertKeepsValid(db, CompVariant, rec);
          var inserted := db.Insert(CompVariant, rec);
          db, id := inserted.0, inserted.1;
        } else {
          assert 0 < 1 <= PHP_INT_MAX;
          id :| 0 < id <= PHP_INT_MAX;
        }
        importresults := importresults + [ImportResult(NewCompVariant, Label(key))];
        return id;
      }
      LookupIdInRange(db, CompVariant, key);
      importresults := importresults + [ImportResult(ReplaceCompVariant, Label(key))];
      return current.value.id;
    }

    /** The category loop of `importxml`: each row in turn, its descriptor id mapped to
        the id `import_category` returns. */
    method ImportCategories(rows: seq<Row>) returns (ghost logged: seq<ImportResult>, catmap: map<string, int>)
      requires Valid()
      modifies this
      ensures Valid() && files == old(files)
      ensures logged == CategoryLog(old(db), rows, svc, dryrun)
      ensures importresults == old(importresults) + logged
      ensures !dryrun ==> (db, catmap) == CategoryPass(old(db), rows, map[], svc)
      ensures dryrun ==> db == old(db)
      ensures forall k :: k in catmap <==> k in IdsOf(rows)
      ensures forall k :: k in catmap ==> catmap[k] > 0
      ensures dryrun ==> ResolvesAllStored(old(db), Compcat, catmap, rows)
    {
      ghost var dbs, maps, ids;
      logged, catmap, dbs, maps, ids := ImportCategoryRows(rows);
      LoopRunFiled(dbs, maps, ids, rows, logged, TableEntry(Compcat), CategoryStep(svc), CategoryId(svc), dryrun, |rows|);
      assert rows[..|rows|] == rows;
      CategoryLoopLog(dbs, maps, ids, rows, logged, svc, dryrun);
      if dryrun {
        LoopRunDryResolves(dbs, maps, ids, rows, logged, TableEntry(Compcat), CategoryStep(svc), CategoryId(svc), Compcat);
      }
      if !dryrun {
        CategoryLoopPass(dbs, maps, ids, rows, logged, svc, 0);
        assert rows[0..] == rows;
      }
    }

    /** The loop of `ImportCategories` itself: `import_category` on each row in turn; the
        ghost outputs record the store and the map each row met. */
    method ImportCategoryRows(rows: seq<Row>)
      returns (ghost logged: seq<ImportResult>, catmap: map<string, int>, ghost dbs: seq<Db>, ghost maps: seq<map<string, int>>,
               ghost ids: seq<int>)
      requires Valid()
      modifies this
      ensures Valid() && files == old(files)
      ensures importresults == old(importresults) + logged
      ensures LoopRun(dbs, maps, ids, rows, logged, TableEntry(Compcat), CategoryStep(svc), CategoryId(svc), dryrun)
      ensures dbs[0] == old(db) && dbs[|rows|] == db && maps[0] == map[] && maps[|rows|] == catmap
      ensures dryrun ==> db == old(db)
      ensures FoundIds(dbs, ids, rows, Compcat)
    {
      catmap := map[];
      logged := [];
      dbs, maps, ids := [db], [catmap], [];
      var i := 0;
      while i < |rows|
        invariant 0 <= i <= |rows|
        invariant Valid() && files == old(files)
        invariant importresults == old(importresults) + logged
        invariant LoopRun(dbs, maps, ids, rows[..i], logged, TableEntry(Compcat), CategoryStep(svc), CategoryId(svc), dryrun)
        invariant dbs[0] == old(db) && dbs[i] == db && maps[0] == map[] && maps[i] == catmap
        invariant dryrun ==> db == old(db)
        invariant FoundIds(dbs, ids, rows[..i], Compcat)
      {
        ghost var log0, before := importresults, db;
        var id, entry := ImportCategory(rows[i]);
        if !dryrun {
          CategoryWriteSteps(before, rows[i], svc, db, id);
        }
        LogGrows(old(importresults), logged, log0, [entry], importresults);
        catmap := catmap[Get(rows[i], "id") := id];
        LoopRunSnoc(dbs, maps, ids, rows, logged, TableEntry(Compcat), CategoryStep(svc), CategoryId(svc), dryrun, i, db, catmap, id, entry);
        FoundIdsSnoc(dbs, ids, rows, Compcat, i, db, id);
        dbs, maps, ids, logged := dbs + [db], maps + [catmap], ids + [id], logged + [entry];
        i := i + 1;
      }
      Exhausted(rows, i);
    }

    /** The component loop of `importxml`: each row in turn, its descriptor id mapped to
        the id `import_component` returns. */
    method ImportComponents(rows: seq<Row>, catmap: map<string, int>) returns (ghost logged: seq<ImportResult>, compmap: map<string, int>)
      requires Valid()
      modifies this
      ensures Valid() && files == old(files)
      ensures logged == ComponentLog(old(db), rows, catmap, svc, dryrun)
      ensures importresults == old(importresults) + logged
      ensures !dryrun ==> (db, compmap) == ComponentPass(old(db), rows, catmap, map[], svc)
      ensures dryrun ==> db == old(db)
      ensures forall k :: k in compmap <==> k in IdsOf(rows)
      ensures forall k :: k in compmap ==> compmap[k] > 0
      ensures dryrun ==> ResolvesAllStored(old(db), Component, compmap, rows)
    {
      ghost var dbs, maps, ids;
      logged, compmap, dbs, maps, ids := ImportComponentRows(rows, catmap);
      LoopRunFiled(dbs, maps, ids, rows, logged, TableEntry(Component), ComponentStep(catmap, svc), ComponentId(catmap, svc), dryrun, |rows|);
      assert rows[..|rows|] == rows;
      ComponentLoopLog(dbs, maps, ids, rows, logged, catmap, svc, dryrun);
      if dryrun {
        LoopRunDryResolves(dbs, maps, ids, rows, logged, TableEntry(Component), ComponentStep(catmap, svc), ComponentId(catmap, svc), Component);
      }
      if !dryrun {
        ComponentLoopPass(dbs, maps, ids, rows, logged, catmap, svc, 0);
        assert rows[0..] == rows;
      }
    }

    /** The loop of `ImportComponents` itself: `import_component` on each row in turn; the
        ghost outputs record the store and the map each row met. */
    method ImportComponentRows(rows: seq<Row>, catmap: map<string, int>)
      returns (ghost logged: seq<ImportResult>, compmap: map<string, int>, ghost dbs: seq<Db>, ghost maps: seq<map<string, int>>,
               ghost ids: seq<int>)
      requires Valid()
      modifies this
      ensures Valid() && files == old(files)
      ensures importresults == old(importresults) + logged
      ensures LoopRun(dbs, maps, ids, rows, logged, TableEntry(Component), ComponentStep(catmap, svc), ComponentId(catmap, svc), dryrun)
      ensures dbs[0] == old(db) && dbs[|rows|] == db && maps[0] == map[] && maps[|rows|] == compmap
      ensures dryrun ==> db == old(db)
      ensures FoundIds(dbs, ids, rows, Component)
    {
      compmap := map[];
      logged := [];
      dbs, maps, ids := [db], [compmap], [];
      var i := 0;
      while i < |rows|
        invariant 0 <= i <= |rows|
        invariant Valid() && files == old(files)
        invariant importresults == old(importresults) + logged
        invariant LoopRun(dbs, maps, ids, rows[..i], logged, TableEntry(Component), ComponentStep(catmap, svc), ComponentId(catmap, svc), dryrun)
        invariant dbs[0] == old(db) && dbs[i] == db && maps[0] == map[] && maps[i] == compmap
        invariant dryrun ==> db == old(db)
        invariant FoundIds(dbs, ids, rows[..i], Component)
      {
        ghost var log0, before := importresults, db;
        var id, entry := ImportComponent(rows[i], catmap);
        if !dryrun {
          ComponentWriteSteps(before, rows[i], catmap, svc, db, id);
        }
        LogGrows(old(importresults), logged, log0, [entry], importresults);
        compmap := compmap[Get(rows[i], "id") := id];
        LoopRunSnoc(dbs, maps, ids, rows, logged, TableEntry(Component), ComponentStep(catmap, svc), ComponentId(catmap, svc), dryrun, i, db, compmap, id, entry);
        FoundIdsSnoc(dbs, ids, rows, Component, i, db, id);
        dbs, maps, ids, logged := dbs + [db], maps + [compmap], ids + [id], logged + [entry];
        i := i + 1;
      }
      Exhausted(rows, i);
    }

    /** The flavor loop of `importxml`. */
    method ImportFlavors(rows: seq<Row>, catmap: map<string, int>) returns (ghost logged: seq<ImportResult>)
      requires Valid()
      modifies this
      ensures Valid() && files == old(files)
      ensures logged == UpsertLog(old(db), Flavor, FlavorRecords(rows, catmap, svc), dryrun)
      ensures importresults == old(importresults) + logged
      ensures !dryrun ==> db == UpsertAll(old(db), Flavor, FlavorRecords(rows, catmap, svc))
      ensures dryrun ==> db == old(db)
    {
      logged := [];
      ghost var target := UpsertAll(db, Flavor, FlavorRecords(rows, catmap, svc));
      ghost var logTarget := UpsertLog(db, Flavor, FlavorRecords(rows, catmap, svc), dryrun);
      var i := 0;
      assert rows[0..] == rows;
      LogStarts(logTarget);
      while i < |rows|
        invariant 0 <= i <= |rows|
        invariant Valid() && files == old(files)
        invariant |logged| == i && importresults == old(importresults) + logged
        invariant logged + UpsertLog(db, Flavor, FlavorRecords(rows[i..], catmap, svc), dryrun) == logTarget
        invariant !dryrun ==> UpsertAll(db, Flavor, FlavorRecords(rows[i..], catmap, svc)) == target
        invariant dryrun ==> db == old(db)
      {
        logged := ImportFlavorAt(rows, i, catmap, old(importresults), logged, target, logTarget);
        i := i + 1;
      }
      Exhausted(rows, i);
    }

    /** One pass of the flavor loop: `import_flavor` on row `i`. */
    method ImportFlavorAt(rows: seq<Row>, i: int, catmap: map<string, int>, ghost start: seq<ImportResult>,
                 ghost logged: seq<ImportResult>, ghost target: Db, ghost logTarget: seq<ImportResult>)
      returns (ghost logged': seq<ImportResult>)
      requires Valid() && 0 <= i < |rows|
      requires |logged| == i && importresults == start + logged
      requires logged + UpsertLog(db, Flavor, FlavorRecords(rows[i..], catmap, svc), dryrun) == logTarget
      requires !dryrun ==> UpsertAll(db, Flavor, FlavorRecords(rows[i..], catmap, svc)) == target
      modifies this
      ensures Valid() && files == old(files)
      ensures |logged'| == i + 1 && importresults == start + logged'
      ensures logged' + UpsertLog(db, Flavor, FlavorRecords(rows[i + 1..], catmap, svc), dryrun) == logTarget
      ensures !dryrun ==> UpsertAll(db, Flavor, FlavorRecords(rows[i + 1..], catmap, svc)) == target
      ensures dryrun ==> db == old(db)
    {
      ghost var before := db;
      ghost var log0 := importresults;
      var id, entry := ImportFlavor(rows[i], catmap);
      LogGrows(start, logged, log0, [entry], importresults);
      logged' := logged + [entry];
      if !dryrun {
        FlavorPassStep(before, rows, i, catmap, svc, db);
      }
      FlavorLogStep(before, rows, i, catmap, svc, dryrun, db);
      LogSplices(logged, [entry], logged', UpsertLog(db, Flavor, FlavorRecords(rows[i + 1..], catmap, svc), dryrun),
        UpsertLog(before, Flavor, FlavorRecords(rows[i..], catmap, svc), dryrun));
    }

    /** The variant loop of `importxml`. */
    method ImportVariants(rows: seq<Row>, catmap: map<string, int>) returns (ghost logged: seq<ImportResult>)
      requires Valid()
      modifies this
      ensures Valid() && files == old(files)
      ensures logged == UpsertLog(old(db), Variant, VariantRecords(rows, catmap, svc), dryrun)
      ensures importresults == old(importresults) + logged
      ensures !dryrun ==> db == UpsertAll(old(db), Variant, VariantRecords(rows, catmap, svc))
      ensures dryrun ==> db == old(db)
    {
      logged := [];
      ghost var target := UpsertAll(db, Variant, VariantRecords(rows, catmap, svc));
      ghost var logTarget := UpsertLog(db, Variant, VariantRecords(rows, catmap, svc), dryrun);
      var i := 0;
      assert rows[0..] == rows;
      LogStarts(logTarget);
      while i < |rows|
        invariant 0 <= i <= |rows|
        invariant Valid() && files == old(files)
        invariant |logged| == i && importresults == old(importresults) + logged
        invariant logged + UpsertLog(db, Variant, VariantRecords(rows[i..], catmap, svc), dryrun) == logTarget
        invariant !dryrun ==> UpsertAll(db, Variant, VariantRecords(rows[i..], catmap, svc)) == target
        invariant dryrun ==> db == old(db)
      {
        logged := ImportVariantAt(rows, i, catmap, old(importresults), logged, target, logTarget);
        i := i + 1;
      }
      Exhausted(rows, i);
    }

    /** One pass of the variant loop: `import_variant` on row `i`. */
    method ImportVariantAt(rows: seq<Row>, i: int, catmap: map<string, int>, ghost start: seq<ImportResult>,
                 ghost logged: seq<ImportResult>, ghost target: Db, ghost logTarget: seq<ImportResult>)
      returns (ghost logged': seq<ImportResult>)
      requires Valid() && 0 <= i < |rows|
      requires |logged| == i && importresults == start + logged
      requires logged + UpsertLog(db, Variant, VariantRecords(rows[i..], catmap, svc), dryrun) == logTarget
      requires !dryrun ==> UpsertAll(db, Variant, VariantRecords(rows[i..], catmap, svc)) == target
      modifies this
      ensures Valid() && files == old(files)
      ensures |logged'| == i + 1 && importresults == start + logged'
      ensures logged' + UpsertLog(db, Variant, VariantRecords(rows[i + 1..], catmap, svc), dryrun) == logTarget
      ensures !dryrun ==> UpsertAll(db, Variant, VariantRecords(rows[i + 1..], catmap, svc)) == target
      ensures dryrun ==> db == old(db)
    {
      ghost var before := db;
      ghost var log0 := importresults;
      var id, entry := ImportVariant(rows[i], catmap);
      LogGrows(start, logged, log0, [entry], importresults);
      logged' := logged + [entry];
      if !dryrun {
        VariantPassStep(before, rows, i, catmap, svc, db);
      }
      VariantLogStep(before, rows, i, catmap, svc, dryrun, db);
      LogSplices(logged, [entry], logged', UpsertLog(db, Variant, VariantRecords(rows[i + 1..], catmap, svc), dryrun),
        UpsertLog(before, Variant, VariantRecords(rows[i..], catmap, svc), dryrun));
    }

    /** The component–flavor loop of `importxml`. */
    method ImportComponentFlavors(rows: seq<Row>, catmap: map<string, int>) returns (ghost logged: seq<ImportResult>)
      requires Valid()
      modifies this
      ensures Valid() && files == old(files)
      ensures logged == UpsertLog(old(db), CompFlavor, CompFlavorRecords(rows, catmap, svc), dryrun)
      ensures importresults == old(importresults) + logged
      ensures !dryrun ==> db == UpsertAll(old(db), CompFlavor, CompFlavorRecords(rows, catmap, svc))
      ensures dryrun ==> db == old(db)
    {
      logged := [];
      ghost var target := UpsertAll(db, CompFlavor, CompFlavorRecords(rows, catmap, svc));
      ghost var logTarget := UpsertLog(db, CompFlavor, CompFlavorRecords(rows, catmap, svc), dryrun);
      var i := 0;
      assert rows[0..] == rows;
      LogStarts(logTarget);
      while i < |rows|
        invariant 0 <= i <= |rows|
        invariant Valid() && files == old(files)
        invariant |logged| == i && importresults == old(importresults) + logged
        invariant logged + UpsertLog(db, CompFlavor, CompFlavorRecords(rows[i..], catmap, svc), dryrun) == logTarget
        invariant !dryrun ==> UpsertAll(db, CompFlavor, CompFlavorRecords(rows[i..], catmap, svc)) == target
        invariant dryrun ==> db == old(db)
      {
        logged := ImportComponentFlavorAt(rows, i, catmap, old(importresults), logged, target, logTarget);
        i := i + 1;
      }
      Exhausted(rows, i);
    }

    /** One pass of the component–flavor loop: `import_component_flavor` on row `i`. */
    method ImportComponentFlavorAt(rows: seq<Row>, i: int, catmap: map<string, int>, ghost start: seq<ImportResult>,
                 ghost logged: seq<ImportResult>, ghost target: Db, ghost logTarget: seq<ImportResult>)
      returns (ghost logged': seq<ImportResult>)
      requires Valid() && 0 <= i < |rows|
      requires |logged| == i && importresults == start + logged
      requires logged + UpsertLog(db, CompFlavor, CompFlavorRecords(rows[i..], catmap, svc), dryrun) == logTarget
      requires !dryrun ==> UpsertAll(db, CompFlavor, CompFlavorRecords(rows[i..], catmap, svc)) == target
      modifies this
      ensures Valid() && files == old(files)
      ensures |logged'| == i + 1 && importresults == start + logged'
      ensures logged' + UpsertLog(db, CompFlavor, CompFlavorRecords(rows[i + 1..], catmap, svc), dryrun) == logTarget
      ensures !dryrun ==> UpsertAll(db, CompFlavor, CompFlavorRecords(rows[i + 1..], catmap, svc)) == target
      ensures dryrun ==> db == old(db)
    {
      ghost var before := db;
      ghost var log0 := importresults;
      var id, entry := ImportComponentFlavor(rows[i], catmap);
      LogGrows(start, logged, log0, [entry], importresults);
      logged' := logged + [entry];
      if !dryrun {
        CompFlavorPassStep(before, rows, i, catmap, svc, db);
      }
      CompFlavorLogStep(before, rows, i, catmap, svc, dryrun, db);
      LogSplices(logged, [entry], logged', UpsertLog(db, CompFlavor, CompFlavorRecords(rows[i + 1..], catmap, svc), dryrun),
        UpsertLog(before, CompFlavor, CompFlavorRecords(rows[i..], catmap, svc), dryrun));
    }

    /** The component–variant loop of `importxml`: at most one log entry per row (none
        for a dropped legacy row). */
    method ImportComponentVariants(rows: seq<Row>, compmap: map<string, int>) returns (ghost logged: seq<ImportResult>)
      requires Valid()
      modifies this
      ensures Valid() && files == old(files)
      ensures logged == CompVariantLog(old(db), rows, compmap, dryrun)
      ensures importresults == old(importresults) + logged
      ensures !dryrun ==> db == CompVariantPass(old(db), rows, compmap)
      ensures dryrun ==> db == old(db)
    {
      logged := [];
      ghost var target := CompVariantPass(db, rows, compmap);
      ghost var logTarget := CompVariantLog(db, rows, compmap, dryrun);
      var i := 0;
      assert rows[0..] == rows;
      LogStarts(logTarget);
      while i < |rows|
        invariant 0 <= i <= |rows|
        invariant Valid() && files == old(files)
        invariant |logged| <= i && importresults == old(importresults) + logged
        invariant logged + CompVariantLog(db, rows[i..], compmap, dryrun) == logTarget
        invariant !dryrun ==> CompVariantPass(db, rows[i..], compmap) == target
        invariant dryrun ==> db == old(db)
      {
        logged := ImportComponentVariantAt(rows, i, compmap, old(importresults), logged, target, logTarget);
        i := i + 1;
      }
      Exhausted(rows, i);
    }

    /** One pass of the component–variant loop. */
    method ImportComponentVariantAt(rows: seq<Row>, i: int, compmap: map<string, int>,
                                    ghost start: seq<ImportResult>, ghost logged: seq<ImportResult>, ghost target: Db,
                                    ghost logTarget: seq<ImportResult>)
      returns (ghost logged': seq<ImportResult>)
      requires Valid() && 0 <= i < |rows|
      requires |logged| <= i && importresults == start + logged
      requires logged + CompVariantLog(db, rows[i..], compmap, dryrun) == logTarget
      requires !dryrun ==> CompVariantPass(db, rows[i..], compmap) == target
      modifies this
      ensures Valid() && files == old(files)
      ensures |logged'| <= i + 1 && importresults == start + logged'
      ensures logged' + CompVariantLog(db, rows[i + 1..], compmap, dryrun) == logTarget
      ensures !dryrun ==> CompVariantPass(db, rows[i + 1..], compmap) == target
      ensures dryrun ==> db == old(db)
    {
      ghost var before := db;
      ghost var log0 := importresults;
      ghost var resolved := ResolvedCompVariant(db, rows[i], compmap);
      ghost var next := if resolved.None? then before else CompVariantWrite(before, resolved.value).0;
      var id, more := ImportComponentVariant(rows[i], compmap);
      LogGrows(start, logged, log0, more, importresults);
      logged' := logged + more;
      if !dryrun {
        assert db == next;
        CompVariantPassStep(before, rows, i, compmap, next);
      }
      CompVariantLogStep(before, rows, i, compmap, dryrun, db);
      LogSplices(logged, more, logged', CompVariantLog(db, rows[i + 1..], compmap, dryrun), CompVariantLog(before, rows[i..], compmap, dryrun));
    }

    /** One loop of `update_flavor_variant_category`: every record of `t` whose category
        name is empty, in store order, gets the name `hook` computes from the store as it
        then is. */
    method BackfillTable(t: Table, hook: (Db, string) -> string)
      requires Valid()
      modifies this
      ensures Valid() && files == old(files) && importresults == old(importresults)
      ensures db == Backfilled(old(db), t, Unnamed(old(db).Rows(t)), hook)
    {
      var pending := Unnamed(db.Rows(t));
      ghost var target := Backfilled(db, t, pending, hook);
      BackfilledKeepsValid(db, t, pending, hook);
      var j := 0;
      assert pending[0..] == pending;
      while j < |pending|
        invariant 0 <= j <= |pending|
        invariant files == old(files) && importresults == old(importresults)
        invariant Backfilled(db, t, pending[j..], hook) == target
      {
        BackfillAt(t, hook, pending, j, target);
        j := j + 1;
      }
      Exhausted(pending, j);
    }

    /** One record of the backfill loop: its category name is what `hook` computes from
        the store as it is now. */
    method BackfillAt(t: Table, hook: (Db, string) -> string, pending: seq<(int, string)>, j: int, ghost target: Db)
      requires 0 <= j < |pending|
      requires Backfilled(db, t, pending[j..], hook) == target
      modifies this
      ensures files == old(files) && importresults == old(importresults)
      ensures Backfilled(db, t, pending[j + 1..], hook) == target
    {
      var (id, name) := pending[j];
      var categoryname := hook(db, name);
      ghost var before := db;
      db := db.Update(t, id, map["categoryname" := categoryname]);
      BackfilledStep(before, t, pending, j, hook, db);
    }

    /** `update_flavor_variant_category`: the flavors, then the variants, without a
        category name get one. It writes even in a dry run. */
    method UpdateFlavorVariantCategory()
      requires Valid()
      modifies this
      ensures Valid() && files == old(files) && importresults == old(importresults)
      ensures db == Backfill(old(db), svc)
    {
      BackfillTable(Flavor, svc.compcatNameForFlavor);
      BackfillTable(Variant, svc.compcatNameForVariant);
    }

    /** `importxml` on the parsed descriptor (None when it is not well-formed XML): the
        checks, the grouping, the six table loops in their fixed order and the category
        backfill. */
    method ImportXml(xml: Option<Document>) returns (r: Outcome, ghost logged: seq<ImportResult>, ghost compmap: map<string, int>)
      requires Valid()
      modifies this
      ensures Valid() && files == old(files)
      ensures importresults == old(importresults) + logged
      ensures r.Ok? <==> Accepted(xml, consts)
      ensures r.Fail? ==> RejectedWith(xml, consts, r.error)
      ensures r.Fail? ==> db == old(db) && logged == []
      ensures r.Ok? && !dryrun ==> (db, r.categorymap) == LiveImport(old(db), xml.value, consts, svc)
      ensures r.Ok? && dryrun ==> db == Backfill(old(db), svc)
      ensures r.Ok? ==> forall k :: k in r.categorymap <==> k in IdsOf(Filed(xml.value, consts, Compcat))
      ensures r.Ok? ==> forall k :: k in r.categorymap ==> r.categorymap[k] > 0
      ensures r.Ok? ==> forall k :: k in compmap <==> k in IdsOf(Filed(xml.value, consts, Component))
      ensures r.Ok? ==> forall k :: k in compmap ==> compmap[k] > 0
      ensures r.Ok? && dryrun ==> ResolvesAllStored(old(db), Compcat, r.categorymap, Filed(xml.value, consts, Compcat))
      ensures r.Ok? && dryrun ==> ResolvesAllStored(old(db), Component, compmap, Filed(xml.value, consts, Component))
      ensures r.Ok? && !dryrun ==> compmap == ComponentPass(CategoryPass(old(db), Filed(xml.value, consts, Compcat), map[], svc).0,
                                                           Filed(xml.value, consts, Component), r.categorymap, map[], svc).1
      ensures r.Ok? ==> logged == XmlLog(old(db), xml.value, consts, svc, dryrun, r.categorymap, compmap)
    {
      logged, compmap := [], map[];
      if xml.None? || xml.value == [] {
        return Fail(ParseFailure), logged, compmap;
      }
      var doc := xml.value;
      var missing := FindMissingTable(doc, consts);
      if missing.Some? {
        return Fail(MissingTable(missing.value)), logged, compmap;
      }
      var data := GroupRows(doc, consts);
      ghost var d0 := db;
      GroupedFiled(data, doc, consts, Compcat);
      GroupedFiled(data, doc, consts, Component);
      GroupedFiled(data, doc, consts, Flavor);
      GroupedFiled(data, doc, consts, Variant);
      GroupedFiled(data, doc, consts, CompFlavor);
      GroupedFiled(data, doc, consts, CompVariant);
      ghost var p1, p2, p3, p4, p5, p6, before;
      var catmap, components;
      p1, catmap := ImportCategories(Get2(data, TableName(Compcat)));
      logged := p1;
      ghost var d1 := db;
      assert !dryrun ==> (d1, catmap) == CategoryPass(d0, Filed(doc, consts, Compcat), map[], svc);
      before := importresults;
      p2, components := ImportComponents(Get2(data, TableName(Component)), catmap);
      LogGrows(old(importresults), logged, before, p2, importresults);
      logged := logged + p2;
      ghost var d2 := db;
      assert !dryrun ==> (d2, components) == ComponentPass(d1, Filed(doc, consts, Component), catmap, map[], svc);
      before := importresults;
      p3 := ImportFlavors(Get2(data, TableName(Flavor)), catmap);
      LogGrows(old(importresults), logged, before, p3, importresults);
      logged := logged + p3;
      ghost var d3 := db;
      before := importresults;
      p4 := ImportVariants(Get2(data, TableName(Variant)), catmap);
      LogGrows(old(importresults), logged, before, p4, importresults);
      logged := logged + p4;
      ghost var d4 := db;
      before := importresults;
      p5 := ImportComponentFlavors(Get2(data, TableName(CompFlavor)), catmap);
      LogGrows(old(importresults), logged, before, p5, importresults);
      logged := logged + p5;
      ghost var d5 := db;
      before := importresults;
      p6 := ImportComponentVariants(Get2(data, TableName(CompVariant)), components);
      LogGrows(old(importresults), logged, before, p6, importresults);
      logged := logged + p6;
      ghost var d6 := db;
      UpdateFlavorVariantCategory();
      assert !dryrun ==> LiveImport(d0, doc, consts, svc) == (Backfill(d6, svc), catmap);
      assert dryrun ==> d6 == d0;
      compmap := components;
      XmlLogOf(d0, doc, consts, svc, dryrun, catmap, compmap, d1, d2, d3, d4, d5, p1, p2, p3, p4, p5, p6);
      return Ok(catmap), logged, compmap;
    }

    /** The batch `importfiles` works with. */
    function Batch(categoryid: int, metadata: Metadata, categoryname: string): FileBatch
    {
      FileBatch(categoryid, metadata, categoryname, dryrun, consts, svc.acceptsFile)
    }

    /** One iteration of the `importfiles` loop: a skipped entry changes nothing; otherwise
        the stored file at the destination is replaced, left unchanged or created (with
        the metadata of its first matching entry), and the outcome is logged. */
    method ImportFile(f: StagedFile, categoryid: int, metadata: Metadata, categoryname: string) returns (refused: Option<ImportError>)
      modifies this
      ensures db == old(db)
      ensures match StepOf(old(files), f, Batch(categoryid, metadata, categoryname))
        case Skip => refused == None && files == old(files) && importresults == old(importresults)
        case Refused(e) => refused == Some(e) && files == old(files) && importresults == old(importresults)
        case Step(next, ev) => refused == None && files == next && importresults == old(importresults) + [ev]
    {
      refused := None;
      if Skipped(f, consts) {
        return;
      }
      var key := FileKey(categoryid, DestPath(f, categoryname), f.filename);
      var shown := key.filepath + f.filename;
      var code: ResultCode;
      if key in files {
        if files[key].contenthash != f.contenthash {
          if !dryrun {
            files := files[key := files[key].(contenthash := f.contenthash)];
          }
          code := ReplaceFile;
        } else {
          code := UnchangedFile;
        }
      } else {
        if !dryrun {
          var meta := FindFileMetadata(metadata, categoryname, f.filename);
          if !svc.acceptsFile(key) {
            return Some(FileImport(shown));
          }
          files := files[key := StoredFile(f.contenthash, meta)];
        }
        code := NewFile;
      }
      importresults := importresults + [ImportResult(code, shown)];
    }

    /** `importfiles`: the staged assets of a category, in order, until the file store
        refuses a new file; a dry run writes nothing. */
    method ImportFiles(staged: seq<StagedFile>, categoryid: int, metadata: Metadata, categoryname: string) returns (status: Status)
      modifies this
      ensures db == old(db)
      ensures var run := FilesRun(old(files), staged, Batch(categoryid, metadata, categoryname));
        && files == run.files && status == run.status
        && importresults == old(importresults) + run.events
    {
      ghost var b := Batch(categoryid, metadata, categoryname);
      ghost var target := FilesRun(files, staged, b);
      ghost var logged: seq<ImportResult> := [];
      FilesLoopStart(files, staged, b);
      var i := 0;
      while i < |staged|
        invariant db == old(db)
        invariant importresults == old(importresults) + logged
        invariant FilesLoop(target, files, staged, i, b, logged)
      {
        FilesLoopNext(target, files, staged, i, b, logged);
        ghost var step := StepOf(files, staged[i], b);
        ghost var log0 := importresults;
        var refused := ImportFile(staged[i], categoryid, metadata, categoryname);
        if refused.Some? {
          return Failed(refused.value);
        }
        if step.Step? {
          LogGrows(old(importresults), logged, log0, [step.result], importresults);
          logged := logged + [step.result];
        }
        i := i + 1;
      }
      FilesLoopEnd(target, files, staged, b, logged);
      return Done;
    }

    /** `update_files_metadata` on the category's metadata file: its rows flattened and
        grouped by the element they were found under; no metadata when the file is
        missing, not well-formed or empty. */
    method UpdateFilesMetadata(source: MetaSource) returns (data: Metadata)
      ensures data == MetadataOf(source)
    {
      if !source.Parsed? || source.nodes == [] {
        return map[];
      }
      var nodes := source.nodes;
      data := map[];
      var i := 0;
      while i < |nodes|
        invariant 0 <= i <= |nodes|
        invariant MetaGrouped(data, nodes[..i])
      {
        ghost var before := data;
        var rows := FlattenRows(nodes[i].rows);
        data := AppendRows(data, nodes[i].name, rows);
        MetaGroupedStep(before, data, nodes, i, rows);
        i := i + 1;
      }
      assert nodes[..i] == nodes;
      MetaGroupedIsGroupedMetadata(data, nodes);
    }

    /** One iteration of the category loop of `import`: the category's metadata file is
        read, then its staged files are imported under its id. */
    method ImportCategoryFiles(cat: (int, string), bundle: Bundle) returns (status: Status)
      modifies this
      ensures db == old(db)
      ensures var run := CategoryRun(old(files), bundle, cat, dryrun, consts, svc.acceptsFile);
        && files == run.files && status == run.status
        && importresults == old(importresults) + run.events
    {
      var metadata := UpdateFilesMetadata(MetadataFileOf(bundle, cat.1));
      assert Batch(cat.0, metadata, cat.1) == CategoryBatch(bundle, cat, dryrun, consts, svc.acceptsFile);
      status := ImportFiles(StagedUnder(bundle, cat.1), cat.0, metadata, cat.1);
    }

    /** The category loop of `import`: the files of each selected category, in turn,
        until a file is refused. */
    method ImportBundleFiles(cats: seq<(int, string)>, bundle: Bundle) returns (status: Status)
      modifies this
      ensures db == old(db)
      ensures var run := BundleFilesRun(old(files), cats, 0, bundle, dryrun, consts, svc.acceptsFile);
        && files == run.files && status == run.status
        && importresults == old(importresults) + run.events
    {
      ghost var target := BundleFilesRun(files, cats, 0, bundle, dryrun, consts, svc.acceptsFile);
      ghost var logged: seq<ImportResult> := [];
      var i := 0;
      while i < |cats|
        invariant db == old(db)
        invariant importresults == old(importresults) + logged
        invariant BundleLoop(target, files, cats, i, bundle, dryrun, consts, svc.acceptsFile, logged)
      {
        ghost var run := CategoryRun(files, bundle, cats[i], dryrun, consts, svc.acceptsFile);
        BundleLoopNext(target, files, cats, i, bundle, dryrun, consts, svc.acceptsFile, logged, run);
        ghost var log0 := importresults;
        status := ImportCategoryFiles(cats[i], bundle);
        LogGrows(old(importresults), logged, log0, run.events, importresults);
        if status.Failed? {
          return status;
        }
        logged := logged + run.events;
        i := i + 1;
      }
      BundleLoopEnd(target, files, cats, bundle, dryrun, consts, svc.acceptsFile, logged);
      return Done;
    }

    /** `import`: the descriptor of the unpacked bundle is imported, then the files of
        every category the import mapped. Nothing happens without a bundle; a bundle
        without a descriptor, a rejected descriptor and an empty category map each end the
        import with their error. `xmlLog` is what `importxml` logged. */
    method Import(bundle: Bundle) returns (status: Status, catmap: map<string, int>, ghost xmlLog: seq<ImportResult>, ghost compmap: map<string, int>)
      requires Valid()
      modifies this
      ensures Valid()
      ensures !Imported(bundle, consts) ==>
        db == old(db) && files == old(files) && importresults == old(importresults) && xmlLog == []
      ensures !bundle.found ==> status == Done
      ensures bundle.found && DescriptorOf(bundle, consts).None? ==> status == Failed(MissingXml)
      ensures bundle.found && DescriptorOf(bundle, consts).Some? && !Imported(bundle, consts) ==>
        status.Failed? && RejectedWith(DescriptorOf(bundle, consts).value, consts, status.error)
      ensures Imported(bundle, consts) ==>
        forall k :: k in catmap <==> k in IdsOf(Filed(ImportedDocument(bundle, consts), consts, Compcat))
      ensures Imported(bundle, consts) && !dryrun ==>
        (db, catmap) == LiveImport(old(db), ImportedDocument(bundle, consts), consts, svc)
      ensures Imported(bundle, consts) && dryrun ==> db == Backfill(old(db), svc)
      ensures Imported(bundle, consts) && dryrun ==>
        ResolvesAllStored(old(db), Compcat, catmap, Filed(ImportedDocument(bundle, consts), consts, Compcat))
      ensures Imported(bundle, consts) ==>
        xmlLog == XmlLog(old(db), ImportedDocument(bundle, consts), consts, svc, dryrun, catmap, compmap)
      ensures Imported(bundle, consts) && |catmap| == 0 ==>
        status == Failed(EmptyCategorySelection) && files == old(files) && importresults == old(importresults) + xmlLog
      ensures Imported(bundle, consts) && |catmap| != 0 ==>
        var run := BundleFilesRun(old(files), SelectedCategories(db.compcat, catmap.Values), 0, bundle, dryrun, consts, svc.acceptsFile);
        && files == run.files && status == run.status
        && importresults == old(importresults) + xmlLog + run.events
    {
      catmap, xmlLog, compmap := map[], [], map[];
      if !bundle.found {
        return Done, catmap, xmlLog, compmap;
      }
      var xml := DescriptorOf(bundle, consts);
      if xml.None? {
        return Failed(MissingXml), catmap, xmlLog, compmap;
      }
      var outcome;
      outcome, xmlLog, compmap := ImportXml(xml.value);
      if outcome.Fail? {
        return Failed(outcome.error), catmap, xmlLog, compmap;
      }
      catmap := outcome.categorymap;
      if |catmap| == 0 {
        return Failed(EmptyCategorySelection), catmap, xmlLog, compmap;
      }
      var cats := SelectedCategories(db.compcat, catmap.Values);
      ghost var before := importresults;
      ghost var run := BundleFilesRun(files, cats, 0, bundle, dryrun, consts, svc.acceptsFile);
      status := ImportBundleFiles(cats, bundle);
      LogGrows(old(importresults), xmlLog, before, run.events, importresults);
    }
  }
}
