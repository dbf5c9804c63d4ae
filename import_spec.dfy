/** What the bundle importer of tiny_elements (`classes/importer.php`) leaves in the store
    outside a dry run, as functions: one per table pass, each a fold of the per-row write,
    and the properties those writes keep. The `Importer` class is proved against them. */
module ImportSpec {
  import opened Php
  import opened RecordStore
  import opened Descriptor
  import opened Results
  import opened FileImport

  const PHP_INT_MAX: int := 0x7FFF_FFFF_FFFF_FFFF

  /** The importer's collaborators whose code is not part of this model, as functions:
      `utils::update_pluginfile_tags` (old id, new id, text), `utils::update_pluginfile_tags_bulk`
      (category map, text, whether called with 'import'), `manager::get_compcatname_for_flavor`
      and `…_for_variant` (which read the store), and whether the file store creates a file
      at a key. */
  datatype Services = Services(
    updateTags: (string, int, string) -> string,
    updateTagsBulk: (map<string, int>, string, bool) -> string,
    compcatNameForFlavor: (Db, string) -> string,
    compcatNameForVariant: (Db, string) -> string,
    acceptsFile: FileKey -> bool)

  /** What `importxml` hands back: the category id map, or the reason it stopped. */
  datatype Outcome = Ok(categorymap: map<string, int>) | Fail(error: ImportError)

  /** A record with this natural key is stored. */
  predicate Stored(db: Db, t: Table, key: Key)
  {
    Lookup(db.Rows(t), t, key).Some?
  }

  /** The id of the record stored under `key`. */
  function StoredId(db: Db, t: Table, key: Key): int
    requires Stored(db, t, key)
  {
    Lookup(db.Rows(t), t, key).value.id
  }

  // ----- categories -----

  /** What `import_category` leaves in the store outside a dry run, and the id it returns:
      the category is upserted by name; when its descriptor id differs from the stored id,
      the css is rewritten for the new id and written again. */
  function CategoryWrite(db: Db, row: Row, svc: Services): (r: (Db, int))
    ensures r.0.nextId >= db.nextId
    ensures forall u :: u != Compcat ==> r.0.Rows(u) == db.Rows(u)
  {
    var (d1, id) := db.Upsert(Compcat, row);
    if Get(row, "id") != IdText(id) then
      var rewritten := row["css" := svc.updateTags(Get(row, "id"), id, Get(row, "css"))];
      (d1.Update(Compcat, id, rewritten), id)
    else
      (d1, id)
  }

  /** The category write keeps the store valid and returns a positive id. */
  lemma CategoryWriteKeepsValid(db: Db, row: Row, svc: Services)
    requires db.Valid()
    ensures var r := CategoryWrite(db, row, svc);
      r.0.Valid() && 0 < r.1
  {
    var (d1, id) := db.Upsert(Compcat, row);
    UpsertKeepsValid(db, Compcat, row);
    UpsertStores(db, Compcat, row);
    LookupIdInRange(d1, Compcat, Name(Get(row, "name")));
    if Get(row, "id") != IdText(id) {
      var rewritten := row["css" := svc.updateTags(Get(row, "id"), id, Get(row, "css"))];
      assert KeyOf(Compcat, rewritten) == KeyOf(Compcat, row);
      UpsertUpdateCase(d1, Compcat, rewritten);
    }
  }

  /** The category upsert: a category whose name is already stored keeps its id (the id
      returned), any other is stored under a fresh id; afterwards the name resolves to the
      returned id and every category stored before still resolves to its old id. */
  lemma CategoryWriteIds(db: Db, row: Row, svc: Services)
    requires db.Valid()
    ensures var r := CategoryWrite(db, row, svc);
      var key := Name(Get(row, "name"));
      && (Stored(db, Compcat, key) ==> r.1 == StoredId(db, Compcat, key))
      && (!Stored(db, Compcat, key) ==> r.1 == db.nextId)
      && Stored(r.0, Compcat, key) && StoredId(r.0, Compcat, key) == r.1
      && KeepsKeyIds(Compcat, db.compcat, r.0.compcat)
  {
    var (d1, id) := db.Upsert(Compcat, row);
    UpsertFound(db, Compcat, row);
    UpsertStores(db, Compcat, row);
    UpsertKeepsKeyIds(db, Compcat, row);
    if Get(row, "id") != IdText(id) {
      var rewritten := row["css" := svc.updateTags(Get(row, "id"), id, Get(row, "css"))];
      assert KeyOf(Compcat, rewritten) == KeyOf(Compcat, row);
      UpsertKeepsValid(db, Compcat, row);
      UpdateAtKey(Compcat, d1.compcat, rewritten, d1.nextId);
      SameShapeKeepsKeyIds(Compcat, d1.compcat, d1.Update(Compcat, id, rewritten).compcat);
    }
  }

  /** The stored category carries every column of the descriptor row except `id` and `css`. */
  lemma CategoryWriteColumns(db: Db, row: Row, svc: Services)
    requires db.Valid()
    ensures var r := CategoryWrite(db, row, svc);
      var stored := Lookup(r.0.compcat, Compcat, Name(Get(row, "name")));
      && stored.Some?
      && forall c :: c in row && c != "id" && c != "css" ==> c in stored.value.fields && stored.value.fields[c] == row[c]
  {
    var (d1, id) := db.Upsert(Compcat, row);
    UpsertStores(db, Compcat, row);
    CategoryWriteAfterUpsert(db, row, svc, d1, id);
    if Get(row, "id") != IdText(id) {
      UpsertKeepsValid(db, Compcat, row);
      ValidTable(d1, Compcat);
      CssWriteKeepsColumns(d1, id, row, svc.updateTags(Get(row, "id"), id, Get(row, "css")));
    }
  }

  /** Writing a css column over the stored category of a row keeps the row's other
      columns on it. */
  lemma CssWriteKeepsColumns(d1: Db, id: int, row: Row, css: string)
    requires TableValid(Compcat, d1.compcat, d1.nextId)
    requires Stored(d1, Compcat, KeyOf(Compcat, row)) && StoredId(d1, Compcat, KeyOf(Compcat, row)) == id
    ensures var stored := Lookup(d1.Update(Compcat, id, row["css" := css]).compcat, Compcat, Name(Get(row, "name")));
      && stored.Some?
      && forall c :: c in row && c != "id" && c != "css" ==> c in stored.value.fields && stored.value.fields[c] == row[c]
  {
    var rewritten := row["css" := css];
    assert KeyOf(Compcat, rewritten) == KeyOf(Compcat, row);
    RewriteStoresColumns(d1, row, rewritten);
  }

  /** The css of the stored category: rewritten for the new id whenever the descriptor
      id differs from it, the descriptor's own css otherwise. */
  lemma CategoryWriteCss(db: Db, row: Row, svc: Services)
    requires db.Valid()
    ensures var r := CategoryWrite(db, row, svc);
      var stored := Lookup(r.0.compcat, Compcat, Name(Get(row, "name")));
      && stored.Some?
      && (Get(row, "id") != IdText(r.1) ==>
            "css" in stored.value.fields && stored.value.fields["css"] == svc.updateTags(Get(row, "id"), r.1, Get(row, "css")))
      && (Get(row, "id") == IdText(r.1) && "css" in row ==> "css" in stored.value.fields && stored.value.fields["css"] == row["css"])
  {
    var (d1, id) := db.Upsert(Compcat, row);
    assert CategoryWrite(db, row, svc).1 == id;
    if Get(row, "id") != IdText(id) {
      CategoryCssRewritten(db, row, svc);
    } else {
      CategoryCssKept(db, row, svc);
    }
  }

  lemma CategoryCssRewritten(db: Db, row: Row, svc: Services)
    requires db.Valid()
    requires Get(row, "id") != IdText(db.Upsert(Compcat, row).1)
    ensures var r := CategoryWrite(db, row, svc);
      var stored := Lookup(r.0.compcat, Compcat, Name(Get(row, "name")));
      && stored.Some?
      && "css" in stored.value.fields && stored.value.fields["css"] == svc.updateTags(Get(row, "id"), r.1, Get(row, "css"))
  {
    var (d1, id) := db.Upsert(Compcat, row);
    UpsertStores(db, Compcat, row);
    UpsertKeepsValid(db, Compcat, row);
    CategoryWriteAfterUpsert(db, row, svc, d1, id);
    ValidTable(d1, Compcat);
    CssWriteStored(d1, id, row, svc.updateTags(Get(row, "id"), id, Get(row, "css")));
  }

  /** Writing a css column over the stored category of a row leaves it where the row's
      name finds it, carrying that css. */
  lemma CssWriteStored(d1: Db, id: int, row: Row, css: string)
    requires TableValid(Compcat, d1.compcat, d1.nextId)
    requires Stored(d1, Compcat, KeyOf(Compcat, row)) && StoredId(d1, Compcat, KeyOf(Compcat, row)) == id
    ensures var stored := Lookup(d1.Update(Compcat, id, row["css" := css]).compcat, Compcat, Name(Get(row, "name")));
      && stored.Some?
      && "css" in stored.value.fields && stored.value.fields["css"] == css
  {
    var rewritten := row["css" := css];
    assert KeyOf(Compcat, rewritten) == KeyOf(Compcat, row);
    UpdateAtKey(Compcat, d1.compcat, rewritten, d1.nextId);
  }

  /** `CategoryWrite` as the upsert followed, when the ids differ, by the css rewrite. */
  lemma CategoryWriteUnfolds(db: Db, row: Row, svc: Services)
    ensures var (d1, id) := db.Upsert(Compcat, row);
      CategoryWrite(db, row, svc) ==
        if Get(row, "id") != IdText(id)
        then (d1.Update(Compcat, id, row["css" := svc.updateTags(Get(row, "id"), id, Get(row, "css"))]), id)
        else (d1, id)
  {
  }

  /** `CategoryWrite` in terms of the upsert's result. */
  lemma CategoryWriteAfterUpsert(db: Db, row: Row, svc: Services, d1: Db, id: int)
    requires (d1, id) == db.Upsert(Compcat, row)
    ensures CategoryWrite(db, row, svc).1 == id
    ensures CategoryWrite(db, row, svc).0 ==
      if Get(row, "id") != IdText(id)
      then d1.Update(Compcat, id, row["css" := svc.updateTags(Get(row, "id"), id, Get(row, "css"))])
      else d1
  {
  }

  /** The store `import_category` leaves outside a dry run is `CategoryWrite`'s, and valid. */
  lemma CategoryWriteIs(db: Db, row: Row, svc: Services, d1: Db, id: int, d2: Db)
    requires db.Valid() && (d1, id) == db.Upsert(Compcat, row)
    requires d2 == if Get(row, "id") != IdText(id)
      then d1.Update(Compcat, id, row["css" := svc.updateTags(Get(row, "id"), id, Get(row, "css"))])
      else d1
    ensures (d2, id) == CategoryWrite(db, row, svc) && d2.Valid()
  {
    CategoryWriteAfterUpsert(db, row, svc, d1, id);
    CategoryWriteKeepsValid(db, row, svc);
  }

  lemma CategoryCssKept(db: Db, row: Row, svc: Services)
    requires db.Valid()
    requires Get(row, "id") == IdText(db.Upsert(Compcat, row).1)
    ensures var r := CategoryWrite(db, row, svc);
      var stored := Lookup(r.0.compcat, Compcat, Name(Get(row, "name")));
      && stored.Some?
      && ("css" in row ==> "css" in stored.value.fields && stored.value.fields["css"] == row["css"])
  {
    var (d1, id) := db.Upsert(Compcat, row);
    UpsertStores(db, Compcat, row);
    CategoryWriteUnfolds(db, row, svc);
  }

  /** The second `update_record` of `import_category` on a stored category: the record
      stays under its key and takes every column of the rewritten row but `id`. */
  lemma RewriteStoresColumns(d1: Db, row: Row, rewritten: Row)
    requires TableValid(Compcat, d1.compcat, d1.nextId)
    requires KeyOf(Compcat, rewritten) == KeyOf(Compcat, row)
    requires Stored(d1, Compcat, KeyOf(Compcat, row))
    ensures var id := StoredId(d1, Compcat, KeyOf(Compcat, row));
      var stored := Lookup(d1.Update(Compcat, id, rewritten).compcat, Compcat, KeyOf(Compcat, row));
      && stored.Some? && stored.value.id == id
      && forall c :: c in rewritten && c != "id" ==> c in stored.value.fields && stored.value.fields[c] == rewritten[c]
  {
    UpdateAtKey(Compcat, d1.compcat, rewritten, d1.nextId);
    MergeCarries(Lookup(d1.compcat, Compcat, KeyOf(Compcat, row)).value.fields, rewritten);
  }

  // ----- tag rewriting -----

  /** `update_pluginfile_tags_bulk` applied to the listed columns of a row (an absent
      column is read as ''); every other column is kept as it is. */
  function Rewritten(row: Row, columns: set<string>, catmap: map<string, int>, svc: Services, forImport: bool): (rec: Row)
    ensures forall c :: c in columns ==> c in rec && rec[c] == svc.updateTagsBulk(catmap, Get(row, c), forImport)
    ensures forall c :: c !in columns ==> (c in rec <==> c in row) && (c in row ==> rec[c] == row[c])
  {
    map c | c in row.Keys + columns :: if c in columns then svc.updateTagsBulk(catmap, Get(row, c), forImport) else row[c]
  }

  /** The record `import_flavor` stores: css and content rewritten with 'import'. */
  function FlavorRecord(row: Row, catmap: map<string, int>, svc: Services): (rec: Row)
    ensures KeyOf(Flavor, rec) == KeyOf(Flavor, row)
    ensures forall c :: c != "css" && c != "content" ==> (c in rec <==> c in row) && (c in row ==> rec[c] == row[c])
  {
    Rewritten(row, {"css", "content"}, catmap, svc, true)
  }

  /** The record `import_variant` stores: css, content and icon url rewritten. */
  function VariantRecord(row: Row, catmap: map<string, int>, svc: Services): (rec: Row)
    ensures KeyOf(Variant, rec) == KeyOf(Variant, row)
    ensures forall c :: c != "css" && c != "content" && c != "iconurl" ==> (c in rec <==> c in row) && (c in row ==> rec[c] == row[c])
  {
    Rewritten(row, {"css", "content", "iconurl"}, catmap, svc, false)
  }

  /** The record `import_component_flavor` stores: the icon url rewritten. */
  function CompFlavorRecord(row: Row, catmap: map<string, int>, svc: Services): (rec: Row)
    ensures KeyOf(CompFlavor, rec) == KeyOf(CompFlavor, row)
    ensures forall c :: c != "iconurl" ==> (c in rec <==> c in row) && (c in row ==> rec[c] == row[c])
  {
    Rewritten(row, {"iconurl"}, catmap, svc, false)
  }

  /** Rewriting tag columns never touches a natural key column. */
  lemma RewrittenKeepsKey(t: Table, row: Row, columns: set<string>, catmap: map<string, int>, svc: Services, forImport: bool)
    requires "name" !in columns && "componentname" !in columns && RelationColumn(t) !in columns
    ensures KeyOf(t, Rewritten(row, columns, catmap, svc, forImport)) == KeyOf(t, row)
  {
  }

  // ----- components -----

  /** `get_field(…, 'name', ['id' => $id])`, with PHP's `false` for a missing record read as ''. */
  function NameById(rows: seq<Record>, id: int): (name: string)
    ensures (forall i :: 0 <= i < |rows| ==> rows[i].id != id) ==> name == ""
    ensures name != "" ==> exists i :: 0 <= i < |rows| && rows[i].id == id && Get(rows[i].fields, "name") == name
  {
    match FieldById(rows, id, "name")
    case Some(name) => name
    case None => ""
  }

  /** The component row carries a category id of this import. */
  predicate RemapsCategory(row: Row, catmap: map<string, int>)
  {
    "compcat" in row && row["compcat"] in catmap
  }

  const ComponentTagColumns: set<string> := {"css", "code", "js", "iconurl"}

  /** The record `import_component` stores: its category reference remapped to the
      category's new id (with that category's name) when the category is part of the
      import, and its css, code, js and icon url rewritten. */
  function PreparedComponent(db: Db, row: Row, catmap: map<string, int>, svc: Services): (rec: Row)
    ensures KeyOf(Component, rec) == KeyOf(Component, row)
  {
    Rewritten(ComponentBase(db, row, catmap), ComponentTagColumns, catmap, svc, false)
  }

  /** The component row with its category reference remapped, before tag rewriting. */
  function ComponentBase(db: Db, row: Row, catmap: map<string, int>): (rec: Row)
    ensures KeyOf(Component, rec) == KeyOf(Component, row)
    ensures !RemapsCategory(row, catmap) ==> rec == row
    ensures forall c :: c != "compcat" && c != "categoryname" ==> (c in rec <==> c in row) && (c in row ==> rec[c] == row[c])
  {
    if RemapsCategory(row, catmap) then
      var id := catmap[row["compcat"]];
      row["compcat" := IdText(id)]["categoryname" := NameById(db.compcat, id)]
    else row
  }

  /** A category reference of this import is replaced by the category's new id and name. */
  lemma PreparedComponentRemap(db: Db, row: Row, catmap: map<string, int>, svc: Services)
    requires RemapsCategory(row, catmap)
    ensures var rec := PreparedComponent(db, row, catmap, svc);
      && "compcat" in rec && rec["compcat"] == IdText(catmap[row["compcat"]])
      && "categoryname" in rec && rec["categoryname"] == NameById(db.compcat, catmap[row["compcat"]])
  {
    assert "compcat" !in ComponentTagColumns && "categoryname" !in ComponentTagColumns;
  }

  /** The css, code, js and icon url are always present, rewritten through the category map. */
  lemma PreparedComponentTags(db: Db, row: Row, catmap: map<string, int>, svc: Services, c: string)
    requires c in ComponentTagColumns
    ensures var rec := PreparedComponent(db, row, catmap, svc);
      c in rec && rec[c] == svc.updateTagsBulk(catmap, Get(row, c), false)
  {
    var base := ComponentBase(db, row, catmap);
    assert Get(base, c) == Get(row, c);
  }

  /** Every other column is kept as the descriptor gives it. */
  lemma PreparedComponentOthers(db: Db, row: Row, catmap: map<string, int>, svc: Services, c: string)
    requires c !in ComponentTagColumns
    requires (c != "compcat" && c != "categoryname") || !RemapsCategory(row, catmap)
    ensures var rec := PreparedComponent(db, row, catmap, svc);
      (c in rec <==> c in row) && (c in row ==> rec[c] == row[c])
  {
  }

  /** The prepared component keeps its name and its two relation lists. */
  lemma PreparedComponentLists(db: Db, row: Row, catmap: map<string, int>, svc: Services)
    ensures var rec := PreparedComponent(db, row, catmap, svc);
      && Get(rec, "name") == Get(row, "name")
      && Get(rec, "flavors") == Get(row, "flavors")
      && Get(rec, "variants") == Get(row, "variants")
  {
    PreparedComponentOthers(db, row, catmap, svc, "name");
    PreparedComponentOthers(db, row, catmap, svc, "flavors");
    PreparedComponentOthers(db, row, catmap, svc, "variants");
  }

  /** The relation row the gap-fill of `import_component` looks up and inserts. */
  function RelationRecord(t: Table, componentname: string, other: string): (rec: Row)
    ensures KeyOf(t, rec) == Pair(componentname, other) || (t != CompFlavor && t != CompVariant)
    ensures "id" !in rec
  {
    map["componentname" := componentname, RelationColumn(t) := other]
  }

  /** One step of the gap-fill: a non-empty name whose relation is missing gets one. */
  function AddRelation(db: Db, t: Table, componentname: string, other: string): (r: Db)
    requires t == CompFlavor || t == CompVariant
    ensures other == "" || Stored(r, t, Pair(componentname, other))
  {
    if other == "" || Stored(db, t, Pair(componentname, other)) then db
    else
      var rec := RelationRecord(t, componentname, other);
      assert rec - {"id"} == rec;
      AppendFound(t, db.Rows(t), Record(db.nextId, rec));
      db.Insert(t, rec).0
  }

  /** Adding a missing relation keeps the store valid. */
  lemma AddRelationKeepsValid(db: Db, t: Table, componentname: string, other: string)
    requires db.Valid() && (t == CompFlavor || t == CompVariant)
    ensures AddRelation(db, t, componentname, other).Valid()
  {
    if !(other == "" || Stored(db, t, Pair(componentname, other))) {
      InsertKeepsValid(db, t, RelationRecord(t, componentname, other));
    }
  }

  /** The step either keeps the store or appends the relation at the end of its table. */
  lemma AddRelationAppends(db: Db, t: Table, componentname: string, other: string)
    requires t == CompFlavor || t == CompVariant
    ensures var r := AddRelation(db, t, componentname, other);
      && r.nextId >= db.nextId
      && (forall u :: u != t ==> r.Rows(u) == db.Rows(u))
      && (r.Rows(t) == db.Rows(t) ||
          (other != "" && r.Rows(t) == db.Rows(t) + [Record(db.nextId, RelationRecord(t, componentname, other))]))
  {
    var rec := RelationRecord(t, componentname, other);
    assert rec - {"id"} == rec;
    InsertShape(db, t, rec);
  }

  /** The gap-fill over a list of names: afterwards every non-empty name has its relation
      row; the relation table only grows at its end and no other table changes. */
  function Filled(db: Db, t: Table, componentname: string, names: seq<string>): (r: Db)
    requires t == CompFlavor || t == CompVariant
    ensures r.nextId >= db.nextId
    ensures forall u :: u != t ==> r.Rows(u) == db.Rows(u)
    ensures db.Rows(t) <= r.Rows(t)
    decreases |names|
  {
    if |names| == 0 then db
    else
      var d1 := AddRelation(db, t, componentname, names[0]);
      AddRelationAppends(db, t, componentname, names[0]);
      var r := Filled(d1, t, componentname, names[1..]);
      r
  }

  /** The gap-fill keeps the store valid. */
  lemma {:induction false} FilledKeepsValid(db: Db, t: Table, componentname: string, names: seq<string>)
    requires db.Valid() && (t == CompFlavor || t == CompVariant)
    ensures Filled(db, t, componentname, names).Valid()
    decreases |names|
  {
    if |names| > 0 {
      AddRelationKeepsValid(db, t, componentname, names[0]);
      FilledKeepsValid(AddRelation(db, t, componentname, names[0]), t, componentname, names[1..]);
    }
  }

  /** One step of the gap-fill loop as the source writes it: skip an empty name, look the
      relation up, insert it when missing. */
  lemma FilledStep(d: Db, t: Table, componentname: string, names: seq<string>, i: int, d': Db)
    requires (t == CompFlavor || t == CompVariant) && 0 <= i < |names|
    requires d' == AddRelation(d, t, componentname, names[i])
    ensures Filled(d', t, componentname, names[i + 1..]) == Filled(d, t, componentname, names[i..])
  {
    assert names[i..][0] == names[i] && names[i..][1..] == names[i + 1..];
  }

  /** After the gap-fill every non-empty name has its relation row. */
  lemma {:induction false} FilledStoresNames(db: Db, t: Table, componentname: string, names: seq<string>)
    requires t == CompFlavor || t == CompVariant
    ensures forall n :: n in names && n != "" ==> Stored(Filled(db, t, componentname, names), t, Pair(componentname, n))
    decreases |names|
  {
    if |names| > 0 {
      var d1 := AddRelation(db, t, componentname, names[0]);
      var r := Filled(d1, t, componentname, names[1..]);
      FilledStoresNames(d1, t, componentname, names[1..]);
      forall n | n in names && n != "" ensures Stored(r, t, Pair(componentname, n)) {
        if n !in names[1..] {
          PrefixKeepsKeyIds(t, d1.Rows(t), r.Rows(t));
        }
      }
    }
  }

  /** A row is the relation of the component to one of the (non-empty) names. */
  predicate RelationOfOneOf(fields: Row, t: Table, componentname: string, names: seq<string>)
  {
    exists n :: n in names && n != "" && fields == RelationRecord(t, componentname, n)
  }

  /** Every row the gap-fill adds is the relation of the component to one of the names. */
  lemma {:induction false} FilledAddsOnlyNamedRelations(db: Db, t: Table, componentname: string, names: seq<string>, i: int)
    requires t == CompFlavor || t == CompVariant
    requires |db.Rows(t)| <= i < |Filled(db, t, componentname, names).Rows(t)|
    ensures RelationOfOneOf(Filled(db, t, componentname, names).Rows(t)[i].fields, t, componentname, names)
    decreases |names|
  {
    var d1 := AddRelation(db, t, componentname, names[0]);
    AddRelationAppends(db, t, componentname, names[0]);
    var r := Filled(d1, t, componentname, names[1..]);
    if i < |d1.Rows(t)| {
      assert r.Rows(t)[i] == d1.Rows(t)[i];
      assert names[0] in names;
    } else {
      FilledAddsOnlyNamedRelations(d1, t, componentname, names[1..], i);
      var n :| n in names[1..] && n != "" && r.Rows(t)[i].fields == RelationRecord(t, componentname, n);
      assert n in names;
    }
  }

  /** What `import_component` leaves in the store outside a dry run, and the id it returns:
      the prepared component is upserted by name, then every non-empty name in its
      comma-separated `flavors` and `variants` gets its relation row. */
  function ComponentWrite(db: Db, row: Row, catmap: map<string, int>, svc: Services): (r: (Db, int))
    ensures r.0.nextId >= db.nextId
  {
    var rec := PreparedComponent(db, row, catmap, svc);
    var name := Get(rec, "name");
    var (d1, id) := db.Upsert(Component, rec);
    var d2 := FillPass(d1, CompFlavor, name, Get(rec, "flavors"));
    var d3 := FillPass(d2, CompVariant, name, Get(rec, "variants"));
    (d3, id)
  }

  /** `ComponentWrite` in terms of the upsert's result. */
  lemma ComponentWriteAfterUpsert(db: Db, row: Row, catmap: map<string, int>, svc: Services, d1: Db, id: int)
    requires (d1, id) == db.Upsert(Component, PreparedComponent(db, row, catmap, svc))
    ensures var rec := PreparedComponent(db, row, catmap, svc);
      && ComponentWrite(db, row, catmap, svc).1 == id
      && ComponentWrite(db, row, catmap, svc).0 ==
           FillPass(FillPass(d1, CompFlavor, Get(rec, "name"), Get(rec, "flavors")), CompVariant, Get(rec, "name"), Get(rec, "variants"))
  {
  }

  /** One relation pass of `import_component`: skipped when the list column is falsy,
      otherwise every name of the comma-separated list gets its relation row. */
  function FillPass(db: Db, t: Table, componentname: string, list: string): (r: Db)
    requires t == CompFlavor || t == CompVariant
    ensures r.nextId >= db.nextId
    ensures r.compcat == db.compcat && r.component == db.component
    ensures r.flavor == db.flavor && r.variant == db.variant
    ensures t == CompFlavor ==> r.compVariant == db.compVariant
    ensures t == CompVariant ==> r.compFlavor == db.compFlavor
    ensures db.Rows(t) <= r.Rows(t)
  {
    if Empty(list) then db
    else
      var r := Filled(db, t, componentname, Explode(',', list));
      assert r.Rows(Compcat) == db.Rows(Compcat) && r.Rows(Component) == db.Rows(Component);
      assert r.Rows(Flavor) == db.Rows(Flavor) && r.Rows(Variant) == db.Rows(Variant);
      assert t == CompFlavor ==> r.Rows(CompVariant) == db.Rows(CompVariant);
      assert t == CompVariant ==> r.Rows(CompFlavor) == db.Rows(CompFlavor);
      r
  }

  /** After a pass every non-empty listed name has its relation, and earlier relations keep
      their ids. */
  lemma FillPassStores(db: Db, t: Table, componentname: string, list: string)
    requires t == CompFlavor || t == CompVariant
    ensures var r := FillPass(db, t, componentname, list);
      && (!Empty(list) ==> forall n :: n in Explode(',', list) && n != "" ==> Stored(r, t, Pair(componentname, n)))
      && KeepsKeyIds(t, db.Rows(t), r.Rows(t))
  {
    if !Empty(list) {
      FilledStoresNames(db, t, componentname, Explode(',', list));
    }
    PrefixKeepsKeyIds(t, db.Rows(t), FillPass(db, t, componentname, list).Rows(t));
  }

  /** A relation pass keeps the store valid. */
  lemma FillPassKeepsValid(db: Db, t: Table, componentname: string, list: string)
    requires db.Valid() && (t == CompFlavor || t == CompVariant)
    ensures FillPass(db, t, componentname, list).Valid()
  {
    if !Empty(list) {
      FilledKeepsValid(db, t, componentname, Explode(',', list));
    }
  }

  /** The component write keeps the store valid. */
  lemma ComponentWriteKeepsValid(db: Db, row: Row, catmap: map<string, int>, svc: Services)
    requires db.Valid()
    ensures ComponentWrite(db, row, catmap, svc).0.Valid()
  {
    var rec := PreparedComponent(db, row, catmap, svc);
    var name := Get(rec, "name");
    var d1 := db.Upsert(Component, rec).0;
    UpsertKeepsValid(db, Component, rec);
    FillPassKeepsValid(d1, CompFlavor, name, Get(rec, "flavors"));
    FillPassKeepsValid(FillPass(d1, CompFlavor, name, Get(rec, "flavors")), CompVariant, name, Get(rec, "variants"));
  }

  /** The component passes touch neither categories, flavors nor variants. */
  lemma ComponentWriteFrame(db: Db, row: Row, catmap: map<string, int>, svc: Services)
    ensures var r := ComponentWrite(db, row, catmap, svc);
      r.0.compcat == db.compcat && r.0.flavor == db.flavor && r.0.variant == db.variant
  {
    var rec := PreparedComponent(db, row, catmap, svc);
    var (d1, id) := db.Upsert(Component, rec);
    assert d1.Rows(Compcat) == db.Rows(Compcat) && d1.Rows(Flavor) == db.Rows(Flavor) && d1.Rows(Variant) == db.Rows(Variant);
    RelationPassesKeepEntities(d1, rec);
  }

  /** The two relation passes of `import_component` change only the relation tables. */
  lemma RelationPassesKeepEntities(d1: Db, rec: Row)
    ensures var name := Get(rec, "name");
      var d2 := FillPass(d1, CompFlavor, name, Get(rec, "flavors"));
      var d3 := FillPass(d2, CompVariant, name, Get(rec, "variants"));
      && d3.compcat == d1.compcat && d3.component == d1.component
      && d3.flavor == d1.flavor && d3.variant == d1.variant
      && d3.compFlavor == d2.compFlavor && d2.compVariant == d1.compVariant
  {
    var name := Get(rec, "name");
    var d2 := FillPass(d1, CompFlavor, name, Get(rec, "flavors"));
    var d3 := FillPass(d2, CompVariant, name, Get(rec, "variants"));
  }

  /** The component upsert: a component whose name is already stored keeps its id, any
      other gets a fresh one; afterwards the name resolves to the returned id, and no
      component stored before changes id. */
  lemma ComponentWriteIds(db: Db, row: Row, catmap: map<string, int>, svc: Services)
    requires db.Valid()
    ensures var r := ComponentWrite(db, row, catmap, svc);
      var key := Name(Get(row, "name"));
      && (Stored(db, Component, key) ==> r.1 == StoredId(db, Component, key))
      && (!Stored(db, Component, key) ==> r.1 == db.nextId)
      && Stored(r.0, Component, key) && StoredId(r.0, Component, key) == r.1
      && KeepsKeyIds(Component, db.component, r.0.component)
  {
    var rec := PreparedComponent(db, row, catmap, svc);
    UpsertFound(db, Component, rec);
    UpsertStores(db, Component, rec);
    UpsertKeepsKeyIds(db, Component, rec);
    ComponentTableAfterWrite(db, row, catmap, svc);
  }

  /** The stored component carries every column of the prepared record but `id`. */
  lemma ComponentWriteColumns(db: Db, row: Row, catmap: map<string, int>, svc: Services)
    requires db.Valid()
    ensures var r := ComponentWrite(db, row, catmap, svc);
      var rec := PreparedComponent(db, row, catmap, svc);
      var stored := Lookup(r.0.component, Component, Name(Get(row, "name")));
      && stored.Some?
      && forall c :: c in rec && c != "id" ==> c in stored.value.fields && stored.value.fields[c] == rec[c]
  {
    UpsertStores(db, Component, PreparedComponent(db, row, catmap, svc));
    ComponentTableAfterWrite(db, row, catmap, svc);
  }

  /** The relation passes leave the component table as the upsert left it. */
  lemma ComponentTableAfterWrite(db: Db, row: Row, catmap: map<string, int>, svc: Services)
    ensures var rec := PreparedComponent(db, row, catmap, svc);
      && KeyOf(Component, rec) == Name(Get(row, "name"))
      && ComponentWrite(db, row, catmap, svc).0.component == db.Upsert(Component, rec).0.component
      && ComponentWrite(db, row, catmap, svc).1 == db.Upsert(Component, rec).1
  {
    var rec := PreparedComponent(db, row, catmap, svc);
    var (d1, id) := db.Upsert(Component, rec);
    RelationPassesKeepEntities(d1, rec);
  }

  /** Every non-empty name listed in the component's `flavors` has its relation row
      afterwards, and no flavor relation stored before changes id. */
  lemma ComponentWriteFillsFlavors(db: Db, row: Row, catmap: map<string, int>, svc: Services)
    ensures var r := ComponentWrite(db, row, catmap, svc);
      && (!Empty(Get(row, "flavors")) ==>
            forall f :: f in Explode(',', Get(row, "flavors")) && f != "" ==> Stored(r.0, CompFlavor, Pair(Get(row, "name"), f)))
      && KeepsKeyIds(CompFlavor, db.compFlavor, r.0.compFlavor)
  {
    var rec := PreparedComponent(db, row, catmap, svc);
    var name := Get(rec, "name");
    PreparedComponentLists(db, row, catmap, svc);
    var (d1, id) := db.Upsert(Component, rec);
    assert d1.compFlavor == db.compFlavor;
    var d2 := FillPass(d1, CompFlavor, name, Get(rec, "flavors"));
    var d3 := FillPass(d2, CompVariant, name, Get(rec, "variants"));
    assert ComponentWrite(db, row, catmap, svc) == (d3, id);
    FillPassStores(d1, CompFlavor, name, Get(rec, "flavors"));
  }

  /** Every non-empty name listed in the component's `variants` has its relation row
      afterwards, and no variant relation stored before changes id. */
  lemma ComponentWriteFillsVariants(db: Db, row: Row, catmap: map<string, int>, svc: Services)
    ensures var r := ComponentWrite(db, row, catmap, svc);
      && (!Empty(Get(row, "variants")) ==>
            forall v :: v in Explode(',', Get(row, "variants")) && v != "" ==> Stored(r.0, CompVariant, Pair(Get(row, "name"), v)))
      && KeepsKeyIds(CompVariant, db.compVariant, r.0.compVariant)
  {
    var rec := PreparedComponent(db, row, catmap, svc);
    var name := Get(rec, "name");
    PreparedComponentLists(db, row, catmap, svc);
    var (d1, id) := db.Upsert(Component, rec);
    assert d1.compVariant == db.compVariant;
    var d2 := FillPass(d1, CompFlavor, name, Get(rec, "flavors"));
    var d3 := FillPass(d2, CompVariant, name, Get(rec, "variants"));
    assert ComponentWrite(db, row, catmap, svc) == (d3, id);
    FillPassStores(d2, CompVariant, name, Get(rec, "variants"));
  }

  // ----- component–variant relations -----

  /** The relation row `import_component_variant` works with. A row in the current shape
      (with `componentname`) is taken as it is; a row in the legacy shape names its
      component by old id, which is mapped to the new id and the component's name, and is
      dropped (None) when that component is not part of this import. */
  function ResolvedCompVariant(db: Db, row: Row, compmap: map<string, int>): (r: Option<Row>)
    ensures r.None? <==> "componentname" !in row && Get(row, "component") !in compmap
    ensures "componentname" in row ==> r == Some(row)
    ensures r.Some? && "componentname" !in row ==>
      var id := compmap[Get(row, "component")];
      && "component" in r.value && r.value["component"] == IdText(id)
      && "componentname" in r.value && r.value["componentname"] == NameById(db.component, id)
      && (forall c :: c != "component" && c != "componentname" ==>
            (c in r.value <==> c in row) && (c in row ==> r.value[c] == row[c]))
  {
    if "componentname" in row then Some(row)
    else if Get(row, "component") !in compmap then None
    else
      var id := compmap[Get(row, "component")];
      Some(row["component" := IdText(id)]["componentname" := NameById(db.component, id)])
  }

  /** What `import_component_variant` leaves in the store outside a dry run, and the id it
      returns: a relation already stored is left exactly as it is and its id returned;
      a missing one is inserted. */
  function CompVariantWrite(db: Db, rec: Row): (r: (Db, int))
    ensures r.0.nextId >= db.nextId
    ensures forall u :: u != CompVariant ==> r.0.Rows(u) == db.Rows(u)
  {
    var current := Lookup(db.compVariant, CompVariant, KeyOf(CompVariant, rec));
    if current.Some? then (db, current.value.id)
    else db.Insert(CompVariant, rec)
  }

  /** A relation already stored is left exactly as it is and keeps its id; a missing one is
      appended under the next id, where a lookup now finds it; no other table changes. */
  lemma CompVariantWriteEffect(db: Db, rec: Row)
    ensures var r := CompVariantWrite(db, rec);
      && (Stored(db, CompVariant, KeyOf(CompVariant, rec)) ==>
            r.0 == db && r.1 == StoredId(db, CompVariant, KeyOf(CompVariant, rec)))
      && (!Stored(db, CompVariant, KeyOf(CompVariant, rec)) ==>
            && r.1 == db.nextId
            && Lookup(r.0.compVariant, CompVariant, KeyOf(CompVariant, rec)) == Some(Record(db.nextId, rec - {"id"}))
            && r.0.compVariant == db.compVariant + [Record(db.nextId, rec - {"id"})])
      && KeepsKeyIds(CompVariant, db.compVariant, r.0.compVariant)
      && (forall u :: u != CompVariant ==> r.0.Rows(u) == db.Rows(u))
  {
    if !Stored(db, CompVariant, KeyOf(CompVariant, rec)) {
      var rows := db.compVariant + [Record(db.nextId, rec - {"id"})];
      assert KeyOf(CompVariant, rec - {"id"}) == KeyOf(CompVariant, rec);
      AppendFound(CompVariant, db.compVariant, Record(db.nextId, rec - {"id"}));
      PrefixKeepsKeyIds(CompVariant, db.compVariant, rows);
    }
  }

  /** Writing a component–variant relation keeps the store valid. */
  lemma CompVariantWriteKeepsValid(db: Db, rec: Row)
    requires db.Valid()
    ensures CompVariantWrite(db, rec).0.Valid()
  {
    if Lookup(db.compVariant, CompVariant, KeyOf(CompVariant, rec)).None? {
      InsertKeepsValid(db, CompVariant, rec);
    }
  }

  /** `CompVariantWrite` as its two branches. */
  lemma CompVariantWriteUnfolds(db: Db, rec: Row)
    ensures var found := Lookup(db.compVariant, CompVariant, KeyOf(CompVariant, rec));
      CompVariantWrite(db, rec) == if found.Some? then (db, found.value.id) else db.Insert(CompVariant, rec)
  {
  }

  // ----- category backfill -----

  /** A record as `get_records(…, 'id, name')` reads it: its id and its name. */
  function IdName(r: Record): (int, string)
  {
    (r.id, Get(r.fields, "name"))
  }

  /** The id and name of every record `keep` selects, in store order. */
  function Picked(rows: seq<Record>, keep: Record -> bool): (r: seq<(int, string)>)
    ensures |r| <= |rows|
    ensures forall i :: 0 <= i < |rows| && keep(rows[i]) ==> IdName(rows[i]) in r
    decreases |rows|
  {
    if |rows| == 0 then []
    else
      var rest := Picked(rows[1..], keep);
      assert forall i :: 1 <= i < |rows| ==> rows[i] == rows[1..][i - 1];
      if keep(rows[0]) then [IdName(rows[0])] + rest else rest
  }

  /** The record a picked pair was read from. */
  lemma {:induction false} PickedFrom(rows: seq<Record>, keep: Record -> bool, p: int) returns (i: int)
    requires 0 <= p < |Picked(rows, keep)|
    ensures 0 <= i < |rows| && keep(rows[i]) && Picked(rows, keep)[p] == IdName(rows[i])
    decreases |rows|
  {
    var rest := Picked(rows[1..], keep);
    if keep(rows[0]) && p == 0 {
      i := 0;
    } else {
      var shift := if keep(rows[0]) then 1 else 0;
      assert Picked(rows, keep)[p] == rest[p - shift];
      var j := PickedFrom(rows[1..], keep, p - shift);
      assert rows[1..][j] == rows[j + 1];
      i := j + 1;
    }
  }

  /** Every picked pair is the id and name of a record `keep` selects. */
  lemma PickedSound(rows: seq<Record>, keep: Record -> bool)
    ensures forall x :: x in Picked(rows, keep) ==>
      exists i :: 0 <= i < |rows| && keep(rows[i]) && x == IdName(rows[i])
  {
    forall x | x in Picked(rows, keep)
      ensures exists i :: 0 <= i < |rows| && keep(rows[i]) && x == IdName(rows[i])
    {
      var p :| 0 <= p < |Picked(rows, keep)| && Picked(rows, keep)[p] == x;
      var i := PickedFrom(rows, keep, p);
    }
  }

  /** Two picked pairs come in the order of the records they were read from. */
  lemma {:induction false} PickedInStoreOrder(rows: seq<Record>, keep: Record -> bool, p: int, q: int)
    requires 0 <= p < q < |Picked(rows, keep)|
    ensures exists i, j :: (0 <= i < j < |rows| && keep(rows[i]) && keep(rows[j])
      && Picked(rows, keep)[p] == IdName(rows[i]) && Picked(rows, keep)[q] == IdName(rows[j]))
    decreases |rows|
  {
    var r := Picked(rows, keep);
    var tail := rows[1..];
    var rest := Picked(tail, keep);
    if keep(rows[0]) {
      assert r == [IdName(rows[0])] + rest;
      if p == 0 {
        var j := PickedFrom(tail, keep, q - 1);
        assert tail[j] == rows[j + 1];
        assert keep(rows[0]) && keep(rows[j + 1]) && r[p] == IdName(rows[0]) && r[q] == IdName(rows[j + 1]);
      } else {
        PickedInStoreOrder(tail, keep, p - 1, q - 1);
        var i, j :| 0 <= i < j < |tail| && keep(tail[i]) && keep(tail[j])
          && rest[p - 1] == IdName(tail[i]) && rest[q - 1] == IdName(tail[j]);
        assert tail[i] == rows[i + 1] && tail[j] == rows[j + 1];
        assert keep(rows[i + 1]) && keep(rows[j + 1]) && r[p] == IdName(rows[i + 1]) && r[q] == IdName(rows[j + 1]);
      }
    } else {
      assert r == rest;
      PickedInStoreOrder(tail, keep, p, q);
      var i, j :| 0 <= i < j < |tail| && keep(tail[i]) && keep(tail[j])
        && rest[p] == IdName(tail[i]) && rest[q] == IdName(tail[j]);
      assert tail[i] == rows[i + 1] && tail[j] == rows[j + 1];
      assert keep(rows[i + 1]) && keep(rows[j + 1]) && r[p] == IdName(rows[i + 1]) && r[q] == IdName(rows[j + 1]);
    }
  }

  /** A record whose category name is empty. */
  predicate IsUnnamed(r: Record)
  {
    Get(r.fields, "categoryname") == ""
  }

  /** `get_records($table, ['categoryname' => ''])`: the id and name of every record whose
      category name is empty, and of no other record, in store order
      (`UnnamedInStoreOrder`). */
  function Unnamed(rows: seq<Record>): (r: seq<(int, string)>)
    ensures |r| <= |rows|
    ensures forall i :: 0 <= i < |rows| && Get(rows[i].fields, "categoryname") == "" ==>
      (rows[i].id, Get(rows[i].fields, "name")) in r
    ensures forall x :: x in r ==> exists i :: 0 <= i < |rows| && IsUnnamed(rows[i]) && x == IdName(rows[i])
  {
    PickedSound(rows, IsUnnamed);
    Picked(rows, IsUnnamed)
  }

  /** Pending records are listed in store order. */
  lemma UnnamedInStoreOrder(rows: seq<Record>, p: int, q: int)
    requires 0 <= p < q < |Unnamed(rows)|
    ensures exists i, j :: (0 <= i < j < |rows| && IsUnnamed(rows[i]) && IsUnnamed(rows[j])
      && Unnamed(rows)[p] == IdName(rows[i]) && Unnamed(rows)[q] == IdName(rows[j]))
  {
    PickedInStoreOrder(rows, IsUnnamed, p, q);
  }

  /** Ids of a table are distinct, so a record that has a category name is never pending. */
  lemma UnnamedSkipsNamed(rows: seq<Record>, id: int)
    requires forall i :: 0 <= i < |rows| && rows[i].id == id ==> Get(rows[i].fields, "categoryname") != ""
    ensures forall p :: p in Unnamed(rows) ==> p.0 != id
  {
  }

  /** Ids of the pending pairs. */
  function PendingIds(pending: seq<(int, string)>): set<int>
  {
    set p | p in pending :: p.0
  }

  lemma PendingIdsCons(pending: seq<(int, string)>)
    requires |pending| > 0
    ensures PendingIds(pending) == {pending[0].0} + PendingIds(pending[1..])
  {
    assert forall p :: p in pending ==> p == pending[0] || p in pending[1..];
  }

  /** `b` is `a` with at most the `categoryname` of the records whose id is in `ids`
      changed: same length, same ids, every other column equal. */
  ghost predicate FillsOnly(a: seq<Record>, b: seq<Record>, ids: set<int>)
  {
    && |a| == |b|
    && (forall i :: 0 <= i < |a| ==> b[i].id == a[i].id)
    && (forall i :: 0 <= i < |a| ==> b[i].fields - {"categoryname"} == a[i].fields - {"categoryname"})
    && (forall i :: 0 <= i < |a| && a[i].id !in ids ==> b[i] == a[i])
  }

  lemma FillsOnlyTrans(a: seq<Record>, b: seq<Record>, c: seq<Record>, s1: set<int>, s2: set<int>)
    requires FillsOnly(a, b, s1) && FillsOnly(b, c, s2)
    ensures FillsOnly(a, c, s1 + s2)
  {
  }

  lemma SetCategorynameFillsOnly(rows: seq<Record>, id: int, value: string)
    ensures FillsOnly(rows, UpdateRows(rows, id, map["categoryname" := value] - {"id"}), {id})
  {
    var changes := map["categoryname" := value] - {"id"};
    var rows' := UpdateRows(rows, id, changes);
    forall i | 0 <= i < |rows|
      ensures rows'[i].fields - {"categoryname"} == rows[i].fields - {"categoryname"}
    {
      if rows[i].id == id {
        assert rows'[i].fields == rows[i].fields + changes;
        assert changes.Keys == {"categoryname"};
      }
    }
  }

  /** The backfill loop over one table: each pending record, in turn, gets the category
      name the hook computes from the store as it is at that moment. */
  function Backfilled(db: Db, t: Table, pending: seq<(int, string)>, hook: (Db, string) -> string): (r: Db)
    ensures r.nextId == db.nextId
    ensures forall u :: u != t ==> r.Rows(u) == db.Rows(u)
    ensures |r.Rows(t)| == |db.Rows(t)|
    decreases |pending|
  {
    if |pending| == 0 then db
    else
      var (id, name) := pending[0];
      Backfilled(db.Update(t, id, map["categoryname" := hook(db, name)]), t, pending[1..], hook)
  }

  /** Filling in category names keeps the store valid. */
  lemma {:induction false} BackfilledKeepsValid(db: Db, t: Table, pending: seq<(int, string)>, hook: (Db, string) -> string)
    requires db.Valid()
    ensures Backfilled(db, t, pending, hook).Valid()
    decreases |pending|
  {
    if |pending| > 0 {
      var (id, name) := pending[0];
      SetCategorynameKeepsValid(db, t, id, hook(db, name));
      BackfilledKeepsValid(db.Update(t, id, map["categoryname" := hook(db, name)]), t, pending[1..], hook);
    }
  }

  /** One iteration of a backfill loop, as the loop sees it. */
  lemma BackfilledStep(db: Db, t: Table, pending: seq<(int, string)>, j: int, hook: (Db, string) -> string, d1: Db)
    requires 0 <= j < |pending|
    requires d1 == db.Update(t, pending[j].0, map["categoryname" := hook(db, pending[j].1)])
    ensures Backfilled(db, t, pending[j..], hook) == Backfilled(d1, t, pending[j + 1..], hook)
  {
    assert pending[j..][0] == pending[j] && pending[j..][1..] == pending[j + 1..];
  }

  /** Only the `categoryname` of pending records changes. */
  lemma {:induction false} BackfilledFillsOnly(db: Db, t: Table, pending: seq<(int, string)>, hook: (Db, string) -> string)
    ensures FillsOnly(db.Rows(t), Backfilled(db, t, pending, hook).Rows(t), PendingIds(pending))
    decreases |pending|
  {
    if |pending| == 0 {
    } else {
      var (id, name) := pending[0];
      var d1 := db.Update(t, id, map["categoryname" := hook(db, name)]);
      var r := Backfilled(d1, t, pending[1..], hook);
      assert Backfilled(db, t, pending, hook) == r;
      SetCategorynameFillsOnly(db.Rows(t), id, hook(db, name));
      BackfilledFillsOnly(d1, t, pending[1..], hook);
      FillsOnlyTrans(db.Rows(t), d1.Rows(t), r.Rows(t), {id}, PendingIds(pending[1..]));
      PendingIdsCons(pending);
    }
  }

  /** Backfilling `a + b` is backfilling `a`, then `b` on the store `a` left. */
  lemma {:induction false} BackfilledConcat(db: Db, t: Table, a: seq<(int, string)>, b: seq<(int, string)>, hook: (Db, string) -> string)
    ensures Backfilled(db, t, a + b, hook) == Backfilled(Backfilled(db, t, a, hook), t, b, hook)
    decreases |a|
  {
    if |a| == 0 {
      assert a + b == b;
    } else {
      var (id, name) := a[0];
      assert (a + b)[0] == a[0] && (a + b)[1..] == a[1..] + b;
      BackfilledConcat(db.Update(t, id, map["categoryname" := hook(db, name)]), t, a[1..], b, hook);
    }
  }

  /** The pending record `pending[j]` ends with the category name the hook gave it, computed
      from the store as the earlier iterations left it, provided no later iteration names
      the same record again. */
  lemma BackfilledNames(db: Db, t: Table, pending: seq<(int, string)>, hook: (Db, string) -> string, j: int)
    requires 0 <= j < |pending|
    requires forall a, b :: 0 <= a < b < |db.Rows(t)| ==> db.Rows(t)[a].id != db.Rows(t)[b].id
    requires exists i :: 0 <= i < |db.Rows(t)| && db.Rows(t)[i].id == pending[j].0
    requires forall k :: j < k < |pending| ==> pending[k].0 != pending[j].0
    ensures FieldById(Backfilled(db, t, pending, hook).Rows(t), pending[j].0, "categoryname")
      == Some(hook(Backfilled(db, t, pending[..j], hook), pending[j].1))
  {
    var (id, name) := pending[j];
    var dj := Backfilled(db, t, pending[..j], hook);
    var d1 := dj.Update(t, id, map["categoryname" := hook(dj, name)]);
    var r := Backfilled(d1, t, pending[j + 1..], hook);
    BackfilledAt(db, t, pending, hook, j);
    var i :| 0 <= i < |db.Rows(t)| && db.Rows(t)[i].id == id;
    BackfilledRecordAt(db, t, pending, hook, j, i);
    BackfilledFillsOnly(db, t, pending, hook);
    FillsOnlyKeepsIds(db.Rows(t), r.Rows(t), PendingIds(pending));
    FieldByIdAt(r.Rows(t), i, "categoryname");
  }

  /** The backfill split at the turn of `pending[j]`. */
  lemma BackfilledAt(db: Db, t: Table, pending: seq<(int, string)>, hook: (Db, string) -> string, j: int)
    requires 0 <= j < |pending|
    ensures var dj := Backfilled(db, t, pending[..j], hook);
      Backfilled(db, t, pending, hook)
        == Backfilled(dj.Update(t, pending[j].0, map["categoryname" := hook(dj, pending[j].1)]), t, pending[j + 1..], hook)
  {
    var dj := Backfilled(db, t, pending[..j], hook);
    var d1 := dj.Update(t, pending[j].0, map["categoryname" := hook(dj, pending[j].1)]);
    assert pending == pending[..j] + pending[j..];
    BackfilledConcat(db, t, pending[..j], pending[j..], hook);
    BackfilledStep(dj, t, pending, j, hook, d1);
  }

  /** The record at position `i`, named on the turn of `pending[j]`, keeps that name when
      no later turn is for the same record. */
  lemma BackfilledRecordAt(db: Db, t: Table, pending: seq<(int, string)>, hook: (Db, string) -> string, j: int, i: int)
    requires 0 <= j < |pending| && 0 <= i < |db.Rows(t)| && db.Rows(t)[i].id == pending[j].0
    requires forall k :: j < k < |pending| ==> pending[k].0 != pending[j].0
    ensures var dj := Backfilled(db, t, pending[..j], hook);
      var value := hook(dj, pending[j].1);
      var r := Backfilled(dj.Update(t, pending[j].0, map["categoryname" := value]), t, pending[j + 1..], hook);
      && i < |r.Rows(t)| && r.Rows(t)[i].id == pending[j].0
      && Get(r.Rows(t)[i].fields, "categoryname") == value
  {
    var id := pending[j].0;
    var dj := Backfilled(db, t, pending[..j], hook);
    var value := hook(dj, pending[j].1);
    var d1 := dj.Update(t, id, map["categoryname" := value]);
    BackfilledFillsOnly(db, t, pending[..j], hook);
    NameOnly(value);
    assert d1.Rows(t)[i] == Record(id, dj.Rows(t)[i].fields + map["categoryname" := value]);
    BackfilledFillsOnly(d1, t, pending[j + 1..], hook);
    assert id !in PendingIds(pending[j + 1..]);
  }

  /** The change the backfill writes carries no `id` column. */
  lemma NameOnly(value: string)
    ensures map["categoryname" := value] - {"id"} == map["categoryname" := value]
  {
  }

  /** Filling names keeps the ids of a table distinct. */
  lemma FillsOnlyKeepsIds(a: seq<Record>, b: seq<Record>, ids: set<int>)
    requires FillsOnly(a, b, ids)
    requires forall x, y :: 0 <= x < y < |a| ==> a[x].id != a[y].id
    ensures forall x, y :: 0 <= x < y < |b| ==> b[x].id != b[y].id
  {
    forall x, y | 0 <= x < y < |b|
      ensures b[x].id != b[y].id
    {
      assert b[x].id == a[x].id && b[y].id == a[y].id;
    }
  }

  /** Every record `get_records($table, ['categoryname' => ''])` returned ends with the
      category name the hook gave it on its turn, in store order. */
  lemma BackfilledNamesUnnamed(db: Db, t: Table, hook: (Db, string) -> string, j: int)
    requires db.Valid()
    requires 0 <= j < |Unnamed(db.Rows(t))|
    ensures var pending := Unnamed(db.Rows(t));
      FieldById(Backfilled(db, t, pending, hook).Rows(t), pending[j].0, "categoryname")
        == Some(hook(Backfilled(db, t, pending[..j], hook), pending[j].1))
  {
    var rows := db.Rows(t);
    var pending := Unnamed(rows);
    ValidTable(db, t);
    assert pending[j] in pending;
    forall k | j < k < |pending|
      ensures pending[k].0 != pending[j].0
    {
      UnnamedInStoreOrder(rows, j, k);
    }
    BackfilledNames(db, t, pending, hook, j);
  }

  /** `update_flavor_variant_category`: flavors first, then variants. */
  function Backfill(db: Db, svc: Services): (r: Db)
    ensures r.nextId == db.nextId
  {
    var d1 := Backfilled(db, Flavor, Unnamed(db.flavor), svc.compcatNameForFlavor);
    Backfilled(d1, Variant, Unnamed(d1.variant), svc.compcatNameForVariant)
  }

  /** The backfill keeps the store valid. */
  lemma BackfillKeepsValid(db: Db, svc: Services)
    requires db.Valid()
    ensures Backfill(db, svc).Valid()
  {
    var d1 := Backfilled(db, Flavor, Unnamed(db.flavor), svc.compcatNameForFlavor);
    BackfilledKeepsValid(db, Flavor, Unnamed(db.flavor), svc.compcatNameForFlavor);
    BackfilledKeepsValid(d1, Variant, Unnamed(d1.variant), svc.compcatNameForVariant);
  }

  /** The backfill touches neither categories, components nor relations, and hands out
      no id. */
  lemma BackfillFrame(db: Db, svc: Services)
    ensures var r := Backfill(db, svc);
      && r.compcat == db.compcat && r.component == db.component
      && r.compFlavor == db.compFlavor && r.compVariant == db.compVariant
  {
    var d1 := Backfilled(db, Flavor, Unnamed(db.flavor), svc.compcatNameForFlavor);
    var r := Backfilled(d1, Variant, Unnamed(d1.variant), svc.compcatNameForVariant);
    assert d1.Rows(Compcat) == db.Rows(Compcat) && r.Rows(Compcat) == d1.Rows(Compcat);
    assert d1.Rows(Component) == db.Rows(Component) && r.Rows(Component) == d1.Rows(Component);
    assert d1.Rows(CompFlavor) == db.Rows(CompFlavor) && r.Rows(CompFlavor) == d1.Rows(CompFlavor);
    assert d1.Rows(CompVariant) == db.Rows(CompVariant) && r.Rows(CompVariant) == d1.Rows(CompVariant);
  }

  /** The backfill changes only the `categoryname` of the flavors and variants that had
      none. */
  lemma BackfillOnlyFillsCategoryName(db: Db, svc: Services)
    ensures var r := Backfill(db, svc);
      && FillsOnly(db.flavor, r.flavor, PendingIds(Unnamed(db.flavor)))
      && FillsOnly(db.variant, r.variant, PendingIds(Unnamed(db.variant)))
  {
    var d1 := Backfilled(db, Flavor, Unnamed(db.flavor), svc.compcatNameForFlavor);
    var r := Backfilled(d1, Variant, Unnamed(d1.variant), svc.compcatNameForVariant);
    assert d1.Rows(Variant) == db.Rows(Variant) && r.Rows(Flavor) == d1.Rows(Flavor);
    BackfilledFillsOnly(db, Flavor, Unnamed(db.flavor), svc.compcatNameForFlavor);
    BackfilledFillsOnly(d1, Variant, Unnamed(d1.variant), svc.compcatNameForVariant);
  }
  /** `update_flavor_variant_category` names every flavor that had no category name: the
      `j`-th of them, in store order, ends with the name `get_compcatname_for_flavor`
      returned on its turn. */
  lemma BackfillNamesFlavors(db: Db, svc: Services, j: int)
    requires db.Valid()
    requires 0 <= j < |Unnamed(db.flavor)|
    ensures var pending := Unnamed(db.flavor);
      FieldById(Backfill(db, svc).flavor, pending[j].0, "categoryname")
        == Some(svc.compcatNameForFlavor(Backfilled(db, Flavor, pending[..j], svc.compcatNameForFlavor), pending[j].1))
  {
    var d1 := Backfilled(db, Flavor, Unnamed(db.flavor), svc.compcatNameForFlavor);
    var r := Backfilled(d1, Variant, Unnamed(d1.variant), svc.compcatNameForVariant);
    assert r.Rows(Flavor) == d1.Rows(Flavor);
    BackfilledNamesUnnamed(db, Flavor, svc.compcatNameForFlavor, j);
  }

  /** Then every variant that had no category name: the `j`-th of them ends with the name
      `get_compcatname_for_variant` returned on its turn, the flavors already filled in. */
  lemma BackfillNamesVariants(db: Db, svc: Services, j: int)
    requires db.Valid()
    requires 0 <= j < |Unnamed(db.variant)|
    ensures var d1 := Backfilled(db, Flavor, Unnamed(db.flavor), svc.compcatNameForFlavor);
      var pending := Unnamed(db.variant);
      FieldById(Backfill(db, svc).variant, pending[j].0, "categoryname")
        == Some(svc.compcatNameForVariant(Backfilled(d1, Variant, pending[..j], svc.compcatNameForVariant), pending[j].1))
  {
    var d1 := Backfilled(db, Flavor, Unnamed(db.flavor), svc.compcatNameForFlavor);
    assert d1.Rows(Variant) == db.Rows(Variant);
    BackfilledKeepsValid(db, Flavor, Unnamed(db.flavor), svc.compcatNameForFlavor);
    BackfilledNamesUnnamed(d1, Variant, svc.compcatNameForVariant, j);
  }


  /** A record that already has a category name keeps it: it is never pending. */
  lemma NamedUntouched(db: Db, t: Table, hook: (Db, string) -> string, i: int)
    requires db.Valid() && 0 <= i < |db.Rows(t)| && Get(db.Rows(t)[i].fields, "categoryname") != ""
    ensures Backfilled(db, t, Unnamed(db.Rows(t)), hook).Rows(t)[i] == db.Rows(t)[i]
  {
    var rows := db.Rows(t);
    ValidTable(db, t);
    assert forall j :: 0 <= j < |rows| && rows[j].id == rows[i].id ==> j == i;
    UnnamedSkipsNamed(rows, rows[i].id);
    BackfilledFillsOnly(db, t, Unnamed(rows), hook);
  }

  // ----- whole table passes -----

  /** The category pass of `importxml`: each row is written in turn and its descriptor id
      mapped to the id `import_category` returns (a later row with the same id wins). */
  function CategoryPass(db: Db, rows: seq<Row>, catmap: map<string, int>, svc: Services): (r: (Db, map<string, int>))
    ensures r.0.nextId >= db.nextId
    decreases |rows|
  {
    if |rows| == 0 then (db, catmap)
    else
      var w := CategoryWrite(db, rows[0], svc);
      CategoryPass(w.0, rows[1..], catmap[Get(rows[0], "id") := w.1], svc)
  }

  /** The category pass keeps the store valid. */
  lemma {:induction false} CategoryPassKeepsValid(db: Db, rows: seq<Row>, catmap: map<string, int>, svc: Services)
    requires db.Valid()
    ensures CategoryPass(db, rows, catmap, svc).0.Valid()
    decreases |rows|
  {
    if |rows| > 0 {
      var w := CategoryWrite(db, rows[0], svc);
      CategoryWriteKeepsValid(db, rows[0], svc);
      CategoryPassKeepsValid(w.0, rows[1..], catmap[Get(rows[0], "id") := w.1], svc);
    }
  }

  /** The descriptor ids of a sequence of rows. */
  function IdsOf(rows: seq<Row>): (ids: set<string>)
    ensures forall j :: 0 <= j < |rows| ==> Get(rows[j], "id") in ids
  {
    if |rows| == 0 then {} else {Get(rows[0], "id")} + IdsOf(rows[1..])
  }

  lemma {:induction false} IdsOfConcat(a: seq<Row>, b: seq<Row>)
    ensures IdsOf(a + b) == IdsOf(a) + IdsOf(b)
    decreases |a|
  {
    if |a| == 0 {
      assert a + b == b;
    } else {
      assert (a + b)[0] == a[0] && (a + b)[1..] == a[1..] + b;
      IdsOfConcat(a[1..], b);
    }
  }

  /** The ids of a prefix grow by the id of the next row. */
  lemma IdsOfSnoc(rows: seq<Row>, i: int)
    requires 0 <= i < |rows|
    ensures IdsOf(rows[..i + 1]) == IdsOf(rows[..i]) + {Get(rows[i], "id")}
  {
    assert rows[..i + 1] == rows[..i] + [rows[i]];
    IdsOfConcat(rows[..i], [rows[i]]);
    assert [rows[i]][1..] == [];
  }

  /** Every descriptor id comes from a row. */
  lemma {:induction false} IdsOfFromRows(rows: seq<Row>, k: string)
    requires k in IdsOf(rows)
    ensures exists j :: 0 <= j < |rows| && Get(rows[j], "id") == k
  {
    if Get(rows[0], "id") != k {
      IdsOfFromRows(rows[1..], k);
      var j :| 0 <= j < |rows[1..]| && Get(rows[1..][j], "id") == k;
      assert rows[j + 1] == rows[1..][j];
    }
  }

  /** The category map gains exactly the descriptor ids of the rows. */
  lemma {:induction false} CategoryPassKeys(db: Db, rows: seq<Row>, catmap: map<string, int>, svc: Services, k: string)
    ensures k in CategoryPass(db, rows, catmap, svc).1 <==> k in catmap || k in IdsOf(rows)
    decreases |rows|
  {
    if |rows| > 0 {
      var w := CategoryWrite(db, rows[0], svc);
      var catmap1 := catmap[Get(rows[0], "id") := w.1];
      CategoryPassKeys(w.0, rows[1..], catmap1, svc, k);
      assert CategoryPass(db, rows, catmap, svc) == CategoryPass(w.0, rows[1..], catmap1, svc);
    }
  }

  /** Every id in the category map is positive. */
  lemma {:induction false} CategoryPassPositive(db: Db, rows: seq<Row>, catmap: map<string, int>, svc: Services)
    requires db.Valid()
    requires forall k :: k in catmap ==> catmap[k] > 0
    ensures var r := CategoryPass(db, rows, catmap, svc);
      forall k :: k in r.1 ==> r.1[k] > 0
    decreases |rows|
  {
    if |rows| > 0 {
      var w := CategoryWrite(db, rows[0], svc);
      var catmap1 := catmap[Get(rows[0], "id") := w.1];
      CategoryWriteKeepsValid(db, rows[0], svc);
      assert forall k :: k in catmap1 ==> catmap1[k] > 0;
      CategoryPassPositive(w.0, rows[1..], catmap1, svc);
      assert CategoryPass(db, rows, catmap, svc) == CategoryPass(w.0, rows[1..], catmap1, svc);
    }
  }

  /** One category write touches no other table, and no stored category changes id. */
  lemma CategoryWriteFrame(db: Db, row: Row, svc: Services)
    requires db.Valid()
    ensures var d1 := CategoryWrite(db, row, svc).0;
      && d1.Valid()
      && d1.component == db.component && d1.flavor == db.flavor && d1.variant == db.variant
      && d1.compFlavor == db.compFlavor && d1.compVariant == db.compVariant
      && KeepsKeyIds(Compcat, db.compcat, d1.compcat)
  {
    var d1 := CategoryWrite(db, row, svc).0;
    assert d1.Rows(Component) == db.Rows(Component) && d1.Rows(Flavor) == db.Rows(Flavor);
    assert d1.Rows(Variant) == db.Rows(Variant) && d1.Rows(CompFlavor) == db.Rows(CompFlavor);
    assert d1.Rows(CompVariant) == db.Rows(CompVariant);
    CategoryWriteIds(db, row, svc);
    CategoryWriteKeepsValid(db, row, svc);
  }

  /** The category pass writes no other table, and no stored category changes id. */
  lemma {:induction false} CategoryPassFrame(db: Db, rows: seq<Row>, catmap: map<string, int>, svc: Services)
    requires db.Valid()
    ensures var r := CategoryPass(db, rows, catmap, svc);
      && r.0.component == db.component && r.0.flavor == db.flavor && r.0.variant == db.variant
      && r.0.compFlavor == db.compFlavor && r.0.compVariant == db.compVariant
      && KeepsKeyIds(Compcat, db.compcat, r.0.compcat)
    decreases |rows|
  {
    if |rows| > 0 {
      var (d1, id) := CategoryWrite(db, rows[0], svc);
      var catmap1 := catmap[Get(rows[0], "id") := id];
      CategoryWriteFrame(db, rows[0], svc);
      CategoryPassUnfold(db, rows, catmap, svc);
      CategoryPassFrame(d1, rows[1..], catmap1, svc);
      KeepsKeyIdsTrans(Compcat, db.compcat, d1.compcat, CategoryPass(d1, rows[1..], catmap1, svc).0.compcat);
    }
  }

  /** A map entry the rows do not mention survives the pass. */
  lemma {:induction false} CategoryPassKeepsOthers(db: Db, rows: seq<Row>, catmap: map<string, int>, svc: Services, k: string)
    requires k in catmap && k !in IdsOf(rows)
    ensures var r := CategoryPass(db, rows, catmap, svc);
      k in r.1 && r.1[k] == catmap[k]
    decreases |rows|
  {
    if |rows| > 0 {
      var (d1, id) := CategoryWrite(db, rows[0], svc);
      CategoryPassKeepsOthers(d1, rows[1..], catmap[Get(rows[0], "id") := id], svc, k);
    }
  }

  /** After a category pass with result `r`, the descriptor id of `row` is mapped to the
      id under which the category named by `row` is stored. */
  ghost predicate ResolvesRow(r: (Db, map<string, int>), row: Row)
  {
    var key := Name(Get(row, "name"));
    && Get(row, "id") in r.1
    && Stored(r.0, Compcat, key) && StoredId(r.0, Compcat, key) == r.1[Get(row, "id")]
  }

  /** Outside a dry run each descriptor id is mapped to the id under which the category of
      its last row is stored at the end of the pass. */
  lemma CategoryPassResolves(db: Db, rows: seq<Row>, catmap: map<string, int>, svc: Services, j: int)
    requires db.Valid()
    requires 0 <= j < |rows|
    requires Get(rows[j], "id") !in IdsOf(rows[j + 1..])
    ensures ResolvesRow(CategoryPass(db, rows, catmap, svc), rows[j])
  {
    var mid := CategoryPass(db, rows[..j], catmap, svc);
    SplitAt(rows, j);
    CategoryPassConcat(db, rows[..j], rows[j..], catmap, svc);
    CategoryPassKeepsValid(db, rows[..j], catmap, svc);
    CategoryPassResolvesFirst(mid.0, rows[j..], mid.1, svc);
  }

  /** A sequence cut before position `j`. */
  lemma SplitAt<T>(s: seq<T>, j: int)
    requires 0 <= j < |s|
    ensures s == s[..j] + s[j..]
    ensures s[j..][0] == s[j] && s[j..][1..] == s[j + 1..]
  {
  }

  /** A pass over two runs of rows is the pass over the second run started where the
      pass over the first ends. */
  lemma {:induction false} CategoryPassConcat(db: Db, a: seq<Row>, b: seq<Row>, catmap: map<string, int>, svc: Services)
    ensures var mid := CategoryPass(db, a, catmap, svc);
      CategoryPass(db, a + b, catmap, svc) == CategoryPass(mid.0, b, mid.1, svc)
    decreases |a|
  {
    if |a| == 0 {
      assert a + b == b;
    } else {
      var w := CategoryWrite(db, a[0], svc);
      assert (a + b)[0] == a[0] && (a + b)[1..] == a[1..] + b;
      CategoryPassConcat(w.0, a[1..], b, catmap[Get(a[0], "id") := w.1], svc);
      CategoryPassUnfold(db, a, catmap, svc);
      CategoryPassUnfold(db, a + b, catmap, svc);
    }
  }

  lemma CategoryPassUnfold(db: Db, rows: seq<Row>, catmap: map<string, int>, svc: Services)
    requires |rows| > 0
    ensures var w := CategoryWrite(db, rows[0], svc);
      CategoryPass(db, rows, catmap, svc) == CategoryPass(w.0, rows[1..], catmap[Get(rows[0], "id") := w.1], svc)
  {
  }

  /** The first row, when no later row repeats its id: its category is written first and
      keeps its id through the rest of the pass, and its map entry is never replaced. */
  lemma CategoryPassResolvesFirst(db: Db, rows: seq<Row>, catmap: map<string, int>, svc: Services)
    requires db.Valid() && |rows| > 0
    requires Get(rows[0], "id") !in IdsOf(rows[1..])
    ensures ResolvesRow(CategoryPass(db, rows, catmap, svc), rows[0])
  {
    var w := CategoryWrite(db, rows[0], svc);
    var catmap1 := catmap[Get(rows[0], "id") := w.1];
    var r := CategoryPass(w.0, rows[1..], catmap1, svc);
    assert CategoryPass(db, rows, catmap, svc) == r;
    var key := Name(Get(rows[0], "name"));
    CategoryWriteIds(db, rows[0], svc);
    CategoryWriteKeepsValid(db, rows[0], svc);
    CategoryPassKeepsOthers(w.0, rows[1..], catmap1, svc, Get(rows[0], "id"));
    CategoryPassFrame(w.0, rows[1..], catmap1, svc);
    KeepsKeyIdsAt(Compcat, w.0.compcat, r.0.compcat, key);
  }

  /** The component pass of `importxml`: each row is written in turn and its descriptor
      id mapped to the id `import_component` returns. */
  function ComponentPass(db: Db, rows: seq<Row>, catmap: map<string, int>, compmap: map<string, int>, svc: Services): (r: (Db, map<string, int>))
    ensures r.0.nextId >= db.nextId
    decreases |rows|
  {
    if |rows| == 0 then (db, compmap)
    else
      var w := ComponentWrite(db, rows[0], catmap, svc);
      ComponentPass(w.0, rows[1..], catmap, compmap[Get(rows[0], "id") := w.1], svc)
  }

  /** The component pass keeps the store valid. */
  lemma {:induction false} ComponentPassKeepsValid(db: Db, rows: seq<Row>, catmap: map<string, int>, compmap: map<string, int>, svc: Services)
    requires db.Valid()
    ensures ComponentPass(db, rows, catmap, compmap, svc).0.Valid()
    decreases |rows|
  {
    if |rows| > 0 {
      var w := ComponentWrite(db, rows[0], catmap, svc);
      ComponentWriteKeepsValid(db, rows[0], catmap, svc);
      ComponentPassKeepsValid(w.0, rows[1..], catmap, compmap[Get(rows[0], "id") := w.1], svc);
    }
  }

  lemma ComponentPassUnfold(db: Db, rows: seq<Row>, catmap: map<string, int>, compmap: map<string, int>, svc: Services)
    requires |rows| > 0
    ensures var w := ComponentWrite(db, rows[0], catmap, svc);
      ComponentPass(db, rows, catmap, compmap, svc)
        == ComponentPass(w.0, rows[1..], catmap, compmap[Get(rows[0], "id") := w.1], svc)
  {
  }

  /** The component map gains exactly the descriptor ids of the rows. */
  lemma {:induction false} ComponentPassKeys(db: Db, rows: seq<Row>, catmap: map<string, int>, compmap: map<string, int>, svc: Services, k: string)
    ensures k in ComponentPass(db, rows, catmap, compmap, svc).1 <==> k in compmap || k in IdsOf(rows)
    decreases |rows|
  {
    if |rows| > 0 {
      var w := ComponentWrite(db, rows[0], catmap, svc);
      ComponentPassKeys(w.0, rows[1..], catmap, compmap[Get(rows[0], "id") := w.1], svc, k);
      ComponentPassUnfold(db, rows, catmap, compmap, svc);
    }
  }

  /** The component pass writes neither categories, flavors nor variants. */
  lemma {:induction false} ComponentPassFrame(db: Db, rows: seq<Row>, catmap: map<string, int>, compmap: map<string, int>, svc: Services)
    ensures var r := ComponentPass(db, rows, catmap, compmap, svc);
      r.0.compcat == db.compcat && r.0.flavor == db.flavor && r.0.variant == db.variant
    decreases |rows|
  {
    if |rows| > 0 {
      var w := ComponentWrite(db, rows[0], catmap, svc);
      ComponentWriteFrame(db, rows[0], catmap, svc);
      ComponentPassFrame(w.0, rows[1..], catmap, compmap[Get(rows[0], "id") := w.1], svc);
      ComponentPassUnfold(db, rows, catmap, compmap, svc);
    }
  }

  /** The component pass changes the id of no stored component. */
  lemma {:induction false} ComponentPassKeepsKeyIds(db: Db, rows: seq<Row>, catmap: map<string, int>, compmap: map<string, int>, svc: Services)
    requires db.Valid()
    ensures KeepsKeyIds(Component, db.component, ComponentPass(db, rows, catmap, compmap, svc).0.component)
    decreases |rows|
  {
    if |rows| > 0 {
      var w := ComponentWrite(db, rows[0], catmap, svc);
      var compmap1 := compmap[Get(rows[0], "id") := w.1];
      ComponentWriteIds(db, rows[0], catmap, svc);
      ComponentWriteKeepsValid(db, rows[0], catmap, svc);
      ComponentPassKeepsKeyIds(w.0, rows[1..], catmap, compmap1, svc);
      ComponentPassUnfold(db, rows, catmap, compmap, svc);
      KeepsKeyIdsTrans(Component, db.component, w.0.component, ComponentPass(w.0, rows[1..], catmap, compmap1, svc).0.component);
    }
  }

  /** A component map entry the rows do not mention survives the pass. */
  lemma {:induction false} ComponentPassKeepsOthers(db: Db, rows: seq<Row>, catmap: map<string, int>, compmap: map<string, int>, svc: Services, k: string)
    requires k in compmap && k !in IdsOf(rows)
    ensures var r := ComponentPass(db, rows, catmap, compmap, svc);
      k in r.1 && r.1[k] == compmap[k]
    decreases |rows|
  {
    if |rows| > 0 {
      var w := ComponentWrite(db, rows[0], catmap, svc);
      ComponentPassKeepsOthers(w.0, rows[1..], catmap, compmap[Get(rows[0], "id") := w.1], svc, k);
      ComponentPassUnfold(db, rows, catmap, compmap, svc);
    }
  }

  /** A component pass over two runs of rows is the pass over the second run started where
      the pass over the first ends. */
  lemma {:induction false} ComponentPassConcat(db: Db, a: seq<Row>, b: seq<Row>, catmap: map<string, int>, compmap: map<string, int>, svc: Services)
    ensures var mid := ComponentPass(db, a, catmap, compmap, svc);
      ComponentPass(db, a + b, catmap, compmap, svc) == ComponentPass(mid.0, b, catmap, mid.1, svc)
    decreases |a|
  {
    if |a| == 0 {
      assert a + b == b;
    } else {
      var w := ComponentWrite(db, a[0], catmap, svc);
      assert (a + b)[0] == a[0] && (a + b)[1..] == a[1..] + b;
      ComponentPassConcat(w.0, a[1..], b, catmap, compmap[Get(a[0], "id") := w.1], svc);
      ComponentPassUnfold(db, a, catmap, compmap, svc);
      ComponentPassUnfold(db, a + b, catmap, compmap, svc);
    }
  }

  /** After a component pass with result `r`, the descriptor id of `row` is mapped to the
      id under which the component named by `row` is stored. */
  ghost predicate ResolvesComponent(r: (Db, map<string, int>), row: Row)
  {
    var key := Name(Get(row, "name"));
    && Get(row, "id") in r.1
    && Stored(r.0, Component, key) && StoredId(r.0, Component, key) == r.1[Get(row, "id")]
  }

  /** The first row, when no later row repeats its id: its component is written first and
      keeps its id through the rest of the pass, and its map entry is never replaced. */
  lemma ComponentPassResolvesFirst(db: Db, rows: seq<Row>, catmap: map<string, int>, compmap: map<string, int>, svc: Services)
    requires db.Valid() && |rows| > 0
    requires Get(rows[0], "id") !in IdsOf(rows[1..])
    ensures ResolvesComponent(ComponentPass(db, rows, catmap, compmap, svc), rows[0])
  {
    var w := ComponentWrite(db, rows[0], catmap, svc);
    var compmap1 := compmap[Get(rows[0], "id") := w.1];
    var r := ComponentPass(w.0, rows[1..], catmap, compmap1, svc);
    ComponentPassUnfold(db, rows, catmap, compmap, svc);
    var key := Name(Get(rows[0], "name"));
    ComponentWriteIds(db, rows[0], catmap, svc);
    ComponentWriteKeepsValid(db, rows[0], catmap, svc);
    ComponentPassKeepsOthers(w.0, rows[1..], catmap, compmap1, svc, Get(rows[0], "id"));
    ComponentPassKeepsKeyIds(w.0, rows[1..], catmap, compmap1, svc);
    KeepsKeyIdsAt(Component, w.0.component, r.0.component, key);
  }

  /** Outside a dry run each descriptor id is mapped to the id under which the component of
      its last row is stored at the end of the pass: the map the component–variant loop
      resolves legacy rows with. */
  lemma ComponentPassResolves(db: Db, rows: seq<Row>, catmap: map<string, int>, compmap: map<string, int>, svc: Services, j: int)
    requires db.Valid()
    requires 0 <= j < |rows|
    requires Get(rows[j], "id") !in IdsOf(rows[j + 1..])
    ensures ResolvesComponent(ComponentPass(db, rows, catmap, compmap, svc), rows[j])
  {
    var mid := ComponentPass(db, rows[..j], catmap, compmap, svc);
    SplitAt(rows, j);
    ComponentPassConcat(db, rows[..j], rows[j..], catmap, compmap, svc);
    ComponentPassKeepsValid(db, rows[..j], catmap, compmap, svc);
    ComponentPassResolvesFirst(mid.0, rows[j..], catmap, mid.1, svc);
  }

  /** The flavor, variant and component–flavor passes: each prepared record is upserted on
      its natural key in turn. */
  function UpsertAll(db: Db, t: Table, recs: seq<Row>): (r: Db)
    ensures r.nextId >= db.nextId
    decreases |recs|
  {
    if |recs| == 0 then db else UpsertAll(db.Upsert(t, recs[0]).0, t, recs[1..])
  }

  /** An upsert pass keeps the store valid. */
  lemma {:induction false} UpsertAllKeepsValid(db: Db, t: Table, recs: seq<Row>)
    requires db.Valid()
    ensures UpsertAll(db, t, recs).Valid()
    decreases |recs|
  {
    if |recs| > 0 {
      UpsertKeepsValid(db, t, recs[0]);
      UpsertAllKeepsValid(db.Upsert(t, recs[0]).0, t, recs[1..]);
    }
  }

  /** One iteration of an upsert loop, as the loop sees it. */
  lemma UpsertAllStep(db: Db, t: Table, recs: seq<Row>, tail: seq<Row>, d1: Db)
    requires |recs| > 0 && recs[1..] == tail && d1 == db.Upsert(t, recs[0]).0
    ensures UpsertAll(db, t, recs) == UpsertAll(d1, t, tail)
  {
  }

  /** An upsert pass writes only its own table. */
  lemma {:induction false} UpsertAllFrame(db: Db, t: Table, recs: seq<Row>)
    ensures forall u :: u != t ==> UpsertAll(db, t, recs).Rows(u) == db.Rows(u)
    decreases |recs|
  {
    if |recs| > 0 {
      UpsertAllFrame(db.Upsert(t, recs[0]).0, t, recs[1..]);
    }
  }

  /** No record stored before an upsert pass changes id. */
  lemma {:induction false} UpsertAllKeepsKeyIds(db: Db, t: Table, recs: seq<Row>)
    requires db.Valid()
    ensures KeepsKeyIds(t, db.Rows(t), UpsertAll(db, t, recs).Rows(t))
    decreases |recs|
  {
    if |recs| > 0 {
      var d1 := db.Upsert(t, recs[0]).0;
      UpsertKeepsKeyIds(db, t, recs[0]);
      UpsertKeepsValid(db, t, recs[0]);
      UpsertAllKeepsKeyIds(d1, t, recs[1..]);
      KeepsKeyIdsTrans(t, db.Rows(t), d1.Rows(t), UpsertAll(d1, t, recs[1..]).Rows(t));
    }
  }

  /** Every record of an upsert pass is stored afterwards under its natural key. */
  lemma UpsertAllStores(db: Db, t: Table, recs: seq<Row>, j: int)
    requires db.Valid() && 0 <= j < |recs|
    ensures Stored(UpsertAll(db, t, recs), t, KeyOf(t, recs[j]))
  {
    var mid := UpsertAll(db, t, recs[..j]);
    SplitAt(recs, j);
    UpsertAllConcat(db, t, recs[..j], recs[j..]);
    UpsertAllKeepsValid(db, t, recs[..j]);
    UpsertAllStoresFirst(mid, t, recs[j..]);
  }

  /** Upserts of other keys leave what `key` resolves to exactly as it was. */
  lemma {:induction false} UpsertAllKeepsLookup(db: Db, t: Table, recs: seq<Row>, key: Key)
    requires db.Valid()
    requires forall k :: 0 <= k < |recs| ==> KeyOf(t, recs[k]) != key
    ensures Lookup(UpsertAll(db, t, recs).Rows(t), t, key) == Lookup(db.Rows(t), t, key)
    decreases |recs|
  {
    if |recs| > 0 {
      var d1 := db.Upsert(t, recs[0]).0;
      UpsertKeepsLookup(db, t, recs[0], key);
      UpsertKeepsValid(db, t, recs[0]);
      UpsertAllKeepsLookup(d1, t, recs[1..], key);
    }
  }

  /** The last record of a pass with a given key wins: afterwards the record stored under
      that key carries every column of it but `id`. */
  lemma UpsertAllStoresLast(db: Db, t: Table, recs: seq<Row>, j: int)
    requires db.Valid() && 0 <= j < |recs|
    requires forall k :: j < k < |recs| ==> KeyOf(t, recs[k]) != KeyOf(t, recs[j])
    ensures var stored := Lookup(UpsertAll(db, t, recs).Rows(t), t, KeyOf(t, recs[j]));
      && stored.Some?
      && forall c :: c in recs[j] && c != "id" ==> c in stored.value.fields && stored.value.fields[c] == recs[j][c]
  {
    UpsertAllSplit(db, t, recs, j);
    UpsertAllKeepsValid(db, t, recs[..j]);
    UpsertThenLater(UpsertAll(db, t, recs[..j]), t, recs, j);
  }

  /** A record upserted before records of other keys is stored afterwards with every
      column of it but `id`. */
  lemma UpsertThenOthers(db: Db, t: Table, rec: Row, rest: seq<Row>)
    requires db.Valid()
    requires forall k :: 0 <= k < |rest| ==> KeyOf(t, rest[k]) != KeyOf(t, rec)
    ensures var stored := Lookup(UpsertAll(db.Upsert(t, rec).0, t, rest).Rows(t), t, KeyOf(t, rec));
      && stored.Some?
      && forall c :: c in rec && c != "id" ==> c in stored.value.fields && stored.value.fields[c] == rec[c]
  {
    UpsertKeepsValid(db, t, rec);
    UpsertStores(db, t, rec);
    UpsertAllKeepsLookup(db.Upsert(t, rec).0, t, rest, KeyOf(t, rec));
  }

  /** `UpsertThenOthers` for the records after `recs[j]`. */
  lemma UpsertThenLater(db: Db, t: Table, recs: seq<Row>, j: int)
    requires db.Valid() && 0 <= j < |recs|
    requires forall k :: j < k < |recs| ==> KeyOf(t, recs[k]) != KeyOf(t, recs[j])
    ensures var stored := Lookup(UpsertAll(db.Upsert(t, recs[j]).0, t, recs[j + 1..]).Rows(t), t, KeyOf(t, recs[j]));
      && stored.Some?
      && forall c :: c in recs[j] && c != "id" ==> c in stored.value.fields && stored.value.fields[c] == recs[j][c]
  {
    var rest := recs[j + 1..];
    forall k | 0 <= k < |rest|
      ensures KeyOf(t, rest[k]) != KeyOf(t, recs[j])
    {
      assert rest[k] == recs[j + 1 + k];
    }
    UpsertThenOthers(db, t, recs[j], rest);
  }

  /** An upsert pass split at the turn of `recs[j]`. */
  lemma UpsertAllSplit(db: Db, t: Table, recs: seq<Row>, j: int)
    requires 0 <= j < |recs|
    ensures UpsertAll(db, t, recs) == UpsertAll(UpsertAll(db, t, recs[..j]).Upsert(t, recs[j]).0, t, recs[j + 1..])
  {
    var mid := UpsertAll(db, t, recs[..j]);
    SplitAt(recs, j);
    UpsertAllConcat(db, t, recs[..j], recs[j..]);
    UpsertAllStep(mid, t, recs[j..], recs[j + 1..], mid.Upsert(t, recs[j]).0);
  }

  /** An upsert pass over two runs of records is the pass over the second run started
      where the pass over the first ends. */
  lemma {:induction false} UpsertAllConcat(db: Db, t: Table, a: seq<Row>, b: seq<Row>)
    ensures UpsertAll(db, t, a + b) == UpsertAll(UpsertAll(db, t, a), t, b)
    decreases |a|
  {
    if |a| == 0 {
      assert a + b == b;
    } else {
      assert (a + b)[0] == a[0] && (a + b)[1..] == a[1..] + b;
      UpsertAllConcat(db.Upsert(t, a[0]).0, t, a[1..], b);
    }
  }

  /** The first record of an upsert pass is stored afterwards under its natural key. */
  lemma UpsertAllStoresFirst(db: Db, t: Table, recs: seq<Row>)
    requires db.Valid() && 0 < |recs|
    ensures Stored(UpsertAll(db, t, recs), t, KeyOf(t, recs[0]))
  {
    var d1 := db.Upsert(t, recs[0]).0;
    UpsertKeepsValid(db, t, recs[0]);
    UpsertStores(db, t, recs[0]);
    UpsertAllKeepsKeyIds(d1, t, recs[1..]);
    KeepsKeyIdsAt(t, d1.Rows(t), UpsertAll(d1, t, recs[1..]).Rows(t), KeyOf(t, recs[0]));
    UpsertAllStep(db, t, recs, recs[1..], d1);
  }

  /** The prepared records of the flavor, variant and component–flavor passes. */
  function FlavorRecords(rows: seq<Row>, catmap: map<string, int>, svc: Services): (r: seq<Row>)
    ensures |r| == |rows|
    ensures forall k :: 0 <= k < |rows| ==> r[k] == FlavorRecord(rows[k], catmap, svc)
    decreases |rows|
  {
    if |rows| == 0 then [] else [FlavorRecord(rows[0], catmap, svc)] + FlavorRecords(rows[1..], catmap, svc)
  }

  function VariantRecords(rows: seq<Row>, catmap: map<string, int>, svc: Services): (r: seq<Row>)
    ensures |r| == |rows|
    ensures forall k :: 0 <= k < |rows| ==> r[k] == VariantRecord(rows[k], catmap, svc)
    decreases |rows|
  {
    if |rows| == 0 then [] else [VariantRecord(rows[0], catmap, svc)] + VariantRecords(rows[1..], catmap, svc)
  }

  function CompFlavorRecords(rows: seq<Row>, catmap: map<string, int>, svc: Services): (r: seq<Row>)
    ensures |r| == |rows|
    ensures forall k :: 0 <= k < |rows| ==> r[k] == CompFlavorRecord(rows[k], catmap, svc)
    decreases |rows|
  {
    if |rows| == 0 then [] else [CompFlavorRecord(rows[0], catmap, svc)] + CompFlavorRecords(rows[1..], catmap, svc)
  }

  /** One iteration of the flavor loop, as the loop sees it. */
  lemma FlavorPassStep(db: Db, rows: seq<Row>, i: int, catmap: map<string, int>, svc: Services, d1: Db)
    requires 0 <= i < |rows| && d1 == db.Upsert(Flavor, FlavorRecord(rows[i], catmap, svc)).0
    ensures UpsertAll(db, Flavor, FlavorRecords(rows[i..], catmap, svc))
      == UpsertAll(d1, Flavor, FlavorRecords(rows[i + 1..], catmap, svc))
  {
    var recs := FlavorRecords(rows[i..], catmap, svc);
    assert rows[i..][0] == rows[i] && rows[i..][1..] == rows[i + 1..];
    UpsertAllStep(db, Flavor, recs, recs[1..], d1);
  }

  /** One iteration of the variant loop, as the loop sees it. */
  lemma VariantPassStep(db: Db, rows: seq<Row>, i: int, catmap: map<string, int>, svc: Services, d1: Db)
    requires 0 <= i < |rows| && d1 == db.Upsert(Variant, VariantRecord(rows[i], catmap, svc)).0
    ensures UpsertAll(db, Variant, VariantRecords(rows[i..], catmap, svc))
      == UpsertAll(d1, Variant, VariantRecords(rows[i + 1..], catmap, svc))
  {
    var recs := VariantRecords(rows[i..], catmap, svc);
    assert rows[i..][0] == rows[i] && rows[i..][1..] == rows[i + 1..];
    UpsertAllStep(db, Variant, recs, recs[1..], d1);
  }

  /** One iteration of the component–flavor loop, as the loop sees it. */
  lemma CompFlavorPassStep(db: Db, rows: seq<Row>, i: int, catmap: map<string, int>, svc: Services, d1: Db)
    requires 0 <= i < |rows| && d1 == db.Upsert(CompFlavor, CompFlavorRecord(rows[i], catmap, svc)).0
    ensures UpsertAll(db, CompFlavor, CompFlavorRecords(rows[i..], catmap, svc))
      == UpsertAll(d1, CompFlavor, CompFlavorRecords(rows[i + 1..], catmap, svc))
  {
    var recs := CompFlavorRecords(rows[i..], catmap, svc);
    assert rows[i..][0] == rows[i] && rows[i..][1..] == rows[i + 1..];
    UpsertAllStep(db, CompFlavor, recs, recs[1..], d1);
  }

  /** The component–variant pass: each row is resolved against the store as it then is
      and, unless dropped, written. */
  function CompVariantPass(db: Db, rows: seq<Row>, compmap: map<string, int>): (r: Db)
    ensures r.nextId >= db.nextId
    decreases |rows|
  {
    if |rows| == 0 then db
    else
      var resolved := ResolvedCompVariant(db, rows[0], compmap);
      var d1 := if resolved.None? then db else CompVariantWrite(db, resolved.value).0;
      CompVariantPass(d1, rows[1..], compmap)
  }

  /** The component–variant pass keeps the store valid. */
  lemma {:induction false} CompVariantPassKeepsValid(db: Db, rows: seq<Row>, compmap: map<string, int>)
    requires db.Valid()
    ensures CompVariantPass(db, rows, compmap).Valid()
    decreases |rows|
  {
    if |rows| > 0 {
      var resolved := ResolvedCompVariant(db, rows[0], compmap);
      var d1 := if resolved.None? then db else CompVariantWrite(db, resolved.value).0;
      if resolved.Some? {
        CompVariantWriteKeepsValid(db, resolved.value);
      }
      CompVariantPassKeepsValid(d1, rows[1..], compmap);
    }
  }

  /** One iteration of the component–variant loop, as the loop sees it. */
  lemma CompVariantPassStep(db: Db, rows: seq<Row>, i: int, compmap: map<string, int>, d1: Db)
    requires 0 <= i < |rows|
    requires var resolved := ResolvedCompVariant(db, rows[i], compmap);
      d1 == if resolved.None? then db else CompVariantWrite(db, resolved.value).0
    ensures CompVariantPass(db, rows[i..], compmap) == CompVariantPass(d1, rows[i + 1..], compmap)
  {
    assert rows[i..][0] == rows[i] && rows[i..][1..] == rows[i + 1..];
  }

  /** The component–variant pass only ever appends relations: every relation stored
      before is left exactly as it was, and no other table changes. */
  lemma {:induction false} CompVariantPassAppends(db: Db, rows: seq<Row>, compmap: map<string, int>)
    ensures var r := CompVariantPass(db, rows, compmap);
      && db.compVariant <= r.compVariant
      && r.compcat == db.compcat && r.component == db.component && r.flavor == db.flavor
      && r.variant == db.variant && r.compFlavor == db.compFlavor
    decreases |rows|
  {
    if |rows| > 0 {
      var resolved := ResolvedCompVariant(db, rows[0], compmap);
      var d1 := if resolved.None? then db else CompVariantWrite(db, resolved.value).0;
      if resolved.Some? {
        assert d1.Rows(Compcat) == db.Rows(Compcat) && d1.Rows(Component) == db.Rows(Component);
        assert d1.Rows(Flavor) == db.Rows(Flavor) && d1.Rows(Variant) == db.Rows(Variant);
        assert d1.Rows(CompFlavor) == db.Rows(CompFlavor);
      }
      CompVariantPassAppends(d1, rows[1..], compmap);
      assert CompVariantPass(db, rows, compmap) == CompVariantPass(d1, rows[1..], compmap);
    }
  }

  // ----- the whole descriptor -----

  /** `$data[<table name>]`: the rows the descriptor files under a table. */
  function Filed(doc: Document, c: Constants, t: Table): seq<Row>
  {
    RowsFiledUnder(doc, c, TableName(t))
  }

  /** `importxml` goes past its checks: the descriptor parsed to a non-empty document that
      has every required table. */
  predicate Accepted(xml: Option<Document>, c: Constants)
  {
    xml.Some? && xml.value != [] && AllAvailable(xml.value, c)
  }

  /** Why `importxml` stops: a descriptor that did not parse or is empty, otherwise the
      first table of `TABLES` that is missing. */
  predicate RejectedWith(xml: Option<Document>, c: Constants, e: ImportError)
  {
    if xml.None? || xml.value == [] then e == ParseFailure
    else !AllAvailable(xml.value, c) && e.MissingTable? && FirstMissing(xml.value, c, e.table)
  }

  /** A descriptor is accepted exactly when `importxml` has no reason to stop on it. */
  lemma AcceptedUnlessRejected(xml: Option<Document>, c: Constants)
    ensures Accepted(xml, c) <==> forall e :: !RejectedWith(xml, c, e)
  {
    if !Accepted(xml, c) && xml.Some? && xml.value != [] {
      var j :| 0 <= j < |c.tables| && !Available(xml.value, c, c.tables[j]);
      var k := 0;
      while k < j && Available(xml.value, c, c.tables[k])
        invariant 0 <= k <= j
        invariant forall i :: 0 <= i < k ==> Available(xml.value, c, c.tables[i])
      {
        k := k + 1;
      }
      assert FirstMissing(xml.value, c, c.tables[k]);
      assert RejectedWith(xml, c, MissingTable(c.tables[k]));
    } else if !Accepted(xml, c) {
      assert RejectedWith(xml, c, ParseFailure);
    }
  }

  /** A rejected descriptor has one reason only. */
  lemma RejectedWithUnique(xml: Option<Document>, c: Constants, e1: ImportError, e2: ImportError)
    requires RejectedWith(xml, c, e1) && RejectedWith(xml, c, e2)
    ensures e1 == e2
  {
    if xml.Some? && xml.value != [] {
      var j1 :| 0 <= j1 < |c.tables| && c.tables[j1] == e1.table && !Available(xml.value, c, c.tables[j1])
        && forall k :: 0 <= k < j1 ==> Available(xml.value, c, c.tables[k]);
      var j2 :| 0 <= j2 < |c.tables| && c.tables[j2] == e2.table && !Available(xml.value, c, c.tables[j2])
        && forall k :: 0 <= k < j2 ==> Available(xml.value, c, c.tables[k]);
      assert j1 == j2;
    }
  }

  /** `import` gets past `importxml`: the bundle is there and holds a descriptor that
      `importxml` accepts. */
  predicate Imported(bundle: Bundle, c: Constants)
  {
    bundle.found && DescriptorOf(bundle, c).Some? && Accepted(DescriptorOf(bundle, c).value, c)
  }

  /** The document `import` imports. */
  function ImportedDocument(bundle: Bundle, c: Constants): Document
    requires Imported(bundle, c)
  {
    DescriptorOf(bundle, c).value.value
  }

  /** The grouped rows of a table are the rows the descriptor files under it. */
  lemma GroupedFiled(data: map<string, seq<Row>>, doc: Document, c: Constants, t: Table)
    requires Grouped(data, doc, c)
    ensures Get2(data, TableName(t)) == Filed(doc, c, t)
  {
  }

  /** What a live `importxml` leaves in the store, and the category map it returns: the
      six passes in their fixed order, then the category backfill. */
  function LiveImport(db: Db, doc: Document, c: Constants, svc: Services): (r: (Db, map<string, int>))
    ensures r.0.nextId >= db.nextId
  {
    var cats := CategoryPass(db, Filed(doc, c, Compcat), map[], svc);
    var catmap := cats.1;
    var comps := ComponentPass(cats.0, Filed(doc, c, Component), catmap, map[], svc);
    var d3 := UpsertAll(comps.0, Flavor, FlavorRecords(Filed(doc, c, Flavor), catmap, svc));
    var d4 := UpsertAll(d3, Variant, VariantRecords(Filed(doc, c, Variant), catmap, svc));
    var d5 := UpsertAll(d4, CompFlavor, CompFlavorRecords(Filed(doc, c, CompFlavor), catmap, svc));
    var d6 := CompVariantPass(d5, Filed(doc, c, CompVariant), comps.1);
    (Backfill(d6, svc), catmap)
  }

  /** The store a live import leaves before its backfill, and the category map. */
  lemma LiveImportSteps(db: Db, doc: Document, c: Constants, svc: Services)
    ensures var cats := CategoryPass(db, Filed(doc, c, Compcat), map[], svc);
      var comps := ComponentPass(cats.0, Filed(doc, c, Component), cats.1, map[], svc);
      var d3 := UpsertAll(comps.0, Flavor, FlavorRecords(Filed(doc, c, Flavor), cats.1, svc));
      var d4 := UpsertAll(d3, Variant, VariantRecords(Filed(doc, c, Variant), cats.1, svc));
      var d5 := UpsertAll(d4, CompFlavor, CompFlavorRecords(Filed(doc, c, CompFlavor), cats.1, svc));
      var d6 := CompVariantPass(d5, Filed(doc, c, CompVariant), comps.1);
      && d6.compcat == cats.0.compcat
      && LiveImport(db, doc, c, svc) == (Backfill(d6, svc), cats.1)
  {
    var cats := CategoryPass(db, Filed(doc, c, Compcat), map[], svc);
    var comps := ComponentPass(cats.0, Filed(doc, c, Component), cats.1, map[], svc);
    var d3 := UpsertAll(comps.0, Flavor, FlavorRecords(Filed(doc, c, Flavor), cats.1, svc));
    var d4 := UpsertAll(d3, Variant, VariantRecords(Filed(doc, c, Variant), cats.1, svc));
    var d5 := UpsertAll(d4, CompFlavor, CompFlavorRecords(Filed(doc, c, CompFlavor), cats.1, svc));
    var d6 := CompVariantPass(d5, Filed(doc, c, CompVariant), comps.1);
    ComponentPassFrame(cats.0, Filed(doc, c, Component), cats.1, map[], svc);
    UpsertAllFrame(comps.0, Flavor, FlavorRecords(Filed(doc, c, Flavor), cats.1, svc));
    UpsertAllFrame(d3, Variant, VariantRecords(Filed(doc, c, Variant), cats.1, svc));
    UpsertAllFrame(d4, CompFlavor, CompFlavorRecords(Filed(doc, c, CompFlavor), cats.1, svc));
    assert d3.Rows(Compcat) == comps.0.Rows(Compcat) && d4.Rows(Compcat) == d3.Rows(Compcat);
    assert d5.Rows(Compcat) == d4.Rows(Compcat);
    CompVariantPassAppends(d5, Filed(doc, c, CompVariant), comps.1);
  }

  /** The category map of a live import holds exactly the descriptor ids of the
      category rows, each mapped to a positive id. */
  lemma LiveImportCategoryKeys(db: Db, doc: Document, c: Constants, svc: Services, k: string)
    requires db.Valid()
    ensures var catmap := LiveImport(db, doc, c, svc).1;
      && (k in catmap <==> k in IdsOf(Filed(doc, c, Compcat)))
      && (k in catmap ==> catmap[k] > 0)
  {
    CategoryPassKeys(db, Filed(doc, c, Compcat), map[], svc, k);
    CategoryPassPositive(db, Filed(doc, c, Compcat), map[], svc);
  }

  /** After a live import each descriptor category id resolves: the category named by the
      last row carrying that id is stored, under exactly the id the map gives. */
  lemma LiveImportResolvesCategories(db: Db, doc: Document, c: Constants, svc: Services, j: int)
    requires db.Valid()
    requires var rows := Filed(doc, c, Compcat);
      0 <= j < |rows| && Get(rows[j], "id") !in IdsOf(rows[j + 1..])
    ensures ResolvesRow(LiveImport(db, doc, c, svc), Filed(doc, c, Compcat)[j])
  {
    var cats := CategoryPass(db, Filed(doc, c, Compcat), map[], svc);
    CategoryPassResolves(db, Filed(doc, c, Compcat), map[], svc, j);
    LiveImportSteps(db, doc, c, svc);
    var comps := ComponentPass(cats.0, Filed(doc, c, Component), cats.1, map[], svc);
    var d3 := UpsertAll(comps.0, Flavor, FlavorRecords(Filed(doc, c, Flavor), cats.1, svc));
    var d4 := UpsertAll(d3, Variant, VariantRecords(Filed(doc, c, Variant), cats.1, svc));
    var d5 := UpsertAll(d4, CompFlavor, CompFlavorRecords(Filed(doc, c, CompFlavor), cats.1, svc));
    var d6 := CompVariantPass(d5, Filed(doc, c, CompVariant), comps.1);
    BackfillFrame(d6, svc);
  }

  /** A live import keeps the store valid. */
  lemma LiveImportKeepsValid(db: Db, doc: Document, c: Constants, svc: Services)
    requires db.Valid()
    ensures LiveImport(db, doc, c, svc).0.Valid()
  {
    var cats := CategoryPass(db, Filed(doc, c, Compcat), map[], svc);
    CategoryPassKeepsValid(db, Filed(doc, c, Compcat), map[], svc);
    var comps := ComponentPass(cats.0, Filed(doc, c, Component), cats.1, map[], svc);
    ComponentPassKeepsValid(cats.0, Filed(doc, c, Component), cats.1, map[], svc);
    var d3 := UpsertAll(comps.0, Flavor, FlavorRecords(Filed(doc, c, Flavor), cats.1, svc));
    UpsertAllKeepsValid(comps.0, Flavor, FlavorRecords(Filed(doc, c, Flavor), cats.1, svc));
    var d4 := UpsertAll(d3, Variant, VariantRecords(Filed(doc, c, Variant), cats.1, svc));
    UpsertAllKeepsValid(d3, Variant, VariantRecords(Filed(doc, c, Variant), cats.1, svc));
    var d5 := UpsertAll(d4, CompFlavor, CompFlavorRecords(Filed(doc, c, CompFlavor), cats.1, svc));
    UpsertAllKeepsValid(d4, CompFlavor, CompFlavorRecords(Filed(doc, c, CompFlavor), cats.1, svc));
    var d6 := CompVariantPass(d5, Filed(doc, c, CompVariant), comps.1);
    CompVariantPassKeepsValid(d5, Filed(doc, c, CompVariant), comps.1);
    BackfillKeepsValid(d6, svc);
  }

  // ----- the file import of `import` -----

  /** `get_records_select('tiny_elements_compcat', 'id IN (…)', …, 'id, name')`: the id and
      name of every stored category whose id is one of `ids`, and of no other, in store
      order (`SelectedCategoriesInStoreOrder`). */
  function SelectedCategories(rows: seq<Record>, ids: set<int>): (r: seq<(int, string)>)
    ensures |r| <= |rows|
    ensures forall i :: 0 <= i < |rows| && rows[i].id in ids ==> (rows[i].id, Get(rows[i].fields, "name")) in r
    ensures forall x :: x in r ==> exists i :: 0 <= i < |rows| && rows[i].id in ids && x == IdName(rows[i])
  {
    PickedSound(rows, (r: Record) => r.id in ids);
    Picked(rows, (r: Record) => r.id in ids)
  }

  /** Selected categories are listed in store order. */
  lemma SelectedCategoriesInStoreOrder(rows: seq<Record>, ids: set<int>, p: int, q: int)
    requires 0 <= p < q < |SelectedCategories(rows, ids)|
    ensures exists i, j :: (0 <= i < j < |rows| && rows[i].id in ids && rows[j].id in ids
      && SelectedCategories(rows, ids)[p] == IdName(rows[i]) && SelectedCategories(rows, ids)[q] == IdName(rows[j]))
  {
    PickedInStoreOrder(rows, (r: Record) => r.id in ids, p, q);
  }
}
