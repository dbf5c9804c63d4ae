/** The parsed export descriptor and the per-category file metadata document, as the
    importer sees them after `simplexml_load_string`: a sequence of top-level elements,
    each a table name and its rows. XML parsing itself is not part of this model. */
module Descriptor {
  import opened Php

  /** One top-level element of the descriptor: `<tablename>` with its row children. */
  datatype TableNode = TableNode(name: string, rows: seq<Row>)

  type Document = seq<TableNode>

  /** The table constants of the plugin (`constants::TABLES`, `TABLE_ALIASES`,
      `OPTIONAL_TABLES`) and the two reserved file names (`FILE_NAME_EXPORT`, the prefix
      `FILE_NAME_METADATA`). `aliases` lists (table, alias) pairs in declaration order. */
  datatype Constants = Constants(
    tables: seq<string>,
    aliases: seq<(string, string)>,
    optional: set<string>,
    exportFileName: string,
    metadataFilePrefix: string)

  /** `TABLE_ALIASES[$table]`: the alias declared for a table (the last declaration wins). */
  function AliasOf(aliases: seq<(string, string)>, table: string): Option<string>
  {
    if |aliases| == 0 then None
    else if aliases[|aliases| - 1].0 == table then Some(aliases[|aliases| - 1].1)
    else AliasOf(aliases[..|aliases| - 1], table)
  }

  /** `array_flip(TABLE_ALIASES)[$alias]`: the table an alias stands for (the last
      declaration wins). */
  function TableOfAlias(aliases: seq<(string, string)>, alias: string): (r: Option<string>)
    ensures r.None? <==> forall i :: 0 <= i < |aliases| ==> aliases[i].1 != alias
    ensures r.Some? ==> exists i :: (0 <= i < |aliases| && aliases[i] == (r.value, alias)
      && forall k :: i < k < |aliases| ==> aliases[k].1 != alias)
    decreases |aliases|
  {
    if |aliases| == 0 then None
    else if aliases[|aliases| - 1].1 == alias then Some(aliases[|aliases| - 1].0)
    else
      var init := aliases[..|aliases| - 1];
      var r := TableOfAlias(init, alias);
      assert forall i :: 0 <= i < |init| ==> init[i] == aliases[i];
      assert r.Some? ==> exists i :: (0 <= i < |aliases| && aliases[i] == (r.value, alias)
        && forall k :: i < k < |aliases| ==> aliases[k].1 != alias) by {
        if r.Some? {
          var i :| 0 <= i < |init| && init[i] == (r.value, alias) && forall k :: i < k < |init| ==> init[k].1 != alias;
          assert aliases[i] == (r.value, alias);
        }
      }
      r
  }

  /** `isset($xml->$name)`: the document has a top-level element of that name. */
  predicate Present(doc: Document, name: string)
  {
    exists i :: 0 <= i < |doc| && doc[i].name == name
  }

  /** A table passes the presence check when it appears under its own name or its alias,
      or is optional. */
  predicate Available(doc: Document, c: Constants, table: string)
  {
    || Present(doc, table)
    || (AliasOf(c.aliases, table).Some? && Present(doc, AliasOf(c.aliases, table).value))
    || table in c.optional
  }

  predicate AllAvailable(doc: Document, c: Constants)
  {
    forall j :: 0 <= j < |c.tables| ==> Available(doc, c, c.tables[j])
  }

  /** `table` is the first table of `TABLES`, in order, that fails the presence check. */
  predicate FirstMissing(doc: Document, c: Constants, table: string)
  {
    exists j :: 0 <= j < |c.tables| && c.tables[j] == table && !Available(doc, c, c.tables[j])
      && forall k :: 0 <= k < j ==> Available(doc, c, c.tables[k])
  }

  /** The presence check of `importxml`: the first table of `TABLES`, in order, that is
      neither present under its name or alias nor optional. */
  method FindMissingTable(doc: Document, c: Constants) returns (missing: Option<string>)
    ensures missing.None? <==> AllAvailable(doc, c)
    ensures missing.Some? ==> FirstMissing(doc, c, missing.value)
  {
    var j := 0;
    while j < |c.tables|
      invariant 0 <= j <= |c.tables|
      invariant forall k :: 0 <= k < j ==> Available(doc, c, c.tables[k])
    {
      var table := c.tables[j];
      var alias := AliasOf(c.aliases, table);
      var aliasPresent := alias.Some? && Present(doc, alias.value);
      if !Present(doc, table) && !aliasPresent && table !in c.optional {
        return Some(table);
      }
      j := j + 1;
    }
    return None;
  }

  /** The table key under which `importxml` files the rows of an element: its own name
      when it is one of `TABLES`, otherwise the table its alias stands for; an unknown
      name is filed under PHP's null key, which reads as ''. */
  function Canonical(c: Constants, name: string): string
  {
    if name in c.tables then name
    else match TableOfAlias(c.aliases, name)
      case Some(t) => t
      case None => ""
  }

  /** All rows filed under `key`, in document order. */
  function RowsFiledUnder(doc: Document, c: Constants, key: string): seq<Row>
  {
    if |doc| == 0 then []
    else
      var last := doc[|doc| - 1];
      RowsFiledUnder(doc[..|doc| - 1], c, key) + (if Canonical(c, last.name) == key then last.rows else [])
  }

  /** The grouping loop of `importxml`: every row is appended, in document order, to
      `$data[<canonical table>]`. A key exists only once a row has been filed under it. */
  method GroupRows(doc: Document, c: Constants) returns (data: map<string, seq<Row>>)
    ensures forall k :: k in data ==> data[k] == RowsFiledUnder(doc, c, k) && data[k] != []
    ensures forall k :: k !in data ==> RowsFiledUnder(doc, c, k) == []
  {
    data := map[];
    var i := 0;
    while i < |doc|
      invariant 0 <= i <= |doc|
      invariant Grouped(data, doc[..i], c)
    {
      ghost var before := data;
      data := AppendRows(data, Canonical(c, doc[i].name), doc[i].rows);
      GroupedStep(before, data, doc, c, i);
      i := i + 1;
    }
    assert doc[..|doc|] == doc;
  }

  /** `data` holds, under each key, exactly the rows of `doc` filed under it. */
  ghost predicate Grouped(data: map<string, seq<Row>>, doc: Document, c: Constants)
  {
    && (forall k :: k in data ==> data[k] == RowsFiledUnder(doc, c, k) && data[k] != [])
    && (forall k :: k !in data ==> RowsFiledUnder(doc, c, k) == [])
  }

  lemma GroupedStep(before: map<string, seq<Row>>, after: map<string, seq<Row>>, doc: Document, c: Constants, i: nat)
    requires i < |doc|
    requires Grouped(before, doc[..i], c)
    requires var key := Canonical(c, doc[i].name);
      after == if doc[i].rows == [] then before else before[key := Get2(before, key) + doc[i].rows]
    ensures Grouped(after, doc[..i + 1], c)
  {
    forall k {
      FiledPrefixStep(doc, c, i, k);
    }
  }

  /** The inner loop of the grouping: `$data[$key][] = $row` for each row in turn. */
  method AppendRows(data: map<string, seq<Row>>, key: string, rows: seq<Row>) returns (data': map<string, seq<Row>>)
    ensures data' == if rows == [] then data else data[key := Get2(data, key) + rows]
  {
    data' := data;
    var j := 0;
    while j < |rows|
      invariant 0 <= j <= |rows|
      invariant data' == if j == 0 then data else data[key := Get2(data, key) + rows[..j]]
    {
      assert Get2(data', key) == Get2(data, key) + rows[..j] by {
        if j == 0 { assert rows[..j] == []; assert Get2(data, key) + [] == Get2(data, key); }
      }
      assert Get2(data', key) + [rows[j]] == Get2(data, key) + rows[..j + 1] by {
        assert rows[..j + 1] == rows[..j] + [rows[j]];
      }
      data' := data'[key := Get2(data', key) + [rows[j]]];
      j := j + 1;
    }
    assert rows[..|rows|] == rows;
  }

  lemma FiledPrefixStep(doc: Document, c: Constants, i: nat, k: string)
    requires i < |doc|
    ensures RowsFiledUnder(doc[..i + 1], c, k)
      == RowsFiledUnder(doc[..i], c, k) + (if Canonical(c, doc[i].name) == k then doc[i].rows else [])
  {
    assert doc[..i + 1][..i] == doc[..i];
  }

  /** `$data[$k]` on the grouped rows, with a missing key read as no rows (PHP's foreach
      over null only warns). */
  function Get2(data: map<string, seq<Row>>, k: string): seq<Row>
  {
    if k in data then data[k] else []
  }

  /** Rows of an element found under a table's alias are filed under that table. */
  lemma {:induction false} AliasRowsFiledUnderTable(doc: Document, c: Constants, i: nat, table: string)
    requires i < |doc|
    requires doc[i].name !in c.tables
    requires TableOfAlias(c.aliases, doc[i].name) == Some(table)
    ensures forall row :: row in doc[i].rows ==> row in RowsFiledUnder(doc, c, table)
    decreases |doc|
  {
    var init := doc[..|doc| - 1];
    if i < |doc| - 1 {
      assert init[i] == doc[i];
      AliasRowsFiledUnderTable(init, c, i, table);
    }
  }

  /** Rows of an element found under a table's own name are filed under that table. */
  lemma {:induction false} TableRowsFiledUnderTable(doc: Document, c: Constants, i: nat)
    requires i < |doc|
    requires doc[i].name in c.tables
    ensures forall row :: row in doc[i].rows ==> row in RowsFiledUnder(doc, c, doc[i].name)
    decreases |doc|
  {
    var init := doc[..|doc| - 1];
    if i < |doc| - 1 {
      assert init[i] == doc[i];
      TableRowsFiledUnderTable(init, c, i);
    }
  }

  // ----- per-category file metadata document -----

  /** A cell of the metadata document: its text and its child elements' texts (the
      `license` cell nests a `shortname` child). */
  datatype MetaCell = MetaCell(text: string, children: map<string, string>)

  type MetaRow = map<string, MetaCell>

  datatype MetaNode = MetaNode(name: string, rows: seq<MetaRow>)

  /** The metadata file of one category: not in the bundle, not well-formed, or parsed. */
  datatype MetaSource = NoMetadataFile | Unparsable | Parsed(nodes: seq<MetaNode>)

  /** One flattened metadata entry (`filename`, `source`, `author`, `license`, …). */
  type FileMetadata = map<string, string>

  /** Flattened metadata entries grouped by the element name they were found under. */
  type Metadata = map<string, seq<FileMetadata>>

  /** The column loop of `update_files_metadata`: every column becomes its text, except
      `license`, which becomes the text of its `shortname` child. */
  function FlattenRow(row: MetaRow): FileMetadata
  {
    map col | col in row :: if col == "license" then Get(row[col].children, "shortname") else row[col].text
  }

  /** All flattened rows found under the element name `key`, in document order. */
  function EntriesUnder(nodes: seq<MetaNode>, key: string): seq<FileMetadata>
  {
    if |nodes| == 0 then []
    else
      var last := nodes[|nodes| - 1];
      EntriesUnder(nodes[..|nodes| - 1], key) + (if last.name == key then FlattenRows(last.rows) else [])
  }

  function FlattenRows(rows: seq<MetaRow>): (r: seq<FileMetadata>)
    ensures |r| == |rows|
    ensures forall i :: 0 <= i < |rows| ==> r[i] == FlattenRow(rows[i])
  {
    if |rows| == 0 then [] else FlattenRows(rows[..|rows| - 1]) + [FlattenRow(rows[|rows| - 1])]
  }

  /** Every flattened entry has exactly the columns of its row; its license is the
      `shortname` text of the license cell, and every other column is the cell's text. */
  lemma {:induction false} EntriesFlattenLicense(nodes: seq<MetaNode>, key: string, e: nat)
    requires e < |EntriesUnder(nodes, key)|
    ensures exists i, r :: (0 <= i < |nodes| && nodes[i].name == key && 0 <= r < |nodes[i].rows|
      && EntriesUnder(nodes, key)[e] == FlattenRow(nodes[i].rows[r]))
    ensures var entry := EntriesUnder(nodes, key)[e];
      "license" in entry ==> exists i, r :: (0 <= i < |nodes| && 0 <= r < |nodes[i].rows|
        && "license" in nodes[i].rows[r] && entry["license"] == Get(nodes[i].rows[r]["license"].children, "shortname"))
    decreases |nodes|
  {
    var init := nodes[..|nodes| - 1];
    var last := nodes[|nodes| - 1];
    var prev := EntriesUnder(init, key);
    if e < |prev| {
      EntriesFlattenLicense(init, key, e);
      var i, r :| 0 <= i < |init| && init[i].name == key && 0 <= r < |init[i].rows|
        && prev[e] == FlattenRow(init[i].rows[r]);
      assert nodes[i] == init[i];
    } else {
      var r := e - |prev|;
      assert EntriesUnder(nodes, key)[e] == FlattenRow(last.rows[r]);
      assert nodes[|nodes| - 1] == last;
    }
  }

  /** Every element name that has entries is the name of some element. */
  lemma {:induction false} EntriesNamed(nodes: seq<MetaNode>, key: string)
    requires EntriesUnder(nodes, key) != []
    ensures exists i :: 0 <= i < |nodes| && nodes[i].name == key
    decreases |nodes|
  {
    var init := nodes[..|nodes| - 1];
    if nodes[|nodes| - 1].name != key {
      EntriesNamed(init, key);
      var i :| 0 <= i < |init| && init[i].name == key;
      assert nodes[i] == init[i];
    }
  }

  /** The metadata `update_files_metadata` returns for a parsed document: under each
      element name, every flattened row found under it, in document order. */
  function GroupedMetadata(nodes: seq<MetaNode>): (m: Metadata)
    ensures forall k :: k in m <==> EntriesUnder(nodes, k) != []
    ensures forall k :: k in m ==> m[k] == EntriesUnder(nodes, k)
  {
    var names := set i | 0 <= i < |nodes| :: nodes[i].name;
    assert forall k :: EntriesUnder(nodes, k) != [] ==> k in names by {
      forall k | EntriesUnder(nodes, k) != [] ensures k in names {
        EntriesNamed(nodes, k);
      }
    }
    map k | k in names && EntriesUnder(nodes, k) != [] :: EntriesUnder(nodes, k)
  }

  /** `update_files_metadata`: no metadata for a category without a metadata file, with
      an unparsable one, or with one whose root element is empty. */
  function MetadataOf(source: MetaSource): (m: Metadata)
    ensures !source.Parsed? ==> m == map[]
  {
    if source.Parsed? && source.nodes != [] then GroupedMetadata(source.nodes) else map[]
  }

  /** `data` holds, under each element name, exactly the flattened rows of `nodes` found
      under it. */
  ghost predicate MetaGrouped(data: Metadata, nodes: seq<MetaNode>)
  {
    && (forall k :: k in data ==> data[k] == EntriesUnder(nodes, k) && data[k] != [])
    && (forall k :: k !in data ==> EntriesUnder(nodes, k) == [])
  }

  lemma EntriesPrefixStep(nodes: seq<MetaNode>, i: nat, k: string)
    requires i < |nodes|
    ensures EntriesUnder(nodes[..i + 1], k)
      == EntriesUnder(nodes[..i], k) + (if nodes[i].name == k then FlattenRows(nodes[i].rows) else [])
  {
    assert nodes[..i + 1][..i] == nodes[..i];
  }

  lemma MetaGroupedStep(before: Metadata, after: Metadata, nodes: seq<MetaNode>, i: nat, rows: seq<FileMetadata>)
    requires i < |nodes| && rows == FlattenRows(nodes[i].rows)
    requires MetaGrouped(before, nodes[..i])
    requires after == if rows == [] then before else before[nodes[i].name := Get2(before, nodes[i].name) + rows]
    ensures MetaGrouped(after, nodes[..i + 1])
  {
    forall k
      ensures EntriesUnder(nodes[..i + 1], k) == EntriesUnder(nodes[..i], k) + (if nodes[i].name == k then rows else [])
    {
      EntriesPrefixStep(nodes, i, k);
    }
  }

  /** Grouped metadata is determined by the document. */
  lemma MetaGroupedIsGroupedMetadata(data: Metadata, nodes: seq<MetaNode>)
    requires MetaGrouped(data, nodes)
    ensures data == GroupedMetadata(nodes)
  {
    var m := GroupedMetadata(nodes);
    assert forall k :: k in data <==> k in m;
  }
}
