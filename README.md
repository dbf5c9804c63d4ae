# tiny_elements bundle importer, modelled in Dafny

tiny_elements is a TinyMCE plugin for Moodle. It has components, component categories,
flavors and variants, stored in six tables. Its `importer` class reads an exported
bundle. The bundle is an XML descriptor (`tiny_elements_export.xml`, or the legacy
`tiny_c4l_export.xml`). Beside it lies one directory of image files per category, and
each of those directories has a metadata document. The importer:

- checks that the descriptor names every required table, directly or through its alias;
- upserts categories, components, flavors, variants and the two relation tables in a
  fixed order, matching records on their natural key (a name, or a component name paired
  with a flavor or variant name);
- remaps category and component ids from the descriptor to the ids the store hands out;
- rewrites the file references inside css, code and html columns;
- fills in the relation rows a component's `flavors` and `variants` lists name;
- backfills flavors and variants that have no category name;
- copies the category's image files into the plugin's file area, setting
  source, author and license from the metadata document.

Each record the six table loops handle, and each staged file the file loop handles,
appends a result line. The relation gap-fill of a component and the category backfill
log nothing, and a legacy component–variant row whose component is not part of the
import is dropped without a line. A dry run does all the lookups and logs a line for
each of the same records and files, but the table loops and the file loop write
nothing. The category backfill (`update_flavor_variant_category`) runs in a dry run
too, and writes.

The model has these modules:

- `Php`: the few PHP built-ins the code relies on: `explode`, `str_replace`, `empty()`,
  reading an absent column, and an integer as text.
- `Results`: the result codes and the exceptions that end an import.
- `RecordStore`: the six tables as a value, with Moodle's `get_record`, `insert_record`
  and `update_record`. A table is an ordered sequence of records. `Db.Valid` says ids are
  positive, distinct and below the next id, and natural keys are unique within a table.
- `Descriptor`: the parsed descriptor and metadata documents. It covers the table
  presence check, the grouping of rows by table (aliases included) and the flattening of
  the metadata document.
- `FileImport`: `importfiles` as a function of the file store (`FilesRun`), and the file
  loop of `import`.
- `ImportSpec`: what a live run leaves in the store, one function per table pass
  (`CategoryPass`, `ComponentPass`, `UpsertAll`, `CompVariantPass`, `Backfill`,
  `LiveImport`), and the properties those passes keep.
- `ImportLog`: what the table loops of `importxml` log, one function per loop
  (`CategoryLog`, `ComponentLog`, `UpsertLog`, `CompVariantLog`) and `XmlLog` for the
  whole descriptor. Each line is "replace" or "new" as the record's natural key is
  stored or not: in a live run in the store the earlier rows left, in a dry run in the
  store as it was before the import.
- `Importer`: the `importer` class itself. Its fields are the dry-run flag, the store,
  the file store and the result log. Each method is proved against the functions of
  `ImportSpec` and `ImportLog`. A live run leaves exactly their store and logs exactly
  their lines. In a dry run the table loops leave the store alone and log against the
  store as it was; only the category backfill writes.

Where `import_category` and its siblings draw a random id in a dry run, the model picks
any id between 1 and `PHP_INT_MAX`.

## Model

| member | source | states |
|---|---|---|
| Php.Explode | classes/importer.php:356-386 | `explode(',', …)` yields at least one piece; no piece contains the separator; there is one more piece than separators |
| Php.ImplodeExplode | classes/importer.php:356-386 | joining the pieces of `explode` with the separator gives back the original list text |
| Php.RemoveAll | classes/importer.php:122 | `str_replace('/' . $categoryname, '', $path)` never lengthens the path; what it removes is stated by `RemoveAllAbsent` and `RemoveAllLeading` |
| Php.RemoveAllAbsent | classes/importer.php:122 | a path that does not contain `/<categoryname>` is kept as it is |
| Php.RemoveAllLeading | classes/importer.php:122 | a path made of `/<categoryname>` and a rest without that pattern becomes the rest |
| Php.IdText | classes/importer.php:307 | an id as PHP prints an int: a leading `-` exactly for a negative id, then the decimal digits of its magnitude (`NatText`) |
| Php.NatText | classes/importer.php:307 | a natural number's text is non-empty, digits only, with no leading zero unless it is 0 |
| Php.NatTextValue | classes/importer.php:307 | reading the digits back gives the number |
| Php.IdTextInjective | classes/importer.php:307 | two ids print alike only when they are equal, so comparing id texts compares ids |
| RecordStore.FirstIndex | classes/importer.php:291 | the position of the first record with the key: every earlier record has another key |
| RecordStore.Lookup | classes/importer.php:291 | `get_record` by natural key finds nothing exactly when no record has the key; otherwise it finds a stored record with that key |
| RecordStore.FieldById | classes/importer.php:327 | `get_field` by id finds a value exactly when a record has that id, and the value is the column of the first record with that id |
| RecordStore.FieldByIdAt | classes/importer.php:327 | with distinct ids, `get_field` by a record's id gives that record's column |
| RecordStore.Db.Upsert | classes/importer.php:291-305 | the lookup-then-write writes only its own table and never lowers the next id |
| RecordStore.UpsertFound | classes/importer.php:291-305 | a found key keeps its record's id and the table's length; a missing key is appended under the next id |
| RecordStore.UpsertStores | classes/importer.php:291-305 | after the write, the key resolves to the returned id, and the stored record carries every incoming column except `id` |
| RecordStore.UpsertKeepsValid | classes/importer.php:291-305 | the lookup-then-write keeps ids distinct and in range, and keys unique |
| RecordStore.UpdateKeepsValid | classes/importer.php:306-310 | an `update_record` that leaves the natural key alone keeps the store valid, and every key at its position |
| RecordStore.InsertKeepsValid | classes/importer.php:298-305 | inserting a key that is not yet present keeps the store valid |
| RecordStore.InsertShape | classes/importer.php:298-305 | `insert_record` appends to its own table only, under the next id |
| RecordStore.UpsertKeepsKeyIds | classes/importer.php:291-305 | no record stored before an upsert changes id |
| RecordStore.UpdateKeepsOtherLookup | classes/importer.php:291-296 | rewriting the record of one key leaves the lookup of every other key as it was |
| RecordStore.AppendKeepsOtherLookup | classes/importer.php:298-305 | appending a record of another key leaves the lookup of a key as it was |
| RecordStore.UpsertKeepsLookup | classes/importer.php:291-305 | an upsert of another key leaves what a key resolves to exactly as it was: the record stored under it, or nothing |
| RecordStore.LookupIdInRange | classes/importer.php:291 | a record found in a valid store has a positive id below the next id |
| RecordStore.SetCategorynameKeepsValid | classes/importer.php:262-278 | writing a `categoryname` keeps the store valid and every key at its position |
| RecordStore.PrefixKeepsKeyIds | classes/importer.php:356-386 | extending a table at its end never moves an existing key to another id |
| Descriptor.TableOfAlias | classes/importer.php:207-219 | an alias resolves exactly when it is declared; it resolves to the table of its last declaration, as `array_flip` keeps the last key |
| Descriptor.FindMissingTable | classes/importer.php:198-203 | no table is reported exactly when every required table is present; otherwise the reported one is the first missing table in `TABLES` order |
| ImportSpec.AcceptedUnlessRejected | classes/importer.php:188-203 | `importxml` accepts a descriptor exactly when it has no reason to stop: parsed, non-empty and with every required table |
| ImportSpec.RejectedWithUnique | classes/importer.php:188-203 | a rejected descriptor has exactly one reason: the parse failure, or the first missing table |
| Descriptor.GroupRows | classes/importer.php:205-222 | under each key, exactly the rows filed under it, in document order; a key is present only when it has rows |
| Descriptor.AppendRows | classes/importer.php:220-221 | the inner loop appends the element's rows under the key and creates the key only if there is a row |
| Descriptor.AliasRowsFiledUnderTable | classes/importer.php:205-221 | rows found under a table's alias are filed under that table |
| Descriptor.TableRowsFiledUnderTable | classes/importer.php:207-221 | rows found under a table's own name are filed under that table |
| Descriptor.FlattenRows | classes/importer.php:592-603 | one flattened entry per row, in order |
| Descriptor.EntriesFlattenLicense | classes/importer.php:594-600 | every entry comes from a row of its element; its license is the `shortname` text of the row's license cell |
| Descriptor.EntriesNamed | classes/importer.php:590-605 | an element name with entries is the name of some element of the document |
| Descriptor.GroupedMetadata | classes/importer.php:590-605 | a key is present exactly when rows were found under it, and it holds all of those rows, in order |
| Descriptor.MetadataOf | classes/importer.php:575-588 | a missing or unparsable metadata file gives no metadata |
| Descriptor.MetaGroupedIsGroupedMetadata | classes/importer.php:590-605 | the grouping loop's result is determined by the document |
| FileImport.FirstMetaIndex | classes/importer.php:146-153 | the position of the first entry naming the file; no earlier entry names it |
| FileImport.MetadataForMeaning | classes/importer.php:143-154 | a new file gets no metadata exactly when no entry of its category names it; otherwise it gets the source, author and license of the first entry that does |
| FileImport.MetadataFor | classes/importer.php:141-154 | a new file gets either no metadata or exactly its source, author and license; with an empty metadata document it gets none |
| FileImport.StepOf | classes/importer.php:112-172 | directories and descriptor or metadata XML files are skipped. A new file is refused only when a live run cannot create it. The log says new, replaced or unchanged, by presence and content hash. Only the destination changes, and never in a dry run or for an unchanged file. A file a live run creates gets the metadata of the first matching entry (`MetadataFor`); a replaced file keeps its metadata |
| FileImport.Skipped | classes/importer.php:113-121 | directories and the descriptor file are never imported; apart from directories, only XML files are skipped |
| FileImport.DestPath | classes/importer.php:122 | a falsy category name, or a path that does not hold `/<categoryname>`, keeps the staged path; the destination path is never longer than the staged one |
| FileImport.DestPathStripsCategory | classes/importer.php:122 | a staged path under `/<categoryname>` lands at the rest of the path |
| FileImport.DryRunWritesNoFiles | classes/importer.php:110-174 | a dry run of `importfiles` writes no file and never fails |
| FileImport.FilesRun | classes/importer.php:110-174 | the file loop logs at most one line per staged file, and the only way it stops early is a file it could not create |
| FileImport.CategoryRun | classes/importer.php:85-95 | one category's file import logs at most one line per file staged under the category's directory, and fails only on a file it could not create |
| FileImport.BundleFilesRun | classes/importer.php:84-96 | the file loop over the selected categories fails only on a file it could not create |
| FileImport.PreviewMatches | classes/importer.php:110-174 | two stores that agree at every destination give a dry run and a live run the same log |
| FileImport.DryRunPreviewsRealRun | classes/importer.php:110-174 | a dry run logs exactly what a live run from the same store logs, when destinations are distinct and every new file is accepted; the live run then completes |
| FileImport.DescriptorOf | classes/importer.php:71-74 | the current descriptor name is read first, then the legacy name; nothing is found only when both are absent |
| FileImport.DryRunBundleWritesNoFiles | classes/importer.php:84-96 | a dry run of the file loop over all categories writes no file and never fails |
| ImportSpec.CategoryWrite | classes/importer.php:287-312 | `import_category` writes only the category table and never lowers the next id |
| ImportSpec.CategoryWriteKeepsValid | classes/importer.php:287-312 | the category write keeps the store valid and returns a positive id |
| ImportSpec.CategoryWriteIds | classes/importer.php:291-305 | a category whose name is stored keeps its id; any other gets the next id; afterwards the name resolves to the returned id, and no stored category changes id |
| ImportSpec.CategoryWriteColumns | classes/importer.php:292-310 | the stored category carries every descriptor column except `id` and `css` |
| ImportSpec.CategoryWriteCss | classes/importer.php:306-310 | the css is rewritten for the new id when the descriptor id differs from it; otherwise the descriptor's css is kept |
| ImportSpec.CategoryCssRewritten | classes/importer.php:306-310 | when the ids differ, the stored css is `update_pluginfile_tags(old id, new id, css)` |
| ImportSpec.CategoryCssKept | classes/importer.php:306-310 | when the ids agree, the descriptor's css is stored unchanged |
| ImportSpec.CategoryWriteIs | classes/importer.php:287-312 | the upsert followed by the conditional css rewrite is the category write, and it leaves a valid store |
| ImportSpec.Rewritten | classes/importer.php:330-333 | the listed columns become their bulk tag rewrite (an absent column counts as ''); every other column is kept |
| ImportSpec.RewrittenKeepsKey | classes/importer.php:330-333 | rewriting tag columns never touches a natural-key column |
| ImportSpec.FlavorRecord | classes/importer.php:404-405 | the flavor stored keeps its name, and every column but css and content as given |
| ImportSpec.VariantRecord | classes/importer.php:436-438 | the variant stored keeps its name, and every column but css, content and icon url as given |
| ImportSpec.CompFlavorRecord | classes/importer.php:472 | the relation stored keeps its component and flavor names, and every column but icon url as given |
| ImportSpec.PreparedComponent | classes/importer.php:325-333 | preparing a component keeps its natural key |
| ImportSpec.PreparedComponentRemap | classes/importer.php:325-328 | a category reference of this import becomes the category's new id and that category's name |
| ImportSpec.ComponentBase | classes/importer.php:325-328 | the remap touches only `compcat` and `categoryname`, keeps the component's name, and leaves a row whose category is not imported as it is |
| ImportSpec.NameById | classes/importer.php:327 | with no record of that id the name reads as ''; a non-empty name is the name column of a record with that id |
| ImportSpec.PreparedComponentTags | classes/importer.php:330-333 | css, code, js and icon url are always present, rewritten through the category map |
| ImportSpec.PreparedComponentOthers | classes/importer.php:322-333 | every other column is kept as the descriptor gives it |
| ImportSpec.PreparedComponentLists | classes/importer.php:356-386 | the prepared component keeps its name and its `flavors` and `variants` lists |
| ImportSpec.RelationRecord | classes/importer.php:362-367 | the relation row the gap-fill inserts has the component–other pair as its key and no id |
| ImportSpec.AddRelation | classes/importer.php:358-369 | after one gap-fill step, a non-empty name has its relation row |
| ImportSpec.AddRelationKeepsValid | classes/importer.php:358-369 | a gap-fill step keeps the store valid |
| ImportSpec.AddRelationAppends | classes/importer.php:358-369 | a gap-fill step either keeps the relation table or appends the one relation at its end; no other table changes |
| ImportSpec.Filled | classes/importer.php:356-386 | the gap-fill only grows its relation table, at the end, and changes no other table |
| ImportSpec.FilledKeepsValid | classes/importer.php:356-386 | the gap-fill keeps the store valid, so it never duplicates a relation |
| ImportSpec.FilledStoresNames | classes/importer.php:356-386 | afterwards every non-empty listed name has its relation row |
| ImportSpec.FilledAddsOnlyNamedRelations | classes/importer.php:356-386 | every row the gap-fill adds relates the component to one of the listed names |
| ImportSpec.ComponentWrite | classes/importer.php:322-390 | `import_component` never lowers the next id |
| ImportSpec.FillPassStores | classes/importer.php:356-370 | unless the list is falsy, every non-empty listed name has its relation afterwards; earlier relations keep their ids |
| ImportSpec.ComponentWriteKeepsValid | classes/importer.php:322-390 | the component write keeps the store valid |
| ImportSpec.ComponentWriteFrame | classes/importer.php:322-390 | the component write touches neither categories, flavors nor variants |
| ImportSpec.RelationPassesKeepEntities | classes/importer.php:356-386 | the two relation loops change only their own relation tables |
| ImportSpec.ComponentWriteIds | classes/importer.php:335-353 | a component whose name is stored keeps its id; any other gets the next id; afterwards the name resolves to the returned id, and no stored component changes id |
| ImportSpec.ComponentWriteColumns | classes/importer.php:335-353 | the stored component carries every column of the prepared record except `id` |
| ImportSpec.ComponentTableAfterWrite | classes/importer.php:335-386 | the relation loops leave the component table as the upsert left it |
| ImportSpec.ComponentWriteFillsFlavors | classes/importer.php:356-370 | each listed flavor has its relation row; no stored flavor relation changes id |
| ImportSpec.ComponentWriteFillsVariants | classes/importer.php:372-386 | each listed variant has its relation row; no stored variant relation changes id |
| ImportSpec.ResolvedCompVariant | classes/importer.php:506-521 | a current-shape row is taken as it is. A legacy row is dropped exactly when its component is not in this import; otherwise it gets the new component id and name, and every other column is kept |
| ImportSpec.CompVariantWriteEffect | classes/importer.php:523-545 | a stored relation is left exactly as it is and keeps its id; a missing one is appended under the next id, where a lookup then finds it; no other table changes |
| ImportSpec.CompVariantWrite | classes/importer.php:523-545 | the relation write touches only the component–variant table and never lowers the next id |
| ImportSpec.CompVariantWriteKeepsValid | classes/importer.php:523-545 | writing a component–variant relation keeps the store valid |
| ImportSpec.Unnamed | classes/importer.php:267-277 | every record with an empty category name is pending, with its id and name, and every pending pair is such a record's id and name |
| ImportSpec.UnnamedInStoreOrder | classes/importer.php:267-277 | pending records are listed in store order |
| ImportSpec.UnnamedSkipsNamed | classes/importer.php:267-277 | a record that has a category name is never pending |
| ImportSpec.Backfilled | classes/importer.php:267-277 | a backfill loop writes only its table, keeps the table's length and hands out no id; what each record receives is `BackfilledNames` |
| ImportSpec.BackfilledConcat | classes/importer.php:267-277 | backfilling two runs of pending records is backfilling the first, then the second on the store the first left |
| ImportSpec.BackfilledNames | classes/importer.php:267-277 | a pending record that no later iteration names again ends with the name the hook computed on its turn, from the store the earlier iterations left |
| ImportSpec.BackfilledNamesUnnamed | classes/importer.php:267-277 | every record `get_records($table, ['categoryname' => ''])` returned ends with the name the hook computed on its turn |
| ImportSpec.BackfilledKeepsValid | classes/importer.php:267-277 | filling in category names keeps the store valid |
| ImportSpec.BackfilledFillsOnly | classes/importer.php:267-277 | only the `categoryname` of pending records changes; ids and all other columns stay |
| ImportSpec.Backfill | classes/importer.php:262-278 | `update_flavor_variant_category` hands out no id; the names it gives are `BackfillNamesFlavors` and `BackfillNamesVariants` |
| ImportSpec.BackfillKeepsValid | classes/importer.php:262-278 | the backfill keeps the store valid |
| ImportSpec.BackfillFrame | classes/importer.php:262-278 | the backfill touches neither categories, components nor relations |
| ImportSpec.BackfillOnlyFillsCategoryName | classes/importer.php:262-278 | only the `categoryname` of the flavors and variants that had none changes |
| ImportSpec.BackfillNamesFlavors | classes/importer.php:267-271 | every flavor that had no category name ends with the one `get_compcatname_for_flavor` returned on its turn |
| ImportSpec.BackfillNamesVariants | classes/importer.php:273-277 | every variant that had no category name ends with the one `get_compcatname_for_variant` returned on its turn, after the flavors were filled in |
| ImportSpec.NamedUntouched | classes/importer.php:267-277 | a flavor or variant that already has a category name is left exactly as it was |
| ImportSpec.CategoryPass | classes/importer.php:225-228 | the category loop never lowers the next id |
| ImportSpec.CategoryPassKeepsValid | classes/importer.php:225-228 | the category loop keeps the store valid |
| ImportSpec.IdsOf | classes/importer.php:225-228 | every row's descriptor id is among the ids |
| ImportSpec.CategoryPassKeys | classes/importer.php:225-228 | the category map gains exactly the descriptor ids of the rows |
| ImportSpec.CategoryPassPositive | classes/importer.php:225-228 | every id in the category map is positive |
| ImportSpec.CategoryPassFrame | classes/importer.php:225-228 | the category loop writes no other table, and no stored category changes id |
| ImportSpec.CategoryPassKeepsOthers | classes/importer.php:225-228 | a map entry the rows do not mention survives the loop |
| ImportSpec.CategoryPassResolves | classes/importer.php:225-228 | each descriptor id is mapped to the id under which the category of its last row is stored at the end of the loop |
| ImportSpec.ComponentPass | classes/importer.php:230-232 | the component loop never lowers the next id; where its map points is `ComponentPassResolves` |
| ImportSpec.ComponentPassKeepsValid | classes/importer.php:230-232 | the component loop keeps the store valid |
| ImportSpec.ComponentPassKeys | classes/importer.php:230-232 | the component map gains exactly the descriptor ids of the rows |
| ImportSpec.ComponentPassFrame | classes/importer.php:230-232 | the component loop writes neither categories, flavors nor variants |
| ImportSpec.ComponentPassResolves | classes/importer.php:230-232 | each descriptor id of a row no later row repeats is mapped to the id under which that row's component is stored at the end of the loop |
| ImportSpec.UpsertAll | classes/importer.php:234-244 | an upsert loop never lowers the next id |
| ImportSpec.UpsertAllKeepsValid | classes/importer.php:234-244 | an upsert loop keeps the store valid |
| ImportSpec.UpsertAllFrame | classes/importer.php:234-244 | an upsert loop writes only its own table |
| ImportSpec.UpsertAllKeepsKeyIds | classes/importer.php:234-244 | no record stored before an upsert loop changes id |
| ImportSpec.UpsertAllStores | classes/importer.php:234-244 | every record of an upsert loop is stored afterwards under its natural key; the columns stored are `UpsertAllStoresLast` |
| ImportSpec.UpsertAllKeepsLookup | classes/importer.php:234-244 | records of other keys leave what a key resolves to exactly as it was: the record stored under it, or nothing |
| ImportSpec.UpsertAllStoresLast | classes/importer.php:234-244 | the last record of a loop with a given key wins: the record stored under the key carries all its columns but `id` |
| ImportSpec.CompVariantPass | classes/importer.php:246-248 | the component–variant loop never lowers the next id |
| ImportSpec.CompVariantPassKeepsValid | classes/importer.php:246-248 | the component–variant loop keeps the store valid |
| ImportSpec.CompVariantPassAppends | classes/importer.php:246-248 | the component–variant loop only appends relations: every stored relation stays as it was, and no other table changes |
| ImportSpec.GroupedFiled | classes/importer.php:205-222 | the grouped rows of a table are the rows the descriptor files under it |
| ImportSpec.LiveImport | classes/importer.php:182-257 | a live `importxml` never lowers the next id |
| ImportSpec.LiveImportSteps | classes/importer.php:225-250 | a live import is the six loops in their fixed order, then the backfill; its category map is the category loop's |
| ImportSpec.LiveImportCategoryKeys | classes/importer.php:225-256 | the returned map holds exactly the descriptor ids of the category rows, each mapped to a positive id |
| ImportSpec.LiveImportResolvesCategories | classes/importer.php:225-256 | after a live import, each descriptor category id maps to the id under which its category is stored |
| ImportSpec.LiveImportKeepsValid | classes/importer.php:182-257 | a live import keeps the store valid |
| ImportSpec.SelectedCategories | classes/importer.php:82-83 | every stored category whose id is in the map is listed with its id and name, and every listed pair is such a category's id and name |
| ImportSpec.SelectedCategoriesInStoreOrder | classes/importer.php:82-83 | selected categories are listed in store order |
| ImportLog.Entry | classes/importer.php:291-305 | a record's line is "replace" exactly when its natural key is stored and "new" exactly when it is not; its subject is the name, or "component - other" for a relation |
| ImportLog.Label | classes/importer.php:479-494 | a record's log subject is its name, or the component name, " - " and the other name for a relation |
| ImportLog.CategoryLog | classes/importer.php:225-228 | the category loop logs one line per row |
| ImportLog.CategoryLogAt | classes/importer.php:225-228 | line `k` is decided against the store rows `..k` left, or, in a dry run, the store as it was |
| ImportLog.ComponentLog | classes/importer.php:230-232 | the component loop logs one line per row |
| ImportLog.ComponentLogAt | classes/importer.php:230-232 | line `k` is decided against the store rows `..k` left, or, in a dry run, the store as it was |
| ImportLog.UpsertLog | classes/importer.php:234-244 | an upsert loop logs one line per record |
| ImportLog.UpsertLogAt | classes/importer.php:234-244 | line `k` is decided against the store records `..k` left, or, in a dry run, the store as it was |
| ImportLog.UpsertStoredIff | classes/importer.php:291-305 | an upsert stores exactly the keys stored before and its own |
| ImportLog.UpsertAllStoredIff | classes/importer.php:234-244 | an upsert loop stores exactly the keys stored before and those of its records |
| ImportLog.UpsertLogReplaces | classes/importer.php:234-244 | in a live run a record is logged as replaced exactly when its key was stored before the loop or an earlier record of the loop has it |
| ImportLog.CompVariantLogLength | classes/importer.php:246-248 | the component–variant loop logs one line for each row it does not drop |
| ImportLog.CompVariantLogAt | classes/importer.php:246-248 | the line of a kept row comes after those of the earlier kept rows and is decided against the store the earlier rows left, or, in a dry run, the store as it was |
| ImportLog.XmlLog | classes/importer.php:225-250 | `importxml` logs the six loops' lines in their fixed order, and nothing for the backfill: one per category, component, flavor, variant and component–flavor row, and one per kept component–variant row |
| Importer.FillRelations | classes/importer.php:358-369 | the relation loop leaves exactly the gap-filled store |
| Importer.FindFileMetadata | classes/importer.php:143-154 | the metadata search returns the first matching entry's source, author and license, or nothing |
| Importer.Importer.constructor | classes/importer.php:47-50 | the importer starts with the given dry-run flag, the given store and an empty log |
| Importer.Importer.GetImportResults | classes/importer.php:553-555 | returns the result log |
| Importer.Importer.Store | classes/importer.php:287-305 | one entry is logged, replaced or new as the lookup decides. A found record's id is returned. Live, the store is the upsert's; a dry run keeps the store and draws an id in `1..PHP_INT_MAX` |
| Importer.Importer.ImportCategory | classes/importer.php:287-312 | logs replacecategory or newcategory by name; a found category's id is returned; live, the store is `CategoryWrite`'s; a dry run writes nothing |
| Importer.Importer.ImportComponent | classes/importer.php:322-390 | logs replacecomponent or newcomponent by name; live, the store is `ComponentWrite`'s; a dry run writes nothing |
| Importer.Importer.FillComponentRelations | classes/importer.php:356-386 | the store becomes the flavor fill followed by the variant fill; nothing is logged |
| Importer.Importer.ImportFlavor | classes/importer.php:399-422 | logs replace or new by name; live, the rewritten flavor is upserted; a dry run writes nothing |
| Importer.Importer.ImportVariant | classes/importer.php:431-455 | logs replace or new by name; live, the rewritten variant is upserted; a dry run writes nothing |
| Importer.Importer.ImportComponentFlavor | classes/importer.php:464-497 | logs replace or new by the (component, flavor) pair as "component - flavor"; live, the relation is upserted; a dry run writes nothing |
| Importer.Importer.ImportComponentVariant | classes/importer.php:506-546 | a legacy row whose component is outside the import returns 0, logs nothing and writes nothing. Otherwise one entry is logged; an existing relation is untouched and its id returned; live, a missing one is inserted |
| Importer.Importer.StoreCompVariant | classes/importer.php:523-545 | an existing relation is left as it is and its id returned; live, a missing one is inserted; the outcome is logged |
| Importer.LoopRunLog | classes/importer.php:225-232 | a loop over table rows whose steps each log one line and write (or, in a dry run, keep) the store logs exactly the one-line-per-row log of the rows, from any row on |
| Importer.LoopRunDryStores | classes/importer.php:293 | a dry run of a table loop leaves every store it meets as the loop found it |
| Importer.LoopRunKeepsId | classes/importer.php:225-232 | once a row is filed, a later row with another descriptor id leaves its entry in the map alone |
| Importer.LoopRunDryResolves | classes/importer.php:290-293 | in a dry run, the last row of each descriptor id whose key is stored is filed under the stored record's id |
| Importer.DryRunPreviewsStoredCategory | classes/importer.php:82-83 | in a dry run, every stored category named by the last row of its descriptor id is among the categories whose files are previewed |
| Importer.LoopRunFiled | classes/importer.php:225-232 | the id map such a loop builds from an empty one holds exactly the descriptor ids of the rows it has passed, each mapped to a positive id |
| Importer.Importer.ImportCategories | classes/importer.php:225-228 | the log is `CategoryLog` of the store before the loop; live, the store and map are `CategoryPass`'s; the map has exactly the rows' descriptor ids, each positive; in a dry run too, the last row of each descriptor id whose name is stored maps to that category's stored id |
| Importer.Importer.ImportComponents | classes/importer.php:230-232 | the log is `ComponentLog` of the store before the loop; live, the store and map are `ComponentPass`'s; in every run the map has exactly the rows' descriptor ids, each positive; in a dry run too, the last row of each descriptor id whose name is stored maps to that component's stored id |
| Importer.Importer.ImportFlavors | classes/importer.php:234-236 | the log is `UpsertLog` of the rewritten flavors; live, the store is the flavor upsert loop's |
| Importer.Importer.ImportVariants | classes/importer.php:238-240 | the log is `UpsertLog` of the rewritten variants; live, the store is the variant upsert loop's |
| Importer.Importer.ImportComponentFlavors | classes/importer.php:242-244 | the log is `UpsertLog` of the rewritten relations; live, the store is the component–flavor upsert loop's |
| Importer.Importer.ImportComponentVariants | classes/importer.php:246-248 | the log is `CompVariantLog`: one line per row not dropped, none for a dropped one; live, the store is `CompVariantPass`'s |
| Importer.Importer.BackfillTable | classes/importer.php:267-277 | the store becomes `Backfilled` over the records without a category name, in store order, so each gets the hook's name (`BackfilledNamesUnnamed`); nothing is logged |
| Importer.Importer.UpdateFlavorVariantCategory | classes/importer.php:262-278 | the store becomes `Backfill`'s, in a dry run too, so every flavor and variant without a category name gets one (`BackfillNamesFlavors`, `BackfillNamesVariants`) |
| Importer.Importer.ImportXml | classes/importer.php:182-257 | it succeeds exactly when the descriptor parses, is non-empty and has every required table. A failure names the reason and writes and logs nothing. A success logs `XmlLog`. Live, the store and map are `LiveImport`'s and the component map is the component loop's; a dry run only backfills. Both maps have exactly the descriptor ids, each positive, and in a dry run the last row of each descriptor id whose name is stored maps that id to the stored record's id |
| Importer.Importer.ImportFile | classes/importer.php:112-172 | one staged file: skipped, refused, or the store and log advance as `StepOf` says |
| Importer.Importer.ImportFiles | classes/importer.php:110-174 | the file store, log and status are those of `FilesRun` |
| Importer.Importer.UpdateFilesMetadata | classes/importer.php:564-606 | the metadata is `MetadataOf` the category's metadata file |
| Importer.Importer.ImportCategoryFiles | classes/importer.php:85-95 | one category's metadata is read, then its files are imported as `CategoryRun` says |
| Importer.Importer.ImportBundleFiles | classes/importer.php:84-96 | the files of every selected category, in turn, until one is refused |
| Importer.Importer.Import | classes/importer.php:64-99 | without a bundle nothing happens. A missing descriptor fails with the missing-xml error; a rejected one fails with `importxml`'s reason. An accepted one logs `XmlLog` first. An empty category map fails before any file. Otherwise the files of the selected categories are imported after `importxml`'s writes. In a dry run the category map still maps the descriptor id of each last row naming a stored category to that category's stored id |

## Left out

- Unzipping the bundle, reading XML and the file store's I/O are not modelled. The
  bundle arrives already unpacked and parsed (`Bundle`, `Document`, `MetaSource`).
  A descriptor that is not well-formed is `None`.
- `delete_area_files` on the draft area (`classes/importer.php:97`) is not modelled: the
  draft area is not part of the state.
- `purge_and_rebuild_caches` (`classes/importer.php:252-254`) is not modelled; it
  touches only caches.
- The helpers `utils::update_pluginfile_tags`, `utils::update_pluginfile_tags_bulk`
  and `manager::get_compcatname_for_flavor` / `_for_variant` are not part of this model.
  They are function-valued parameters (`Services`), and so is whether the file store
  creates a file.
- `constants.php` is not part of this model. `TABLES`, `TABLE_ALIASES`,
  `OPTIONAL_TABLES` and the two file names are a `Constants` value.
- `rand(1, PHP_INT_MAX)` in a dry run is a nondeterministic choice in `1..PHP_INT_MAX`.
- The context id and the fixed component and file-area names are left out; they are the
  same for every record and file.
- `importxml`'s `return false` on an unparsable descriptor is a `ParseFailure`
  outcome. In PHP this raises a TypeError, because the function is declared to return
  an array.
- Wrapping a failed `insert_record` into an exception (`classes/importer.php:351`) is
  left out. The store always accepts a record.
- A null css or a `get_field` that finds nothing reads as the empty string.
- CategoryWriteCss: the loose `!=` between the descriptor id and the stored id
  (`classes/importer.php:307`) is modelled as comparing the descriptor text with the id's
  decimal text. PHP 8 compares a numeric string with an int as numbers, so `"05" != 5` is
  false. For such a non-canonical descriptor id the model rewrites the css and writes the
  category a second time, and the source does neither. Exported descriptors write ids as
  canonical decimal text, where the two agree.
- Record order returned by `get_records` and `get_records_select` is store order.
- Attributes on the descriptor's root element are ignored.
- `db/upgrade.php` and the language strings in `lang/de` are not part of this model. A
  result line is a code and its subject, not a localised string.
- Importer.Importer.ImportComponents: in a dry run a component that is new to the store
  is filed under a made-up id (`rand(1, PHP_INT_MAX)`, `classes/importer.php:347`). Only
  the components already stored are tied to their stored ids in a dry run
  (`ResolvesAllStored`); a made-up id may even equal the id of a stored record.
- Importer.Importer.ImportCategories: the same holds for a category that is new to the
  store (`classes/importer.php:302`). So a dry run of `Import` previews the files of every
  stored category named by the last row of its descriptor id
  (`DryRunPreviewsStoredCategory`), and also those of any stored category whose id a
  made-up id happens to equal. A stored category named only by an earlier row whose
  descriptor id a later row reuses is not covered: the later row overwrites that map
  entry (`classes/importer.php:228`), in the source as in the model.
- FileImport.StepOf: the loose `!=` between the two content hashes
  (`classes/importer.php:133`) is modelled as exact string inequality. PHP 8 compares two
  numeric strings as numbers, so two different SHA-1 hashes of the form "0e" followed by
  38 digits both read as 0 and compare equal. For such a pair the source logs
  unchangedfile and keeps the old file, where the model logs replacefile and replaces it.
  Reading strings as floating-point numbers is not modelled.
- Importer.Importer.ImportFile: it is proved against `StepOf`, so it compares the content
  hashes exactly, as the line above says.
- FileImport.FirstMetaIndex: the loose `==` between a metadata row's filename and the
  staged file's name (`classes/importer.php:147`) is modelled as exact string equality.
  PHP 8 compares two numeric strings as numbers, so a metadata row named "01", "1.0" or
  "1e0" matches a file named "1" in the source, and the model finds no metadata row for
  it.
- FileImport.MetadataFor: it finds the metadata row with `FirstMetaIndex`, so it matches
  names exactly, as the line above says.
- Importer.FindFileMetadata: the loop compares names exactly, as `FirstMetaIndex` does.
- RemoveAll: its contract is stated for the two cases `importfiles` meets (no
  occurrence, and one leading occurrence), not for a path holding the pattern several
  times.
- `Db.Valid` asks for distinct ids and unique natural keys in every table, and every
  importer method requires it. Moodle accepts any table; its `get_record` returns the
  first of several matching records and emits a debugging notice.
- Moodle's `insert_record` and `update_record` drop columns that are not in the table's
  schema. The model has no schema and stores every column it is given, so
  `UpsertStores`, `CategoryWriteColumns` and `ComponentWriteColumns` speak of every
  column.
- FileImport.DryRunPreviewsRealRun: a dry and a live run give the same log only when
  no two staged files land on the same destination. In a dry run, a second file with a
  taken destination is logged as new; in a live run it is logged as replaced or
  unchanged.
- Importer.Importer.ImportXml: a dry run and a live run may log differently, because
  `XmlLog` decides each line against the store its loop sees in that mode. This happens
  in three cases:
  - a component's list creates a relation that a later relation row then matches;
  - two rows of one table share a natural key that is not stored: a dry run logs "new"
    twice, and a live run logs new and then replace (`UpsertLogReplaces`);
  - a legacy component–variant row that gives only a component id points at a component
    new in this batch. A dry run reads the component name through a made-up id, finds no
    record and reads "", so it logs the subject " - <variant>" and decides new or replace
    on that key. A live run logs "<component> - <variant>".
