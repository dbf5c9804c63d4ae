/** The importer's result log and error outcomes. The source logs localised strings
    (`get_string('newcategory', …, $name)`); the model keeps the string key as a code and
    the inserted argument as the subject. */
module Results {

  datatype ResultCode =
    | NewCategory | ReplaceCategory
    | NewComponent | ReplaceComponent
    | NewFlavor | ReplaceFlavor
    | NewVariant | ReplaceVariant
    | NewCompFlavor | ReplaceCompFlavor
    | NewCompVariant | ReplaceCompVariant
    | NewFile | ReplaceFile | UnchangedFile

  datatype ImportResult = ImportResult(code: ResultCode, subject: string)

  /** The exceptions that end an import early. */
  datatype ImportError =
    | MissingXml                  // error_import_missing_xml: neither descriptor file in the bundle
    | ParseFailure                // importxml's `return false` on an unparsable descriptor
    | MissingTable(table: string) // error_import_missing_table
    | FileImport(path: string)    // error_fileimport: the file store refused a new file
    | EmptyCategorySelection      // `$DB->get_in_or_equal([])` on an empty category map

  datatype Status = Done | Failed(error: ImportError)
}
