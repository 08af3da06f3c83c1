/**
 * Values shared by the translation engine: failure outcomes, message
 * catalogs and the view of the file system the engine reads.
 */
module I18nTypes {

  datatype Option<+T> = None | Some(value: T)

  /** The failures the translator reports through its `error` routine,
      plus the two exceptions the file system raises underneath it. */
  datatype Error =
    | LocaleRootMissing(dir: string)      // readdirSync of the locale root fails
    | CatalogUnreadable(path: string)     // readFileSync/parse of a messages.po fails
    | CatalogMissing(lang: string)        // "Unable find a translation catalog for <lang>"
    | EmptySourceString                   // "Unable to translate <str>" for an empty/undefined str
    | UnsupportedFileType(fileType: string) // "File type not supported: <type>"

  datatype Result<+T> = Success(value: T) | Failure(error: Error) {
    predicate IsFailure() { Failure? }

    function PropagateFailure<U>(): Result<U>
      requires Failure?
    {
      Failure(error)
    }

    function Extract(): T
      requires Success?
    {
      value
    }
  }

  type Locale = string

  /** The empty-context bucket of a parsed .po file: msgid -> its msgstr forms. */
  type Catalog = map<string, seq<string>>

  /** What the engine can see of the disk.  A path is a directory exactly
      when it has a listing; `poFiles` holds the parsed catalog of every
      readable, well-formed messages.po, keyed by its path. */
  datatype FileSystem = FileSystem(listings: map<string, seq<string>>, poFiles: map<string, Catalog>)

  /** One 'translation' event: a full translated copy for one locale. */
  datatype Translation = Translation(lang: Locale, translation: string)

  /** A source file travelling through the stream (contents already decoded). */
  datatype SourceFile = SourceFile(path: string, contents: string)
}
