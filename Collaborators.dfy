/**
 * The collaborators whose code is not part of this model: the region parser,
 * RegionUtil's merge and fillIn, IDocument.getContents, the file-system
 * reader and the factory.
 * Each is a function-valued field that nothing below constrains.
 */
module Collaborators {

  import opened Errors
  import opened Documents
  import opened PathFilters

  /** IRegionParser: `parse` answers None where the parser throws on malformed text. */
  class RegionParser {
    const parse: string -> Option<Document>
    const inverse: bool

    constructor (parse: string -> Option<Document>, inverse: bool)
      ensures this.parse == parse && this.inverse == inverse
    {
      this.parse := parse;
      this.inverse := inverse;
    }
  }

  /** One entry of the parser table: a filter and the parser registered under it. */
  type Entry = (PathFilter, RegionParser)

  /** IFileSystemReader; readFile answers None where the reader returns null. */
  datatype FileSystem = FileSystem(
    pathExists: string -> bool,
    hasFiles: string -> bool,
    canonicalPath: string -> string,
    listFiles: string -> seq<string>,
    listFilteredFiles: (string, PathFilter) -> seq<string>,
    readFile: string -> Option<string>)

  /**
   * RegionUtil.merge (forward, against the pool), RegionUtil.fillIn (inverse)
   * and IDocument.getContents (the full text of a document, markers included).
   */
  datatype RegionUtil = RegionUtil(
    merge: (Document, Pool) -> Document,
    fillIn: (Document, Document) -> Document,
    contents: Document -> string)

  /** IFactory: what createInstance builds the support with. */
  datatype Factory = Factory(reader: FileSystem, util: RegionUtil)
}
