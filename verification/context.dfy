/** The parts of the signing context that the three routines read: what the
    PDF reader found out about the input's cross-reference section, and what
    was decided about the new catalog object. */
module SignContext {

  /** The reader's description of the input's last cross-reference section
      (byte offsets into the input file). */
  datatype XrefInformation = XrefInformation(
    kind: string,                // "table" for a classic table; anything else is a stream
    startPos: int,               // offset of the "xref" keyword
    length: int,                 // byte length of the table, its header included
    endPos: int,                 // offset where the table ends
    includingTrailerEndPos: int, // offset where the trailer that follows it ends
    itemCount: int               // the entry count written in the table header
  )

  /** What is known about the new catalog object this pass appends. */
  datatype CatalogData = CatalogData(
    objectId: nat,      // the new catalog's object number
    length: int,        // its byte length in the output
    rootString: string  // the old root reference, as "<id> <gen> R"
  )
}
