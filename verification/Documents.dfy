/** What all document codecs share. */
module Documents {
  import opened Texts

  datatype DocumentError =
    | InvalidStructure
    | OutputTooLarge
    | UnknownSegment(index: nat)
    | VerbatimSegment(index: nat)
    | SegmentIncomplete(index: nat)
    | PdfTextEncodingUnsupported

  /** A stretch of a job's text; what is not prose is written as it is. */
  datatype Segment = Segment(prose: bool, source: string, translated: Option<string>)
}
