# LinguaMesh: verified model

LinguaMesh prepares text for machine translation, streams the answer back and rebuilds documents. This
project models the parts of it where a mistake loses or corrupts text, or breaks an engine's protocol, and
proves what they promise. `dafny verify dfyconfig.toml` checks everything.

Two kinds of result go together. Where the program computes something by a loop or a recursion, the model
has the same loop and a recursive definition, proved equal, and theorems about what one operation undoes or
keeps of another. Beside the definitions stand descriptions that do not mention them: the texts that a
reader accepts, written as trees or spelled out piece by piece; the places that are offered for translation;
the constraints that a candidate meets; what a caller of the engine gets. Where the table says "exactly", a
description is proved equivalent to its definition.

**Protected text** (`Text`, `Utf8`, `Utf8Encoding`, `Markers`, `Protection`, `ProtectedSpans`, `Chunking`,
`PieceEnds`, `Splitting`, `ChunkRestoring`, `ChunkRoundTrip`, `Weaving`, `Restoring`, `StreamSoundness`,
`Fragmentation`, `HalfMarkers`). Text is a sequence of bytes. Stretches of a source are replaced by tokens,
the result is cut into chunks, and a streaming restorer puts the originals back. The restorer is measured
against leftmost replacement of tokens in the whole text. It never returns anything else, but it does not
accept every fragmentation: it holds back only the longest token prefix of the first span that matches at
all. The exact set of cuts that it refuses is `Fragmentation.CutsTail`. A source may mention the token
prefix itself, which the program does not check; inside a protected stretch that does no harm, and
`HalfMarkers.Quiet` says exactly what visible stretches of a source that makes one chunk may contain.

**Document codecs** (`Strings`, `Tags`, `Splicing`, `XmlText`, and a model and a rebuilding module for each
of JSON, CSV, HTML, subtitles, PDF content streams, OOXML and XHTML, with `JsonJobs`, `OoxmlPackage` and
`Chapters` for the segments of a job, `Documents` for its errors, `RebuildChecks` for when it is refused,
`PdfSpans` and `SkippedTimes`). What the scanners accept and offer is described in `JsonTree`,
`JsonTreeReading`, `JsonOffers` and `JsonSpelling`, `CsvColumns`, `Nesting`, `TagShapes`, `HtmlText`,
`ChapterText`, `XmlReferences`, `OoxmlNodes`, `PdfStrings`, `PdfShown`, `SubtitleBlocks` and
`SubtitleTimes`. Text is a sequence of characters, for PDF of bytes. Each scanner is a recursive definition
that cuts its input into pieces, proved equal to a loop with the cursor, flags and stacks of the program.
The main theorem of each codec says which translations leave the structure as it was, and where the answer
is not "all", it is an equivalence: CSV grids must stay separable, HTML and PDF texts must not become empty,
a PDF span in hexadecimal must not become a literal in front of a longer token, XHTML texts must not become
blank, XML texts hold no NUL, and a subtitle file must not have a line that reads as a header where a time
line is due.

**Glossary CSV** (`Glossary`, `GlossaryRoundTrip`, `GlossaryFiles`, `GlossaryRules`). Export and import are
inverse on valid glossaries, and the size of an export stays far below the importer's limit. Which files are
imported, and as what, is said over their lines and fields.

**Engine handles** (`Identifiers`, `Buffers`, `Leases`, `Operations`, and `BufferOutcomes`, `LeaseOutcomes`,
`OperationOutcomes` for what calls achieve). Concurrent calls are interleavings of atomic steps: one for
each section under a lock, each semaphore operation and each compare-and-exchange; so freeing a buffer takes
two, its removal under the lock and the release of its permit behind it. A step that its caller cannot take
yet leaves the state alone, so that a run is any sequence of steps, and the results hold for every run.

**Routing and framing** (`Routing`, `RoutingOrder`, `RoutingFilters`, `EventFraming`, `EventBlocks`,
`LineFraming`, `LineMessages`). A candidate is eligible exactly when it meets every constraint. Automatic
selection does not depend on the order of candidates; stream framing does not depend on how the bytes
arrive, except that server-sent events with mixed delimiters do.

Where the code does not do what its names suggest, the model follows the code. Streaming accepts some texts
with a stray token prefix that a comparison of whole texts would reject, so soundness is stated against
total leftmost replacement. The scanner of PDF streams never looks at the byte behind a literal;
`PdfContent.Mode.skip` is that byte. The classifier and the validator of subtitles disagree about header
lines inside a block. The glossary importer drops a last line that holds `""` alone and has no line ending.

## Model

| member | source | states |
|---|---|---|
| Protection.ChosenIsGreedy | crates/linguamesh-domain/src/lib.rs:2099-2125 | the candidates kept do not overlap, and each one dropped overlaps a kept one that comes before it by start, priority and length |
| Protection.SelectDisjoint | crates/linguamesh-domain/src/lib.rs:2099-2125 | the loop over the sorted candidates keeps what the greedy choice keeps |
| ProtectedSpans.PreferredAreProtected | crates/linguamesh-domain/src/lib.rs:2099-2125 | protected stretches are disjoint candidates; one is left out only if it is empty or overlaps a protected one that starts earlier, or starts there too with a higher priority, or the same priority and more length, or is the same stretch proposed before |
| ProtectedSpans.SpansHoldTheirStretches | crates/linguamesh-domain/src/lib.rs:2126-2174 | each span holds its stretch of the source, its replacement, and the shortest token of its index that the source does not contain |
| Protection.MarkerForHasIndex | crates/linguamesh-domain/src/lib.rs:2126-2150 | a token is the prefix, its index and underscores, and the source does not contain it |
| Protection.HeadsDetermineIndex | crates/linguamesh-domain/src/lib.rs:2126-2150 | tokens of different spans differ up to the underscore that closes the index, so none is a prefix of another |
| Protection.GapsAndSourcesTile | crates/linguamesh-domain/src/lib.rs:2126-2174 | the stretches left visible and the stretches protected make up the source |
| Protection.BuildProtectedSource | crates/linguamesh-domain/src/lib.rs:2099-2174 | the loop with its cursor returns the woven text and its spans, for every list of candidates within the source |
| Markers.MarkersDoNotNest | crates/linguamesh-domain/src/lib.rs:1210-1211 | a token that starts inside another one shares at most the last two bytes with it |
| Chunking.MeasurePiece | crates/linguamesh-domain/src/lib.rs:2016-2059 | the loop that shortens a piece to a character boundary finds the end of the definition, which `PiecesEndAtPhrases` describes, or reports the token that does not fit |
| Chunking.SplitProtectedText | crates/linguamesh-domain/src/lib.rs:2016-2073 | the outer loop returns the pieces of the recursive definition, which `SplitIsExact` and `PiecesEndAtPhrases` describe, or the same error |
| Splitting.SplitIsExact | crates/linguamesh-domain/src/lib.rs:2016-2073 | pieces are non-empty, within the limit, end on characters, cut no token and join to the text; with a limit of four bytes or more the split succeeds exactly when every token fits |
| Chunking.FindBoundary | crates/linguamesh-domain/src/lib.rs:2062-2073 | the loop over the characters of a window finds where its last phrase ends |
| PieceEnds.PiecesEndAtPhrases | crates/linguamesh-domain/src/lib.rs:2016-2073 | each piece ends behind the last white space or sentence mark within its reach, or at the reach when there is none; the reach is the last character boundary within the limit, or the start of the token that crosses it; no other way of cutting meets this, and a text within the limit stays whole |
| Utf8Encoding.BoundariesAreOffsets | crates/linguamesh-domain/src/lib.rs:2016-2073 | in written characters the boundaries that the chunker may cut at are the ends of characters |
| Utf8Encoding.ScalarOfEncoded | crates/linguamesh-domain/src/lib.rs:2062-2073 | the character that the chunker looks at is the one that was written |
| ChunkRestoring.MakeChunks | crates/linguamesh-domain/src/lib.rs:1973-1999 | each span goes to the chunks in which its token occurs, taken once |
| ChunkRoundTrip.ClaimIsExact | crates/linguamesh-domain/src/lib.rs:1973-1999 | a chunk receives exactly the spans whose tokens lie inside it |
| ChunkRoundTrip.ShapedChunksRestore | crates/linguamesh-domain/src/lib.rs:1973-2059 | the chunks of a protected text share out its spans in order, and restore, one by one, to the text with every token replaced; with a limit of four bytes or more they can be made exactly when every token fits |
| ChunkRoundTrip.ProtectChunkRestore | crates/linguamesh-domain/src/lib.rs:1964-2174 | for every source that mentions the marker prefix at most inside protected stretches, every candidate list and every limit: protect, chunk, restore each chunk and join gives the source with the chosen stretches replaced, and the source itself when replacements are the originals |
| HalfMarkers.OnePushIsExact | crates/linguamesh-domain/src/lib.rs:2197-2250 | a text with every token once between stretches of any kind, arriving whole: it is restored exactly when no stretch in front of a token holds the prefix and the last one settles; otherwise it is refused, unless a token starts inside a stretch, and then, for replacements that are not empty and do not open with an underscore, no way of cutting it gives the expected text |
| HalfMarkers.OneChunkRoundTrip | crates/linguamesh-domain/src/lib.rs:1964-2174 | every source that makes one chunk: the round trip works for all replacements if and only if nothing is protected or the visible stretches are quiet |
| HalfMarkers.UnquietIsRefused | crates/linguamesh-domain/src/lib.rs:2126-2250 | a protected source that is not quiet is refused with an invalid marker, unless a visible stretch ends with all of a token but its last one or two bytes |
| HalfMarkers.PrefixInSourceMisleads | crates/linguamesh-domain/src/lib.rs:2126-2174 | a source of that last kind, and no run over its protected text gives the source |
| Restoring.RestoreLeftmost | crates/linguamesh-domain/src/lib.rs:2197-2250 | the reference: everything before the first token is copied, and that token is replaced |
| Restoring.ProtectedTextRestorer.constructor | crates/linguamesh-domain/src/lib.rs:1964-1970 | a fresh restorer has no pending text and has seen no span |
| Restoring.ProtectedTextRestorer.Push | crates/linguamesh-domain/src/lib.rs:2199-2236 | the object with its pending text and seen flags takes the step of the recursive definition, and its new state is that step's |
| Restoring.ProtectedTextRestorer.Finish | crates/linguamesh-domain/src/lib.rs:2239-2250 | what is pending is released when every span was seen and no token prefix is left |
| StreamSoundness.KeepCovers | crates/linguamesh-domain/src/lib.rs:2260-2270 | what is held back covers every token that the text seen so far can still complete, or the release is refused |
| StreamSoundness.StreamEqualsReference | crates/linguamesh-domain/src/lib.rs:2197-2270 | for every model output and every way of cutting it: when all calls succeed the output is leftmost replacement of the whole text, and each token was used exactly once |
| Fragmentation.FragmentationIsExact | crates/linguamesh-domain/src/lib.rs:2197-2270 | for an undamaged protected text cut anyhow: restoring succeeds exactly when no cut lies among the closing underscores of a token other than the first span's, and fails with an invalid marker otherwise |
| Fragmentation.OneSpanAlwaysRestores | crates/linguamesh-domain/src/lib.rs:2197-2270 | with a single span every fragmentation succeeds |
| Fragmentation.WholeTextRestores | crates/linguamesh-domain/src/lib.rs:2197-2270 | a protected text that arrives whole is restored |
| Fragmentation.SecondSpanCanBreak | crates/linguamesh-domain/src/lib.rs:2260-2270 | with two spans or more some fragmentation of the untouched text is refused |
| JsonParsing.JsonParser.constructor | crates/linguamesh-document/src/lib.rs:946-953 | a parser starts in front of the text with no tokens |
| JsonParsing.JsonParser.ParseString | crates/linguamesh-document/src/lib.rs:1031-1069 | the cursor moves behind the literal and its token is added, exactly when the grammar has a string there |
| JsonParsing.JsonParser.ParsePrimitive | crates/linguamesh-document/src/lib.rs:1071-1085 | the same for numbers, booleans and null |
| JsonParsing.JsonParser.ParseObject | crates/linguamesh-document/src/lib.rs:982-1007 | the same for an object, keys marked and member paths extended |
| JsonParsing.JsonParser.ParseArray | crates/linguamesh-document/src/lib.rs:1009-1029 | the same for an array, item paths numbered as `PathsFindTheirLiterals` says |
| JsonParsing.JsonParser.ParseValue | crates/linguamesh-document/src/lib.rs:965-980 | the same for any value |
| JsonParsing.JsonParser.Parse | crates/linguamesh-document/src/lib.rs:955-963 | accepts exactly the texts of the grammar, and the tokens are its literals at their positions, at most 5,000 |
| JsonTree.LeavesAreWhatPathsFind | crates/linguamesh-document/src/lib.rs:965-1029 | in a tree of values, a literal stands at a path exactly when following keys and item numbers from the root leads to it |
| JsonTreeReading.TreeReads | crates/linguamesh-document/src/lib.rs:965-1029 | the text of a tree is read as the tree's literals at their paths, keys included, in front of any text |
| JsonTreeReading.PathsFindTheirLiterals | crates/linguamesh-document/src/lib.rs:955-1069 | a text is accepted exactly when it is the text of a tree with at most 5,000 literals; the tokens are the leaves of that tree, and each token's path, followed from the root, finds its literal |
| JsonOffers.JobOffersSelected | crates/linguamesh-document/src/lib.rs:1131-1204 | a job offers the value literals of the tree whose path is selected, in their order, and nothing else |
| JsonSpelling.DecodeIffSpelled | crates/linguamesh-document/src/lib.rs:1143-1145 | a literal decodes to a text exactly when it spells the text's characters, each as it is, by a two-character escape, by four digits of either case or by a surrogate pair |
| JsonSpelling.NumberIffParts | crates/linguamesh-document/src/lib.rs:1071-1085 | a number is an optional minus, digits without a leading zero, and an optional fraction and exponent |
| JsonJobs.FromJson | crates/linguamesh-document/src/lib.rs:1152-1204 | a job is made exactly when the text is JSON, since the tokens of a parse never need too many segments, and it holds the segments of the definition, of which `JobOffersSelected` says what they offer |
| JsonJobs.BuildSegments | crates/linguamesh-document/src/lib.rs:1152-1204 | the loop with its cursor returns the segments of the definition, and never refuses 5,000 tokens or fewer |
| JsonJobs.SegmentsHoldText | crates/linguamesh-document/src/lib.rs:554-561 | the sources of the segments join to the text, and those offered are the selected value literals in order |
| JsonJobs.JsonJob.ApplyTranslation | crates/linguamesh-document/src/lib.rs:564-590 | a prose segment takes the encoded translation and nothing else changes; other indices are refused |
| JsonJobs.JsonJob.Reconstruct | crates/linguamesh-document/src/lib.rs:593-628 | the segments are joined, or the first incomplete one is reported; a result that is too large or not JSON is refused |
| JsonJobs.CompleteJobRebuilds | crates/linguamesh-document/src/lib.rs:564-628 | for every accepted text, every selection and all translations a complete job writes exactly the text whose selected values are replaced by them in order, which parses to the same tokens, so that rebuilding fails only on a result that is too large |
| JsonText.EncodedDecodes | crates/linguamesh-document/src/lib.rs:1143-1149 | decoding an encoded translation gives the translation, for every text |
| JsonText.EncodedSpans | crates/linguamesh-document/src/lib.rs:1031-1069 | the scanner ends an encoded translation at its closing quote, whatever follows |
| JsonRebuilding.ValueReads | crates/linguamesh-document/src/lib.rs:965-1029 | a value is read as its translated pieces in front of any text that opens as before |
| JsonRebuilding.TranslationKeepsTokens | crates/linguamesh-document/src/lib.rs:955-1204 | for every accepted text and every translation of value strings the rebuilt text parses to the same tokens, paths and key flags, with all other text unchanged, and each replaced literal decodes to its translation |
| CsvDocument.DetectDelimiter | crates/linguamesh-document/src/lib.rs:1217-1248 | the candidate that stands outside quotes most often in the first record, the earliest on a tie |
| CsvDocument.Advance | crates/linguamesh-document/src/lib.rs:1266-1318 | one turn of the scanner keeps what the flags say about the rest of the field |
| CsvDocument.ParseRecords | crates/linguamesh-document/src/lib.rs:1251-1331 | the loop with its flags returns the records of the recursive definition, or fails with it |
| CsvColumns.CountIsColumns | crates/linguamesh-document/src/lib.rs:1217-1331 | in a text accepted with a delimiter, its count is the number of columns of the first record less one |
| CsvColumns.DetectedHasMostColumns | crates/linguamesh-document/src/lib.rs:1217-1331 | no other delimiter that the text can be read with gives the first record more columns than one with at least its count |
| CsvRebuilding.FieldAlone | crates/linguamesh-document/src/lib.rs:1251-1331 | what the scanner takes for a field is one on its own |
| CsvRebuilding.EncodedDecodes | crates/linguamesh-document/src/lib.rs:1334-1372 | every encoded translation is one field, and decodes to the translation |
| CsvRebuilding.EveryCellDecodes | crates/linguamesh-document/src/lib.rs:1334-1359 | every cell of every accepted text decodes |
| CsvRebuilding.ScanIsSound | crates/linguamesh-document/src/lib.rs:1251-1331 | the records print as the text that was read, and no two of them can be confused |
| CsvRebuilding.PrintReadsBack | crates/linguamesh-document/src/lib.rs:1251-1331 | a grid is read back as it was written exactly when no record that prints as nothing is unterminated or is a line feed behind a carriage return |
| CsvRebuilding.CellsOfTranslation | crates/linguamesh-document/src/lib.rs:564-590 | after translation each chosen cell decodes to its translation, and every other cell and line ending is unchanged |
| CsvRebuilding.TranslationKeepsGrid | crates/linguamesh-document/src/lib.rs:564-628 | for every accepted text, choice of columns and translations the rebuilt text parses to the translated grid exactly when that grid is separable, which non-empty translations ensure |
| HtmlDocument.NextToken | crates/linguamesh-document/src/lib.rs:813-878 | the branches of the scanner take the token of the recursive definition |
| HtmlDocument.ParseTokens | crates/linguamesh-document/src/lib.rs:806-887 | the loop with its stack of open elements accepts the same texts, and its tokens tile them |
| HtmlText.HtmlIff | crates/linguamesh-document/src/lib.rs:745-887 | a text is accepted exactly when it is made of comments, well-named tags, maximal runs of text and the contents of script and style elements up to their end tags, and its tags nest; what may be translated is every run of text that shows something, and nothing else |
| Nesting.EvenIffForest | crates/linguamesh-document/src/lib.rs:846-856 | the stack of open elements comes out even exactly when the tags are those of a forest of elements |
| Nesting.StackIffInside | crates/linguamesh-document/src/lib.rs:813-858 | a name is on the stack exactly when the place lies inside an element of that name |
| TagShapes.TagEndIff | crates/linguamesh-document/src/lib.rs:745-762 | a tag ends at the first `>` that stands in no pair of quotes |
| HtmlRebuilding.EncodedReadsBack | crates/linguamesh-document/src/lib.rs:889-894 | a translation shows as it was given: the three passes escape each character once |
| HtmlRebuilding.EncodedHasNoMarkup | crates/linguamesh-document/src/lib.rs:889-894 | an encoded translation holds no angle bracket, and is blank exactly when the translation is |
| HtmlRebuilding.PiecesTile | crates/linguamesh-document/src/lib.rs:806-887 | the tokens of an accepted text join to it |
| HtmlRebuilding.TranslationKeepsStructure | crates/linguamesh-document/src/lib.rs:564-628 | for every accepted text and all translations the rebuilt text parses with the same markup and one token for each token, exactly when no visible text is translated to nothing |
| Subtitles.SplitLines | crates/linguamesh-document/src/lib.rs:712-729 | the loop returns the lines and their line breaks |
| Subtitles.LineKinds | crates/linguamesh-document/src/lib.rs:1638-1690 | the loop with its three flags marks the structural lines of the recursive definition, which `OfferedByPlace` describes by their places |
| Subtitles.ValidateStructure | crates/linguamesh-document/src/lib.rs:1721-1800 | the loop accepts the texts of the recursive definition |
| SubtitleBlocks.OfferedByPlace | crates/linguamesh-document/src/lib.rs:1638-1690 | for every text a line is offered exactly when its place in its block says so: behind the time line or behind a header, outside of metadata, and not blank |
| SubtitleBlocks.OfferedLines | crates/linguamesh-document/src/lib.rs:1638-1800 | in an accepted text a line is offered exactly when it is not blank, lies in no NOTE, STYLE or REGION block, and stands behind the time line of its block or behind a header line in it |
| SubtitleTimes.TimestampIff | crates/linguamesh-document/src/lib.rs:1494-1536 | a time stamp is a clock time: hours, if any, minutes and seconds below 60, and three digits behind the separator of the format |
| SubtitleTimes.TimeLineIff | crates/linguamesh-document/src/lib.rs:1538-1550 | a time line is two time stamps with an arrow between them and white space around, perhaps with settings |
| SubtitleSimulation.StepStaysInStep | crates/linguamesh-document/src/lib.rs:1638-1800 | classifier and validator stay in step over a line, whatever replaces a line that is offered |
| SubtitleSimulation.SplitGivesLines | crates/linguamesh-document/src/lib.rs:712-729 | the lines of a text print as that text |
| SubtitleSimulation.PrintedLinesAreSplit | crates/linguamesh-document/src/lib.rs:712-729 | printed lines are split again as they were, up to white space at their ends |
| SubtitleSimulation.TranslationStaysValid | crates/linguamesh-document/src/lib.rs:1638-1800 | for every accepted text: all replacements of the offered lines by non-blank lines are accepted exactly when no line is read as a header while a time line is due |
| SubtitleSimulation.NoLaterHeaderNoSkip | crates/linguamesh-document/src/lib.rs:1638-1800 | that never happens when no line after the first opens with WEBVTT |
| SkippedTimes.SkippingTextBreaks | crates/linguamesh-document/src/lib.rs:1638-1800 | it does happen: a text with a header line behind an identifier is accepted, its time line is offered for translation, and some translation of it is refused |
| PdfContent.PdfEscape | crates/linguamesh-document/src/pdf.rs:597-614 | the loop escapes an ASCII text byte by byte and refuses any other |
| PdfContent.PdfLiteral | crates/linguamesh-document/src/pdf.rs:276-345 | the byte loop with its depth reads the literal of the recursive definition |
| PdfContent.NextToken | crates/linguamesh-document/src/pdf.rs:363-451 | the branches of the scanner take the token of the recursive definition |
| PdfContent.ExtractSpans | crates/linguamesh-document/src/pdf.rs:350-484 | the loop returns the spans of the recursive definition at their positions |
| PdfStrings.LiteralIffSpelled | crates/linguamesh-document/src/pdf.rs:276-345 | a stretch is read as a literal with a text exactly when it is balanced parentheses around bytes, named escapes, broken lines and octal codes that spell the text, whatever follows |
| PdfStrings.HexIffDigits | crates/linguamesh-document/src/pdf.rs:388-420 | a hexadecimal string is read as the bytes that its digits write, white space aside, a missing last digit counting as zero |
| PdfShown.OfferedAreShown | crates/linguamesh-document/src/pdf.rs:350-484 | in an accepted stream nothing but comments and the byte behind a literal hides a string, and a string is offered exactly when the last of the operators BT and ET in front of it is BT and it is not empty |
| PdfRebuilding.LiteralRoundTrip | crates/linguamesh-document/src/pdf.rs:276-345 | an escaped text in parentheses reads as that text and ends at its own parenthesis, whatever follows |
| PdfRebuilding.FirstIsLocal | crates/linguamesh-document/src/pdf.rs:350-484 | a token of the stream is read the same in front of any text that opens with the same byte |
| PdfRebuilding.RewriteReextracts | crates/linguamesh-document/src/pdf.rs:350-643 | for every stream and every text for its spans, extraction from the rewritten stream gives the same tokens with the new texts, if and only if no new text is empty and each hexadecimal span that becomes a literal is followed by nothing or a token of one byte and has no stray `<` in front |
| PdfRebuilding.LiteralsAreRereadable | crates/linguamesh-document/src/pdf.rs:350-643 | that condition holds whenever only literal spans are replaced |
| PdfSpans.RewriteKeepsSpanTexts | crates/linguamesh-document/src/pdf.rs:350-643 | the spans and their order survive, with the new texts, under a weaker condition: an operator or number behind a replaced hexadecimal span may lose its first byte when what remains opens or ends no text |
| PdfRebuilding.RewriteStream | crates/linguamesh-document/src/pdf.rs:616-643 | the segments are checked against the spans, and the stream is copied around them; a source text that differs, an untranslated segment and a text that is not ASCII are refused |
| RebuildChecks.StreamIff | crates/linguamesh-document/src/pdf.rs:616-643 | a stream is rewritten if and only if each segment has its span's text and an ASCII translation where one is due; the error names a segment for which that fails |
| PdfRebuilding.RewriteKeepsSpans | crates/linguamesh-document/src/pdf.rs:350-643 | a complete job over its own stream is rewritten, and extraction from the result gives its translations exactly under the same condition |
| PdfRebuilding.ReplacedHexHidesTheNextSpan | crates/linguamesh-document/src/pdf.rs:376-388 | an input where the condition fails: a hexadecimal span written as a literal hides the span behind it |
| XmlText.EscapedReads | crates/linguamesh-document/src/docx.rs:638-651 | an escaped translation unescapes to itself and holds no angle bracket |
| XmlReferences.UnescapeIffSpelled | crates/linguamesh-document/src/docx.rs:638-651 | character data reads as a text exactly when plain characters, the five entities and character references in decimal or hexadecimal spell it |
| OoxmlPackage.TextSpans | crates/linguamesh-document/src/docx.rs:210-273 | the scanner returns the text nodes at their positions, with cell and shared string |
| OoxmlNodes.NodesAreContents | crates/linguamesh-document/src/docx.rs:210-273 | the text nodes of an accepted part are the contents of its text elements, all of them, each closed by its own close tag; in a spreadsheet each is placed in the cell and the shared string that the last tags in front of it opened |
| TagShapes.NameIff | crates/linguamesh-document/src/docx.rs:296-305 | the name of a tag is the run behind the bracket, the slash and white space |
| OoxmlRebuilding.ContentEnds | crates/linguamesh-document/src/docx.rs:250-259 | content without markup ends at its close marker |
| OoxmlRebuilding.RewriteKeepsNodes | crates/linguamesh-document/src/docx.rs:210-273 | for every accepted part and all translations the rewritten part has the same text nodes, places and markup, exactly when no translation holds a NUL |
| OoxmlPackage.ChooseTexts | crates/linguamesh-document/src/docx.rs:619-651 | the segments at the cursor are checked against the spans, and the cursor moves past them |
| OoxmlPackage.RewriteXml | crates/linguamesh-document/src/docx.rs:619-655 | a part is rewritten with its segments, or refused as the definition says |
| OoxmlPackage.ReconstructKind | crates/linguamesh-document/src/docx.rs:676-724 | the loop over the parts carries the cursor from part to part |
| OoxmlPackage.ChosenReads | crates/linguamesh-document/src/docx.rs:619-655 | each text node takes the next segment and reads as its target |
| OoxmlPackage.PackageReadsBack | crates/linguamesh-document/src/docx.rs:537-724 | a complete job over its own package is rebuilt with all segments used, and inspecting the result gives the translations in order |
| TagShapes.AttributeIff | crates/linguamesh-document/src/docx.rs:307-317 | an attribute is the stretch behind the first place of its name, an equals sign and a double quote, up to the next such quote, or else the same with single quotes |
| RebuildChecks.PackageIff | crates/linguamesh-document/src/docx.rs:619-724 | a job is rebuilt into a package if and only if the package can be read and the job has one segment for each of its texts, with that source and in their order, and a translation where one is due; otherwise the error is that of the first segment that does not fit |
| OoxmlPackage.CountMustFit | crates/linguamesh-document/src/docx.rs:676-718 | a job with a segment too many or too few is refused |
| OoxmlPackage.OtherPartsStay | crates/linguamesh-document/src/docx.rs:676-716 | names stay, and parts that are not translated keep their data |
| Xhtml.NextToken | crates/linguamesh-document/src/epub.rs:153-200 | text reaches up to the next `<` and is a span exactly when it is outside script and style and reads as more than white space; the scan stops at text that cannot be read, and markup ends in `>` and is never a span |
| Xhtml.ScanXhtml | crates/linguamesh-document/src/epub.rs:145-209 | the loop with its stack of open elements returns the spans at their positions |
| ChapterText.ChapterIff | crates/linguamesh-document/src/epub.rs:145-209 | a chapter is accepted exactly when it is made of comments, tags and maximal runs of text, its tags nest, and its visible text can be read and is not too much; the visible spans are the runs outside script and style elements that show something |
| XhtmlRebuilding.RewriteKeepsChapter | crates/linguamesh-document/src/epub.rs:145-286 | for every accepted chapter and all texts, some of which may be left as they are, the rewritten chapter has the same markup and the same visible places, exactly when no text is blank or holds a NUL |
| Chapters.RewriteXhtml | crates/linguamesh-document/src/epub.rs:251-286 | the copying loop checks each span against the segment at the cursor and refuses a missing segment, another source text and an untranslated one; otherwise it writes the text of the translated pieces, and the cursor moves past them |
| Chapters.ChapterReadsBack | crates/linguamesh-document/src/epub.rs:145-286 | a complete job over its own chapter is rewritten, and every visible text of the result reads as its translation; it scans to the same places exactly when no translation is blank or holds a NUL |
| RebuildChecks.ChapterIff | crates/linguamesh-document/src/epub.rs:251-286 | a chapter is rewritten if and only if it can be read and the segments at the cursor have its visible texts as their sources and are complete; otherwise the error is that of the first one that does not fit |
| Splicing.CopySplices | crates/linguamesh-document/src/docx.rs:619-655 | copying around the spans of a text replaces them and nothing else; PDF rewriting uses the same loop |
| Glossary.ParseCsvRecords | crates/linguamesh-domain/src/lib.rs:1810-1890 | the character loop with its flags returns the records of the recursive definition |
| GlossaryFiles.RecordsIffLines | crates/linguamesh-domain/src/lib.rs:1810-1890 | a file is read as records exactly when it consists of their lines: plain fields, or fields in quotes with quotes doubled, either line ending, perhaps a byte order mark; an unterminated last line counts unless it is one empty field |
| GlossaryRules.AcceptedIffValid | crates/linguamesh-domain/src/lib.rs:1378-1404 | a glossary is accepted exactly when it has at most 256 sound entries and no two enabled ones translate the same term under the same conditions differently; a refusal names something that is wrong with it |
| GlossaryRules.ImportedIffWritten | crates/linguamesh-domain/src/lib.rs:1407-1434 | a file within the limit is imported as entries exactly when its lines are the header and the entries in their order, and they make a valid glossary |
| GlossaryRules.RefusalIsTrue | crates/linguamesh-domain/src/lib.rs:1407-1434 | when a file is refused, the error names the line or the rule that is violated |
| GlossaryRoundTrip.FieldReads | crates/linguamesh-domain/src/lib.rs:1792-1890 | a printed field in front of a comma or line feed is read as its value |
| GlossaryRoundTrip.PriorityReads | crates/linguamesh-domain/src/lib.rs:1752-1786 | a 32-bit priority is read back from its decimal form |
| GlossaryRoundTrip.EntryReads | crates/linguamesh-domain/src/lib.rs:1752-1786 | a valid entry is read back from its row |
| GlossaryRoundTrip.ExportFits | crates/linguamesh-domain/src/lib.rs:1438-1464 | the export of every valid glossary is below the importer's limit of 4 MiB |
| GlossaryRoundTrip.ImportUndoesExport | crates/linguamesh-domain/src/lib.rs:1378-1464 | every valid glossary is imported from its own export as it was |
| Identifiers.DrawId | crates/linguamesh-ffi/src/lib.rs:851-866 | the loop that draws a number ends, and the number is neither zero nor in use |
| Identifiers.DistinctIds | crates/linguamesh-ffi/src/lib.rs:851-866 | numbers drawn within one round of the counter are different |
| Buffers.StepKeeps | crates/linguamesh-ffi/src/lib.rs:587-716 | every step of polls, worker, host and freeing calls keeps permits, numbers, events and their order in balance |
| Buffers.EveryRunBalances | crates/linguamesh-ffi/src/lib.rs:587-716 | in every interleaving free permits, registered buffers, polls under way and freeing calls that have not returned their permit make 64, events are received in the order they were sent, and each is carried by one poll or delivered once |
| Buffers.FreedAsOftenAsIssued | crates/linguamesh-ffi/src/lib.rs:672-716 | a buffer number is freed at most as often as it was issued |
| Buffers.FreedForGood | crates/linguamesh-ffi/src/lib.rs:672-716 | until the counter wraps a number that was removed is never in use again, and freeing it again is refused |
| Buffers.ExhaustedTakesNothing | crates/linguamesh-ffi/src/lib.rs:828-834 | a poll finds no permit exactly when registered buffers, polls and freeing calls hold all 64, and then nothing changes |
| Buffers.RoomComesWithRelease | crates/linguamesh-ffi/src/lib.rs:706-716 | between the removal of a buffer and the release of its permit a poll is still refused; behind the release it is admitted |
| Buffers.WritingSucceeds | crates/linguamesh-ffi/src/lib.rs:836-879 | a poll that took an event registers it under a fresh number |
| BufferOutcomes.PollGetsTheNextEvent | crates/linguamesh-ffi/src/lib.rs:587-636 | a poll with a permit takes an event exactly when the queue is not empty, the one sent first of those not received, and hands out its bytes under a fresh number, whatever others do in between |
| BufferOutcomes.MissedIsEmpty | crates/linguamesh-ffi/src/lib.rs:587-636 | a poll that missed ends empty-handed and returns its permit |
| BufferOutcomes.FreeDecides | crates/linguamesh-ffi/src/lib.rs:672-716 | a buffer is freed exactly when its number is registered with these bytes, and its permit comes back when the call drops it; every other call is refused and changes nothing |
| Leases.StepKeeps | crates/linguamesh-ffi/src/lib.rs:478-511 | every step of create, expire, revoke, destroy and consume keeps the books and the final states; what it achieves is said by `HostEndsTheLease` and `ConsumesIffInOrder` |
| Leases.RegistryIsBoundedAndStatesAreFinal | crates/linguamesh-domain/src/file_lease.rs:109-129 | a lease keeps the first state in which it ended, and the registry never holds more than 64 |
| Leases.ConsumedAsOftenAsIssued | crates/linguamesh-ffi/src/lib.rs:478-511 | however many calls run at once, a number is consumed or destroyed at most as often as it was issued |
| Leases.ConsumedOnceAndGone | crates/linguamesh-ffi/src/lib.rs:478-511 | until the counter wraps one consuming call succeeds, and the number is gone from then on |
| Leases.SuccessEndsTheLease | crates/linguamesh-ffi/src/lib.rs:502-511 | a call that succeeds leaves its lease expired or revoked |
| LeaseOutcomes.CreatedIsActive | crates/linguamesh-ffi/src/lib.rs:478-511 | a lease is created exactly while fewer than 64 are registered, and it is active |
| LeaseOutcomes.HostEndsTheLease | crates/linguamesh-domain/src/file_lease.rs:109-129 | expiring, revoking and destroying answer success exactly for a registered number, and then its lease is in that final state if it was active and in the one it had before otherwise |
| LeaseOutcomes.EndedIsNotConsumed | crates/linguamesh-ffi/src/lib.rs:478-511 | once a lease has ended, calls that acquire or check it are refused, and one that succeeds had passed the check before |
| LeaseOutcomes.HostStopsConsuming | crates/linguamesh-ffi/src/lib.rs:478-511 | once the host has ended a lease, only calls that were past the check consume it, whatever happens afterwards |
| LeaseOutcomes.ConsumesIffInOrder | crates/linguamesh-ffi/src/lib.rs:478-511 | a consuming call, with any steps of others in between, succeeds if and only if it finds the lease active when it acquires and when it checks it, the document is accepted, and the number is still registered at the end |
| Operations.SlotStep | crates/linguamesh-ffi/src/lib.rs:788-826 | every step keeps the live worker and the owner of the slot the same |
| Operations.OneOperationAtATime | crates/linguamesh-ffi/src/lib.rs:939-963 | in every interleaving at most one operation is live; a successful submission fills the empty slot, and only its own worker empties it |
| OperationOutcomes.SubmitDecides | crates/linguamesh-ffi/src/lib.rs:788-826 | a submission starts exactly when the slot is empty, and then holds it; otherwise it is refused as busy and nothing changes |
| OperationOutcomes.FinishFrees | crates/linguamesh-ffi/src/lib.rs:1113-1233 | when its worker ends an operation the slot is empty and the next submission starts |
| OperationOutcomes.DeliveredIffInOrder | crates/linguamesh-ffi/src/lib.rs:966-1022 | a response, with any steps of others in between, is delivered to the request that waits under its name if and only if its envelope is complete and names the operation in the slot, that request waits with its operation and correlation when it is matched, and it is still taken |
| Operations.RequestStep | crates/linguamesh-ffi/src/lib.rs:966-1022 | every step keeps each request waiting, held or answered in one place |
| Operations.AnsweredOnceAndByItsOwn | crates/linguamesh-ffi/src/lib.rs:966-1022 | a request is answered at most once, by an envelope with its own identifier, operation and correlation |
| Operations.MismatchRemovesNothing | crates/linguamesh-ffi/src/lib.rs:966-1008 | a response that is malformed or does not match leaves every waiting request in place |
| Routing.Select | crates/linguamesh-domain/src/routing.rs:308-365 | the method returns the decision of the definition, with its lists sorted in place; `EligibleMeetsEverything` and `RankingFollowsPreference` describe it |
| RoutingFilters.EligibleMeetsEverything | crates/linguamesh-domain/src/routing.rs:308-457 | an invalid profile or a blank target locale is refused as such, and nothing else; in every mode, a candidate of a valid profile is eligible if and only if it meets both allowlists and denylists, the local and privacy rules, streaming, documents, capacity, request size, quality and both locales; every other one is rejected with a constraint that it fails |
| RoutingFilters.FirstEligibleIsSelected | crates/linguamesh-domain/src/routing.rs:308-365 | the selected candidate is the first of the eligible ones, and the others are the fallbacks in order |
| RoutingFilters.RankingFollowsPreference | crates/linguamesh-domain/src/routing.rs:308-487 | in automatic mode the eligible candidates are ordered by the preference, said over quality, latency, cost and locality |
| RoutingOrder.KeyIsInjective | crates/linguamesh-domain/src/routing.rs:170-172 | two candidates with valid identifiers and the same key are the same pair |
| RoutingOrder.OrderIsUnique | crates/linguamesh-domain/src/routing.rs:308-365 | ranks with different keys are sorted in one way only |
| RoutingOrder.AutomaticIgnoresOrder | crates/linguamesh-domain/src/routing.rs:308-365 | in automatic mode selection, ranking and fallback order are the same for every order of a valid profile's candidates |
| RoutingOrder.ShuffledIsValid | crates/linguamesh-domain/src/routing.rs:625-657 | a reordered profile is valid as well |
| RoutingOrder.SelectionIsMaximal | crates/linguamesh-domain/src/routing.rs:308-365 | no eligible candidate is ranked before the selected one |
| RoutingOrder.RemoteIsRuledOut | crates/linguamesh-domain/src/routing.rs:367-457 | when remote providers are ruled out, nothing eligible is remote |
| RoutingOrder.KnownBeatsUnknown | crates/linguamesh-domain/src/routing.rs:463-487 | a known latency or cost outranks an unknown one at every value |
| RoutingOrder.EstimatesSaturate | crates/linguamesh-domain/src/routing.rs:463-487 | smaller estimates rank higher below the largest signed value, and equally above it |
| EventFraming.SseDecoder.Push | crates/linguamesh-provider-openai/src/lib.rs:1425-1436 | the buffer is drained event by event as in the definition |
| EventFraming.UnmixedFramingIsInvariant | crates/linguamesh-provider-openai/src/lib.rs:1424-1450 | a stream that does not mix delimiters gives the same events however it is cut |
| EventFraming.FramingIsInvariantIffUnmixed | crates/linguamesh-provider-openai/src/lib.rs:1424-1450 | every way of cutting gives the same events exactly when no pair of line feeds starts behind a pair of CRLFs |
| EventFraming.MixedStreamsDiffer | crates/linguamesh-provider-openai/src/lib.rs:1439-1450 | each mixed stream has a cut that shows another event |
| EventBlocks.BlocksAreDecoded | crates/linguamesh-provider-openai/src/lib.rs:1424-1450 | an unmixed stream of events, each up to its first delimiter, is decoded to their messages in order up to the first malformed one, and what lies behind the last delimiter is kept |
| EventBlocks.StreamIsBlocks | crates/linguamesh-provider-openai/src/lib.rs:1439-1450 | every unmixed stream is a sequence of such events and a rest |
| LineFraming.NdjsonDecoder.Push | crates/linguamesh-provider-ollama/src/lib.rs:581-584 | complete lines are decoded and the open line is kept |
| LineFraming.NdjsonDecoder.Finish | crates/linguamesh-provider-ollama/src/lib.rs:586-588 | the open line is decoded as a last one |
| LineFraming.NdjsonDecoder.Drain | crates/linguamesh-provider-ollama/src/lib.rs:590-619 | the loop over the buffer decodes the lines of the definition |
| LineFraming.LineFramingIsInvariant | crates/linguamesh-provider-ollama/src/lib.rs:576-621 | however a stream is cut, the messages are those of its lines |
| LineMessages.StreamIffMessages | crates/linguamesh-provider-ollama/src/lib.rs:576-621 | a stream of lines, perhaps with an open one, is decoded to messages exactly when they are those of the lines that show something, carriage returns aside, and of the open line |

## Left out

- The scanners that propose protected stretches (URLs, placeholders, code, glossary terms): the theorems hold for every list of candidates within the source and on character boundaries.
- ProtectChunkRestore: assumes that no visible stretch of the source contains `LINGUAMESH_PROTECTED_`, which the program does not check; for sources of one chunk `OneChunkRoundTrip` gives the exact condition, and for several chunks a condition that is also necessary is not stated.
- Sizes: text lengths, nesting depth of JSON and the counters of items and shared strings are unbounded integers; the limits on tokens, records, fields, segments, operators and leases are modelled, the 4 MiB limit on documents is modelled for what a JSON job writes only, and the limit on the number of CSV segments is not.
- DetectDelimiter: reads characters, where the program reads bytes; all characters that matter are ASCII.
- Parse: whether a JSON number is in the range of the library is a parameter of the JSON modules, and so is the XML library's test for well-formed parts in the OOXML and XHTML modules.
- RewriteKeepsNodes: takes it as given that the XML library accepts the rewritten part, because the library is not modelled; the same holds for RewriteKeepsChapter, ChapterReadsBack and PackageReadsBack.
- Selection of JSON paths, CSV columns and spreadsheet ranges: the theorems hold for every selection.
- Line-ending hints for previews, warnings about long subtitles, and Markdown and plain-text segments.
- EPUB packages: a chapter is rewritten from any position of the segment cursor; carrying the cursor over several chapters works as for OOXML packages, which are modelled, and OPF language metadata is left out.
- RewriteReextracts: speaks of bytes before their decoding as UTF-8 or Latin-1, on which both agree for the ASCII texts that can be written; `RewriteStream` takes the decoding as a parameter. Coordinates, object tables, compression and the HTML alternative are not modelled.
- ZIP archives, encryption and compression: a package is a sequence of named parts in the order of their names.
- Empty translations of CSV and HTML beyond the equivalences above, and byte identity of HTML entities in untranslated documents.
- Glossary import from TBX, glossary matching and locale rules.
- LooksLikeCredential: decides only which glossaries are valid, and nothing is claimed about what it finds.
- Handles as objects: `Buffers`, `Leases` and `Operations` are steps on a state value, so that runs can interleave calls; a buffer is identified by its number and bytes, where the program compares address, length and capacity.
- Bounded event channels: sending never blocks in `Buffers`, and the engine's shutdown flag, cancellation and pointers at the C boundary are not part of the steps.
- AnsweredOnceAndByItsOwn: does not say that a request is answered at all, because that depends on the host (`DeliveredIffInOrder` says when a response is delivered), and because a finished operation clears the map of waiting requests even when the next operation has already put one there.
- Message payloads: parsing an event or a line into a message is a parameter of the framing modules. The Anthropic and Gemini decoders copy the framing modelled here.
- HTTP clients, prompts, endpoint and profile validation, retry policy, the catalog, the command line, bindings and tests.
