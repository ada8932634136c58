# Chunking pipeline of semantic-search, in Dafny

This project models the text-chunking core of `semantic-search/utils.py`:
the path a document's extracted text takes before it is embedded.

- `_detect_sections` cuts the text into labelled sections. A section starts at
  a standalone header line taken from `_SECTION_HEADERS`. An unlabelled first
  section that holds an email address or a phone number is relabelled "Contact".
- `_split_into_segments` breaks a section body into segments. It splits at
  every run of two or more newlines. A paragraph longer than 500 characters is split again at list
  items and sentence ends.
- `chunk_text` packs segments greedily into buffers. A buffer is flushed
  before the next piece would take it past `chunk_size` characters. A segment
  longer than the chunk size is packed line by line. A single line longer than
  the chunk size still becomes a buffer of its own. With a positive `overlap`,
  the last `overlap` parts are carried into the next buffer. A carried buffer
  plus the next segment can then exceed `chunk_size`.
- `_flush_chunk` joins a buffer and prefixes the label (`[Label] body`). It
  drops the chunk when its normal form (`_normalize_for_dedup`) was already
  produced. Otherwise it appends the chunk with the id `chunk_<n>`.

Modules, one per concern:

- `Text`: strings as Python treats them.
  - `strip()` over exactly the characters `str.isspace` accepts.
  - `split('\n')` and `'\n'.join`.
  - ASCII `lower()` and `title()`.
  - `NonSpace`, the non-whitespace characters of a text. The "nothing is lost"
    properties are stated with it.
- `Dedup`: `_normalize_for_dedup`.
- `Sections`: `_SECTION_HEADERS` and `_detect_sections`.
  - The loop is the method `DetectSections`.
  - It is proved equal to the fold `SectionsOf`, whose properties are lemmas.
- `Segments`: `_split_into_segments`.
  - The two regular-expression splits are scanners (`Paragraphs`,
    `SeparatorAt`/`SplitFrom`).
  - The loop is the method `SplitIntoSegments`.
- `Flush`: `_flush_chunk`.
  - The caller's `chunks` list and `seen_normalized` set, which it mutates, are
    the fields of the class `ChunkSink`.
  - `FlushChunk` is proved against the function `FlushSpec`.
- `Packing`: the greedy packing loop of `chunk_text`, on values.
  - `PackSegments` folds one loop iteration per segment, keeping the loop
    variables and the buffers flushed so far.
  - The size bound, the running-length formula, coverage and the carry-over are
    proved about it.
- `Chunker`: the `chunk_text` method.
  - Its loops drive a `ChunkSink`.
  - It is proved equal to `ChunkTextSpec`.
  - The properties of the whole pipeline (ids, distinct normal forms, nothing
    dropped except duplicates, chunk shape) are lemmas about that function.

Two things are modelled exactly as written:

- **The carry-over running length.** After a carry-over the running length is
  reset to `sum + count - 1`, one less than every other path keeps. `LenOk`
  records both forms.
- **The sentence-end split inside numbered lists.** In a long paragraph the
  sentence-end alternative also fires after a list number such as
  `"\n1. Item"`, where it separates `1.` from `Item`. The model splits there
  too, as the pattern does.

## Model

| member | source | states |
|---|---|---|
| `Text.Strip` | semantic-search/utils.py:60 | `strip()` returns a text with no whitespace at either end, no longer than its input |
| `Text.StripIsTrim` | semantic-search/utils.py:60 | stripping is removing leading, then trailing whitespace |
| `Text.StripEmpty` | semantic-search/utils.py:129 | `text.strip()` is empty exactly when the text is all whitespace |
| `Text.NonSpaceStrip` | semantic-search/utils.py:98 | stripping removes whitespace only |
| `Text.JoinLinesOfLines` | semantic-search/utils.py:59 | joining the lines of `text.split('\n')` with newlines gives the text back |
| `Text.LinesOfJoinLines` | semantic-search/utils.py:64 | splitting a newline join of newline-free parts gives the parts back |
| `Text.JoinLinesLength` | semantic-search/utils.py:180 | a newline join is as long as its parts plus one separator between each two |
| `Text.NonSpaceStrippedNonEmpty` | semantic-search/utils.py:107-110 | stripping parts and dropping the blank ones keeps every non-whitespace character, in order |
| `Text.Lines` | semantic-search/utils.py:59 | `split('\n')` gives at least one piece, and no piece holds a newline |
| `Text.TitleKeepsLetters` | semantic-search/utils.py:67 | `title()` changes only the case of letters |
| `Text.TitleOfLower` | semantic-search/utils.py:67 | `title()` gives the same result whatever the case of its input |
| `Dedup.NormalizeShape` | semantic-search/utils.py:115-117 | a dedup key is stripped, single-spaced (only `' '`, never two in a row) and has no upper-case letter |
| `Dedup.NormalizeIdempotent` | semantic-search/utils.py:115-117 | normalising a key again gives the same key |
| `Dedup.NormalizeFixesKey` | semantic-search/utils.py:115-117 | every stripped, single-spaced, lower-case text is its own key |
| `Dedup.NormalizeKeepsText` | semantic-search/utils.py:115-117 | the key holds the text's non-whitespace characters, lower-cased, in order |
| `Dedup.CollapseSingleSpaced` | semantic-search/utils.py:117 | after `re.sub(r'\s+', ' ', ...)` every whitespace is a single space |
| `Dedup.CollapseSingleSpacedFixed` | semantic-search/utils.py:117 | the substitution leaves an already single-spaced text unchanged |
| `Dedup.NonSpaceCollapse` | semantic-search/utils.py:117 | the substitution keeps every non-whitespace character |
| `Sections.HeaderLineIsAlternation` | semantic-search/utils.py:50-53 | a stripped line is a header exactly when the alternation, tried entry by entry in vocabulary order, matches its lower-cased form |
| `Sections.MatchesEntryFromIndex` | semantic-search/utils.py:51 | trying the alternatives from entry `k` on succeeds exactly when some entry at or after `k` equals the text |
| `Sections.HeaderLabel` | semantic-search/utils.py:67 | the label of a header line is non-empty and is the title-cased vocabulary entry it matched |
| `Sections.ContactIsHeaderLabel` | semantic-search/utils.py:84 | "Contact" is itself the label of the header `contact` |
| `Sections.CollapseLeavesNoTriple` | semantic-search/utils.py:47 | after the blank-line collapse no three newlines follow each other |
| `Sections.CollapseBlankLinesFixed` | semantic-search/utils.py:47 | a text without three newlines in a row is left unchanged by the collapse |
| `Sections.NonSpaceCollapseBlankLines` | semantic-search/utils.py:47 | the blank-line collapse keeps every non-whitespace character |
| `Sections.HasEmailIsSearch` | semantic-search/utils.py:81 | the email test holds exactly when the whole pattern `[\w.+-]+@[\w-]+\.[\w.]+` matches some stretch of the body |
| `Sections.HasPhoneIsSearch` | semantic-search/utils.py:82 | the phone test holds exactly when `\+?\d[\d\s\-]{7,}` matches somewhere, with or without its `+` |
| `Sections.LabelContact` | semantic-search/utils.py:79-84 | relabelling keeps every body and every later label; only an empty first label can change, only to "Contact", and it does exactly when the first body holds an email address or a phone number |
| `Sections.BodiesLabelContact` | semantic-search/utils.py:79-84 | relabelling does not touch the bodies |
| `Sections.ScanLinesOk` | semantic-search/utils.py:59-70 | during the line loop the emitted sections stay well formed and the label is empty only while nothing has been emitted |
| `Sections.SectionsWellFormed` | semantic-search/utils.py:39-86 | every section body is non-empty and stripped, only the first section can be unlabelled, and every non-empty label is a title-cased vocabulary entry ("Contact" is one) |
| `Sections.ScanLinesKeepText` | semantic-search/utils.py:59-70 | the loop state holds exactly the non-whitespace text of the non-header lines read so far |
| `Sections.SectionsKeepText` | semantic-search/utils.py:39-86 | the section bodies together hold exactly the non-whitespace text of the non-header lines |
| `Sections.HeaderlessTextKept` | semantic-search/utils.py:39-86 | without header lines, no non-whitespace character of the text is lost |
| `Sections.DetectSections` | semantic-search/utils.py:39-86 | the loop computes `SectionsOf(text)`, and its result is well formed |
| `Sections.FinishSections` | semantic-search/utils.py:72-86 | after the loop, the last lines are flushed and then the Contact relabel is applied, as `LabelContact(FlushScan(...))` describes |
| `Segments.NonSpaceParagraphs` | semantic-search/utils.py:94 | splitting on runs of two or more newlines drops only whitespace: the paragraphs keep every non-whitespace character, in order |
| `Segments.ParagraphsNoBreak` | semantic-search/utils.py:94 | the split consumes every run of two or more newlines: no paragraph holds two newlines in a row |
| `Segments.OneParagraph` | semantic-search/utils.py:94 | a block without two consecutive newlines is a single paragraph |
| `Segments.SeparatorAt` | semantic-search/utils.py:106 | a separator is whitespace and is followed by a bullet, a dash, a digit or a capital |
| `Segments.SeparatorAtMatches` | semantic-search/utils.py:106 | the scanner finds a separator of length `m` at `i` exactly when the pattern matches there. Either a newline before `•`, a dash and whitespace, or digits and a full stop, where only the newline is consumed. Or, failing that, the whole whitespace run after `.`, `!` or `?` when an ASCII capital follows |
| `Segments.SplitAtFirstMatch` | semantic-search/utils.py:106 | the split cuts at the leftmost match: the first piece ends where the pattern first matches (or at the end when it matches nowhere), and the remaining pieces are the split of the text after that match |
| `Segments.FirstPiece` | semantic-search/utils.py:106 | the first piece of a split is a prefix of the text |
| `Segments.PiecesStart` | semantic-search/utils.py:106 | every piece after the first starts with a bullet, a dash, a digit or a capital |
| `Segments.NonSpaceSplitFrom` | semantic-search/utils.py:106 | the list-and-sentence split drops only whitespace |
| `Segments.SegmentsOfParagraphsOk` | semantic-search/utils.py:96-112 | every segment is non-empty and stripped |
| `Segments.SegmentsKeepText` | semantic-search/utils.py:89-112 | the segments, in order, hold exactly the block's non-whitespace text |
| `Segments.ShortParagraphIsSegment` | semantic-search/utils.py:95-103 | every non-blank paragraph of a block whose stripped text is at most 500 characters is emitted whole, stripped, right after the segments of the paragraphs before it |
| `Segments.ShortBlockIsOneSegment` | semantic-search/utils.py:102-103 | a single paragraph of at most 500 characters stays one whole segment |
| `Segments.KeepStrippedParts` | semantic-search/utils.py:107-110 | the inner loop keeps the stripped non-blank parts, in order |
| `Segments.SplitIntoSegments` | semantic-search/utils.py:89-112 | the loop computes `SegmentsOf(block)`, and every segment is non-empty and stripped |
| `Flush.DecimalRoundTrip` | semantic-search/utils.py:214 | the digits written for `n` read back as `n` |
| `Flush.ChunkIdInjective` | semantic-search/utils.py:214 | two positions with the same id `chunk_<n>` are the same position |
| `Flush.RenderInjective` | semantic-search/utils.py:204-207 | under one label, the body can be read back from the chunk text: two bodies that render alike are equal |
| `Flush.FlushOutcome` | semantic-search/utils.py:194-214 | a flush changes nothing when the body is blank or its key was seen; otherwise it appends exactly one chunk `chunk_<old length>` holding the rendered stripped body and adds its key to the seen set |
| `Flush.FlushKeepsInv` | semantic-search/utils.py:194-214 | a flush keeps ids sequential, the seen set equal to the chunks' keys and the keys pairwise distinct |
| `Flush.AppendKeepsInv` | semantic-search/utils.py:213-214 | appending a chunk with the next id and an unseen key keeps that invariant |
| `Flush.IdsDistinct` | semantic-search/utils.py:214 | under the invariant no two chunks share an id |
| `Flush.ChunkSink.FlushChunk` | semantic-search/utils.py:194-214 | the method updates the list and the set exactly as `FlushSpec` describes |
| `Packing.CarryOverLenOk` | semantic-search/utils.py:177-180 | after a carry-over the buffer holds the last `overlap` parts and the running length is their sum plus count minus one |
| `Packing.RunningLength` | semantic-search/utils.py:144-185 | `current_len` is always the parts' total length plus their count, minus one when the buffer began with a carry-over; it is 0 for an empty buffer |
| `Packing.RunningLengthNoOverlap` | semantic-search/utils.py:120-185 | without overlap, `current_len` is exactly the total length plus the count |
| `Packing.PackLinesFits` | semantic-search/utils.py:157-166 | every buffer the line loop flushes, and the one it leaves, joins to at most `chunk_size` characters, or is a single line |
| `Packing.BatchesFit` | semantic-search/utils.py:144-189 | without overlap, every buffer a section flushes joins to at most `chunk_size` characters, or is a single oversized piece |
| `Packing.PackLinesHeld` | semantic-search/utils.py:157-166 | the line loop buffers exactly the stripped non-blank lines, in order |
| `Packing.CarryOverHeld` | semantic-search/utils.py:177-180 | a carry-over neither loses nor repeats new content |
| `Packing.BatchesCoverUnits` | semantic-search/utils.py:144-189 | the parts the flushed buffers add, beyond those carried over, are exactly the section's segments in order, with each oversized segment replaced by its stripped non-blank lines |
| `Packing.CarryOverCarryOk` | semantic-search/utils.py:177-180 | the carried buffer starts with the last `overlap` parts of the buffer just flushed |
| `Packing.BatchesChained` | semantic-search/utils.py:144-189 | the first buffer of a section carries nothing, and each later one carries either nothing or exactly the last `overlap` parts of the buffer before it |
| `Chunker.BlankTextNoChunks` | semantic-search/utils.py:129-130 | an empty or all-whitespace text gives no chunks |
| `Chunker.ChunkTextOfSections` | semantic-search/utils.py:129-139 | for any other text the chunks are those of its detected sections |
| `Chunker.ChunkStoreInv` | semantic-search/utils.py:136-191 | the final list and set satisfy the store invariant |
| `Chunker.ChunkIdsAndNorms` | semantic-search/utils.py:136-214 | chunk `i` has id `chunk_i`, ids are pairwise distinct and no two chunks have the same normal form |
| `Chunker.FlushAllDelivers` | semantic-search/utils.py:154-189 | after a run of flushes, every non-blank buffer's key is in the seen set |
| `Chunker.NothingDroppedButDuplicates` | semantic-search/utils.py:139-191 | every non-blank buffer of every section is represented by a chunk with the same normal form as its rendering |
| `Chunker.ChunksAreRendered` | semantic-search/utils.py:139-214 | every chunk is `[label] body`, or just `body` for an unlabelled section. Here `body` is the stripped newline join of a non-blank buffer that the labelled detected section flushed |
| `Chunker.BodyFits` | semantic-search/utils.py:199 | a buffer that fits flushes to a body of at most `chunk_size` characters, or to a single line |
| `Chunker.ChunkBodiesFit` | semantic-search/utils.py:139-207 | without overlap, every chunk is a section's label around a non-empty stripped body of at most `chunk_size` characters, or around a single longer line |
| `Chunker.FlushBuffer` | semantic-search/utils.py:154-189 | each call of the flush records exactly one more flushed buffer, and the sink then equals `FlushAll` over all buffers flushed so far |
| `Chunker.PackLinesLoop` | semantic-search/utils.py:157-166 | the line loop flushes and keeps exactly what `PackLines` describes |
| `Chunker.PackLongSegment` | semantic-search/utils.py:151-170 | the oversized-segment branch behaves as `PackLong` |
| `Chunker.PackShortSegment` | semantic-search/utils.py:173-185 | the normal branch, with its flush and carry-over, behaves as `PackShort` |
| `Chunker.PackSection` | semantic-search/utils.py:144-189 | one section's loop flushes exactly the buffers `SectionBatches` lists, in order |
| `Chunker.ChunkText` | semantic-search/utils.py:120-191 | `chunk_text` returns `ChunkTextSpec(text, chunk_size, overlap)` |

## Left out

- The PDF readers (`extract_text_from_pdf`, `extract_text_from_uploaded`) are not part of this model. They depend on the PDF library. `save_uploaded_pdf` is left out for the same reason: it does file-system I/O.
- `app.py`, `embed.py`, `search.py` and `rag.py` are not part of this model. They handle the user interface, the embedding model, the vector search and the language-model calls.
- Case handling is ASCII only. This covers `lower()`, `title()` and the case-insensitive header match. Non-ASCII letters are treated as uncased.
- Regex classes are ASCII only as well: `\w` and `\d`, and `[A-Z]` in the sentence split. Python's Unicode word characters and digits beyond ASCII are not modelled.
- Whitespace, for `strip()` and for `\s`, is the set of characters `str.isspace` accepts.
- The chunk record is the datatype `Chunk(id, text)` and not a dictionary.
- Packing.BatchesFit: the size bound is proved for `overlap <= 0` only. With a positive overlap, the source can put a carried buffer and a new segment together over `chunk_size`. Nothing bounds the carried parts.
- Chunker.ChunkText: the inner loop and the two branches of the segment loop are separate methods. These are `PackLinesLoop`, `PackLongSegment` and `PackShortSegment`, and `FlushBuffer` wraps each flush. They run the same steps in the same order as the single loop body of the source.
- Sections.DetectSections: the tail after the loop is `FinishSections`.
- Segments.SplitIntoSegments: the inner part loop is `KeepStrippedParts`.
