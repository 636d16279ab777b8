# pdfsign: the tail of an incremental update, in Dafny

This project models the part of the pdfsign signer (package `sign`) that
appends a signature to a PDF by incremental update. It covers three steps:

- **The visual signature.** `createVisualSignatureWithImage` builds the
  widget annotation dictionary of the signature field. When the signature is
  visible, `createAppearanceWithImage` first appends an image XObject that
  holds the JPEG data. It then returns a Form XObject that paints the image,
  and the annotation appends that form and names it in `/AP`.
- **The cross-reference table.** `writeXref` / `writeXrefTable` write a new
  header with the entry count raised by two. Then they copy the old entries
  verbatim and add one entry for the new catalog and one for the new
  signature object.
- **The trailer.** `writeTrailer` reads the old trailer and patches it.
  `Root <old ref>` becomes `Root <new catalog> 0 R`, and `Size <n>` becomes
  `Size <n+2>`, both by literal replace-all. It then writes the new
  `startxref` value and `%%EOF`.

Modules:

- `Results`: Go's `error` and `(value, err)` returns.
- `Output`: a sequence of `Write` calls whose fates are given by a `Sink`.
  The first failing write ends the routine, and a failed write contributes
  no bytes.
- `Decimal`: `strconv.FormatInt`, its inverse, and the zero-padded ten-digit
  offset field.
- `Replace`: `strings.Replace(s, old, new, -1)`, characterised as cutting
  at the left-to-right occurrences and gluing back.
- `Lines`: a small line reader. The properties of the dictionaries are
  stated as what a reader finds: `Lookup(SplitLines(bytes), "Rect")` is the
  value of the first `  /Rect …` line.
- `SignContext`: the reader's xref description and the catalog data.
- `Xref`, `Trailer`, `VisualSignature`: the three routines.
- `Flags` and `PdfNames`: constants.

The builders return the annotation and the form as lists of `Line`s. Their
bytes are `Lines.Write` of those lists, so the text the Go code writes is
`Write(lines)`. Entry names and values cannot hold a line break, by
construction of their types.

## Model

| member | source | states |
|---|---|---|
| `Xref.WriteXref` | sign/pdfxref.go:8-21 | A cross-reference section that is not a classic table is refused with `Unkwn xref type: <kind>` before any byte is written. A classic table is rewritten by the table writer, and its outcome, error or bytes, is returned unchanged. |
| `Xref.WriteXrefStandard` | sign/pdfxref.go:8-21 | The same dispatch onto the corrected table writer with 20-byte entries (see Findings). |
| `Xref.WriteXrefTable` | sign/pdfxref.go:23-55 | The four writes go in the order new header, old entries, catalog entry, signature entry. The routine succeeds exactly when all four succeed. When the k-th write fails, its error is returned and exactly the k segments before it are in the output. On success the output is the header with count+2, the old entries unchanged, then the entries for the catalog offset and for the catalog offset plus the catalog's length. |
| `Xref.HeaderGrowth` | sign/pdfxref.go:24-25 | Raising the count by two makes the header at most one byte longer. It is one byte longer exactly when count+2 needs one more digit than count. |
| `Xref.WrittenTableLength` | sign/pdfxref.go:23-55 | A fully written table is the new header plus the old table's bytes after its header plus 38 bytes, for two 19-byte entries. |
| `Xref.WrittenTableReadBack` | sign/pdfxref.go:24-52 | From a fully written table a reader recovers the count plus two in the header and the old entries unchanged. The last two entries' offset fields read back as the catalog's offset and the signature's offset. |
| `Xref.EntryAsWrittenLength` | sign/pdfxref.go:37-38 | For every offset below 10^10, an entry as the code writes it is 19 bytes long, not the 20 bytes the file format requires. |
| `Xref.EntryAsWrittenReadBack` | sign/pdfxref.go:46-47 | The first ten bytes of an entry are digits that read back as the offset. The rest marks generation 0 and in use. |
| `Xref.StandardEntryShape` | sign/pdfxref.go:37-38 | The corrected entry is 20 bytes: the ten-digit offset field, then generation 0, in use, and a two-byte end of line. |
| `Xref.StandardEntryReadBack` | sign/pdfxref.go:46-47 | The corrected entry's first ten bytes are digits that read back as the offset. |
| `Xref.WriteXrefTableStandard` | sign/pdfxref.go:23-55 | The corrected table writer has the same success condition and the same layout as the code's, with 20-byte entries. |
| `Xref.StandardTableLength` | sign/pdfxref.go:23-55 | A fully written corrected table is 40 bytes longer than the old table's bytes after its header, plus the new header. |
| `Decimal.ParseFormat` | sign/pdfxref.go:37 | Reading back a formatted non-negative number gives the number. |
| `Decimal.FormatParse` | sign/pdfxref.go:37 | Formatting the number that a canonical digit string denotes gives the string back. |
| `Decimal.OffsetFieldRoundTrip` | sign/pdfxref.go:37-38 | A left-padded offset below 10^10 is exactly ten digits and reads back as the offset. |
| `Decimal.OffsetFieldOverflow` | sign/pdfxref.go:46-47 | An offset of 10^10 or more is not padded and fills more than ten bytes, which breaks the fixed-width entry. |
| `Decimal.FormatPlusTwoLength` | sign/pdftrailer.go:21-22 | The new count's text is as long as the old count's text or one digit longer. It is longer exactly when the new count reaches the next power of ten. |
| `Output.Emit` | sign/pdftrailer.go:29-43 | A run of writes succeeds exactly when no write fails, and then it outputs all segments in order. Otherwise it returns the first failing write's error, and the output is exactly the segments before that write. |
| `Output.EmitIsPrefix` | sign/pdftrailer.go:29-43 | Whatever fails, the output is some number of leading whole segments, and so a prefix of the full output. |
| `Output.Emit4` | sign/pdfxref.go:27-52 | For four writes in a row, each possible first failure is spelled out with its error and the bytes before it. |
| `Trailer.WriteTrailer` | sign/pdftrailer.go:8-44 | A failed read returns its error with nothing written. Otherwise the routine writes the patched trailer, the new xref start with a line feed, and `%%EOF\n`. It succeeds exactly when all three writes succeed. Each failing write returns its error after exactly the writes before it. |
| `Trailer.TrailerSpan` | sign/pdftrailer.go:9-16 | The span read holds `includingTrailerEndPos - endPos` bytes. When it lies in the input, it is the input from `endPos + 1` to `includingTrailerEndPos` inclusive. |
| `Trailer.ReadSpan` | sign/pdftrailer.go:12-16 | The buffer has the requested length. It holds the input's bytes where the input has them and zero bytes past its end, because a short read is not checked. |
| `Trailer.PatchNoOp` | sign/pdftrailer.go:24-26 | If neither `Root <old ref>` nor `Size <n>` occurs in the old trailer, the patch silently returns it unchanged. |
| `Trailer.PatchCutsAndGlues` | sign/pdftrailer.go:24-26 | Each pass cuts its input at the left-to-right occurrences of its pattern and glues the same pieces back with the replacement. The `Size` pass works on the output of the `Root` pass. |
| `Trailer.PatchSimpleTrailer` | sign/pdftrailer.go:18-26 | For a trailer dictionary holding only its size and root entries, the patch sets the size to n+2 and points the root at the new catalog. |
| `Trailer.PatchExample` | sign/pdftrailer.go:18-26 | `<< /Size 42 /Root 10 0 R >>`, with a new catalog 43, becomes `<< /Size 44 /Root 43 0 R >>`. |
| `Replace.Split` | sign/pdftrailer.go:25-26 | The pieces join back, with the pattern between them, into the input. No pattern occurrence starts inside a piece before its cut, and the last piece holds none. |
| `Replace.ReplaceAllIsJoinOfSplit` | sign/pdftrailer.go:25-26 | Replace-all equals cutting at the left-to-right, non-overlapping occurrences and joining with the replacement. |
| `Replace.SplitCutsIffOccurs` | sign/pdftrailer.go:25-26 | The text is cut at least once exactly when the pattern occurs in it. |
| `Replace.ReplaceAbsent` | sign/pdftrailer.go:25-26 | Replacing a pattern that does not occur changes nothing. |
| `Replace.ReplaceSame` | sign/pdftrailer.go:25-26 | Replacing a pattern by itself changes nothing. |
| `Replace.ReplaceChangedOccurs` | sign/pdftrailer.go:25-26 | If replacing changed the text, the pattern occurs in it. |
| `Replace.ReplaceFirstThenRest` | sign/pdftrailer.go:25-26 | The first occurrence is replaced, and the scan resumes after it. |
| `Replace.ReplaceSingle` | sign/pdftrailer.go:25-26 | With exactly one occurrence, exactly that occurrence is replaced and the text around it is kept. |
| `VisualSignature.AddObject` | sign/pdfvisualsignature_image.go:129-132 | A successful append gives the object the next free number and puts it after every object appended before. A failed append returns its error and appends nothing. |
| `VisualSignature.CreateAppearance` | sign/pdfvisualsignature_image.go:103-150 | A failed JPEG encoding is returned unchanged, with nothing appended. A failed append of the image is returned. On success the image XObject is appended under the next number, and the result is the form that draws it and refers to that number. |
| `VisualSignature.ImageObjectReads` | sign/pdfvisualsignature_image.go:112-126 | A reader of the image object finds the image's width and height. Its `/Length` reads back as the number of bytes between `stream\n` and `\nendstream\n`, and those bytes are the JPEG data. |
| `VisualSignature.FormEntries` | sign/pdfvisualsignature_image.go:134-141 | The form is a Form XObject. Its box is the image's size, and its resources bind the image's name to the image object. |
| `VisualSignature.ImageNameBound` | sign/pdfvisualsignature_image.go:139-145 | A reader of the form finds `/Resources` binding the name `/Im<token>` to the image object's number, with `/FormType 1` on the same line. The content stream's paint line, the ninth line, paints that same name. |
| `VisualSignature.FormObjectReads` | sign/pdfvisualsignature_image.go:143-147 | The form has eleven lines. Its content stream scales the unit square to the image's size and paints the image under the name its resources bind. |
| `VisualSignature.CreateVisualSignature` | sign/pdfvisualsignature_image.go:17-101 | Objects appended before the build stay in place and in order. |
| `VisualSignature.SuccessShape` | sign/pdfvisualsignature_image.go:17-101 | A successful build returns the annotation lines. When visible, the image and the form were both appended, and the form got the number after the image's. When the catalog has `/Pages`, the page lookup succeeded, and its id is kept. |
| `VisualSignature.AnnotationFraming` | sign/pdfvisualsignature_image.go:20-98 | The annotation's bytes begin with exactly `<<\n  /Type /Annot\n  /Subtype /Widget\n` and end with exactly `>>\n`. A reader finds `/Annot` as its type and `/Widget` as its subtype. |
| `VisualSignature.HiddenAnnotation` | sign/pdfvisualsignature_image.go:45-48 | An invisible signature appends nothing and uses no object number. Its `/Rect` is `[0 0 0 0]`, and it has no `/AP`. |
| `VisualSignature.VisibleObjects` | sign/pdfvisualsignature_image.go:27-39 | A successful visible signature appends exactly two objects: the image under the next number, then the form that draws it under the number after. |
| `VisualSignature.VisibleAnnotation` | sign/pdfvisualsignature_image.go:27-43 | A visible signature's `/Rect` is the given rectangle, and its `/AP` names the form object as the normal appearance. |
| `VisualSignature.PageEntry` | sign/pdfvisualsignature_image.go:50-83 | `/P` is written exactly when the catalog has `/Pages`. It then names the page found by number, whose id is kept for the xref step. Otherwise the kept page id is unchanged. |
| `VisualSignature.FixedEntries` | sign/pdfvisualsignature_image.go:85-95 | The annotation has flags 132, field type `/Sig`, and title `(Signature <existing+1>)`. Its `/V` refers to the signature dictionary. |
| `VisualSignature.FailureCases` | sign/pdfvisualsignature_image.go:31-73 | The build fails exactly when a visible signature cannot encode its image or append one of its two objects, or when the catalog has `/Pages` and the page lookup fails. Appearance errors are wrapped with `failed to create appearance: ` or `failed to add appearance object: `. A failed page lookup is returned as is. |
| `VisualSignature.RootStringRecorded` | sign/pdfvisualsignature_image.go:63-73 | The catalog reference is recorded for the trailer before the page lookup, so it is also recorded when that lookup fails. Only a failed appearance leaves it unset. |
| `Flags.AnnotationFlags` | sign/pdfvisualsignature_image.go:85-87 | Print combined with Locked, the flag bits of section 12.5.3 of ISO 32000-1, is 132. |

## Left out

- Objects are written to a file and bytes are copied from it. The output
  file is a `Sink`, whose k-th write fails or succeeds as given. The input
  file is a string.
- Seek errors are ignored, as the Go code ignores them. The short read that
  `Read` may do is not checked by the code; the model fills the rest of the
  buffer with zero bytes.
- `writePartFromSourceFileToTargetFile` is not part of this model. Copying
  the old entries is modelled as taking the input's bytes between the old
  header's end and the table's end. `Xref.WriteXrefTable` requires that span
  to lie inside the input.
- `leftPad` is not part of this model. It is modelled as repeating the pad
  n times in front, with no padding when n is zero or negative.
- `pdfString` is not part of this model. It is modelled as wrapping the text
  in parentheses, which is exact for the titles written here: they hold no
  parenthesis or backslash.
- 64-bit and 32-bit integer overflow is not modelled. Offsets, counts and
  ids are unbounded integers.
- JPEG encoding is an input: the image carries the encoder's result, data
  or error.
- The clock that gives the `/Im` resource token is an input, `Context.token`.
- The PDF reader is reduced to what is read: the catalog's keys, its
  reference, and the outcome of looking up a page by number.
  `findPageByNumber` is a function given with the reader.
- `addObject` is not part of this model. `VisualSignature.AddObject` is an
  abstract allocator: it hands out the next number and appends the object,
  or fails without appending or using a number. The `obj` / `endobj`
  wrapping and the offsets it records are not modelled.
- The `/Rect` coordinates are inputs already formatted with `%f`. Floating
  point formatting is not modelled.
- The builders return `Line` lists whose bytes are `Lines.Write` of them,
  rather than the bytes themselves.
- The xref stream format is refused by the code, so only that refusal is
  modelled.
- How the orchestrator computes `NewXrefStart` and the catalog's length is
  not modelled. Both are inputs.
- `Replace.ReplaceAll` requires a non-empty pattern. Go's empty-pattern case
  never arises here, because both patterns start with `Root ` or `Size `.
- VisualSignature.CreateVisualSignature: its own contract states only that
  earlier objects stay in place. What it returns and appends is stated by
  `SuccessShape`, `FailureCases` and the lemmas that follow it.

## Findings

Section 7.5.4 of ISO 32000-1 requires 20-byte entries, but the code writes
19-byte ones. `Xref.WriteXref` and `Xref.WriteXrefTable` follow the code;
`Xref.WriteXrefStandard` and `Xref.WriteXrefTableStandard` are the corrected
pair.

| source | as written | input that shows it | evidently intended | confidence | as-written member | corrected member |
|---|---|---|---|---|---|---|
| sign/pdfxref.go:38 | each new entry is the ten-digit offset, then `" 00000 n\n"`: 19 bytes, with a one-byte end of line | any offset, for example 0: `0000000000 00000 n\n` is 19 bytes | a 20-byte entry whose end of line is two bytes (`" 00000 n \n"`), as section 7.5.4 of ISO 32000-1 requires | medium, not executed | `Xref.EntryAsWrittenLength` | `Xref.StandardEntryShape` |
