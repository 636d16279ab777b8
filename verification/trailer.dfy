/** Rewriting the trailer for the incremental update: the old trailer is
    read from the input, its `Root` reference is pointed at the new catalog
    and its `Size` raised by two, and the new `startxref` value and the end
    of file marker follow it. */
module Trailer {
  import opened Results
  import opened Output
  import opened Decimal
  import opened Replace
  import opened SignContext

  /** The reader's offsets admit the read: the seek target is not negative
      and the buffer length is not negative (the source would panic). */
  predicate SpanReadable(info: XrefInformation)
  {
    -1 <= info.endPos <= info.includingTrailerEndPos
  }

  /** The bytes a buffer of `len` bytes holds after one `Read` at `pos`:
      the input's bytes where there are any, and the zeros the buffer was
      made with past the input's end (a short read is not checked). */
  function ReadSpan(input: string, pos: nat, len: nat): (buf: string)
    ensures |buf| == len
    ensures forall i :: 0 <= i < len && pos + i < |input| ==> buf[i] == input[pos + i]
    ensures forall i :: 0 <= i < len && pos + i >= |input| ==> buf[i] == '\0'
  {
    var got := if pos >= |input| then [] else if pos + len <= |input| then input[pos..pos + len] else input[pos..];
    got + seq(len - |got|, i => '\0')
  }

  /** The span of the input holding the old trailer: the
      `includingTrailerEndPos - endPos` bytes that start at `endPos + 1`. */
  function TrailerSpan(info: XrefInformation, input: string): (span: string)
    requires SpanReadable(info)
    ensures |span| == info.includingTrailerEndPos - info.endPos
    ensures info.includingTrailerEndPos < |input| ==> span == input[info.endPos + 1..info.includingTrailerEndPos + 1]
  {
    var span := ReadSpan(input, info.endPos + 1, info.includingTrailerEndPos - info.endPos);
    assert info.includingTrailerEndPos < |input| ==> span == input[info.endPos + 1..info.includingTrailerEndPos + 1];
    span
  }

  function RootPattern(catalog: CatalogData): string
  {
    "Root " + catalog.rootString
  }

  function NewRoot(catalog: CatalogData): string
  {
    "Root " + FormatInt(catalog.objectId) + " 0 R"
  }

  function SizePattern(info: XrefInformation): string
  {
    "Size " + FormatInt(info.itemCount)
  }

  function NewSize(info: XrefInformation): string
  {
    "Size " + FormatInt(info.itemCount + 2)
  }

  /** The two replace-all passes, `Root` first, then `Size`. */
  function Patch(span: string, info: XrefInformation, catalog: CatalogData): string
  {
    ReplaceAll(ReplaceAll(span, RootPattern(catalog), NewRoot(catalog)), SizePattern(info), NewSize(info))
  }

  /** The line giving where the new table starts. */
  function StartXrefLine(newXrefStart: int): string
  {
    FormatInt(newXrefStart) + "\n"
  }

  const EofMarker: string := "%%EOF\n"

  /** `writeTrailer`. A failed read ends it before anything is written;
      otherwise it writes the patched trailer, the start of the new table
      and the end of file marker, in that order, stopping at the first
      write that fails. */
  function WriteTrailer(info: XrefInformation, catalog: CatalogData, newXrefStart: int,
                        input: string, readErr: Option<Error>, sink: Sink): (w: Written)
    requires SpanReadable(info)
    ensures readErr.Some? ==> w == Written([], readErr)
    ensures readErr.None? ==>
              (w.err == None <==> !sink.FailsAt(0) && !sink.FailsAt(1) && !sink.FailsAt(2))
    ensures readErr.None? && sink.FailsAt(0) ==>
              w == Written([], sink.fates[0])
    ensures readErr.None? && !sink.FailsAt(0) && sink.FailsAt(1) ==>
              w == Written(Patch(TrailerSpan(info, input), info, catalog), sink.fates[1])
    ensures readErr.None? && !sink.FailsAt(0) && !sink.FailsAt(1) && sink.FailsAt(2) ==>
              w == Written(Patch(TrailerSpan(info, input), info, catalog) + StartXrefLine(newXrefStart), sink.fates[2])
    ensures w.err == None ==>
              && w.bytes == Patch(TrailerSpan(info, input), info, catalog) + FormatInt(newXrefStart) + "\n" + "%%EOF\n"
              && w.bytes[|w.bytes| - 6..] == "%%EOF\n"
  {
    if readErr.Some? then
      Written([], readErr)
    else
      var patched := Patch(TrailerSpan(info, input), info, catalog);
      ConcatPrefixes3(patched, StartXrefLine(newXrefStart), EofMarker);
      Emit([patched, StartXrefLine(newXrefStart), EofMarker], sink)
  }

  /** When neither pattern occurs in the old trailer, the patch silently
      changes nothing. */
  lemma PatchNoOp(span: string, info: XrefInformation, catalog: CatalogData)
    requires !Occurs(span, RootPattern(catalog)) && !Occurs(span, SizePattern(info))
    ensures Patch(span, info, catalog) == span
  {
    ReplaceAbsent(span, RootPattern(catalog), NewRoot(catalog));
    ReplaceAbsent(span, SizePattern(info), NewSize(info));
  }

  /** Each pass cuts its input at the occurrences of its pattern found left
      to right and glues the same pieces back with the replacement; nothing
      between the occurrences changes. */
  lemma PatchCutsAndGlues(span: string, info: XrefInformation, catalog: CatalogData)
    ensures var afterRoot := ReplaceAll(span, RootPattern(catalog), NewRoot(catalog));
            && afterRoot == Join(Split(span, RootPattern(catalog)), NewRoot(catalog))
            && Patch(span, info, catalog) == Join(Split(afterRoot, SizePattern(info)), NewSize(info))
  {
    ReplaceAllIsJoinOfSplit(span, RootPattern(catalog), NewRoot(catalog));
    var afterRoot := ReplaceAll(span, RootPattern(catalog), NewRoot(catalog));
    ReplaceAllIsJoinOfSplit(afterRoot, SizePattern(info), NewSize(info));
  }

  /** Digits include no letter. */
  lemma NoLetterInDigits(s: string, ch: char)
    requires AllDigits(s) && !IsDigit(ch)
    ensures ch !in s
  {
  }

  lemma NoRootBeforeRoot(info: XrefInformation)
    requires info.itemCount >= 0
    ensures 'R' !in "<< /" + SizePattern(info) + " /"
  {
    NoLetterInDigits(FormatNat(info.itemCount), 'R');
  }

  lemma NoSizeAfterSize(catalog: CatalogData)
    ensures 'S' !in " /" + NewRoot(catalog) + " >>"
  {
    NoLetterInDigits(FormatNat(catalog.objectId), 'S');
  }

  lemma Regroup(s: string, x: string)
    ensures ("<< /" + s + " /") + x + " >>" == "<< /" + s + (" /" + x + " >>")
  {
  }

  /** For a trailer dictionary holding just its size and root entries, the
      patch raises the size by two and points the root at the new catalog. */
  lemma PatchSimpleTrailer(info: XrefInformation, catalog: CatalogData)
    requires info.itemCount >= 0
    ensures Patch("<< /" + SizePattern(info) + " /" + RootPattern(catalog) + " >>", info, catalog)
            == "<< /" + NewSize(info) + " /" + NewRoot(catalog) + " >>"
  {
    NoRootBeforeRoot(info);
    ReplaceSingleByFirstByte("<< /" + SizePattern(info) + " /", RootPattern(catalog), " >>", NewRoot(catalog));
    NoSizeAfterSize(catalog);
    Regroup(SizePattern(info), NewRoot(catalog));
    ReplaceSingleByFirstByte("<< /", SizePattern(info), " /" + NewRoot(catalog) + " >>", NewSize(info));
    Regroup(NewSize(info), NewRoot(catalog));
  }

  /** The example's trailer, written with the patterns. */
  lemma ExampleBefore(info: XrefInformation, catalog: CatalogData)
    requires info.itemCount == 42 && catalog.rootString == "10 0 R"
    ensures "<< /Size 42 /Root 10 0 R >>" == "<< /" + SizePattern(info) + " /" + RootPattern(catalog) + " >>"
  {
    assert FormatNat(42) == "42";
  }

  /** The example's patched trailer, written with the replacements. */
  lemma ExampleAfter(info: XrefInformation, catalog: CatalogData)
    requires info.itemCount == 42 && catalog.objectId == 43
    ensures "<< /Size 44 /Root 43 0 R >>" == "<< /" + NewSize(info) + " /" + NewRoot(catalog) + " >>"
  {
    assert FormatNat(44) == "44";
    assert FormatNat(43) == "43";
  }

  /** A dictionary with 42 entries whose root is object 10 and whose new
      catalog is object 43 is patched to size 44 and root 43. */
  lemma PatchExample(span: string, info: XrefInformation, catalog: CatalogData)
    requires span == "<< /Size 42 /Root 10 0 R >>"
    requires info.itemCount == 42 && catalog.objectId == 43 && catalog.rootString == "10 0 R"
    ensures Patch(span, info, catalog) == "<< /Size 44 /Root 43 0 R >>"
  {
    ExampleBefore(info, catalog);
    ExampleAfter(info, catalog);
    PatchSimpleTrailer(info, catalog);
  }
}
