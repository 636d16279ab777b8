/** Rewriting the classic cross-reference table for the incremental update:
    a new header with the entry count raised by two, the old entries copied
    verbatim, then one entry for the new catalog object and one for the new
    signature object. */
module Xref {
  import opened Results
  import opened Output
  import opened Decimal
  import opened SignContext

  /** The table's header line as far as the entry count, as the writer
      spells it (the line's end belongs to the copied body). */
  function Header(count: int): string
  {
    "xref\n0 " + FormatInt(count)
  }

  /** The generation and in-use flag that end every entry written. */
  const EntryTail: string := " 00000 n\n"

  /** An entry for an object at `offset`, as the code writes it: ten-digit
      offset, generation 0, in use, and a one-byte end of line. */
  function EntryAsWritten(offset: int): string
  {
    OffsetField(offset) + EntryTail
  }

  /** Section 7.5.4 of ISO 32000-1: an entry is exactly 20 bytes, its end of
      line two bytes long (here a space and a line feed). */
  const StandardEntryTail: string := " 00000 n \n"

  function StandardEntry(offset: int): string
  {
    OffsetField(offset) + StandardEntryTail
  }

  /** The code's entry is 19 bytes, one short of the standard's 20, whatever
      offset below 10^10 it records. */
  lemma EntryAsWrittenLength(offset: int)
    requires 0 <= offset < Pow10(10)
    ensures |EntryAsWritten(offset)| == 19
    ensures |EntryAsWritten(offset)| != 20
  {
    OffsetFieldRoundTrip(offset);
  }

  /** The corrected entry is 20 bytes, ending in a two-byte end of line
      after the offset's ten digits. */
  lemma StandardEntryShape(offset: int)
    requires 0 <= offset < Pow10(10)
    ensures |StandardEntry(offset)| == 20
    ensures StandardEntry(offset)[10..] == " 00000 n \n"
  {
    OffsetFieldRoundTrip(offset);
  }

  /** The first ten bytes of a corrected entry read back as its offset. */
  lemma StandardEntryReadBack(offset: int)
    requires 0 <= offset < Pow10(10)
    ensures AllDigits(StandardEntry(offset)[..10]) && ParseNat(StandardEntry(offset)[..10]) == offset
  {
    OffsetFieldRoundTrip(offset);
    assert StandardEntry(offset)[..10] == OffsetField(offset);
  }

  /** The first ten bytes of a written entry read back as its offset, and
      the rest marks generation 0 and in use. */
  lemma EntryAsWrittenReadBack(offset: int)
    requires 0 <= offset < Pow10(10)
    ensures AllDigits(EntryAsWritten(offset)[..10]) && ParseNat(EntryAsWritten(offset)[..10]) == offset
    ensures EntryAsWritten(offset)[10..] == " 00000 n\n"
  {
    OffsetFieldRoundTrip(offset);
    assert EntryAsWritten(offset)[..10] == OffsetField(offset);
  }

  /** The old table, as the reader describes it, lies inside the input and
      is at least as long as its own header (the copying helper is specified
      only for such a span). */
  predicate TableInInput(info: XrefInformation, input: string)
  {
    && 0 <= info.startPos
    && |Header(info.itemCount)| <= info.length
    && info.startPos + info.length <= |input|
  }

  /** The old table after its header: the entries, copied verbatim. */
  function OldBody(info: XrefInformation, input: string): string
    requires TableInInput(info, input)
  {
    input[info.startPos + |Header(info.itemCount)|..info.startPos + info.length]
  }

  /** The four writes, in order, of a table whose entries end in `tail`. */
  function TableSegments(info: XrefInformation, catalog: CatalogData, input: string, tail: string): seq<string>
    requires TableInInput(info, input)
  {
    [ Header(info.itemCount + 2),
      OldBody(info, input),
      OffsetField(info.startPos) + tail,
      OffsetField(info.startPos + catalog.length) + tail ]
  }

  /** `writeXrefTable`. The writes are issued in the order header, old
      entries, catalog entry, signature entry; the first that fails ends the
      routine with its error and nothing after it is written. */
  function WriteXrefTable(info: XrefInformation, catalog: CatalogData, input: string, sink: Sink): (w: Written)
    requires TableInInput(info, input)
    ensures w.err == None <==> !sink.FailsAt(0) && !sink.FailsAt(1) && !sink.FailsAt(2) && !sink.FailsAt(3)
    ensures sink.FailsAt(0) ==>
              w == Written([], sink.fates[0])
    ensures !sink.FailsAt(0) && sink.FailsAt(1) ==>
              w == Written(Header(info.itemCount + 2), sink.fates[1])
    ensures !sink.FailsAt(0) && !sink.FailsAt(1) && sink.FailsAt(2) ==>
              w == Written(Header(info.itemCount + 2) + OldBody(info, input), sink.fates[2])
    ensures !sink.FailsAt(0) && !sink.FailsAt(1) && !sink.FailsAt(2) && sink.FailsAt(3) ==>
              w == Written(Header(info.itemCount + 2) + OldBody(info, input) + EntryAsWritten(info.startPos), sink.fates[3])
    ensures w.err == None ==>
              w.bytes == Header(info.itemCount + 2) + OldBody(info, input)
                         + EntryAsWritten(info.startPos) + EntryAsWritten(info.startPos + catalog.length)
  {
    var segments := TableSegments(info, catalog, input, EntryTail);
    Emit4(segments[0], segments[1], segments[2], segments[3], sink);
    assert segments == [segments[0], segments[1], segments[2], segments[3]];
    Emit(segments, sink)
  }

  /** The same table with entries of the standard's 20 bytes. */
  function WriteXrefTableStandard(info: XrefInformation, catalog: CatalogData, input: string, sink: Sink): (w: Written)
    requires TableInInput(info, input)
    ensures w.err == None <==> !sink.FailsAt(0) && !sink.FailsAt(1) && !sink.FailsAt(2) && !sink.FailsAt(3)
    ensures w.err == None ==>
              w.bytes == Header(info.itemCount + 2) + OldBody(info, input)
                         + StandardEntry(info.startPos) + StandardEntry(info.startPos + catalog.length)
  {
    var segments := TableSegments(info, catalog, input, StandardEntryTail);
    Emit4(segments[0], segments[1], segments[2], segments[3], sink);
    assert segments == [segments[0], segments[1], segments[2], segments[3]];
    Emit(segments, sink)
  }

  /** `writeXref`: only a classic table is rewritten; any other kind is
      refused before anything is written. */
  function WriteXref(info: XrefInformation, catalog: CatalogData, input: string, sink: Sink): (w: Written)
    requires info.kind == "table" ==> TableInInput(info, input)
    ensures info.kind != "table" ==> w == Written([], Some(Error("Unkwn xref type: " + info.kind)))
    ensures info.kind == "table" ==> w == WriteXrefTable(info, catalog, input, sink)
  {
    if info.kind == "table" then
      WriteXrefTable(info, catalog, input, sink)
    else
      Written([], Some(Error("Unkwn xref type: " + info.kind)))
  }

  /** The same dispatch onto the table writer with the standard's 20-byte
      entries. */
  function WriteXrefStandard(info: XrefInformation, catalog: CatalogData, input: string, sink: Sink): (w: Written)
    requires info.kind == "table" ==> TableInInput(info, input)
    ensures info.kind != "table" ==> w == Written([], Some(Error("Unkwn xref type: " + info.kind)))
    ensures info.kind == "table" ==> w == WriteXrefTableStandard(info, catalog, input, sink)
  {
    if info.kind == "table" then
      WriteXrefTableStandard(info, catalog, input, sink)
    else
      Written([], Some(Error("Unkwn xref type: " + info.kind)))
  }

  /** The header line grows by one byte exactly when the count plus two
      needs one more digit than the count, and never by more. */
  lemma HeaderGrowth(count: nat)
    ensures |Header(count + 2)| == |Header(count)| || |Header(count + 2)| == |Header(count)| + 1
    ensures |Header(count + 2)| == |Header(count)| + 1 <==> count + 2 >= Pow10(|FormatNat(count)|)
  {
    FormatPlusTwoLength(count);
  }

  /** A table written in full is the new header, the old body and two
      19-byte entries: 38 bytes more than the old table after its header. */
  lemma WrittenTableLength(info: XrefInformation, catalog: CatalogData, input: string, sink: Sink)
    requires TableInInput(info, input)
    requires 0 <= info.startPos < Pow10(10) && 0 <= info.startPos + catalog.length < Pow10(10)
    requires WriteXrefTable(info, catalog, input, sink).err == None
    ensures |WriteXrefTable(info, catalog, input, sink).bytes|
            == |Header(info.itemCount + 2)| + (info.length - |Header(info.itemCount)|) + 38
  {
    EntryAsWrittenLength(info.startPos);
    EntryAsWrittenLength(info.startPos + catalog.length);
  }

  /** With the standard's entries, a table written in full is 40 bytes longer
      than the old table after its header, two entries of 20 bytes each. */
  lemma StandardTableLength(info: XrefInformation, catalog: CatalogData, input: string, sink: Sink)
    requires TableInInput(info, input)
    requires 0 <= info.startPos < Pow10(10) && 0 <= info.startPos + catalog.length < Pow10(10)
    requires WriteXrefTableStandard(info, catalog, input, sink).err == None
    ensures |WriteXrefTableStandard(info, catalog, input, sink).bytes|
            == |Header(info.itemCount + 2)| + (info.length - |Header(info.itemCount)|) + 40
  {
    StandardEntryShape(info.startPos);
    StandardEntryShape(info.startPos + catalog.length);
  }

  /** The length of the leading run of digits. */
  function DigitRun(s: string): (k: nat)
    ensures k <= |s| && AllDigits(s[..k])
    ensures k < |s| ==> !IsDigit(s[k])
  {
    if |s| == 0 || !IsDigit(s[0]) then 0
    else
      var k := 1 + DigitRun(s[1..]);
      assert s[..k] == [s[0]] + s[1..][..k - 1];
      k
  }

  /** What a reader of a rewritten table checks: the header's count (the
      digits after "xref\n0 "), the entries before the last two kept as
      `body`, and the offsets recorded by the last two 19-byte entries. */
  predicate TableReadsAs(out: string, count: nat, body: string, catalogOffset: int, signatureOffset: int)
  {
    && |out| >= 45
    && out[..7] == "xref\n0 "
    && CountThenBody(out[7..|out| - 38], count, body)
    && AllDigits(out[|out| - 38..|out| - 28]) && ParseNat(out[|out| - 38..|out| - 28]) == catalogOffset
    && AllDigits(out[|out| - 19..|out| - 9]) && ParseNat(out[|out| - 19..|out| - 9]) == signatureOffset
  }

  /** A run of digits that reads as `count`, then `body`. */
  predicate CountThenBody(s: string, count: nat, body: string)
  {
    var run := DigitRun(s);
    ParseNat(s[..run]) == count && s[run..] == body
  }

  /** A table written in full reads back with the old count plus two, the old
      entries unchanged, and, last, the catalog's offset and the signature's
      offset (the catalog's plus the catalog's length). */
  lemma WrittenTableReadBack(info: XrefInformation, catalog: CatalogData, input: string, sink: Sink)
    requires TableInInput(info, input)
    requires info.itemCount >= 0
    requires 0 <= info.startPos < Pow10(10) && 0 <= info.startPos + catalog.length < Pow10(10)
    requires |OldBody(info, input)| > 0 && !IsDigit(OldBody(info, input)[0])
    requires WriteXrefTable(info, catalog, input, sink).err == None
    ensures TableReadsAs(WriteXrefTable(info, catalog, input, sink).bytes, info.itemCount + 2,
                         OldBody(info, input), info.startPos, info.startPos + catalog.length)
  {
    var out := WriteXrefTable(info, catalog, input, sink).bytes;
    assert out == "xref\n0 " + FormatNat(info.itemCount + 2) + OldBody(info, input)
                  + EntryAsWritten(info.startPos) + EntryAsWritten(info.startPos + catalog.length);
    LaidOutTableReadsAs(info.itemCount + 2, OldBody(info, input), info.startPos, info.startPos + catalog.length);
  }

  /** The reader's view of header, body and two entries laid end to end. */
  lemma LaidOutTableReadsAs(count: nat, body: string, catalogOffset: int, signatureOffset: int)
    requires 0 <= catalogOffset < Pow10(10) && 0 <= signatureOffset < Pow10(10)
    requires |body| > 0 && !IsDigit(body[0])
    ensures TableReadsAs("xref\n0 " + FormatNat(count) + body + EntryAsWritten(catalogOffset) + EntryAsWritten(signatureOffset),
                         count, body, catalogOffset, signatureOffset)
  {
    var digits := FormatNat(count);
    var e1, e2 := EntryAsWritten(catalogOffset), EntryAsWritten(signatureOffset);
    EntryAsWrittenLength(catalogOffset);
    EntryAsWrittenLength(signatureOffset);
    CountThenBodyOf(count, body);
    EntryAsWrittenReadBack(catalogOffset);
    EntryAsWrittenReadBack(signatureOffset);
    PartsReadAs("xref\n0 ", digits, body, e1, e2, count, catalogOffset, signatureOffset);
  }

  /** The reader's view of any header, count, body and two entries whose
      offset fields read as the two offsets. */
  lemma PartsReadAs(p: string, digits: string, body: string, e1: string, e2: string,
                    count: nat, catalogOffset: int, signatureOffset: int)
    requires |p| == 7 && |e1| == 19 && |e2| == 19 && |body| > 0
    requires CountThenBody(digits + body, count, body)
    requires AllDigits(e1[..10]) && ParseNat(e1[..10]) == catalogOffset
    requires AllDigits(e2[..10]) && ParseNat(e2[..10]) == signatureOffset
    ensures var out := p + digits + body + e1 + e2;
      && |out| >= 45
      && out[..7] == p
      && CountThenBody(out[7..|out| - 38], count, body)
      && AllDigits(out[|out| - 38..|out| - 28]) && ParseNat(out[|out| - 38..|out| - 28]) == catalogOffset
      && AllDigits(out[|out| - 19..|out| - 9]) && ParseNat(out[|out| - 19..|out| - 9]) == signatureOffset
  {
    FiveParts(p, digits, body, e1, e2);
  }

  lemma CountThenBodyOf(count: nat, body: string)
    requires |body| > 0 && !IsDigit(body[0])
    ensures CountThenBody(FormatNat(count) + body, count, body)
  {
    var digits := FormatNat(count);
    DigitRunOf(digits, body);
    assert (digits + body)[..|digits|] == digits && (digits + body)[|digits|..] == body;
    ParseFormat(count);
  }

  /** Where the parts of header, count, body and two entries sit. */
  lemma FiveParts(p: string, count: string, body: string, e1: string, e2: string)
    requires |p| == 7 && |e1| == 19 && |e2| == 19
    ensures var out := p + count + body + e1 + e2;
            && out[..7] == p
            && out[7..|out| - 38] == count + body
            && out[|out| - 38..|out| - 28] == e1[..10]
            && out[|out| - 19..|out| - 9] == e2[..10]
  {
  }

  lemma DigitRunOf(digits: string, rest: string)
    requires AllDigits(digits) && |rest| > 0 && !IsDigit(rest[0])
    ensures DigitRun(digits + rest) == |digits|
  {
    var s := digits + rest;
    var k := DigitRun(s);
    assert s[|digits|] == rest[0];
  }
}
