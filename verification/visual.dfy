/** The widget annotation that carries a signature field, and, when the
    signature is visible, the two objects that draw it: an image XObject
    holding the JPEG data and a Form XObject that paints that image over its
    bounding box. The reader, the object allocator, the JPEG encoder and the
    clock are abstract inputs. */
module VisualSignature {
  import opened Results
  import opened Decimal
  import opened Lines
  import opened Flags
  import Pdf = PdfNames

  /** An indirect object reference. */
  datatype ObjRef = ObjRef(id: nat, gen: nat)

  /** A number as the writer prints it; digits never break a line. */
  function IntText(n: int): (t: Inline)
    ensures t == FormatInt(n)
  {
    NumberIsInline(n);
    FormatInt(n)
  }

  function NatText(n: nat): (t: Inline)
    ensures t == FormatNat(n)
  {
    NumberIsInline(n);
    FormatNat(n)
  }

  lemma NumberIsInline(n: int)
    ensures IsLine(FormatInt(n))
    ensures n >= 0 ==> IsLine(FormatNat(n))
  {
    var s := FormatNat(if n < 0 then -n else n);
    assert forall i :: 0 <= i < |s| ==> IsDigit(s[i]);
  }

  /** `"<id> <gen> R"`. */
  function RefText(r: ObjRef): Inline
  {
    NatText(r.id) + " " + NatText(r.gen) + " R"
  }

  /** What the signer learns from the parsed document: the keys of the
      catalog (the trailer's /Root), the catalog's own reference, and what
      looking up a page by its 1-based number yields. */
  datatype Reader = Reader(rootKeys: seq<string>, root: ObjRef, findPage: nat -> Result<ObjRef>)

  /** The signature image: its pixel size and the outcome of encoding it as
      JPEG at full quality. */
  datatype Image = Image(width: int, height: int, jpeg: Result<string>)

  /** The four coordinates of /Rect, each already formatted as a decimal
      (which never holds a line break). */
  datatype Rect = Rect(llx: Inline, lly: Inline, urx: Inline, ury: Inline)

  /** The inputs of one signing pass that the builder only reads. */
  datatype Context = Context(
    reader: Reader,
    image: Image,
    token: int,              // the per-call resource key, taken from the clock
    existingSignatures: nat, // signatures already present in the document
    signatureId: nat         // the object number of the signature dictionary
  )

  /** The body of an object handed to the allocator: lines of text, or a
      stream dictionary followed by the stream's raw bytes. */
  datatype Content = Written(lines: seq<Line>) | WithStream(dict: seq<Line>, data: string)

  /** The bytes of an object body. */
  function Bytes(c: Content): string
  {
    match c
    case Written(ls) => Write(ls)
    case WithStream(d, data) => Write(d) + "stream\n" + data + "\nendstream\n"
  }

  /** An object the allocator has appended to the output. */
  datatype NewObject = NewObject(id: nat, content: Content)

  /** The parts of the signing state the builder reads and updates. The
      allocator hands out `nextId`; `appendFates[k]` is the outcome of the
      k-th write it will attempt. */
  datatype State = State(
    nextId: nat,
    appended: seq<NewObject>,
    appendFates: seq<Option<Error>>,
    rootString: string,
    pageObjectId: nat
  )

  /** The state after an operation together with its outcome. */
  datatype Step<+T> = Step(state: State, result: Result<T>)

  /** Whether the k-th pending append fails. */
  predicate AppendFails(st: State, k: nat)
  {
    k < |st.appendFates| && st.appendFates[k].Some?
  }

  /** The allocator: the object gets the next free number and is appended
      after everything appended before, unless the write fails, in which
      case nothing is appended and the failure is returned as is. */
  function AddObject(st: State, content: Content): (s: Step<nat>)
    ensures s.result.Success? <==> !AppendFails(st, 0)
    ensures s.result.Success? ==> s.result.value == st.nextId && s.state.nextId == st.nextId + 1
    ensures s.result.Success? ==> s.state.appended == st.appended + [NewObject(st.nextId, content)]
    ensures s.result.Failure? ==> s.state.appended == st.appended && s.result.error == st.appendFates[0].value
    ensures s.state.appendFates == if |st.appendFates| == 0 then [] else st.appendFates[1..]
    ensures s.state.rootString == st.rootString && s.state.pageObjectId == st.pageObjectId
  {
    var rest := if |st.appendFates| == 0 then [] else st.appendFates[1..];
    if AppendFails(st, 0) then
      Step(st.(appendFates := rest), Failure(st.appendFates[0].value))
    else
      var st' := st.(nextId := st.nextId + 1,
                     appended := st.appended + [NewObject(st.nextId, content)],
                     appendFates := rest);
      Step(st', Success(st.nextId))
  }

  // ----- The appearance -------------------------------------------------------------

  /** The resource name under which the Form XObject knows the image. */
  function ImName(token: int): Inline
  {
    "/Im" + IntText(token)
  }

  function ImageDict(width: int, height: int, length: nat): seq<Line>
  {
    [ Text(Pdf.Open),
      Pair(Pdf.Type, Pdf.XObject),
      Pair(Pdf.Subtype, Pdf.Image),
      Pair(Pdf.Width, IntText(width)),
      Pair(Pdf.Height, IntText(height)),
      Pair(Pdf.ColorSpace, Pdf.DeviceRGB),
      Pair(Pdf.BitsPerComponent, Pdf.Eight),
      Pair(Pdf.Filter, Pdf.DCTDecode),
      Pair(Pdf.Length, NatText(length)),
      Text(Pdf.Close) ]
  }

  /** The image XObject: its dictionary, then the JPEG bytes as its stream. */
  function ImageObject(width: int, height: int, data: string): Content
  {
    WithStream(ImageDict(width, height, |data|), data)
  }

  /** The value of the form's /Resources entry. It is written without a line
      break before `/FormType 1`, which therefore ends up on the same line. */
  function FormResources(token: int, imageId: nat): Inline
  {
    XObjectResources(token, imageId) + "  /FormType 1"
  }

  /** The resource dictionary itself: one XObject, the image, under its name. */
  function XObjectResources(token: int, imageId: nat): Inline
  {
    "<< /XObject << " + ImName(token) + " " + NatText(imageId) + " 0 R >> >>"
  }

  /** The content stream: scale the unit square to the box and paint the image. */
  function FormContent(width: int, height: int, token: int): seq<Line>
  {
    [ Text(Pdf.Stream),
      Text("q " + IntText(width) + " 0 0 " + IntText(height) + " 0 0 cm"),
      Text(ImName(token) + " Do"),
      Text(Pdf.Restore),
      Text(Pdf.EndStream) ]
  }

  /** The Form XObject. */
  function FormLines(width: int, height: int, token: int, imageId: nat): seq<Line>
  {
    [ Text(Pdf.Open),
      Pair(Pdf.Type, Pdf.XObject),
      Pair(Pdf.Subtype, Pdf.Form),
      Pair(Pdf.BBox, "[0 0 " + IntText(width) + " " + IntText(height) + "]"),
      Pair(Pdf.Resources, FormResources(token, imageId)),
      Text(Pdf.Close) ]
    + FormContent(width, height, token)
  }

  /** Whether both objects of a visible signature get appended: the image
      encodes and neither of the next two writes fails. */
  predicate AppearanceAllocates(image: Image, st: State)
  {
    image.jpeg.Success? && !AppendFails(st, 0) && !AppendFails(st, 1)
  }

  /** `createAppearanceWithImage`: encode the image, append the image
      XObject, and return the Form XObject that draws it (not yet appended). */
  function CreateAppearance(image: Image, token: int, st: State): (s: Step<seq<Line>>)
    ensures image.jpeg.Failure? ==> s == Step(st, Failure(image.jpeg.error))
    ensures s.result.Success? <==> image.jpeg.Success? && !AppendFails(st, 0)
    ensures image.jpeg.Success? && AppendFails(st, 0) ==> s.result == Failure(st.appendFates[0].value)
    ensures s.result.Failure? ==> s.state.appended == st.appended
    ensures s.result.Success? ==>
      s.state.appended == st.appended + [NewObject(st.nextId, ImageObject(image.width, image.height, image.jpeg.value))]
      && s.state.nextId == st.nextId + 1
      && s.result.value == FormLines(image.width, image.height, token, st.nextId)
    ensures s.state.rootString == st.rootString && s.state.pageObjectId == st.pageObjectId
  {
    match image.jpeg
    case Failure(e) => Step(st, Failure(e))
    case Success(data) =>
      var add := AddObject(st, ImageObject(image.width, image.height, data));
      if add.result.Failure? then Step(add.state, Failure(add.result.error))
      else Step(add.state, Success(FormLines(image.width, image.height, token, add.result.value)))
  }

  // ----- The annotation -------------------------------------------------------------

  /** A literal string, for text that holds no parenthesis or backslash. */
  function PdfString(s: Inline): Inline
  {
    "(" + s + ")"
  }

  function HeadLines(): seq<Line>
  {
    [Text(Pdf.Open), Pair(Pdf.Type, Pdf.Annot), Pair(Pdf.Subtype, Pdf.Widget)]
  }

  function RectValue(r: Rect): Inline
  {
    "[" + r.llx + " " + r.lly + " " + r.urx + " " + r.ury + "]"
  }

  /** The value of /AP: the normal appearance is the form object. */
  function ApValue(formId: nat): Inline
  {
    "<< /N " + NatText(formId) + " 0 R >>"
  }

  /** The entries that depend on visibility: the rectangle, and for a
      visible signature the appearance stream that draws it. */
  function MiddleLines(visible: bool, rect: Rect, formId: nat): seq<Line>
  {
    if visible then [Pair(Pdf.Rect, RectValue(rect)), Pair(Pdf.AP, ApValue(formId))]
    else [Pair(Pdf.Rect, Pdf.EmptyRect)]
  }

  /** The field title: numbered after the signatures already present. */
  function Title(existingSignatures: nat): Inline
  {
    PdfString("Signature " + NatText(existingSignatures + 1))
  }

  function FixedLines(ctx: Context): seq<Line>
  {
    [ Pair(Pdf.F, NatText(AnnotationFlags())),
      Pair(Pdf.FT, Pdf.Sig),
      Pair(Pdf.T, Title(ctx.existingSignatures)),
      Pair(Pdf.V, NatText(ctx.signatureId) + " 0 R") ]
  }

  function DictLines(ctx: Context, middle: seq<Line>, page: seq<Line>): seq<Line>
  {
    HeadLines() + middle + page + FixedLines(ctx) + [Text(Pdf.Close)]
  }

  /** Record the catalog reference, add /P when the catalog has /Pages, and
      close the dictionary. */
  function Finish(ctx: Context, st: State, pageNumber: nat, middle: seq<Line>): (s: Step<seq<Line>>)
    ensures s.state.appended == st.appended && s.state.nextId == st.nextId
    ensures s.state.rootString == RefText(ctx.reader.root)
  {
    var st1 := st.(rootString := RefText(ctx.reader.root));
    if "Pages" in ctx.reader.rootKeys then
      match ctx.reader.findPage(pageNumber)
      case Failure(e) => Step(st1, Failure(e))
      case Success(p) =>
        Step(st1.(pageObjectId := p.id), Success(DictLines(ctx, middle, [Pair(Pdf.P, RefText(p))])))
    else
      Step(st1, Success(DictLines(ctx, middle, [])))
  }

  /** `createVisualSignatureWithImage`: the lines of the annotation
      dictionary, whose bytes are `Write` of them. */
  function CreateVisualSignature(ctx: Context, st: State, visible: bool, pageNumber: nat, rect: Rect): (s: Step<seq<Line>>)
    ensures |st.appended| <= |s.state.appended| && s.state.appended[..|st.appended|] == st.appended
  {
    if visible then
      var app := CreateAppearance(ctx.image, ctx.token, st);
      if app.result.Failure? then
        Step(app.state, Failure(Wrap("failed to create appearance: ", app.result.error)))
      else
        var add := AddObject(app.state, Written(app.result.value));
        if add.result.Failure? then
          Step(add.state, Failure(Wrap("failed to add appearance object: ", add.result.error)))
        else
          Finish(ctx, add.state, pageNumber, MiddleLines(true, rect, add.result.value))
    else
      Finish(ctx, st, pageNumber, MiddleLines(false, rect, 0))
  }

  // ----- Helpers for reading the objects back ----------------------------------------

  /** The /P entry the annotation gets, if any. */
  function PageLines(reader: Reader, pageNumber: nat): seq<Line>
  {
    if "Pages" in reader.rootKeys && reader.findPage(pageNumber).Success? then
      [Pair(Pdf.P, RefText(reader.findPage(pageNumber).value))]
    else []
  }

  /** The lines of the annotation, given the number its appearance form
      gets when it is visible. */
  function AnnotationLines(ctx: Context, visible: bool, pageNumber: nat, rect: Rect, formId: nat): seq<Line>
  {
    DictLines(ctx, MiddleLines(visible, rect, formId), PageLines(ctx.reader, pageNumber))
  }

  /** A successful build writes the annotation's lines; a visible one drew
      the image and the form first, so the form got the number after the
      image's. */
  lemma SuccessShape(ctx: Context, st: State, visible: bool, pageNumber: nat, rect: Rect)
    ensures var s := CreateVisualSignature(ctx, st, visible, pageNumber, rect);
      s.result.Success? ==>
        (visible ==> AppearanceAllocates(ctx.image, st))
        && ("Pages" in ctx.reader.rootKeys ==> ctx.reader.findPage(pageNumber).Success?)
        && s.result.value == AnnotationLines(ctx, visible, pageNumber, rect, st.nextId + 1)
        && s.state.pageObjectId
           == if "Pages" in ctx.reader.rootKeys then ctx.reader.findPage(pageNumber).value.id else st.pageObjectId
  {
  }

  // ----- Reading the annotation's lines -----------------------------------------------

  lemma FramingOf(ctx: Context, visible: bool, pageNumber: nat, rect: Rect, formId: nat)
    ensures var ls := SplitLines(Write(AnnotationLines(ctx, visible, pageNumber, rect, formId)));
      |ls| >= 4 && ls[0] == "<<" && ls[|ls| - 1] == ">>"
      && Lookup(ls, "Type") == Some("/Annot")
      && Lookup(ls, "Subtype") == Some("/Widget")
  {
    var d := AnnotationLines(ctx, visible, pageNumber, rect, formId);
    ReadBack(d, Pdf.Type);
    Entry(d, Pdf.Type, 1);
    Entry(d, Pdf.Subtype, 2);
  }

  /** The annotation's bytes start with the head lines and end with the
      closing line, each with its line feed. */
  lemma BytesFramedOf(ctx: Context, visible: bool, pageNumber: nat, rect: Rect, formId: nat)
    ensures var w := Write(AnnotationLines(ctx, visible, pageNumber, rect, formId));
      "<<\n" + "  /Type /Annot\n" + "  /Subtype /Widget\n" <= w && |w| >= 3 && w[|w| - 3..] == ">>\n"
  {
    var m := MiddleLines(visible, rect, formId);
    var p := PageLines(ctx.reader, pageNumber);
    var body := m + p + FixedLines(ctx);
    assert AnnotationLines(ctx, visible, pageNumber, rect, formId) == HeadLines() + body + [Text(Pdf.Close)];
    Framed(HeadLines(), body, [Text(Pdf.Close)]);
    HeadBytes();
    WriteOne(Text(Pdf.Close));
  }

  /** The head lines' bytes, as the first three writes spell them. */
  lemma HeadBytes()
    ensures Write(HeadLines()) == "<<\n" + "  /Type /Annot\n" + "  /Subtype /Widget\n"
  {
    var a, b, c := Text(Pdf.Open), Pair(Pdf.Type, Pdf.Annot), Pair(Pdf.Subtype, Pdf.Widget);
    WriteThree(a, b, c);
    OpenLine();
    TypeLine();
    SubtypeLine();
  }

  lemma OpenLine()
    ensures Render(Text(Pdf.Open)) + "\n" == "<<\n"
  {
  }

  lemma TypeLine()
    ensures Render(Pair(Pdf.Type, Pdf.Annot)) + "\n" == "  /Type /Annot\n"
  {
  }

  lemma SubtypeLine()
    ensures Render(Pair(Pdf.Subtype, Pdf.Widget)) + "\n" == "  /Subtype /Widget\n"
  {
  }

  lemma RectOf(ctx: Context, visible: bool, pageNumber: nat, rect: Rect, formId: nat)
    ensures var ls := SplitLines(Write(AnnotationLines(ctx, visible, pageNumber, rect, formId)));
      Lookup(ls, "Rect") == Some(if visible then RectValue(rect) else "[0 0 0 0]")
  {
    Entry(AnnotationLines(ctx, visible, pageNumber, rect, formId), Pdf.Rect, 3);
  }

  lemma ApOf(ctx: Context, visible: bool, pageNumber: nat, rect: Rect, formId: nat)
    ensures var ls := SplitLines(Write(AnnotationLines(ctx, visible, pageNumber, rect, formId)));
      Lookup(ls, "AP") == if visible then Some(ApValue(formId)) else None
  {
    var d := AnnotationLines(ctx, visible, pageNumber, rect, formId);
    if visible {
      Entry(d, Pdf.AP, 4);
    } else {
      NoEntry(d, Pdf.AP);
    }
  }

  lemma PageOf(ctx: Context, visible: bool, pageNumber: nat, rect: Rect, formId: nat)
    ensures var ls := SplitLines(Write(AnnotationLines(ctx, visible, pageNumber, rect, formId)));
      var page := ctx.reader.findPage(pageNumber);
      Lookup(ls, "P") == if "Pages" in ctx.reader.rootKeys && page.Success? then Some(RefText(page.value)) else None
  {
    var d := AnnotationLines(ctx, visible, pageNumber, rect, formId);
    var m := MiddleLines(visible, rect, formId);
    if |PageLines(ctx.reader, pageNumber)| > 0 {
      Entry(d, Pdf.P, 3 + |m|);
    } else {
      NoEntry(d, Pdf.P);
    }
  }

  /** The k-th fixed entry reads back as written. */
  lemma FixedOf(ctx: Context, visible: bool, pageNumber: nat, rect: Rect, formId: nat, k: nat)
    requires k < 4
    ensures var ls := SplitLines(Write(AnnotationLines(ctx, visible, pageNumber, rect, formId)));
      Lookup(ls, FixedLines(ctx)[k].name) == Some(FixedLines(ctx)[k].value)
  {
    var m := MiddleLines(visible, rect, formId);
    var p := PageLines(ctx.reader, pageNumber);
    var d := AnnotationLines(ctx, visible, pageNumber, rect, formId);
    assert d[3 + |m| + |p| + k] == FixedLines(ctx)[k];
    Entry(d, FixedLines(ctx)[k].name, 3 + |m| + |p| + k);
  }

  lemma FlagsText()
    ensures FormatNat(AnnotationFlags()) == "132"
  {
    assert FormatNat(13) == FormatNat(1) + [DigitChar(3)];
  }

  lemma TitleText(existingSignatures: nat)
    ensures Title(existingSignatures) == "(Signature " + FormatNat(existingSignatures + 1) + ")"
  {
    var n := FormatNat(existingSignatures + 1);
    assert "(" + ("Signature " + n) == "(Signature " + n;
  }

  lemma FieldEntriesOf(ctx: Context, visible: bool, pageNumber: nat, rect: Rect, formId: nat)
    ensures var ls := SplitLines(Write(AnnotationLines(ctx, visible, pageNumber, rect, formId)));
      Lookup(ls, "F") == Some("132") && Lookup(ls, "FT") == Some("/Sig")
  {
    FixedOf(ctx, visible, pageNumber, rect, formId, 0);
    FixedOf(ctx, visible, pageNumber, rect, formId, 1);
    FlagsText();
  }

  lemma ValueEntriesOf(ctx: Context, visible: bool, pageNumber: nat, rect: Rect, formId: nat)
    ensures var ls := SplitLines(Write(AnnotationLines(ctx, visible, pageNumber, rect, formId)));
      Lookup(ls, "T") == Some("(Signature " + FormatNat(ctx.existingSignatures + 1) + ")")
      && Lookup(ls, "V") == Some(FormatNat(ctx.signatureId) + " 0 R")
  {
    FixedOf(ctx, visible, pageNumber, rect, formId, 2);
    FixedOf(ctx, visible, pageNumber, rect, formId, 3);
    TitleText(ctx.existingSignatures);
  }

  // ----- What a reader finds in the annotation ---------------------------------------

  /** The annotation's bytes open the dictionary and declare a widget
      annotation on its first three lines, and close the dictionary on its
      last line; a reader finds the type and subtype entries there. */
  lemma AnnotationFraming(ctx: Context, st: State, visible: bool, pageNumber: nat, rect: Rect)
    ensures var s := CreateVisualSignature(ctx, st, visible, pageNumber, rect);
      s.result.Success? ==>
        var w := Write(s.result.value);
        var ls := SplitLines(w);
        "<<\n" + "  /Type /Annot\n" + "  /Subtype /Widget\n" <= w && |w| >= 3 && w[|w| - 3..] == ">>\n"
        && |ls| >= 4 && ls[0] == "<<" && ls[|ls| - 1] == ">>"
        && Lookup(ls, "Type") == Some("/Annot")
        && Lookup(ls, "Subtype") == Some("/Widget")
  {
    AnnotationLinesFramed(ctx, st, visible, pageNumber, rect);
    AnnotationBytesFramed(ctx, st, visible, pageNumber, rect);
  }

  lemma AnnotationLinesFramed(ctx: Context, st: State, visible: bool, pageNumber: nat, rect: Rect)
    ensures var s := CreateVisualSignature(ctx, st, visible, pageNumber, rect);
      s.result.Success? ==>
        var ls := SplitLines(Write(s.result.value));
        |ls| >= 4 && ls[0] == "<<" && ls[|ls| - 1] == ">>"
        && Lookup(ls, "Type") == Some("/Annot")
        && Lookup(ls, "Subtype") == Some("/Widget")
  {
    SuccessShape(ctx, st, visible, pageNumber, rect);
    FramingOf(ctx, visible, pageNumber, rect, st.nextId + 1);
  }

  lemma AnnotationBytesFramed(ctx: Context, st: State, visible: bool, pageNumber: nat, rect: Rect)
    ensures var s := CreateVisualSignature(ctx, st, visible, pageNumber, rect);
      s.result.Success? ==>
        var w := Write(s.result.value);
        "<<\n" + "  /Type /Annot\n" + "  /Subtype /Widget\n" <= w && |w| >= 3 && w[|w| - 3..] == ">>\n"
  {
    SuccessShape(ctx, st, visible, pageNumber, rect);
    BytesFramedOf(ctx, visible, pageNumber, rect, st.nextId + 1);
  }

  /** An invisible signature has an empty rectangle, no appearance, and
      allocates nothing. */
  lemma HiddenAnnotation(ctx: Context, st: State, pageNumber: nat, rect: Rect)
    ensures var s := CreateVisualSignature(ctx, st, false, pageNumber, rect);
      s.state.appended == st.appended && s.state.nextId == st.nextId && s.state.appendFates == st.appendFates
      && (s.result.Success? ==>
            Lookup(SplitLines(Write(s.result.value)), "Rect") == Some("[0 0 0 0]")
            && Lookup(SplitLines(Write(s.result.value)), "AP") == None)
  {
    SuccessShape(ctx, st, false, pageNumber, rect);
    RectOf(ctx, false, pageNumber, rect, st.nextId + 1);
    ApOf(ctx, false, pageNumber, rect, st.nextId + 1);
  }

  /** A visible signature appends exactly two objects, the image and then
      the form that draws it. */
  lemma VisibleObjects(ctx: Context, st: State, pageNumber: nat, rect: Rect)
    ensures var s := CreateVisualSignature(ctx, st, true, pageNumber, rect);
      var img := ctx.image;
      s.result.Success? ==>
        img.jpeg.Success?
        && s.state.appended
           == st.appended + [NewObject(st.nextId, ImageObject(img.width, img.height, img.jpeg.value)),
                             NewObject(st.nextId + 1, Written(FormLines(img.width, img.height, ctx.token, st.nextId)))]
        && s.state.nextId == st.nextId + 2
  {
  }

  /** A visible signature's /Rect is the given rectangle and its /AP names
      the form object, the second object it appended. */
  lemma VisibleAnnotation(ctx: Context, st: State, pageNumber: nat, rect: Rect)
    ensures var s := CreateVisualSignature(ctx, st, true, pageNumber, rect);
      s.result.Success? ==>
        Lookup(SplitLines(Write(s.result.value)), "Rect") == Some(RectValue(rect))
        && Lookup(SplitLines(Write(s.result.value)), "AP") == Some("<< /N " + FormatNat(st.nextId + 1) + " 0 R >>")
  {
    SuccessShape(ctx, st, true, pageNumber, rect);
    RectOf(ctx, true, pageNumber, rect, st.nextId + 1);
    ApOf(ctx, true, pageNumber, rect, st.nextId + 1);
  }

  /** /P is written exactly when the catalog has /Pages, and then names the
      page that was looked up, whose number is kept for the xref pass. */
  lemma PageEntry(ctx: Context, st: State, visible: bool, pageNumber: nat, rect: Rect)
    ensures var s := CreateVisualSignature(ctx, st, visible, pageNumber, rect);
      var page := ctx.reader.findPage(pageNumber);
      var hasPages := "Pages" in ctx.reader.rootKeys;
      s.result.Success? ==>
        (Lookup(SplitLines(Write(s.result.value)), "P").Some? <==> hasPages)
        && (hasPages ==> page.Success?
                         && Lookup(SplitLines(Write(s.result.value)), "P") == Some(RefText(page.value))
                         && s.state.pageObjectId == page.value.id)
        && (!hasPages ==> s.state.pageObjectId == st.pageObjectId)
  {
    SuccessShape(ctx, st, visible, pageNumber, rect);
    PageOf(ctx, visible, pageNumber, rect, st.nextId + 1);
  }

  /** The fixed entries: the flags, the field type, the field's title
      numbered after the signatures already present, and the signature
      dictionary it holds. */
  lemma FixedEntries(ctx: Context, st: State, visible: bool, pageNumber: nat, rect: Rect)
    ensures var s := CreateVisualSignature(ctx, st, visible, pageNumber, rect);
      s.result.Success? ==>
        var ls := SplitLines(Write(s.result.value));
        Lookup(ls, "F") == Some("132")
        && Lookup(ls, "FT") == Some("/Sig")
        && Lookup(ls, "T") == Some("(Signature " + FormatNat(ctx.existingSignatures + 1) + ")")
        && Lookup(ls, "V") == Some(FormatNat(ctx.signatureId) + " 0 R")
  {
    SuccessShape(ctx, st, visible, pageNumber, rect);
    FieldEntriesOf(ctx, visible, pageNumber, rect, st.nextId + 1);
    ValueEntriesOf(ctx, visible, pageNumber, rect, st.nextId + 1);
  }

  /** Which failures end the build, and with which error: a failed appearance
      is wrapped with what failed, a failed page lookup is returned as is, and
      no dictionary is returned in either case. */
  lemma FailureCases(ctx: Context, st: State, visible: bool, pageNumber: nat, rect: Rect)
    ensures var s := CreateVisualSignature(ctx, st, visible, pageNumber, rect);
      var page := ctx.reader.findPage(pageNumber);
      var img := ctx.image;
      (s.result.Failure? <==>
         (visible && !AppearanceAllocates(img, st)) || ("Pages" in ctx.reader.rootKeys && page.Failure?))
      && (visible && img.jpeg.Failure? ==>
            s.result == Failure(Wrap("failed to create appearance: ", img.jpeg.error)))
      && (visible && img.jpeg.Success? && AppendFails(st, 0) ==>
            s.result == Failure(Wrap("failed to create appearance: ", st.appendFates[0].value)))
      && (visible && img.jpeg.Success? && !AppendFails(st, 0) && AppendFails(st, 1) ==>
            s.result == Failure(Wrap("failed to add appearance object: ", st.appendFates[1].value)))
      && ((!visible || AppearanceAllocates(img, st)) && "Pages" in ctx.reader.rootKeys && page.Failure? ==>
            s.result == Failure(page.error))
  {
    if visible && ctx.image.jpeg.Success? && !AppendFails(st, 0) {
      var app := CreateAppearance(ctx.image, ctx.token, st);
      assert AppendFails(app.state, 0) == AppendFails(st, 1);
    }
  }

  /** The catalog's reference is recorded for the trailer before the page is
      looked up, so also when that lookup fails; only a failed appearance
      leaves it unset. */
  lemma RootStringRecorded(ctx: Context, st: State, visible: bool, pageNumber: nat, rect: Rect)
    ensures var s := CreateVisualSignature(ctx, st, visible, pageNumber, rect);
      ((!visible || AppearanceAllocates(ctx.image, st)) ==> s.state.rootString == RefText(ctx.reader.root))
      && (visible && !AppearanceAllocates(ctx.image, st) ==>
            s.state.rootString == st.rootString && s.state.pageObjectId == st.pageObjectId)
  {
    if visible && ctx.image.jpeg.Success? && !AppendFails(st, 0) {
      var app := CreateAppearance(ctx.image, ctx.token, st);
      assert AppendFails(app.state, 0) == AppendFails(st, 1);
    }
  }

  // ----- What a reader finds in the appearance ---------------------------------------

  /** The image dictionary declares the image's size... */
  lemma ImageSizeReads(width: int, height: int, length: nat, rest: string)
    ensures var ls := SplitLines(Write(ImageDict(width, height, length)) + rest);
      Lookup(ls, "Width") == Some(FormatInt(width))
      && Lookup(ls, "Height") == Some(FormatInt(height))
  {
    var d := ImageDict(width, height, length);
    EntryThen(d, rest, Pdf.Width, 3);
    EntryThen(d, rest, Pdf.Height, 4);
  }

  /** ...and the length of its stream. */
  lemma ImageLengthReads(width: int, height: int, length: nat, rest: string)
    ensures var ls := SplitLines(Write(ImageDict(width, height, length)) + rest);
      Lookup(ls, "Length") == Some(FormatNat(length))
  {
    EntryThen(ImageDict(width, height, length), rest, Pdf.Length, 8);
  }

  /** The image XObject declares the image's size, and its /Length counts
      exactly the bytes between `stream` and `endstream`. */
  lemma ImageObjectReads(width: int, height: int, data: string)
    ensures var obj := Bytes(ImageObject(width, height, data));
      var ls := SplitLines(obj);
      Lookup(ls, "Width") == Some(FormatInt(width))
      && Lookup(ls, "Height") == Some(FormatInt(height))
      && Lookup(ls, "Length") == Some(FormatNat(|data|))
      && ParseNat(FormatNat(|data|)) == |data|
      && |data| + 18 <= |obj|
      && obj[|obj| - 18 - |data|..|obj| - 11 - |data|] == "stream\n"
      && obj[|obj| - 11 - |data|..|obj| - 11] == data
      && obj[|obj| - 11..] == "\nendstream\n"
  {
    var rest := "stream\n" + data + "\nendstream\n";
    var obj := Bytes(ImageObject(width, height, data));
    assert obj == Write(ImageDict(width, height, |data|)) + rest;
    ImageSizeReads(width, height, |data|, rest);
    ImageLengthReads(width, height, |data|, rest);
    ParseFormat(|data|);
  }

  /** The form's entries: it is a Form XObject whose box is the image's size
      and whose resources bind the image's name to the image object. */
  lemma FormEntries(width: int, height: int, token: int, imageId: nat)
    ensures var ls := SplitLines(Write(FormLines(width, height, token, imageId)));
      Lookup(ls, "Subtype") == Some("/Form")
      && Lookup(ls, "BBox") == Some("[0 0 " + FormatInt(width) + " " + FormatInt(height) + "]")
      && Lookup(ls, "Resources") == Some(FormResources(token, imageId))
  {
    var d := FormLines(width, height, token, imageId);
    Entry(d, Pdf.Subtype, 2);
    Entry(d, Pdf.BBox, 3);
    Entry(d, Pdf.Resources, 4);
  }

  lemma ResourcesValue(token: int, imageId: nat)
    ensures FormResources(token, imageId)
         == "<< /XObject << " + ("/Im" + FormatInt(token)) + " " + FormatNat(imageId) + " 0 R >> >>  /FormType 1"
  {
  }

  /** The name the form's resources bind to the image object is the name
      its content stream paints. */
  lemma ImageNameBound(width: int, height: int, token: int, imageId: nat)
    ensures var ls := SplitLines(Write(FormLines(width, height, token, imageId)));
      var name := "/Im" + FormatInt(token);
      |ls| == 11
      && Lookup(ls, "Resources") == Some("<< /XObject << " + name + " " + FormatNat(imageId) + " 0 R >> >>  /FormType 1")
      && ls[8] == name + " Do"
  {
    var ls := SplitLines(Write(FormLines(width, height, token, imageId)));
    FormEntries(width, height, token, imageId);
    ResourcesValue(token, imageId);
    FormObjectReads(width, height, token, imageId);
    assert ls[8] == ls[6..][2];
  }

  /** The form's content stream scales the unit square to the box and paints
      the image under the name its resources bind. */
  lemma FormObjectReads(width: int, height: int, token: int, imageId: nat)
    ensures var ls := SplitLines(Write(FormLines(width, height, token, imageId)));
      |ls| == 11
      && ls[6..] == ["stream", "q " + FormatInt(width) + " 0 0 " + FormatInt(height) + " 0 0 cm",
                     "/Im" + FormatInt(token) + " Do", "Q", "endstream"]
  {
    var d := FormLines(width, height, token, imageId);
    ReadBack(d, Pdf.Type);
    assert RenderLines(d)[6..] == RenderLines(FormContent(width, height, token));
    ContentRendered(width, height, token);
  }

  lemma ContentRendered(width: int, height: int, token: int)
    ensures RenderLines(FormContent(width, height, token))
         == ["stream", "q " + FormatInt(width) + " 0 0 " + FormatInt(height) + " 0 0 cm",
             "/Im" + FormatInt(token) + " Do", "Q", "endstream"]
  {
    var r := RenderLines(FormContent(width, height, token));
    assert r[2] == "/Im" + FormatInt(token) + " Do";
  }
}
