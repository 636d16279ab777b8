/** The PDF names and fixed texts the signature's objects are written with,
    declared once with the line type they are used at. */
module PdfNames {
  import opened Lines

  // Entry names.
  const Type: Name := "Type"
  const Subtype: Name := "Subtype"
  const Width: Name := "Width"
  const Height: Name := "Height"
  const ColorSpace: Name := "ColorSpace"
  const BitsPerComponent: Name := "BitsPerComponent"
  const Filter: Name := "Filter"
  const Length: Name := "Length"
  const BBox: Name := "BBox"
  const Resources: Name := "Resources"
  const Rect: Name := "Rect"
  const AP: Name := "AP"
  const P: Name := "P"
  const F: Name := "F"
  const FT: Name := "FT"
  const T: Name := "T"
  const V: Name := "V"

  // Entry values.
  const XObject: Inline := "/XObject"
  const Image: Inline := "/Image"
  const Form: Inline := "/Form"
  const Annot: Inline := "/Annot"
  const Widget: Inline := "/Widget"
  const DeviceRGB: Inline := "/DeviceRGB"
  const Eight: Inline := "8"
  const DCTDecode: Inline := "/DCTDecode"
  const Sig: Inline := "/Sig"
  const EmptyRect: Inline := "[0 0 0 0]"

  // Lines other than entries.
  const Open: Plain := "<<"
  const Close: Plain := ">>"
  const Stream: Plain := "stream"
  const EndStream: Plain := "endstream"
  const Restore: Plain := "Q"
}
