/** The detection-and-recognition pipeline of TryOCR, from the bounding
    boxes of the image's contours to the reported text.

    Image processing (grey conversion, erosion, thresholding, contour
    finding), encoding a window as an image file, text recognition and
    entity tagging are outside this model: the contour boxes come in as a
    sequence, `ocr` stands for encoding a window and recognising its text
    (None when encoding fails), and `classify` for the tagger. */
module Pipeline {
  import opened Wrappers
  import opened Geometry
  import opened Bounds
  import opened SizeFilter
  import opened RowMerge
  import opened BlockGroup
  import opened Crop
  import opened Address
  import opened Report

  /** Size filter, row merge, block grouping and window choice. */
  function DetectWindows(contours: seq<Rect>, imageWidth: nat, imageHeight: nat, hExpand: nat): (ws: seq<Rect>)
    ensures forall w :: w in ws ==> WithinImage(w, imageWidth, imageHeight)
  {
    var kept := FilterRects(contours, imageWidth, imageHeight);
    var merged := MergeRects(kept, imageWidth, imageHeight, hExpand);
    var groups := GroupRects(merged, imageWidth, imageHeight);
    Windows(groups, imageWidth, imageHeight)
  }

  /** TryOCR without its drawing: the detected windows and the report. */
  method TryOcr(contours: seq<Rect>, imageWidth: nat, imageHeight: nat, hExpand: nat,
                ocr: Rect -> Option<string>, classify: string -> seq<string>) returns (ws: seq<Rect>, text: string)
    ensures ws == DetectWindows(contours, imageWidth, imageHeight, hExpand)
    ensures text == Report.Report(Accepted(ws, ocr, classify))
    ensures forall w :: w in ws ==> WithinImage(w, imageWidth, imageHeight)
    ensures |SplitLines(text)| == 3 * |Accepted(ws, ocr, classify)|
    ensures |Accepted(ws, ocr, classify)| <= |ws|
  {
    ws := DetectWindows(contours, imageWidth, imageHeight, hExpand);
    text := ReportText(Outcomes(ws, ocr, classify));
    AcceptedAreThreeLines(ws, ocr, classify);
    ReportLines(Accepted(ws, ocr, classify));
  }
}
