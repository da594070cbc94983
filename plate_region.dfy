/**
  Plate region selection in `process_image_file` (backend/model/LPD2.py):
  pick the best `plate` detection, clamp the inset crop window to the image,
  and normalise the text read from the crop. The detector, the OCR call and
  the border trimming are outside this model: their outputs are parameters.
 */
module PlateRegion {
  import opened Wrappers
  import opened PlateText

  /** A detector box `(x1, y1, x2, y2)` in pixel coordinates as the detector reports them. */
  datatype Box = Box(x1: real, y1: real, x2: real, y2: real)

  /** One row of the detector's output: the box, its confidence and its class name. */
  datatype Detection = Detection(box: Box, confidence: real, className: string)

  const MIN_CONFIDENCE: real := 0.8

  /** The padding added to each side of the box; it is negative, so the window shrinks. */
  const PAD: int := -10

  predicate Qualifies(d: Detection) {
    d.className == "plate" && d.confidence >= MIN_CONFIDENCE
  }

  /** Detection `k` is the one the candidate loop keeps: it qualifies, no qualifying
      detection is more confident, and every earlier qualifying one is strictly less
      confident (the strict `>` keeps the earliest of equally confident ones). */
  predicate IsBestPlate(detections: seq<Detection>, k: nat) {
    && k < |detections|
    && Qualifies(detections[k])
    && (forall j :: 0 <= j < |detections| && Qualifies(detections[j]) ==>
          detections[j].confidence <= detections[k].confidence)
    && (forall j :: 0 <= j < k && Qualifies(detections[j]) ==>
          detections[j].confidence < detections[k].confidence)
  }

  /** At most one detection is the best plate. */
  lemma BestPlateUnique(detections: seq<Detection>, k1: nat, k2: nat)
    requires IsBestPlate(detections, k1) && IsBestPlate(detections, k2)
    ensures k1 == k2
  {
  }

  /** The candidate loop of `process_image_file` (lines 88-93): returns the index
      of `best_plate`. The running best starts at confidence 0. */
  method SelectBestPlate(detections: seq<Detection>) returns (best: Option<nat>)
    ensures best.None? <==> forall k :: 0 <= k < |detections| ==> !Qualifies(detections[k])
    ensures best.Some? ==> IsBestPlate(detections, best.value)
  {
    best := None;
    var bestConf: real := 0.0;
    for i := 0 to |detections|
      invariant best.None? ==> bestConf == 0.0
      invariant best.None? ==> forall k :: 0 <= k < i ==> !Qualifies(detections[k])
      invariant best.Some? ==> best.value < i && Qualifies(detections[best.value])
      invariant best.Some? ==> bestConf == detections[best.value].confidence
      invariant best.Some? ==>
                  forall k :: 0 <= k < i && Qualifies(detections[k]) ==> detections[k].confidence <= bestConf
      invariant best.Some? ==>
                  forall k :: 0 <= k < best.value && Qualifies(detections[k]) ==> detections[k].confidence < bestConf
    {
      var d := detections[i];
      if d.className == "plate" && d.confidence > bestConf && d.confidence >= MIN_CONFIDENCE {
        best := Some(i);
        bestConf := d.confidence;
      }
    }
  }

  /** Python's `int()` on a float truncates toward zero. */
  function Truncate(x: real): (n: int)
    ensures 0.0 <= x ==> 0 <= n && n as real <= x < n as real + 1.0
    ensures x < 0.0 ==> n <= 0 && n as real - 1.0 < x <= n as real
  {
    if x >= 0.0 then x.Floor else -((-x).Floor)
  }

  function Min(a: int, b: int): int { if a <= b then a else b }

  function Max(a: int, b: int): int { if a >= b then a else b }

  /** The crop window `img[y1_p:y2_p, x1_p:x2_p]`. */
  datatype Window = Window(x1: int, y1: int, x2: int, y2: int)

  /** Lines 95-101: truncate the box, inset it by 10 pixels and clamp every
      coordinate into the image of width `w` and height `h`. */
  function ClampWindow(box: Box, w: nat, h: nat): (c: Window)
    ensures 0 <= c.x1 <= w && 0 <= c.x2 <= w
    ensures 0 <= c.y1 <= h && 0 <= c.y2 <= h
    // a coordinate already inside the image after the inset is not moved
    ensures 0 <= Truncate(box.x1) - PAD <= w ==> c.x1 == Truncate(box.x1) - PAD
    ensures 0 <= Truncate(box.y1) - PAD <= h ==> c.y1 == Truncate(box.y1) - PAD
    ensures 0 <= Truncate(box.x2) + PAD <= w ==> c.x2 == Truncate(box.x2) + PAD
    ensures 0 <= Truncate(box.y2) + PAD <= h ==> c.y2 == Truncate(box.y2) + PAD
  {
    var x1, y1, x2, y2 := Truncate(box.x1), Truncate(box.y1), Truncate(box.x2), Truncate(box.y2);
    Window(Min(Max(0, x1 - PAD), w), Min(Max(0, y1 - PAD), h),
           Max(Min(w, x2 + PAD), 0), Max(Min(h, y2 + PAD), 0))
  }

  /** The clamped window is not always well ordered: a box narrower than the
      20-pixel inset yields `x1_p > x2_p`, and the slice is then empty. */
  lemma ClampedWindowMayBeInverted()
    ensures exists box: Box :: ClampWindow(box, 100, 100).x1 > ClampWindow(box, 100, 100).x2
  {
    var box := Box(40.0, 40.0, 45.0, 45.0);
    assert Truncate(box.x1) == 40 && Truncate(box.x2) == 45;
    assert ClampWindow(box, 100, 100).x1 == 50 && ClampWindow(box, 100, 100).x2 == 35;
  }

  /** The part of `img.shape` the pipeline uses. */
  datatype ImageShape = ImageShape(height: nat, width: nat)

  /** The slice `img[y1_p:y2_p, x1_p:x2_p]` has no pixels. */
  predicate IsEmptyWindow(c: Window) {
    c.x1 >= c.x2 || c.y1 >= c.y2
  }

  /** The outcome of `process_image_file`: `None` (unreadable image or no plate
      detected), the exception OpenCV raises when the border trimmer receives an
      empty crop, or the normalised plate text. */
  datatype ProcessOutcome = NoPlate | EmptyCropError | Plate(text: string)

  /** `process_image_file`, given what it receives from outside: the image shape
      (`None` when the file cannot be read), the detector output, and the text
      the OCR reads from the trimmed crop. */
  method ProcessImageFile(image: Option<ImageShape>, detections: seq<Detection>, ocrText: string)
    returns (outcome: ProcessOutcome)
    ensures image.None? ==> outcome == NoPlate
    ensures image.Some? ==>
              (outcome == NoPlate <==> forall k :: 0 <= k < |detections| ==> !Qualifies(detections[k]))
    ensures outcome == EmptyCropError ==>
              image.Some? &&
              exists k: nat :: IsBestPlate(detections, k) &&
                IsEmptyWindow(ClampWindow(detections[k].box, image.value.width, image.value.height))
    ensures outcome.Plate? ==>
              image.Some? &&
              (exists k: nat :: IsBestPlate(detections, k) &&
                 !IsEmptyWindow(ClampWindow(detections[k].box, image.value.width, image.value.height))) &&
              outcome.text == NormalizePlate(ocrText) && IsNormalisedShape(outcome.text)
  {
    if image.None? {
      return NoPlate;
    }
    var best := SelectBestPlate(detections);
    if best.Some? {
      var window := ClampWindow(detections[best.value].box, image.value.width, image.value.height);
      if IsEmptyWindow(window) {
        // `cv2.cvtColor` in `remove_white_border` rejects the empty crop
        return EmptyCropError;
      }
      // the crop `window` goes to the border trimmer and the OCR, whose reading is `ocrText`
      var cleaned := CleanPlateString(ocrText);
      var finalText := EnforceSecondAlpha(cleaned);
      finalText := EnforcePlateLength(finalText, PLATE_LENGTH);
      outcome := Plate(finalText);
    } else {
      outcome := NoPlate;
    }
  }

  /** A qualifying box narrower than the 20-pixel inset ends in the exception, not a plate. */
  method NarrowBoxScenario(ocrText: string) returns (outcome: ProcessOutcome)
    ensures outcome == EmptyCropError
  {
    var box := Box(40.0, 40.0, 45.0, 45.0);
    var detections := [Detection(box, 0.9, "plate")];
    assert Truncate(box.x1) == 40 && Truncate(box.x2) == 45;
    assert IsEmptyWindow(ClampWindow(box, 100, 100));
    assert Qualifies(detections[0]);
    assert forall k: nat :: IsBestPlate(detections, k) ==> k == 0;
    outcome := ProcessImageFile(Some(ImageShape(100, 100)), detections, ocrText);
  }
}
