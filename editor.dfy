/**
 * The session state held in the fields of `ImageProcessor`: the decoded
 * image, the preview canvas (its dimensions and pixels), the snapshot
 * `originalImageData` taken after every load and resize, and the flag
 * `isBackgroundRemoved`, with the operations that update them.
 */
module Editor {
  import ChromaKey

  datatype Option<T> = None | Some(value: T)

  /** A decoded image: its natural width and height and its RGBA pixels. */
  datatype Image = Image(width: int, height: int, pixels: seq<int>)

  predicate IsDecoded(img: Image)
  {
    img.width > 0 && img.height > 0 && |img.pixels| == img.width * img.height * 4
  }

  /**
   * What is known of the browser's high-quality resampling
   * (`drawImage(image, 0, 0, w, h)` with image smoothing): it yields w×h RGBA pixels.
   */
  ghost predicate Resamples(resample: (Image, int, int) -> seq<int>)
  {
    forall img, w, h :: w > 0 && h > 0 ==> |resample(img, w, h)| == w * h * 4
  }

  /** What `downloadImage` hands to the encoder. */
  datatype Export = Export(width: int, height: int, whiteBackground: bool, pixels: seq<int>)

  /**
   * `parseInt(input) || original`: a parse that gives NaN (None) or 0 is
   * falsy and falls back to the image's natural dimension.
   */
  function DimensionOrOriginal(parsed: Option<int>, original: int): (r: int)
    ensures r == original || (parsed == Some(r) && r != 0)
    ensures parsed.Some? && parsed.value != 0 ==> r == parsed.value
    ensures original > 0 ==> (r <= 0 <==> parsed.Some? && parsed.value < 0)
  {
    match parsed
    case Some(n) => if n != 0 then n else original
    case None => original
  }

  class ImageProcessor {
    /** The browser's resampler, left uninterpreted. */
    const resample: (Image, int, int) -> seq<int>

    /** `originalImage`: the decoded image, None until the first load. */
    var originalImage: Option<Image>
    /** `previewCanvas.width`, `previewCanvas.height` and the canvas pixels. */
    var width: int
    var height: int
    var canvas: seq<int>
    /**
     * `originalImageData`: the snapshot that restore puts back, an
     * `ImageData` with its own width, height and pixels.
     */
    var originalImageData: Option<Image>
    var isBackgroundRemoved: bool

    ghost predicate Valid()
      reads this
    {
      && Resamples(resample)
      && width >= 0 && height >= 0
      && |canvas| == width * height * 4
      && (originalImage.Some? <==> originalImageData.Some?)
      && (originalImage.Some? ==> IsDecoded(originalImage.value))
      && (originalImageData.Some? ==>
            && width > 0 && height > 0
            && originalImageData.value.width == width
            && originalImageData.value.height == height
            && |originalImageData.value.pixels| == |canvas|)
    }

    /** A fresh processor: no image, no snapshot, background not removed. */
    constructor (resample: (Image, int, int) -> seq<int>)
      requires Resamples(resample)
      ensures Valid()
      ensures this.resample == resample
      ensures originalImage == None && originalImageData == None && !isBackgroundRemoved
    {
      this.resample := resample;
      originalImage := None;
      width, height, canvas := 0, 0, [];
      originalImageData := None;
      isBackgroundRemoved := false;
    }

    /**
     * `initializeCanvas`, run once the image has decoded: the canvas takes
     * the image's natural size and pixels, and the snapshot is captured from
     * the canvas. The flag is left as it was.
     */
    method InitializeCanvas(img: Image)
      requires Valid() && IsDecoded(img)
      modifies this
      ensures Valid()
      ensures originalImage == Some(img)
      ensures width == img.width && height == img.height && canvas == img.pixels
      ensures originalImageData == Some(img)
      ensures isBackgroundRemoved == old(isBackgroundRemoved)
    {
      originalImage := Some(img);
      width, height := img.width, img.height;
      canvas := img.pixels;
      originalImageData := Some(Image(width, height, canvas));
    }

    /**
     * `resizeImage`: a non-positive dimension changes nothing; so does a
     * call before any image is loaded (drawing a null image throws before
     * any field is written). Otherwise the canvas becomes the decoded image
     * resampled to width×height, and the snapshot is refreshed from it. The
     * flag is left as it was.
     */
    method ResizeImage(w: int, h: int)
      requires Valid()
      modifies this
      ensures Valid()
      ensures w <= 0 || h <= 0 || old(originalImage).None? ==> unchanged(this)
      ensures w > 0 && h > 0 && old(originalImage).Some? ==>
        && originalImage == old(originalImage)
        && width == w && height == h
        && canvas == resample(originalImage.value, w, h)
        && originalImageData == Some(Image(w, h, canvas))
        && isBackgroundRemoved == old(isBackgroundRemoved)
    {
      if w <= 0 || h <= 0 {
        return;
      }
      if originalImage.None? {
        return;
      }
      var pixels := resample(originalImage.value, w, h);
      width, height := w, h;
      canvas := pixels;
      originalImageData := Some(Image(w, h, pixels));
    }

    /**
     * `handleDimensionChange`: each parsed input falls back to the natural
     * dimension when it is NaN or 0, then `resizeImage` runs. Before any
     * load, reading the missing image's dimension or drawing it throws, and
     * nothing changes.
     */
    method HandleDimensionChange(parsedWidth: Option<int>, parsedHeight: Option<int>)
      requires Valid()
      modifies this
      ensures Valid()
      ensures old(originalImage).None? ==> unchanged(this)
      ensures old(originalImage).Some? ==>
        var w := DimensionOrOriginal(parsedWidth, old(originalImage).value.width);
        var h := DimensionOrOriginal(parsedHeight, old(originalImage).value.height);
        if w > 0 && h > 0 then
          && originalImage == old(originalImage)
          && width == w && height == h
          && canvas == resample(originalImage.value, w, h)
          && originalImageData == Some(Image(w, h, canvas))
          && isBackgroundRemoved == old(isBackgroundRemoved)
        else
          unchanged(this)
    {
      if originalImage.None? {
        return;
      }
      var w := DimensionOrOriginal(parsedWidth, originalImage.value.width);
      var h := DimensionOrOriginal(parsedHeight, originalImage.value.height);
      ResizeImage(w, h);
    }

    /**
     * `removeBackground`: without a snapshot nothing changes. Otherwise the
     * chroma-key pass runs on a copy of the CURRENT canvas pixels (not the
     * snapshot), the result is put back on the canvas, and the flag is set.
     * The snapshot and the dimensions are untouched.
     */
    method RemoveBackground(tolerance: ChromaKey.Tolerance)
      requires Valid()
      modifies this
      ensures Valid()
      ensures old(originalImageData).None? ==> unchanged(this)
      ensures old(originalImageData).Some? ==>
        && canvas == ChromaKey.RemoveBackground(old(canvas), tolerance)
        && isBackgroundRemoved
        && originalImageData == old(originalImageData)
        && originalImage == old(originalImage)
        && width == old(width) && height == old(height)
    {
      if originalImageData.None? {
        return;
      }
      var pixels := canvas;
      assert |pixels| % 4 == 0 && |pixels| > 0 by {
        PositiveArea(width, height);
      }
      var data := new int[|pixels|](i requires 0 <= i < |pixels| => pixels[i]);
      assert data[..] == pixels;
      ChromaKey.RemoveBackgroundInPlace(data, tolerance);
      canvas := data[..];
      isBackgroundRemoved := true;
    }

    /**
     * `restoreBackground`: without a snapshot nothing changes. Otherwise the
     * canvas becomes exactly the snapshot and the flag is cleared.
     */
    method RestoreBackground()
      requires Valid()
      modifies this
      ensures Valid()
      ensures old(originalImageData).None? ==> unchanged(this)
      ensures old(originalImageData).Some? ==>
        && canvas == old(originalImageData).value.pixels
        && !isBackgroundRemoved
        && originalImageData == old(originalImageData)
        && originalImage == old(originalImage)
        && width == old(width) && height == old(height)
    {
      if originalImageData.None? {
        return;
      }
      canvas := originalImageData.value.pixels;
      isBackgroundRemoved := false;
    }

    /**
     * `downloadImage`: the exported picture has the canvas's size and
     * pixels, and is drawn over a white fill exactly when the background
     * has been removed.
     */
    method DownloadImage() returns (out: Export)
      requires Valid()
      ensures out.whiteBackground <==> isBackgroundRemoved
      ensures out.width == width && out.height == height && out.pixels == canvas
    {
      out := Export(width, height, isBackgroundRemoved, canvas);
    }
  }

  /** A canvas of positive size holds a positive whole number of pixels. */
  lemma PositiveArea(w: int, h: int)
    requires w > 0 && h > 0
    ensures w * h * 4 > 0 && (w * h * 4) % 4 == 0
  {
    assert w * h >= 1 by {
      assert w * h >= w * 1;
    }
  }

  // ---------------------------------------------------------------------
  // Sequences of operations
  // ---------------------------------------------------------------------

  /**
   * After a load, removing the background and restoring it gives back the
   * loaded pixels with the flag cleared, and the export is not flattened.
   */
  method LoadRemoveRestore(p: ImageProcessor, img: Image, tolerance: ChromaKey.Tolerance)
      returns (out: Export)
    requires p.Valid() && IsDecoded(img)
    modifies p
    ensures p.Valid()
    ensures p.originalImage == Some(img) && p.originalImageData == Some(img)
    ensures p.width == img.width && p.height == img.height
    ensures p.canvas == img.pixels && !p.isBackgroundRemoved
    ensures out == Export(img.width, img.height, false, img.pixels)
  {
    p.InitializeCanvas(img);
    p.RemoveBackground(tolerance);
    p.RestoreBackground();
    out := p.DownloadImage();
  }

  /**
   * Removing the background twice with the same tolerance leaves the same
   * canvas as removing it once, and the export is flattened onto white.
   */
  method RemoveTwice(p: ImageProcessor, tolerance: ChromaKey.Tolerance) returns (out: Export)
    requires p.Valid() && p.originalImageData.Some?
    modifies p
    ensures p.Valid()
    ensures p.canvas == ChromaKey.RemoveBackground(old(p.canvas), tolerance)
    ensures p.isBackgroundRemoved
    ensures p.originalImageData == old(p.originalImageData)
    ensures p.originalImage == old(p.originalImage)
    ensures p.width == old(p.width) && p.height == old(p.height)
    ensures out == Export(p.width, p.height, true, p.canvas)
  {
    ghost var start := p.canvas;
    p.RemoveBackground(tolerance);
    p.RemoveBackground(tolerance);
    ChromaKey.RemoveBackgroundIdempotent(start, tolerance);
    out := p.DownloadImage();
  }

  /**
   * Resizing after a removal discards the transparency (the canvas is the
   * resampled decoded image again) but leaves the flag set, so the export
   * is still flattened onto white.
   */
  method RemoveThenResize(p: ImageProcessor, tolerance: ChromaKey.Tolerance, w: int, h: int)
      returns (out: Export)
    requires p.Valid() && p.originalImageData.Some? && w > 0 && h > 0
    modifies p
    ensures p.Valid()
    ensures p.originalImage == old(p.originalImage) && p.originalImage.Some?
    ensures p.width == w && p.height == h
    ensures p.canvas == p.resample(p.originalImage.value, w, h)
    ensures p.originalImageData == Some(Image(w, h, p.canvas))
    ensures p.isBackgroundRemoved
    ensures out == Export(w, h, true, p.canvas)
  {
    p.RemoveBackground(tolerance);
    p.ResizeImage(w, h);
    out := p.DownloadImage();
  }
}
