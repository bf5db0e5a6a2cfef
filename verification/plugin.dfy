/** The entry point of the filter: look the kernel pair up by name, run the pixel loops over
    the whole image, and report progress. The host's region handling, progress bar, preview
    and display updates are not modelled; the host supplies a well-formed buffer. */
module Plugin {

  import opened Color
  import opened Kernels
  import opened Raster
  import opened Engine
  import opened Progress
  import opened Loops

  /** The exceptions `convolute` can raise: a name missing from the kernel tables, and an
      out-of-range channel read when a non-empty image has fewer than three channels. */
  datatype Error = KeyError(name: string) | IndexError

  datatype Outcome = Done(pixels: seq<int>, progress: seq<Fraction>) | Failed(error: Error)

  /** `convolute(kernel_name, color_mode, ...)` on a whole-image buffer. */
  function Convolute(name: string, mode: int, img: Image): (r: Outcome)
    requires WellFormed(img)
    ensures r == Failed(KeyError(name)) <==> name !in PresetNames
    ensures r == Failed(IndexError) <==> name in PresetNames && img.bpp < 3 && 0 < img.width * img.height
    ensures r.Done? <==> name in PresetNames && (3 <= img.bpp || img.width * img.height == 0)
    ensures r.Failed? ==> r.error == KeyError(name) || r.error == IndexError
    ensures r.Done? ==> |r.pixels| == |img.data| && r.progress == Reports(img.height)
    ensures r.Done? ==> forall i :: 0 <= i < |r.pixels| ==> IsByte(r.pixels[i])
    ensures r.Done? ==> forall i :: 0 <= i < |r.pixels| && 3 <= ChannelOf(img, i) ==> r.pixels[i] == img.data[i]
    ensures r.Done? && 3 <= img.bpp ==> r.pixels == Convolve(img, LookupKernels(name).pair, mode)
  {
    match LookupKernels(name)
    case NotFound(n) => Failed(KeyError(n))
    case Found(kp) =>
      if img.width * img.height == 0 then
        assert |img.data| == 0;
        Done(img.data, Reports(img.height))
      else if img.bpp < 3 then Failed(IndexError)
      else
        ConvolveBytes(img, kp, mode);
        ConvolveKeepsExtraChannels(img, kp, mode);
        Done(Convolve(img, kp, mode), Reports(img.height))
  }

  /** The pixel loops of `convolute` (see `Loops.ConvoluteLoops`) over an image without
      pixels: the column loop never runs, so nothing is read or written and the channel
      count does not matter, but a report still follows every row. */
  method EmptyLoops(img: Image, dst0: seq<int>) returns (dst: seq<int>, reports: seq<Fraction>)
    requires WellFormed(img) && img.width * img.height == 0 && |dst0| == |img.data|
    ensures dst == img.data
    ensures reports == Reports(img.height)
  {
    dst := dst0;
    reports := [Fraction(0, 1)];
    var posY := 0;
    while posY < img.height
      invariant 0 <= posY <= img.height
      invariant reports == Progressed(posY, img.height)
    {
      reports := reports + [RowDone(posY, img.height)];
      posY := posY + 1;
    }
    ProgressedComplete(img.height);
    reports := reports + [Fraction(1, 1)];
  }

  /** The same entry point run by the loops: it raises exactly when `Convolute` fails and
      otherwise produces the same buffer and the same progress reports, whatever the
      destination region held beforehand. */
  method RunConvolute(name: string, mode: int, img: Image, dst0: seq<int>) returns (r: Outcome)
    requires WellFormed(img) && |dst0| == |img.data|
    ensures r == Convolute(name, mode, img)
  {
    var found := LookupKernels(name);
    if found.NotFound? {
      return Failed(KeyError(name));
    }
    if img.width * img.height == 0 {
      var pixels, reports := EmptyLoops(img, dst0);
      return Done(pixels, reports);
    }
    if img.bpp < 3 {
      return Failed(IndexError);
    }
    var pixels, reports := ConvoluteLoops(img, found.pair, mode, dst0);
    return Done(pixels, reports);
  }
}
