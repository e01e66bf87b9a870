/**
 * GrayscaleAlphaImageSource.cs and TruecolorImageSource.cs: image sources
 * that only carry the bit depth and bytes they were built from; none of
 * their conversions is implemented. TruecolorAlphaImageSource, which the
 * indexed source builds, is not part of the files shown: it is taken to
 * carry its two arguments the same way.
 */
module ImageSources {
  import opened Base

  /** The `ImageFormat` names the image sources use. */
  datatype ImageFormat = Indexed | GrayscaleAlpha | Rgb

  /** The five conversions of `IImageSource`. */
  datatype Conversion =
    | ToIndexed
    | ToGrayscale
    | ToGrayscaleAlpha
    | ToTruecolor
    | ToTruecolorAlpha

  /** The get-only `BitDepth` and `RawData` are fixed by the constructor. */
  datatype ImageSource =
    | GrayscaleAlphaImageSource(BitDepth: int32, RawData: seq<byte>)
    | TruecolorImageSource(BitDepth: int32, RawData: seq<byte>)
    | TruecolorAlphaImageSource(BitDepth: int32, RawData: seq<byte>)
  {
    /** `Format`: a constant per class, never Indexed. */
    function Format(): (f: ImageFormat)
      requires !TruecolorAlphaImageSource?
      ensures f != Indexed
      ensures f == GrayscaleAlpha <==> GrayscaleAlphaImageSource?
      ensures f == Rgb <==> TruecolorImageSource?
    {
      if GrayscaleAlphaImageSource? then GrayscaleAlpha else Rgb
    }

    /** `ConvertTo…ImageSource(bitDepth)` on a grayscale-alpha or truecolor source: always NotImplementedException. */
    function Convert(c: Conversion, bitDepth: int32): (r: Result<ImageSource>)
      requires !TruecolorAlphaImageSource?
      ensures r.Err? && r.error == NotImplemented
    {
      Err(NotImplemented)
    }
  }
}
