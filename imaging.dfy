/**
 * What the gallery asks of the imaging library (PIL), kept abstract: an opened
 * image is its size, how far it has been turned and what its EXIF reader does;
 * decoding and encoding are functions the caller supplies.
 */
module Imaging {
  import opened Wrappers
  import opened Forms

  /** What `img._getexif()` does on an opened image. */
  datatype Exif =
    | NoExifReader             // the image object has no `_getexif` method
    | ExifRaises               // `_getexif()` raises
    | ExifNone                 // `_getexif()` returns None
    | ExifTags(tags: map<int, int>)

  /**
   * An image: its dimensions, the quarter turns counter-clockwise applied to the
   * decoded pixels (0..3), and its EXIF reader.
   */
  datatype Img = Img(width: nat, height: nat, quarterTurns: QuarterTurns, exif: Exif)

  type QuarterTurns = q: nat | q < 4

  /** Encoder settings passed to `Image.save` and the bounding box given to `thumbnail`. */
  datatype SaveOptions = SaveOptions(format: string, quality: nat, encoderMethod: Option<nat>, boxWidth: nat, boxHeight: nat)

  /**
   * The library itself: `open` is `Image.open` on some bytes (None when it raises);
   * `encode` resizes into the box and encodes (None when it raises).
   */
  datatype Codec = Codec(open: seq<byte> -> Option<Img>, encode: (Img, SaveOptions) -> Option<seq<byte>>)

  /**
   * `img.rotate(degrees, expand=True)` for a multiple of 90: a new image object,
   * which has no EXIF reader; a quarter or three-quarter turn swaps the sides.
   */
  function Rotate(img: Img, degrees: nat): (r: Img)
    requires degrees % 90 == 0
    ensures r.exif == NoExifReader
    ensures r.quarterTurns == (img.quarterTurns + degrees / 90) % 4
    ensures (degrees / 90) % 2 == 1 ==> r.width == img.height && r.height == img.width
    ensures (degrees / 90) % 2 == 0 ==> r.width == img.width && r.height == img.height
  {
    var q := degrees / 90;
    if q % 2 == 1 then Img(img.height, img.width, (img.quarterTurns + q) % 4, NoExifReader)
    else Img(img.width, img.height, (img.quarterTurns + q) % 4, NoExifReader)
  }

  /** `img.convert('RGB')`: a new image object of the same size and turn. */
  function ToRgb(img: Img): (r: Img)
    ensures r.width == img.width && r.height == img.height && r.quarterTurns == img.quarterTurns
    ensures r.exif == NoExifReader
  {
    img.(exif := NoExifReader)
  }
}
