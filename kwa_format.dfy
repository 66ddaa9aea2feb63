/**
 * The binary frame record of a KW archive, as `write_frame_data` lays it
 * out on a `vsl_b_ostream`. Every `vsl_b_write` call is one `Token`; the
 * byte encodings that `vsl` gives integers, doubles, matrices and image
 * views are not modelled. Beside the encoder stands a decoder, the
 * reference against which the layout is proved to be readable.
 */
module KwaFormat {
  import opened Opt

  // ---------------------------------------------------------------------
  // Inputs of one step

  newtype byte = x: int | 0 <= x < 256

  /** An IEEE-754 double kept as its bit pattern: the writer only copies doubles. */
  datatype Double = Double(bits: bv64)

  /** A 3x3 matrix given by rows, as `matrix(x, y)` indexes it. */
  type Matrix3x3 = m: seq<seq<Double>> | |m| == 3 && forall r | 0 <= r < 3 :: |m[r]| == 3
    witness [[Double(0), Double(0), Double(0)],
             [Double(0), Double(0), Double(0)],
             [Double(0), Double(0), Double(0)]]

  /** The pixel representations of `image_pixel_traits`. */
  datatype PixelKind = Unknown | Unsigned | Signed | Float | Bool

  datatype PixelTraits = PixelTraits(kind: PixelKind, numBytes: nat)

  /**
   * A borrowed raster: the address of its first pixel, its extent (`size_t`
   * in the source), its steps and its pixel traits. The pixels themselves
   * live in memory the writer does not own and are not modelled.
   */
  datatype Image = Image(firstPixel: nat, width: nat, height: nat, depth: nat,
                         wStep: int, hStep: int, dStep: int, traits: PixelTraits)

  /** A `vil_image_view<vxl_byte>` laid over an `Image` without copying it. */
  datatype ImageView = ImageView(topLeft: nat, ni: nat, nj: nat, nPlanes: nat,
                                 iStep: int, jStep: int, planeStep: int)

  datatype Timestamp = Timestamp(usec: int, frame: int)

  datatype GeoPoint = GeoPoint(longitude: Double, latitude: Double)

  /** The corners p1..p4: upper left, upper right, lower right, lower left. */
  datatype CornerPoints = CornerPoints(p1: GeoPoint, p2: GeoPoint, p3: GeoPoint, p4: GeoPoint)

  /** A frame-to-frame homography: the matrix and the id of the frame it maps to. */
  datatype Homography = Homography(matrix: Matrix3x3, toId: int)

  /** Everything `_step` takes from its input ports for one frame. */
  datatype Frame = Frame(time: Timestamp, image: Image, homography: Homography,
                         corners: CornerPoints, gsd: Double)

  /** The image compressor (`vil_jpeg_file_format` writing to memory), left opaque. */
  type Codec = ImageView -> seq<byte>

  /** The pixel check of `write_frame_data`: unsigned, one byte per channel. */
  predicate IsByteImage(traits: PixelTraits)
  {
    traits.kind == Unsigned && traits.numBytes == 1
  }

  /** `vil_image_view` takes its extents as `unsigned`: a `size_t` extent is cut to 32 bits. */
  const UnsignedModulus := 0x1_0000_0000

  /**
   * The view `write_frame_data` lays over a frame's raster: the same first
   * pixel and steps, and each extent cut to its low 32 bits, so that an
   * extent that fits is kept as it is.
   */
  function ViewOf(img: Image): (v: ImageView)
    ensures v.topLeft == img.firstPixel
    ensures v.iStep == img.wStep && v.jStep == img.hStep && v.planeStep == img.dStep
    ensures v.ni < UnsignedModulus && v.nj < UnsignedModulus && v.nPlanes < UnsignedModulus
    ensures img.width < UnsignedModulus ==> v.ni == img.width
    ensures img.height < UnsignedModulus ==> v.nj == img.height
    ensures img.depth < UnsignedModulus ==> v.nPlanes == img.depth
  {
    ImageView(img.firstPixel, img.width % UnsignedModulus, img.height % UnsignedModulus,
              img.depth % UnsignedModulus, img.wStep, img.hStep, img.dStep)
  }

  // ---------------------------------------------------------------------
  // Tokens and records

  datatype Vec2 = Vec2(x: Double, y: Double)

  /** One `vsl_b_write` call. */
  datatype Token =
    | Int32(i: int)                 // an `int`: the stream version
    | Int64(l: int)                 // a `vxl_int_64`
    | Char(c: char)                 // the image codec marker
    | ByteVector(bytes: seq<byte>)  // a length-prefixed `std::vector<char>`
    | RawImage(view: ImageView)     // a `vil_image_view<vxl_byte>`
    | Matrix(entries: seq<Double>)  // a `vnl_matrix_fixed<double,3,3>`, row by row
    | Vec2List(points: seq<Vec2>)   // a `std::vector<vnl_vector_fixed<double,2>>`
    | Real(d: Double)               // a `double`

  /** The codec marker of a compressed image: J for JPEG. */
  const JpegMarker := 'J'

  datatype ImageBlock = NoImage | Jpeg(bytes: seq<byte>) | Raw(view: ImageView)

  /** The fields of one frame record, in the order they are written. */
  datatype Record = Record(usec: int, image: ImageBlock, transform: seq<Double>,
                           corners: seq<Vec2>, gsd: Double, frame: int, refFrame: int,
                           ni: int, nj: int)

  /** The transform's nine entries, row by row. */
  function RowMajor(m: Matrix3x3): seq<Double>
  {
    m[0] + m[1] + m[2]
  }

  /** The corners as (longitude, latitude) pairs, in p1, p2, p3, p4 order. */
  function CornerList(c: CornerPoints): (l: seq<Vec2>)
    ensures |l| == 4
  {
    [Vec2(c.p1.longitude, c.p1.latitude), Vec2(c.p2.longitude, c.p2.latitude),
     Vec2(c.p3.longitude, c.p3.latitude), Vec2(c.p4.longitude, c.p4.latitude)]
  }

  /** Reads four (longitude, latitude) pairs back as the corners p1..p4. */
  function CornersFromList(l: seq<Vec2>): Option<CornerPoints>
  {
    if |l| != 4 then None
    else Some(CornerPoints(GeoPoint(l[0].x, l[0].y), GeoPoint(l[1].x, l[1].y),
                           GeoPoint(l[2].x, l[2].y), GeoPoint(l[3].x, l[3].y)))
  }

  /** The corner list keeps every corner, in its place, with x the longitude and y the latitude. */
  lemma CornerListReadsBack(c: CornerPoints)
    ensures CornersFromList(CornerList(c)) == Some(c)
    ensures forall i :: 0 <= i < 4 ==> CornerList(c)[i].x == [c.p1, c.p2, c.p3, c.p4][i].longitude
    ensures forall i :: 0 <= i < 4 ==> CornerList(c)[i].y == [c.p1, c.p2, c.p3, c.p4][i].latitude
  {
  }

  /**
   * The image block chosen by the stream version: none when the image is
   * not wanted, a JPEG for version 3, the raw view for version 2 and
   * nothing at all for any other version.
   */
  function ImageBlockFor(version: int, writeImage: bool, view: ImageView, codec: Codec): ImageBlock
  {
    if !writeImage then NoImage
    else if version == 3 then Jpeg(codec(view))
    else if version == 2 then Raw(view)
    else NoImage
  }

  /** The record `write_frame_data` writes for a frame whose pixels passed the check. */
  function RecordOf(version: int, writeImage: bool, f: Frame, codec: Codec): Record
  {
    var view := ViewOf(f.image);
    Record(f.time.usec, ImageBlockFor(version, writeImage, view, codec),
           RowMajor(f.homography.matrix), CornerList(f.corners), f.gsd,
           f.time.frame, f.homography.toId, view.ni, view.nj)
  }

  function BlockTokens(b: ImageBlock): seq<Token>
  {
    match b
    case NoImage => []
    case Jpeg(bytes) => [Char(JpegMarker), ByteVector(bytes)]
    case Raw(view) => [RawImage(view)]
  }

  /** The token layout of a record. */
  function Encode(r: Record): seq<Token>
  {
    [Int64(r.usec)] + BlockTokens(r.image) + Trailer(r)
  }

  // ---------------------------------------------------------------------
  // Reading records back

  /** Whether an image block is the one a stream of this version and kind carries. */
  predicate Fits(b: ImageBlock, version: int, withImage: bool)
  {
    match b
    case NoImage => !withImage || (version != 2 && version != 3)
    case Jpeg(_) => withImage && version == 3
    case Raw(_) => withImage && version == 2
  }

  function DecodeBlock(s: seq<Token>, version: int, withImage: bool): (r: Option<(ImageBlock, nat)>)
    ensures r.Some? ==> r.value.1 <= |s| && r.value.1 == |BlockTokens(r.value.0)|
    ensures r.Some? ==> Fits(r.value.0, version, withImage)
  {
    if !withImage || (version != 2 && version != 3) then Some((NoImage, 0))
    else if version == 3 then
      if |s| >= 2 && s[0] == Char(JpegMarker) && s[1].ByteVector? then Some((Jpeg(s[1].bytes), 2))
      else None
    else
      if |s| >= 1 && s[0].RawImage? then Some((Raw(s[0].view), 1)) else None
  }

  /**
   * Reads one record from the front of `s`: the record and the number of
   * tokens it took. Only an exact encoding is accepted.
   */
  function DecodeRecord(s: seq<Token>, version: int, withImage: bool): (r: Option<(Record, nat)>)
    ensures r.Some? ==> 8 <= r.value.1 <= |s| && r.value.1 == |Encode(r.value.0)|
    ensures r.Some? ==> Fits(r.value.0.image, version, withImage)
  {
    if |s| == 0 || !s[0].Int64? then None
    else
      match DecodeBlock(s[1..], version, withImage)
      case None => None
      case Some((block, n)) =>
        var t := s[1 + n..];
        if |t| >= 7 && t[0].Matrix? && t[1].Vec2List? && t[2].Real? && t[3].Int64?
           && t[4].Int64? && t[5].Int64? && t[6].Int64?
        then
          var rec := Record(s[0].l, block, t[0].entries, t[1].points, t[2].d,
                            t[3].l, t[4].l, t[5].l, t[6].l);
          Some((rec, 1 + n + 7))
        else None
  }

  /** The fields after the image block, one write each. */
  function Trailer(r: Record): seq<Token>
  {
    [Matrix(r.transform), Vec2List(r.corners), Real(r.gsd),
     Int64(r.frame), Int64(r.refFrame), Int64(r.ni), Int64(r.nj)]
  }

  /** An image block that fits the stream reads back whole, whatever follows it. */
  lemma DecodeBlockTokens(b: ImageBlock, version: int, withImage: bool, rest: seq<Token>)
    requires Fits(b, version, withImage)
    ensures DecodeBlock(BlockTokens(b) + rest, version, withImage) == Some((b, |BlockTokens(b)|))
  {
    match b
    case NoImage =>
    case Jpeg(bytes) =>
      assert (BlockTokens(b) + rest)[1] == ByteVector(bytes);
    case Raw(view) =>
      assert (BlockTokens(b) + rest)[0] == RawImage(view);
  }

  /** A block is read only from the exact tokens that write it. */
  lemma DecodeBlockIsExact(s: seq<Token>, version: int, withImage: bool)
    ensures var r := DecodeBlock(s, version, withImage);
            r.Some? ==> s[..r.value.1] == BlockTokens(r.value.0)
  {
  }

  /** A record is read only from the exact tokens that write it: the reader accepts nothing else. */
  lemma DecodeRecordIsExact(s: seq<Token>, version: int, withImage: bool)
    ensures var r := DecodeRecord(s, version, withImage);
            r.Some? ==> s[..r.value.1] == Encode(r.value.0)
  {
    var r := DecodeRecord(s, version, withImage);
    if r.Some? {
      var d := DecodeBlock(s[1..], version, withImage);
      DecodeBlockIsExact(s[1..], version, withImage);
      var (block, n) := d.value;
      var t := s[1 + n..];
      assert s[..1 + n + 7] == [s[0]] + s[1..][..n] + t[..7];
    }
  }

  /** A reader that finds a record's timestamp, its image block and its trailer in turn returns that record. */
  lemma DecodeFromParts(s: seq<Token>, r: Record, n: nat, version: int, withImage: bool)
    requires |s| >= 1 + n && s[0] == Int64(r.usec)
    requires DecodeBlock(s[1..], version, withImage) == Some((r.image, n))
    requires |s[1 + n..]| >= 7 && s[1 + n..][..7] == Trailer(r)
    ensures DecodeRecord(s, version, withImage) == Some((r, 1 + n + 7))
  {
    var t := s[1 + n..];
    assert t[0] == Matrix(r.transform) && t[1] == Vec2List(r.corners) && t[2] == Real(r.gsd);
    assert t[3] == Int64(r.frame) && t[4] == Int64(r.refFrame) && t[5] == Int64(r.ni) && t[6] == Int64(r.nj);
  }

  /** Decoding the encoding of a record gives back the record, whatever follows it. */
  lemma DecodeEncode(r: Record, version: int, withImage: bool, rest: seq<Token>)
    requires Fits(r.image, version, withImage)
    ensures DecodeRecord(Encode(r) + rest, version, withImage) == Some((r, |Encode(r)|))
  {
    var b := BlockTokens(r.image);
    var t := Trailer(r);
    var s := Encode(r) + rest;
    assert s == [Int64(r.usec)] + (b + (t + rest));
    assert s[1..] == b + (t + rest);
    DecodeBlockTokens(r.image, version, withImage, t + rest);
    assert s[1 + |b|..] == t + rest;
    assert (t + rest)[..7] == t;
    DecodeFromParts(s, r, |b|, version, withImage);
  }

  /** A record written with its pixels checked fits the stream it was written for. */
  lemma RecordOfFits(version: int, writeImage: bool, f: Frame, codec: Codec)
    ensures Fits(RecordOf(version, writeImage, f, codec).image, version, writeImage)
  {
  }

  /**
   * The record written without the image is the record written with it, the
   * image block removed; the tokens differ only by that block after the
   * timestamp.
   */
  lemma MetaRecordDropsOnlyImage(version: int, f: Frame, codec: Codec)
    ensures RecordOf(version, false, f, codec)
         == RecordOf(version, true, f, codec).(image := NoImage)
    ensures (var meta := Encode(RecordOf(version, false, f, codec));
             Encode(RecordOf(version, true, f, codec))
             == meta[..1] + BlockTokens(ImageBlockFor(version, true, ViewOf(f.image), codec)) + meta[1..])
  {
  }
}
